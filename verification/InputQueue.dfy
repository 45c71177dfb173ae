/**
  The pushed-back input ring (input.c) and the stream behind it.
 */
module InputQueue {

  import opened Common
  import opened Keymaps

  /** ibuffer has 512 slots, one of which is always free. */
  const CAPACITY := 511

  /** What can still be read: first the ring, then the terminal. */
  datatype Input = Input(ring: seq<Key>, tty: seq<Key>) {
    function Unread(): seq<Key> { ring + tty }
  }

  predicate Fits(i: Input) { |i.ring| <= CAPACITY }

  function ReadOne(i: Input): (r: (Key, Input))
    requires i.Unread() != []
    ensures [r.0] + r.1.Unread() == i.Unread()
    ensures Fits(i) ==> Fits(r.1)
  {
    if i.ring != [] then
      assert i.Unread() == [i.ring[0]] + (i.ring[1..] + i.tty);
      (i.ring[0], i.(ring := i.ring[1..]))
    else
      (i.tty[0], i.(tty := i.tty[1..]))
  }

  /** _rl_unget_char ignores its failure: with the ring full the key is lost. */
  function Unget(i: Input, k: Key): (r: Input)
    ensures Fits(i) ==> Fits(r)
  {
    if |i.ring| < CAPACITY then i.(ring := [k] + i.ring) else i
  }

  /** `i` once `n` keys have been read. */
  function Skip(i: Input, n: nat): (r: Input)
    requires n <= |i.Unread()|
    ensures r.Unread() == i.Unread()[n..]
    ensures Fits(i) ==> Fits(r)
    decreases n
  {
    if n == 0 then i else
      var (k, i') := ReadOne(i);
      assert i'.Unread() == i.Unread()[1..];
      Skip(i', n - 1)
  }

  /** `i` once the keys have been pushed back, last one first. */
  function UngetAll(i: Input, keys: seq<Key>): (r: Input)
    ensures Fits(i) ==> Fits(r)
  {
    if keys == [] then i else Unget(UngetAll(i, keys[1..]), keys[0])
  }

  lemma {:induction false} UngetAllRing(i: Input, keys: seq<Key>)
    requires Fits(i)
    ensures UngetAll(i, keys).tty == i.tty
    ensures var room := CAPACITY - |i.ring|;
            UngetAll(i, keys).ring == (if |keys| <= room then keys else keys[|keys| - room..]) + i.ring
  {
    if keys != [] {
      UngetAllRing(i, keys[1..]);
      var room := CAPACITY - |i.ring|;
      if |keys| <= room {
        assert [keys[0]] + keys[1..] == keys;
        assert [keys[0]] + (keys[1..] + i.ring) == keys + i.ring;
      } else {
        assert |keys[1..]| <= room ==> keys[1..] == keys[|keys| - room..];
        assert |keys[1..]| > room ==> keys[1..][|keys[1..]| - room..] == keys[|keys| - room..];
      }
    }
  }

  lemma {:induction false} SkipRing(i: Input, n: nat)
    requires n <= |i.Unread()|
    ensures Skip(i, n).ring == if n <= |i.ring| then i.ring[n..] else []
    decreases n
  {
    if n != 0 {
      SkipRing(ReadOne(i).1, n - 1);
    }
  }

  /**
    Pushing back keys just read restores them at the front, in order, except
    that no more than 511 can be restored: the earlier ones are lost.
   */
  lemma PushBack(i: Input, n: nat, keys: seq<Key>)
    requires Fits(i) && n <= |i.Unread()| && |keys| <= n
    requires keys == i.Unread()[n - |keys|..n]
    ensures var lost := if |keys| <= CAPACITY then 0 else |keys| - CAPACITY;
            UngetAll(Skip(i, n), keys).Unread() == i.Unread()[n - |keys| + lost..]
  {
    var s, u := Skip(i, n), i.Unread();
    var from := n - |keys| + if |keys| <= CAPACITY then 0 else |keys| - CAPACITY;
    PushBackRing(i, n, keys);
    SliceJoin(u, from, n);
    calc {
      UngetAll(s, keys).Unread();
      keys[from - (n - |keys|)..] + s.ring + s.tty;
      { SliceAssoc(keys[from - (n - |keys|)..], s.ring, s.tty); }
      keys[from - (n - |keys|)..] + s.Unread();
      { SliceOfSlice(u, n - |keys|, n, from); }
      u[from..n] + u[n..];
      u[from..];
    }
  }

  lemma PushBackRing(i: Input, n: nat, keys: seq<Key>)
    requires Fits(i) && n <= |i.Unread()| && |keys| <= n
    ensures var lost := if |keys| <= CAPACITY then 0 else |keys| - CAPACITY;
            UngetAll(Skip(i, n), keys) == Input(keys[lost..] + Skip(i, n).ring, Skip(i, n).tty)
  {
    SkipRing(i, n);
    UngetAllRing(Skip(i, n), keys);
    assert keys[0..] == keys;
  }

  /** Any keys pushed back after reading are at the front of the input, in order, if no more than 511. */
  lemma PushBackAny(i: Input, n: nat, keys: seq<Key>)
    requires Fits(i) && n <= |i.Unread()| && |keys| <= n
    ensures UngetAll(Skip(i, n), keys).Unread() == keys + i.Unread()[n..] <==> |keys| <= CAPACITY
  {
    PushBackRing(i, n, keys);
    var lost := if |keys| <= CAPACITY then 0 else |keys| - CAPACITY;
    SliceAssoc(keys[lost..], Skip(i, n).ring, Skip(i, n).tty);
    assert keys[0..] == keys;
  }

  lemma SliceJoin(u: seq<Key>, from: nat, n: nat)
    requires from <= n <= |u|
    ensures u[from..n] + u[n..] == u[from..]
  {
  }

  lemma SliceAssoc(a: seq<Key>, b: seq<Key>, c: seq<Key>)
    ensures a + b + c == a + (b + c)
  {
  }

  lemma SliceOfSlice(u: seq<Key>, lo: nat, hi: nat, from: nat)
    requires lo <= from <= hi <= |u|
    ensures u[lo..hi][from - lo..] == u[from..hi]
  {
  }

  /** The keys between the two indices of a ring buffer. */
  function Ring(b: seq<Key>, pop: nat, push: nat): (r: seq<Key>)
    requires pop < |b| && push < |b|
    ensures |r| == if pop <= push then push - pop else |b| - pop + push
  {
    if pop <= push then b[pop..push] else b[pop..] + b[..push]
  }

  lemma RingUnget(b: seq<Key>, pop: nat, push: nat, k: Key)
    requires pop < |b| && push < |b| && |Ring(b, pop, push)| < |b| - 1
    ensures var p := if pop == 0 then |b| - 1 else pop - 1;
            Ring(b[p := k], p, push) == [k] + Ring(b, pop, push)
  {
    var p := if pop == 0 then |b| - 1 else pop - 1;
    if pop == 0 {
      assert Ring(b[p := k], p, push) == [k] + b[..push];
    } else if pop <= push {
      assert b[p := k][p..push] == [k] + b[pop..push];
    } else {
      assert b[p := k][p..] == [k] + b[pop..];
      assert b[p := k][..push] == b[..push];
      assert [k] + b[pop..] + b[..push] == [k] + (b[pop..] + b[..push]);
    }
  }

  lemma RingStuff(b: seq<Key>, pop: nat, push: nat, k: Key)
    requires pop < |b| && push < |b| && |Ring(b, pop, push)| < |b| - 1
    ensures var q := if push == |b| - 1 then 0 else push + 1;
            Ring(b[push := k], pop, q) == Ring(b, pop, push) + [k]
  {
    var c := b[push := k];
    if pop <= push {
      assert c[pop..push + 1] == b[pop..push] + [k];
    } else {
      assert c[pop..] == b[pop..];
      assert c[..push + 1] == b[..push] + [k];
      assert b[pop..] + (b[..push] + [k]) == b[pop..] + b[..push] + [k];
    }
  }

  const EOF := -1
  const NEWLINE: Key := 10

  class Queue {
    const ibuffer: array<Key>
    var pop: int
    var push: int
    var tty: seq<Key>
    var pendingEof: bool

    constructor (keys: seq<Key>)
      ensures Valid() && fresh(ibuffer) && View() == Input([], keys)
    {
      ibuffer := new Key[CAPACITY + 1](i => 0);
      pop, push, tty, pendingEof := 0, 0, keys, false;
    }

    ghost predicate Valid()
      reads this
    {
      ibuffer.Length == CAPACITY + 1 && 0 <= pop <= CAPACITY && 0 <= push <= CAPACITY
    }

    ghost function Contents(): seq<Key>
      requires Valid()
      reads this, ibuffer
    {
      Ring(ibuffer[..], pop, push)
    }

    ghost function View(): (i: Input)
      requires Valid()
      reads this, ibuffer
      ensures Fits(i)
    {
      Input(Contents(), tty)
    }

    /** ibuffer_space: what is in the ring and what still fits make 511. */
    method Space() returns (n: int)
      requires Valid()
      ensures n + |Contents()| == CAPACITY
    {
      if pop > push {
        n := pop - push - 1;
      } else {
        n := CAPACITY - (push - pop);
      }
    }

    /** rl_get_char */
    method GetChar() returns (r: Option<Key>)
      requires Valid()
      modifies `pop
      ensures Valid()
      ensures if old(Contents()) == [] then r == None && Contents() == []
              else r == Some(old(Contents())[0]) && Contents() == old(Contents())[1..]
    {
      if push == pop {
        return None;
      }
      r := Some(ibuffer[pop]);
      pop := pop + 1;
      if pop > CAPACITY {
        pop := 0;
      }
    }

    /** _rl_unget_char */
    method UngetChar(key: Key) returns (ok: bool)
      requires Valid()
      modifies `pop, ibuffer
      ensures Valid()
      ensures ok == (|old(Contents())| < CAPACITY)
      ensures View() == Unget(old(View()), key)
    {
      var space := Space();
      if space == 0 {
        return false;
      }
      RingUnget(ibuffer[..], pop, push, key);
      pop := pop - 1;
      if pop < 0 {
        pop := CAPACITY;
      }
      ibuffer[pop] := key;
      assert ibuffer[..] == old(ibuffer[..])[pop := key];
      return true;
    }

    /** rl_stuff_char: an end of file is stuffed as a newline and noted. */
    method StuffChar(key: int) returns (ok: bool)
      requires Valid() && -1 <= key < 256
      modifies `push, `pendingEof, ibuffer
      ensures Valid()
      ensures ok == (|old(Contents())| < CAPACITY)
      ensures Contents() == if ok then old(Contents()) + [if key == EOF then NEWLINE else key] else old(Contents())
      ensures pendingEof == (old(pendingEof) || (ok && key == EOF))
    {
      var space := Space();
      if space == 0 {
        return false;
      }
      var k := key;
      if k == EOF {
        k := NEWLINE;
        pendingEof := true;
      }
      RingStuff(ibuffer[..], pop, push, k);
      ibuffer[push] := k;
      assert ibuffer[..] == old(ibuffer[..])[push := k];
      push := push + 1;
      if push > CAPACITY {
        push := 0;
      }
      return true;
    }

    /** No key is waiting, pushed back or typed. */
    method IsEmpty() returns (b: bool)
      requires Valid()
      ensures b == (View().Unread() == [])
    {
      b := push == pop && tty == [];
    }

    /** rl_read_key, with nothing pending: the ring first, then the terminal. */
    method ReadKey() returns (k: Key)
      requires Valid() && View().Unread() != []
      modifies `pop, `tty
      ensures Valid()
      ensures (k, View()) == ReadOne(old(View()))
    {
      var c := GetChar();
      if c == None {
        k := tty[0];
        tty := tty[1..];
      } else {
        k := c.value;
      }
    }
  }
}
