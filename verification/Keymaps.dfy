/**
  Keymaps and key binding (keymaps.c, bind.c).

  A C keymap is a block of KEYMAP_SIZE entries reached through a pointer, and
  an entry may point to another keymap.  The heap of keymaps is kept here as a
  sequence of nodes and a keymap pointer is an index into it, so an in-place
  update of one node is visible through every pointer to it.
 */
module Keymaps {

  import opened Common

  const KEYMAP_SIZE := 257

  /** The slot that keeps the binding a keymap took the place of. */
  const ANYOTHERKEY := 256

  type Key = k: int | 0 <= k < 256

  /** _rl_to_lower */
  function Lower(k: Key): Key { if 65 <= k <= 90 then k + 32 else k }

  /** The functions the code treats specially, and all the others. */
  datatype Command = Null | SelfInsert | DoLowercase | NullFunction | Named(id: nat)

  datatype Entry = Func(fn: Command) | Kmap(ptr: nat) | Macro(text: string)

  const Empty: Entry := Func(Null)

  /** A fresh keymap: every slot is a null function. */
  function BareSlots(): seq<Entry> {
    seq(KEYMAP_SIZE, i => Func(Null))
  }

  type Node = m: seq<Entry> | |m| == KEYMAP_SIZE witness BareSlots()

  type Arena = seq<Node>

  /** The entry holds a function or a macro. */
  predicate Bound(e: Entry) {
    e.Macro? || (e.Func? && e.fn != Null)
  }

  /** Pointers stay inside the arena and the ANYOTHERKEY slot never holds a keymap. */
  ghost predicate WellFormed(a: Arena) {
    forall m, i | 0 <= m < |a| && 0 <= i < KEYMAP_SIZE && a[m][i].Kmap? ::
      a[m][i].ptr < |a| && i != ANYOTHERKEY
  }

  /**
    Following the lowercase stub comes to an end: it is never in the
    ANYOTHERKEY slot, and where it is in a slot the lower-case key has another
    entry, so it is not in the slot of a lower-case letter itself.
   */
  ghost predicate Settled(a: Arena) {
    && (forall m | 0 <= m < |a| :: a[m][ANYOTHERKEY] != Func(DoLowercase))
    && (forall m, k: Key | 0 <= m < |a| && a[m][k] == Func(DoLowercase) :: a[m][Lower(k)] != Func(DoLowercase))
  }

  /** Slot `i` of keymap `m` leads to keymap `c`. */
  predicate Edge(a: Arena, m: nat, i: nat, c: nat) {
    m < |a| && i < KEYMAP_SIZE && a[m][i] == Kmap(c)
  }

  /** At most one entry points to a keymap, and none points to the root. */
  ghost predicate Unshared(a: Arena, root: nat) {
    && (forall m, i :: !Edge(a, m, i, root))
    && (forall m, i, m', i', c | Edge(a, m, i, c) && Edge(a, m', i', c) :: m == m' && i == i')
  }

  ghost predicate Trie(a: Arena, root: nat) {
    root < |a| && WellFormed(a) && Unshared(a, root)
  }

  /** The keymap reached from `root` by following `keys`, if every key leads to one. */
  function Walk(a: Arena, root: nat, keys: seq<Key>): (r: Option<nat>)
    requires root < |a| && WellFormed(a)
    ensures r.Some? ==> r.value < |a|
  {
    if keys == [] then Some(root)
    else
      var n := |keys| - 1;
      match Walk(a, root, keys[..n])
      case None => None
      case Some(m) => if a[m][keys[n]].Kmap? then Some(a[m][keys[n]].ptr) else None
  }

  /**
    The binding of a key sequence: what its last slot holds, or what the
    ANYOTHERKEY slot of the keymap found there holds.
   */
  function Resolve(a: Arena, root: nat, keys: seq<Key>): Entry
    requires root < |a| && WellFormed(a) && keys != []
  {
    var n := |keys| - 1;
    match Walk(a, root, keys[..n])
    case None => Empty
    case Some(m) =>
      var e := a[m][keys[n]];
      if e.Kmap? then a[e.ptr][ANYOTHERKEY] else e
  }

  /** Following the first key and then the others. */
  lemma {:induction false} WalkFirst(a: Arena, root: nat, k: Key, keys: seq<Key>)
    requires root < |a| && WellFormed(a)
    ensures Walk(a, root, [k] + keys) == if a[root][k].Kmap? then Walk(a, a[root][k].ptr, keys) else None
  {
    var all := [k] + keys;
    if keys == [] {
      assert all[..0] == [];
    } else {
      var n := |keys| - 1;
      assert all[..n + 1] == [k] + keys[..n];
      WalkFirst(a, root, k, keys[..n]);
    }
  }

  lemma ResolveFirst(a: Arena, root: nat, k: Key, keys: seq<Key>)
    requires root < |a| && WellFormed(a) && keys != []
    ensures Resolve(a, root, [k] + keys)
         == if a[root][k].Kmap? then Resolve(a, a[root][k].ptr, keys) else Empty
  {
    var n := |keys| - 1;
    assert ([k] + keys)[..n + 1] == [k] + keys[..n];
    WalkFirst(a, root, k, keys[..n]);
  }

  lemma RootUnreached(a: Arena, root: nat, p: seq<Key>)
    requires Trie(a, root) && p != []
    ensures Walk(a, root, p) != Some(root)
  {
    var n := |p| - 1;
    var m := Walk(a, root, p[..n]);
    if m.Some? && a[m.value][p[n]].Kmap? {
      assert Edge(a, m.value, p[n], a[m.value][p[n]].ptr);
    }
  }

  /** In a trie a keymap is reached by one key sequence only. */
  lemma {:induction false} WalkUnique(a: Arena, root: nat, p: seq<Key>, q: seq<Key>)
    requires Trie(a, root)
    requires Walk(a, root, p).Some? && Walk(a, root, p) == Walk(a, root, q)
    ensures p == q
  {
    if p != [] { RootUnreached(a, root, p); }
    if q != [] { RootUnreached(a, root, q); }
    if p != [] && q != [] {
      var n, n', c := |p| - 1, |q| - 1, Walk(a, root, p).value;
      var m, m' := Walk(a, root, p[..n]).value, Walk(a, root, q[..n']).value;
      assert Edge(a, m, p[n], c) && Edge(a, m', q[n'], c);
      WalkUnique(a, root, p[..n], q[..n']);
      assert p == p[..n] + [p[n]] && q == q[..n'] + [q[n']];
    }
  }

  // ----- The two kinds of update that binding performs -----

  /** What a new keymap keeps of the entry it replaces: anything but the lowercase stub. */
  function Kept(e: Entry): Entry {
    if Bound(e) && e != Func(DoLowercase) then e else Empty
  }

  /** `a` with a new keymap put in slot `k` of node `m`, the old entry kept in it. */
  function Grown(a: Arena, m: nat, k: Key): Arena
    requires m < |a|
  {
    a[m := a[m][k := Kmap(|a|)]] + [BareSlots()[ANYOTHERKEY := Kept(a[m][k])]]
  }

  lemma GrownTrie(a: Arena, root: nat, m: nat, k: Key)
    requires Trie(a, root) && m < |a| && !a[m][k].Kmap?
    ensures Trie(Grown(a, m, k), root)
  {
    var b := Grown(a, m, k);
    assert forall x: nat, i: nat, c: nat | Edge(b, x, i, c) :: (x == m && i == k && c == |a|) || Edge(a, x, i, c);
    assert forall x: nat, i: nat, c: nat | Edge(a, x, i, c) :: c < |a|;
  }

  /** What every slot holds then. */
  lemma GrownSlot(a: Arena, m: nat, k: Key, x: nat, i: nat)
    requires m < |a| && x <= |a| && i < KEYMAP_SIZE
    ensures Grown(a, m, k)[x][i] ==
      if x == |a| then (if i == ANYOTHERKEY then Kept(a[m][k]) else Empty)
      else if x == m && i == k then Kmap(|a|)
      else a[x][i]
  {
  }

  lemma SplitLast(q: seq<Key>, p: seq<Key>, k: Key)
    requires q != []
    ensures q == p + [k] <==> q[..|q| - 1] == p && q[|q| - 1] == k
  {
    assert q == q[..|q| - 1] + [q[|q| - 1]];
    assert (p + [k])[..|p|] == p;
  }

  /** Nothing is behind a slot that leads to no keymap. */
  lemma WalkStops(a: Arena, root: nat, p: seq<Key>, m: nat, k: Key)
    requires root < |a| && WellFormed(a) && Walk(a, root, p) == Some(m) && !a[m][k].Kmap?
    ensures Walk(a, root, p + [k]) == None
  {
    assert (p + [k])[..|p|] == p;
  }

  lemma {:induction false} GrownWalk(a: Arena, root: nat, p: seq<Key>, m: nat, k: Key, q: seq<Key>)
    requires Trie(a, root) && Walk(a, root, p) == Some(m) && !a[m][k].Kmap?
    requires Trie(Grown(a, m, k), root)
    ensures Walk(Grown(a, m, k), root, q) == if q == p + [k] then Some(|a|) else Walk(a, root, q)
  {
    if q != [] {
      var n := |q| - 1;
      GrownWalk(a, root, p, m, k, q[..n]);
      SplitLast(q, p, k);
      if q[..n] == p + [k] {
        WalkStops(a, root, p, m, k);
        GrownSlot(a, m, k, |a|, q[n]);
      } else {
        GrownStep(a, root, p, m, k, q[..n], q[n]);
      }
    }
  }

  lemma GrownStep(a: Arena, root: nat, p: seq<Key>, m: nat, k: Key, q: seq<Key>, l: Key)
    requires Trie(a, root) && Walk(a, root, p) == Some(m)
    ensures Walk(a, root, q).Some? ==>
      Grown(a, m, k)[Walk(a, root, q).value][l] ==
        if q == p && l == k then Kmap(|a|) else a[Walk(a, root, q).value][l]
  {
    var w := Walk(a, root, q);
    if w.Some? {
      GrownSlot(a, m, k, w.value, l);
      if w.value == m { WalkUnique(a, root, p, q); }
    }
  }

  /** Growing a keymap changes no binding, except that a lowercase stub it replaces is lost. */
  lemma GrownResolve(a: Arena, root: nat, p: seq<Key>, m: nat, k: Key, q: seq<Key>)
    requires Trie(a, root) && Walk(a, root, p) == Some(m) && !a[m][k].Kmap? && q != []
    requires Trie(Grown(a, m, k), root)
    ensures Resolve(Grown(a, m, k), root, q)
         == if q == p + [k] then Kept(Resolve(a, root, q)) else Resolve(a, root, q)
  {
    var n := |q| - 1;
    GrownWalk(a, root, p, m, k, q[..n]);
    SplitLast(q, p, k);
    GrownSlot(a, m, k, |a|, ANYOTHERKEY);
    if q[..n] == p + [k] {
      WalkStops(a, root, p, m, k);
      GrownSlot(a, m, k, |a|, q[n]);
    } else {
      GrownStep(a, root, p, m, k, q[..n], q[n]);
      GrownOther(a, m, k);
    }
  }

  lemma GrownOther(a: Arena, m: nat, k: Key)
    requires m < |a|
    ensures forall x | 0 <= x < |a| :: Grown(a, m, k)[x][ANYOTHERKEY] == a[x][ANYOTHERKEY]
  {
  }

  /** The slot a final key writes to: the ANYOTHERKEY slot when a keymap is already there. */
  function Target(a: Arena, m: nat, k: Key): (nat, int)
    requires m < |a| && WellFormed(a)
  {
    if a[m][k].Kmap? then (a[m][k].ptr, ANYOTHERKEY) else (m, k)
  }

  /** What is written: unbinding a sequence that is a prefix needs a function that does nothing. */
  function Written(shadowing: bool, e: Entry): Entry {
    if shadowing && e == Empty then Func(NullFunction) else e
  }

  function Stored(a: Arena, m: nat, k: Key, e: Entry): Arena
    requires m < |a| && WellFormed(a)
  {
    var (m', i) := Target(a, m, k);
    a[m' := a[m'][i := Written(a[m][k].Kmap?, e)]]
  }

  lemma StoredTrie(a: Arena, root: nat, m: nat, k: Key, e: Entry)
    requires Trie(a, root) && m < |a| && !e.Kmap?
    ensures Trie(Stored(a, m, k, e), root)
  {
    var b := Stored(a, m, k, e);
    assert forall x: nat, i: nat, c: nat | Edge(b, x, i, c) :: Edge(a, x, i, c);
  }

  lemma {:induction false} StoredWalk(a: Arena, root: nat, m: nat, k: Key, e: Entry, q: seq<Key>)
    requires Trie(a, root) && m < |a| && !e.Kmap?
    requires Trie(Stored(a, m, k, e), root)
    ensures Walk(Stored(a, m, k, e), root, q) == Walk(a, root, q)
  {
    if q != [] {
      var n := |q| - 1;
      StoredWalk(a, root, m, k, e, q[..n]);
      assert WellFormed(a);
    }
  }

  lemma StoredSlot(a: Arena, m: nat, k: Key, e: Entry, x: nat, i: nat)
    requires m < |a| && WellFormed(a) && x < |a| && i < KEYMAP_SIZE
    ensures Stored(a, m, k, e)[x][i] == if (x, i) == Target(a, m, k) then Written(a[m][k].Kmap?, e) else a[x][i]
  {
  }

  /** What a last key finds: its slot, or the ANYOTHERKEY slot of the keymap there. */
  function Found(a: Arena, m: nat, k: Key): Entry
    requires m < |a| && WellFormed(a)
  {
    if a[m][k].Kmap? then a[a[m][k].ptr][ANYOTHERKEY] else a[m][k]
  }

  lemma StoredFound(a: Arena, root: nat, m: nat, k: Key, e: Entry, x: nat, l: Key)
    requires Trie(a, root) && m < |a| && !e.Kmap? && WellFormed(Stored(a, m, k, e)) && x < |a|
    ensures Found(Stored(a, m, k, e), x, l) == if x == m && l == k then Written(a[m][k].Kmap?, e) else Found(a, x, l)
  {
    StoredSlot(a, m, k, e, x, l);
    if a[x][l].Kmap? {
      var c := a[x][l].ptr;
      StoredSlot(a, m, k, e, c, ANYOTHERKEY);
      if a[m][k] == Kmap(c) {
        assert Edge(a, x, l, c) && Edge(a, m, k, c);
      }
    }
  }

  /** Storing the final entry changes the binding of that one sequence. */
  lemma StoredResolve(a: Arena, root: nat, p: seq<Key>, m: nat, k: Key, e: Entry, q: seq<Key>)
    requires Trie(a, root) && Walk(a, root, p) == Some(m) && !e.Kmap? && q != []
    requires Trie(Stored(a, m, k, e), root)
    ensures Resolve(Stored(a, m, k, e), root, q)
         == if q == p + [k] then Written(a[m][k].Kmap?, e) else Resolve(a, root, q)
  {
    var n := |q| - 1;
    StoredWalk(a, root, m, k, e, q[..n]);
    SplitLast(q, p, k);
    var w := Walk(a, root, q[..n]);
    if w.Some? {
      StoredFound(a, root, m, k, e, w.value, q[n]);
      if w.value == m { WalkUnique(a, root, p, q[..n]); }
    }
  }

  /** The meaning of `q` once `i` keys of the sequence have been dealt with. */
  ghost function Expected(a: Arena, root: nat, keys: seq<Key>, e: Entry, i: nat, q: seq<Key>): Entry
    requires root < |a| && WellFormed(a) && q != []
  {
    if i == |keys| && q == keys then Written(Walk(a, root, keys).Some?, e)
    else if |q| <= i && q < keys && Walk(a, root, q).None? then Kept(Resolve(a, root, q))
    else Resolve(a, root, q)
  }

  /** What holds of the arena `a`, started from `a0`, after `i` keys. */
  ghost predicate Progress(a0: Arena, a: Arena, root: nat, keys: seq<Key>, e: Entry, i: nat) {
    && Trie(a0, root) && Trie(a, root)
    && (forall q: seq<Key> | i < |q| :: Walk(a, root, q) == Walk(a0, root, q))
    && (forall q: seq<Key> | q != [] :: Resolve(a, root, q) == Expected(a0, root, keys, e, i, q))
  }

  lemma ExpectedGrown(a0: Arena, a: Arena, root: nat, keys: seq<Key>, e: Entry, i: nat, m: nat, q: seq<Key>)
    requires Trie(a0, root) && Trie(a, root) && i + 1 < |keys| && q != []
    requires Walk(a, root, keys[..i]) == Some(m) && !a[m][keys[i]].Kmap?
    requires Trie(Grown(a, m, keys[i]), root)
    requires i < |q| ==> Walk(a, root, q) == Walk(a0, root, q)
    requires Resolve(a, root, q) == Expected(a0, root, keys, e, i, q)
    ensures Resolve(Grown(a, m, keys[i]), root, q) == Expected(a0, root, keys, e, i + 1, q)
  {
    ExpectedNext(a0, root, keys, e, i, q);
    GrownResolveNext(a, root, keys, i, m, q);
    if q == keys[..i + 1] {
      NotYet(a, root, keys, i, m);
    }
  }

  lemma GrownResolveNext(a: Arena, root: nat, keys: seq<Key>, i: nat, m: nat, q: seq<Key>)
    requires Trie(a, root) && i < |keys| && q != []
    requires Walk(a, root, keys[..i]) == Some(m) && !a[m][keys[i]].Kmap?
    requires Trie(Grown(a, m, keys[i]), root)
    ensures Resolve(Grown(a, m, keys[i]), root, q)
         == if q == keys[..i + 1] then Kept(Resolve(a, root, q)) else Resolve(a, root, q)
  {
    assert keys[..i + 1] == keys[..i] + [keys[i]];
    GrownResolve(a, root, keys[..i], m, keys[i], q);
  }

  lemma ExpectedNext(a0: Arena, root: nat, keys: seq<Key>, e: Entry, i: nat, q: seq<Key>)
    requires root < |a0| && WellFormed(a0) && i + 1 < |keys| && q != []
    ensures Expected(a0, root, keys, e, i + 1, q) ==
      if q == keys[..i + 1] && Walk(a0, root, q).None? then Kept(Resolve(a0, root, q))
      else Expected(a0, root, keys, e, i, q)
    ensures q == keys[..i + 1] ==> Expected(a0, root, keys, e, i, q) == Resolve(a0, root, q)
  {
    if |q| == i + 1 && q < keys {
      assert q == keys[..i + 1];
    }
  }

  lemma NotYet(a: Arena, root: nat, keys: seq<Key>, i: nat, m: nat)
    requires root < |a| && WellFormed(a) && i < |keys| && Walk(a, root, keys[..i]) == Some(m) && !a[m][keys[i]].Kmap?
    ensures Walk(a, root, keys[..i + 1]).None?
  {
    assert keys[..i + 1][..i] == keys[..i];
  }

  lemma ProgressGrown(a0: Arena, a: Arena, root: nat, keys: seq<Key>, e: Entry, i: nat, m: nat)
    requires Progress(a0, a, root, keys, e, i) && i + 1 < |keys|
    requires Walk(a, root, keys[..i]) == Some(m) && !a[m][keys[i]].Kmap?
    ensures Progress(a0, Grown(a, m, keys[i]), root, keys, e, i + 1)
    ensures Walk(Grown(a, m, keys[i]), root, keys[..i + 1]) == Some(|a|)
  {
    var b := Grown(a, m, keys[i]);
    GrownTrie(a, root, m, keys[i]);
    GrownReaches(a, root, keys, i, m);
    forall q: seq<Key> | i + 1 < |q| ensures Walk(b, root, q) == Walk(a0, root, q) {
      GrownPast(a, root, keys, i, m, q);
    }
    forall q: seq<Key> | q != [] ensures Resolve(b, root, q) == Expected(a0, root, keys, e, i + 1, q) {
      ExpectedGrown(a0, a, root, keys, e, i, m, q);
    }
  }

  lemma GrownReaches(a: Arena, root: nat, keys: seq<Key>, i: nat, m: nat)
    requires Trie(a, root) && i < |keys| && Walk(a, root, keys[..i]) == Some(m) && !a[m][keys[i]].Kmap?
    requires Trie(Grown(a, m, keys[i]), root)
    ensures Walk(Grown(a, m, keys[i]), root, keys[..i + 1]) == Some(|a|)
  {
    assert keys[..i + 1] == keys[..i] + [keys[i]];
    GrownWalk(a, root, keys[..i], m, keys[i], keys[..i + 1]);
  }

  lemma GrownPast(a: Arena, root: nat, keys: seq<Key>, i: nat, m: nat, q: seq<Key>)
    requires Trie(a, root) && i < |keys| && Walk(a, root, keys[..i]) == Some(m) && !a[m][keys[i]].Kmap?
    requires Trie(Grown(a, m, keys[i]), root) && i + 1 < |q|
    ensures Walk(Grown(a, m, keys[i]), root, q) == Walk(a, root, q)
  {
    GrownWalk(a, root, keys[..i], m, keys[i], q);
  }

  lemma ProgressFound(a0: Arena, a: Arena, root: nat, keys: seq<Key>, e: Entry, i: nat, m: nat)
    requires Progress(a0, a, root, keys, e, i) && i + 1 < |keys|
    requires Walk(a, root, keys[..i]) == Some(m) && a[m][keys[i]].Kmap?
    ensures Progress(a0, a, root, keys, e, i + 1)
    ensures Walk(a, root, keys[..i + 1]) == Some(a[m][keys[i]].ptr)
  {
    assert keys[..i + 1][..i] == keys[..i];
    forall q: seq<Key> | q != [] ensures Resolve(a, root, q) == Expected(a0, root, keys, e, i + 1, q) {
      assert |q| == i + 1 && q < keys ==> q == keys[..i + 1];
    }
  }

  lemma ProgressStored(a0: Arena, a: Arena, root: nat, keys: seq<Key>, e: Entry, i: nat, m: nat)
    requires Progress(a0, a, root, keys, e, i) && i + 1 == |keys| && !e.Kmap?
    requires Walk(a, root, keys[..i]) == Some(m)
    ensures Progress(a0, Stored(a, m, keys[i], e), root, keys, e, i + 1)
  {
    var b, p, k := Stored(a, m, keys[i], e), keys[..i], keys[i];
    assert keys == p + [k];
    StoredTrie(a, root, m, k, e);
    forall q: seq<Key> | i + 1 < |q| ensures Walk(b, root, q) == Walk(a0, root, q) {
      StoredWalk(a, root, m, k, e, q);
    }
    forall q: seq<Key> | q != [] ensures Resolve(b, root, q) == Expected(a0, root, keys, e, i + 1, q) {
      ExpectedStored(a0, a, root, keys, e, i, m, q);
    }
  }

  lemma ExpectedStored(a0: Arena, a: Arena, root: nat, keys: seq<Key>, e: Entry, i: nat, m: nat, q: seq<Key>)
    requires Trie(a0, root) && Trie(a, root) && i + 1 == |keys| && !e.Kmap? && q != []
    requires Walk(a, root, keys[..i]) == Some(m) && Trie(Stored(a, m, keys[i], e), root)
    requires Walk(a, root, keys) == Walk(a0, root, keys)
    requires Resolve(a, root, q) == Expected(a0, root, keys, e, i, q)
    ensures Resolve(Stored(a, m, keys[i], e), root, q) == Expected(a0, root, keys, e, i + 1, q)
  {
    StoredResolve(a, root, keys[..i], m, keys[i], e, q);
    assert keys == keys[..i] + [keys[i]];
  }

  /** Binding anything but the stub leaves the stubs that are there with somewhere to go. */
  lemma GrownSettled(a: Arena, m: nat, k: Key)
    requires Settled(a) && m < |a|
    ensures Settled(Grown(a, m, k))
  {
    var b := Grown(a, m, k);
    assert forall i | 0 <= i < |a| && i != m :: b[i] == a[i];
    assert forall j | 0 <= j < KEYMAP_SIZE && j != k :: b[m][j] == a[m][j];
    assert forall j | 0 <= j < KEYMAP_SIZE && j != ANYOTHERKEY :: b[|a|][j] == Empty;
  }

  lemma StoredSettled(a: Arena, m: nat, k: Key, e: Entry)
    requires Settled(a) && m < |a| && WellFormed(a) && e != Func(DoLowercase)
    ensures Settled(Stored(a, m, k, e))
  {
    var b := Stored(a, m, k, e);
    var (m', i) := Target(a, m, k);
    assert forall j | 0 <= j < |a| && j != m' :: b[j] == a[j];
    assert forall j | 0 <= j < KEYMAP_SIZE && j != i :: b[m'][j] == a[m'][j];
  }

  class KeymapStore {

    var nodes: Arena

    /** rl_make_bare_keymap: fills a newly allocated block slot by slot. */
    method MakeBareKeymap() returns (p: nat)
      modifies this
      ensures p == |old(nodes)| && nodes == old(nodes) + [BareSlots()]
    {
      var block := new Entry[KEYMAP_SIZE];
      for i := 0 to KEYMAP_SIZE
        invariant nodes == old(nodes) && forall j | 0 <= j < i :: block[j] == Empty
      {
        block[i] := Func(Null);
      }
      assert block[..] == BareSlots();
      p := |nodes|;
      nodes := nodes + [block[..]];
    }

    /** One key that is not the last: follow it, making a keymap if there is none. */
    method Descend(cur: nat, ic: Key, k: Entry) returns (next: nat, k': Entry)
      requires WellFormed(nodes) && cur < |nodes|
      requires k == Empty || k == Func(DoLowercase)
      modifies this
      ensures nodes == if old(nodes)[cur][ic].Kmap? then old(nodes) else Grown(old(nodes), cur, ic)
      ensures next == if old(nodes)[cur][ic].Kmap? then old(nodes)[cur][ic].ptr else |old(nodes)|
      ensures k' == Empty || k' == Func(DoLowercase)
    {
      k' := k;
      if !nodes[cur][ic].Kmap? {
        k' := nodes[cur][ic];
        var bare := MakeBareKeymap();
        nodes := nodes[cur := nodes[cur][ic := Kmap(bare)]];
      }
      next := nodes[cur][ic].ptr;
      if Bound(k') && k' != Func(DoLowercase) {
        nodes := nodes[next := nodes[next][ANYOTHERKEY := k']];
        k' := Empty;
      }
      assert BareSlots()[ANYOTHERKEY := Empty] == BareSlots();
      assert !old(nodes)[cur][ic].Kmap? ==> nodes == Grown(old(nodes), cur, ic);
    }

    /** The last key: write the entry, in the ANYOTHERKEY slot of a keymap found there. */
    method StoreLast(cur: nat, ic: Key, e: Entry)
      requires WellFormed(nodes) && cur < |nodes|
      modifies this
      ensures nodes == Stored(old(nodes), cur, ic, e)
    {
      var m, i, data := cur, ic as int, e;
      if nodes[m][ic].Kmap? {
        m, i := nodes[m][ic].ptr, ANYOTHERKEY;
        if data == Func(Null) {
          data := Func(NullFunction);
        }
      }
      nodes := nodes[m := nodes[m][i := data]];
    }

    /**
      rl_generic_bind, from the translated keys on.  `keys` comes to mean `e`
      and no other sequence changes its meaning, except a proper prefix that
      was bound to the lowercase stub, which becomes unbound.
     */
    method GenericBind(root: nat, keys: seq<Key>, e: Entry)
      requires Trie(nodes, root) && !e.Kmap?
      modifies this
      ensures Trie(nodes, root)
      ensures keys != [] ==>
        Resolve(nodes, root, keys) == Written(Walk(old(nodes), root, keys).Some?, e)
      ensures forall q: seq<Key> | q != [] && q != keys ::
        Resolve(nodes, root, q) ==
        if q < keys && Walk(old(nodes), root, q).None? then Kept(Resolve(old(nodes), root, q))
        else Resolve(old(nodes), root, q)
      ensures Settled(old(nodes)) && e != Func(DoLowercase) ==> Settled(nodes)
    {
      var cur, k := root, Empty;
      for i := 0 to |keys|
        invariant Progress(old(nodes), nodes, root, keys, e, i)
        invariant i < |keys| ==> Walk(nodes, root, keys[..i]) == Some(cur)
        invariant k == Empty || k == Func(DoLowercase)
        invariant Settled(old(nodes)) && e != Func(DoLowercase) ==> Settled(nodes)
      {
        ghost var a, m := nodes, cur;
        if i + 1 < |keys| {
          cur, k := Descend(cur, keys[i], k);
          if a[m][keys[i]].Kmap? {
            ProgressFound(old(nodes), a, root, keys, e, i, m);
          } else {
            ProgressGrown(old(nodes), a, root, keys, e, i, m);
            if Settled(a) { GrownSettled(a, m, keys[i]); }
          }
        } else {
          StoreLast(cur, keys[i], e);
          ProgressStored(old(nodes), a, root, keys, e, i, m);
          if Settled(a) && e != Func(DoLowercase) { StoredSettled(a, m, keys[i], e); }
        }
      }
    }
  }
}
