/**
  Callback mode against recursive dispatch (readline.c, callback.c): the chain
  of contexts, fed one key a call, comes to what the recursion comes to.
 */
module Callback {

  import opened Common
  import opened Keymaps
  import opened InputQueue
  import opened Dispatch

  /**
    The part of the chain that still matters: the contexts made since
    got_subseq was last forgotten, in keymap `base`, for `keys`; `below` are
    the contexts under them.
   */
  datatype Segment = Segment(base: nat, keys: seq<Key>, below: nat)

  /** The context made for the key number `i` of `keys`. */
  ghost predicate Linked(a: Arena, base: nat, keys: seq<Key>, i: nat, x: Context)
    requires WellFormed(a) && base < |a| && i < |keys|
  {
    && x.okey == keys[i]
    && x.oldmap == Reached(a, base, keys[..i])
    && x.dmap == Reached(a, base, keys[..i + 1])
    && x.subseq == (Longest(a, base, keys[..i]) > 0)
    && x.subseqArg == (Longest(a, base, keys[..i + 1]) > 0)
  }

  /** The contexts of a chain above the first `below` are those made for `keys`. */
  ghost predicate AllLinked(a: Arena, base: nat, keys: seq<Key>, below: nat, chain: seq<Context>)
    requires WellFormed(a) && base < |a|
  {
    below <= |chain| <= below + |keys| &&
    forall j | below <= j < |chain| :: Linked(a, base, keys, j - below, chain[j])
  }

  /** The chain ends in one context for each key of the segment. */
  ghost predicate Chained(a: Arena, g: Segment, c: Machine)
    requires WellFormed(a)
  {
    && g.base < |a| && g.keys != [] && Walk(a, g.base, g.keys).Some?
    && c.multikey && |c.chain| == g.below + |g.keys| && c.s.dmap == Reached(a, g.base, g.keys)
    && AllLinked(a, g.base, g.keys, g.below, c.chain)
    && (forall j | g.below <= j < |c.chain| :: c.chain[j].dispatched == (j < |c.chain| - 1))
  }

  /** The keymap the next key is looked up in. */
  ghost function Here(a: Arena, g: Segment): nat
    requires WellFormed(a) && g.base < |a|
  {
    Reached(a, g.base, g.keys)
  }

  /** The segment once a key has been typed: a stub begins a new one. */
  ghost function Extended(a: Arena, g: Segment, key: Key): Segment
    requires WellFormed(a) && g.base < |a|
  {
    var k := Taken(a, Here(a, g), key);
    if Stubbed(a, Here(a, g), key) then Segment(Here(a, g), [k], g.below + |g.keys|)
    else g.(keys := g.keys + [k])
  }

  // ----- Going down -----

  lemma LinkedMore(a: Arena, base: nat, keys: seq<Key>, k: Key, i: nat, x: Context)
    requires WellFormed(a) && base < |a| && i < |keys| && Linked(a, base, keys, i, x)
    ensures Linked(a, base, keys + [k], i, x)
  {
    assert (keys + [k])[..i] == keys[..i] && (keys + [k])[..i + 1] == keys[..i + 1];
  }

  /** A context made in keymap `m` with nothing bound before it. */
  lemma LinkedAlone(a: Arena, m: nat, k: Key, x: Context)
    requires WellFormed(a) && m < |a| && a[m][k].Kmap?
    requires x.okey == k && x.oldmap == m && x.dmap == a[m][k].ptr && !x.subseq && x.subseqArg == Shadows(a, x.dmap)
    ensures Walk(a, m, [k]) == Some(a[m][k].ptr) && Linked(a, m, [k], 0, x)
  {
    assert [k][..0] == [] && [k][..1] == [k];
    assert Walk(a, m, []) == Some(m);
    LongestInner(a, m, [k]);
    assert Longest(a, m, []) == 0;
  }

  /** Starting a key sequence. */
  lemma Starts(a: Arena, root: nat, s: State)
    requires WellFormed(a) && root < |a| && s.input.Unread() != []
    requires a[root][Taken(a, root, ReadOne(s.input).0)].Kmap?
    ensures
      var (key, rest) := ReadOne(s.input);
      var k := Taken(a, root, key);
      var c := ReadChar(a, root, Idle(s)).1;
      && Chained(a, Segment(root, [k], 0), c)
      && c.s == State(rest, s.log, Reached(a, root, [k]))
  {
    var k := Taken(a, root, ReadOne(s.input).0);
    var c := ReadChar(a, root, Idle(s)).1;
    LinkedAlone(a, root, k, c.chain[0]);
  }

  /** Reading a key that leads to a keymap marks the newest context and adds one on top. */
  lemma AddsContext(a: Arena, root: nat, c: Machine)
    requires c.multikey && c.chain != []
    requires
      var cxt := c.chain[|c.chain| - 1];
      && !cxt.dispatched && c.s.input.Unread() != []
      && Slot(a, cxt.dmap, Taken(a, cxt.dmap, ReadOne(c.s.input).0)).Kmap?
    ensures
      var last := |c.chain| - 1;
      var (cxt, (key, rest)) := (c.chain[last], ReadOne(c.s.input));
      var (k, got) := (Taken(a, cxt.dmap, key), cxt.subseqArg && !Stubbed(a, cxt.dmap, key));
      var d := Slot(a, cxt.dmap, k).ptr;
      ReadChar(a, root, c) ==
      (Returned(-3),
       Machine(State(rest, c.s.log, d),
               c.chain[last := cxt.(dispatched := true)] +
                 [Context(got, false, k, cxt.dmap, d, got || Shadows(a, d), -3)],
               true))
  {
    var last, key := |c.chain| - 1, ReadOne(c.s.input).0;
    var cxt := c.chain[last];
    var k, got := Taken(a, cxt.dmap, key), cxt.subseqArg && !Stubbed(a, cxt.dmap, key);
    var d := Slot(a, cxt.dmap, k).ptr;
    var x := Context(got, false, k, cxt.dmap, d, got || Shadows(a, d), SENTINEL);
    var marked := c.chain[last := cxt.(dispatched := true)];
    assert (c.chain + [x])[last := cxt.(dispatched := true)] == marked + [x];
    assert (marked + [x])[|c.chain| := x.(childval := -3)] == marked + [x.(childval := -3)];
  }

  lemma AllLinkedMore(a: Arena, base: nat, keys: seq<Key>, k: Key, below: nat, chain: seq<Context>, chain': seq<Context>)
    requires WellFormed(a) && base < |a| && AllLinked(a, base, keys, below, chain)
    requires |chain'| == |chain| && forall j | below <= j < |chain| :: chain'[j] == chain[j].(dispatched := true)
    ensures AllLinked(a, base, keys + [k], below, chain')
  {
    forall j | below <= j < |chain| ensures Linked(a, base, keys + [k], j - below, chain'[j]) {
      assert Linked(a, base, keys, j - below, chain[j]);
      LinkedMore(a, base, keys, k, j - below, chain[j]);
    }
  }

  /** One context more in the same segment. */
  lemma ChainedMore(a: Arena, g: Segment, k: Key, c: Machine, chain: seq<Context>, x: Context, s: State)
    requires WellFormed(a) && Chained(a, g, c)
    requires Walk(a, g.base, g.keys + [k]).Some? && s.dmap == Reached(a, g.base, g.keys + [k])
    requires |chain| == |c.chain| && forall j | g.below <= j < |chain| :: chain[j] == c.chain[j].(dispatched := true)
    requires Linked(a, g.base, g.keys + [k], |g.keys|, x) && !x.dispatched
    ensures Chained(a, g.(keys := g.keys + [k]), Machine(s, chain + [x], true))
  {
    AllLinkedMore(a, g.base, g.keys, k, g.below, c.chain, chain);
  }

  lemma WalkOn(a: Arena, base: nat, keys: seq<Key>, k: Key)
    requires WellFormed(a) && base < |a| && Walk(a, base, keys).Some?
    ensures
      var m := Reached(a, base, keys);
      && m < |a|
      && Walk(a, base, keys + [k]) == if a[m][k].Kmap? then Some(a[m][k].ptr) else None
  {
    assert (keys + [k])[..|keys|] == keys;
  }

  lemma WalkOne(a: Arena, m: nat, k: Key)
    requires WellFormed(a) && m < |a| && a[m][k].Kmap?
    ensures Walk(a, m, [k]) == Some(a[m][k].ptr) && Reached(a, m, [k]) == a[m][k].ptr
  {
    assert [k][..0] == [] && Walk(a, m, []) == Some(m);
  }

  /** The context a key without a stub makes fits the segment. */
  lemma LinkedNext(a: Arena, g: Segment, c: Machine, k: Key, x: Context)
    requires WellFormed(a) && Chained(a, g, c) && a[Here(a, g)][k].Kmap?
    requires
      var cxt := c.chain[|c.chain| - 1];
      && x.okey == k && x.oldmap == Here(a, g) && x.dmap == a[Here(a, g)][k].ptr
      && x.subseq == cxt.subseqArg && x.subseqArg == (cxt.subseqArg || Shadows(a, x.dmap))
    ensures Walk(a, g.base, g.keys + [k]) == Some(x.dmap) && Linked(a, g.base, g.keys + [k], |g.keys|, x)
  {
    var more, last := g.keys + [k], |c.chain| - 1;
    assert more[..|g.keys|] == g.keys && more[..|more|] == more && g.keys[..|g.keys|] == g.keys;
    assert Linked(a, g.base, g.keys, last - g.below, c.chain[last]);
    WalkOn(a, g.base, g.keys, k);
    LongestInner(a, g.base, more);
  }

  /** The machine with a context for the key on top of the marked one. */
  ghost function Pushed(a: Arena, g: Segment, c: Machine, key: Key, rest: Input): Machine
    requires WellFormed(a) && Chained(a, g, c) && a[Here(a, g)][Taken(a, Here(a, g), key)].Kmap?
  {
    var (last, m, k) := (|c.chain| - 1, Here(a, g), Taken(a, Here(a, g), key));
    var (got, d) := (c.chain[last].subseqArg && !Stubbed(a, m, key), a[m][k].ptr);
    Machine(State(rest, c.s.log, d),
            c.chain[last := c.chain[last].(dispatched := true)] +
              [Context(got, false, k, m, d, got || Shadows(a, d), -3)],
            true)
  }

  lemma PushedIsChained(a: Arena, g: Segment, c: Machine, key: Key, rest: Input)
    requires WellFormed(a) && Chained(a, g, c) && a[Here(a, g)][Taken(a, Here(a, g), key)].Kmap?
    ensures
      var c' := Pushed(a, g, c, key, rest);
      Chained(a, Extended(a, g, key), c') && c'.s == State(rest, c.s.log, Here(a, Extended(a, g, key)))
  {
    var c', last, m, k := Pushed(a, g, c, key, rest), |c.chain| - 1, Here(a, g), Taken(a, Here(a, g), key);
    var x := c'.chain[|c.chain|];
    if Stubbed(a, m, key) {
      LinkedAlone(a, m, k, x);
      ChainedAlone(a, m, k, c', |c.chain|);
    } else {
      LinkedNext(a, g, c, k, x);
      ChainedMore(a, g, k, c, c.chain[last := c.chain[last].(dispatched := true)], x, c'.s);
    }
  }

  /** The newest context alone, in a segment that a stub began. */
  lemma ChainedAlone(a: Arena, m: nat, k: Key, c: Machine, below: nat)
    requires WellFormed(a) && m < |a| && a[m][k].Kmap? && c.multikey && |c.chain| == below + 1
    requires Walk(a, m, [k]) == Some(a[m][k].ptr) && Linked(a, m, [k], 0, c.chain[below])
    requires !c.chain[below].dispatched && c.s.dmap == a[m][k].ptr
    ensures Chained(a, Segment(m, [k], below), c)
  {
  }

  /** One more key that leads to a keymap adds a context. */
  lemma Continues(a: Arena, root: nat, g: Segment, c: Machine)
    requires WellFormed(a) && Chained(a, g, c) && c.s.input.Unread() != []
    requires a[Here(a, g)][Taken(a, Here(a, g), ReadOne(c.s.input).0)].Kmap?
    ensures
      var (key, rest) := ReadOne(c.s.input);
      var c' := ReadChar(a, root, c).1;
      && Chained(a, Extended(a, g, key), c')
      && c'.s == State(rest, c.s.log, Here(a, Extended(a, g, key)))
  {
    var (key, rest) := ReadOne(c.s.input);
    ReadIsPushed(a, root, g, c);
    PushedIsChained(a, g, c, key, rest);
  }

  lemma ReadIsPushed(a: Arena, root: nat, g: Segment, c: Machine)
    requires WellFormed(a) && Chained(a, g, c) && c.s.input.Unread() != []
    requires a[Here(a, g)][Taken(a, Here(a, g), ReadOne(c.s.input).0)].Kmap?
    ensures
      var (key, rest) := ReadOne(c.s.input);
      ReadChar(a, root, c) == (Returned(-3), Pushed(a, g, c, key, rest))
  {
    var last := |c.chain| - 1;
    assert !c.chain[last].dispatched && c.chain[last].dmap == Here(a, g) by { NewestIsHere(a, g, c); }
    AddsContext(a, root, c);
  }

  lemma NewestIsHere(a: Arena, g: Segment, c: Machine)
    requires WellFormed(a) && Chained(a, g, c)
    ensures
      var cxt := c.chain[|c.chain| - 1];
      && !cxt.dispatched && cxt.dmap == Here(a, g) && cxt.okey == g.keys[|g.keys| - 1]
      && cxt.subseqArg == (Longest(a, g.base, g.keys) > 0)
  {
    var last := |c.chain| - 1;
    assert Linked(a, g.base, g.keys, last - g.below, c.chain[last]);
    assert g.keys[..|g.keys|] == g.keys;
  }

  // ----- Coming back up -----

  /** Part of the chain, on the way back up: every context of the segment has been dispatched. */
  ghost predicate Unwinding(a: Arena, g: Segment, j: nat, c: Machine)
    requires WellFormed(a)
  {
    && g.base < |a| && Walk(a, g.base, g.keys).Some?
    && c.multikey && |c.chain| == g.below + j && j <= |g.keys|
    && AllLinked(a, g.base, g.keys, g.below, c.chain)
    && (forall i | g.below <= i < |c.chain| :: c.chain[i].dispatched)
  }

  /** The code with which the contexts are being left: -2 once the binding to fall back on is reached. */
  function Code(i: nat, j: nat): int { if i == j then -2 else -1 }

  /** A context that does not match leaves the chain, its key back in the input. */
  lemma LeavesContext(a: Arena, c: Machine)
    requires |c.chain| >= 2
    requires var cxt := c.chain[|c.chain| - 1]; cxt.subseq || Shadows(a, cxt.oldmap)
    ensures
      var j := |c.chain|;
      var (cxt, up) := (c.chain[j - 1], c.chain[j - 2]);
      var code := if Shadows(a, cxt.oldmap) then -2 else -1;
      Answered(a, -1, c) ==
      (Returned(code),
       Machine(State(Unget(c.s.input, cxt.okey), c.s.log, cxt.oldmap),
               c.chain[..j - 2] + [up.(childval := code)], c.multikey))
  {
    var j := |c.chain|;
    var cxt, up := c.chain[j - 1], c.chain[j - 2];
    var code := if Shadows(a, cxt.oldmap) then -2 else -1;
    assert c.chain[..j - 1][j - 2 := up.(childval := code)] == c.chain[..j - 2] + [up.(childval := code)];
  }

  lemma ShadowsAt(a: Arena, base: nat, keys: seq<Key>, p: nat)
    requires WellFormed(a) && base < |a| && Walk(a, base, keys).Some? && 0 < Longest(a, base, keys) <= p <= |keys|
    ensures Longest(a, base, keys[..p]) > 0
    ensures Shadows(a, Reached(a, base, keys[..p])) <==> p == Longest(a, base, keys)
  {
    WalkPrefix(a, base, keys, p);
    LongestPrefix(a, base, keys, p);
    LongestInner(a, base, keys[..p]);
  }

  lemma UnwindingUp(a: Arena, g: Segment, j: nat, c: Machine, s: State, v: int)
    requires WellFormed(a) && Unwinding(a, g, j, c) && j >= 2
    ensures
      var n := |c.chain|;
      Unwinding(a, g, j - 1, Machine(s, c.chain[..n - 2] + [c.chain[n - 2].(childval := v)], true))
  {
    var n := |c.chain|;
    var chain := c.chain[..n - 2] + [c.chain[n - 2].(childval := v)];
    ShortChain(c.chain, v);
    ShortLinked(a, g.base, g.keys, g.below, c.chain, chain, v);
  }

  lemma ShortLinked(a: Arena, base: nat, keys: seq<Key>, below: nat, chain: seq<Context>, short: seq<Context>, v: int)
    requires WellFormed(a) && base < |a| && AllLinked(a, base, keys, below, chain) && below <= |short| < |chain|
    requires forall i | 0 <= i < |short| :: short[i] == chain[i] || short[i] == chain[i].(childval := v)
    ensures AllLinked(a, base, keys, below, short)
  {
    forall i | below <= i < |short| ensures Linked(a, base, keys, i - below, short[i]) {
      assert Linked(a, base, keys, i - below, chain[i]);
      LinkedSame(a, base, keys, i - below, chain[i], short[i]);
    }
  }

  /** The chain without its newest context: the same contexts, but for a value the last one was given. */
  lemma ShortChain(chain: seq<Context>, v: int)
    requires |chain| >= 2
    ensures
      var n := |chain|;
      var short := chain[..n - 2] + [chain[n - 2].(childval := v)];
      |short| == n - 1 && forall i | 0 <= i < n - 1 :: short[i] == chain[i] || short[i] == chain[i].(childval := v)
  {
  }

  /** The value a context is given does not matter for where it stands. */
  lemma LinkedSame(a: Arena, base: nat, keys: seq<Key>, i: nat, x: Context, y: Context)
    requires WellFormed(a) && base < |a| && i < |keys| && Linked(a, base, keys, i, x)
    requires y == x || y == x.(childval := y.childval)
    ensures Linked(a, base, keys, i, y)
  {
  }

  lemma UnwindsUp(a: Arena, g: Segment, j: nat, c: Machine) returns (c': Machine)
    requires WellFormed(a) && Unwinding(a, g, j, c)
    requires 0 < Longest(a, g.base, g.keys) < j
    ensures
      var i := Longest(a, g.base, g.keys);
      && Answered(a, -1, c) == (Returned(Code(i, j - 1)), c') && Unwinding(a, g, j - 1, c')
      && c'.s == State(Unget(c.s.input, g.keys[j - 1]), c.s.log, Reached(a, g.base, g.keys[..j - 1]))
      && c'.chain[|c'.chain| - 1].childval == Code(i, j - 1)
  {
    var code, n := Code(Longest(a, g.base, g.keys), j - 1), |c.chain|;
    var cxt := c.chain[n - 1];
    assert Linked(a, g.base, g.keys, n - 1 - g.below, cxt);
    ShadowsAt(a, g.base, g.keys, j - 1);
    LeavesContext(a, c);
    var s := State(Unget(c.s.input, cxt.okey), c.s.log, cxt.oldmap);
    c' := Machine(s, c.chain[..n - 2] + [c.chain[n - 2].(childval := code)], true);
    UnwindingUp(a, g, j, c, s, code);
  }

  lemma UnwindsRun(a: Arena, g: Segment, k: Key, c: Machine, rest: Input)
    requires WellFormed(a) && g.base < |a| && Unwinding(a, g, Longest(a, g.base, g.keys), c)
    requires 0 < Longest(a, g.base, g.keys) == Longest(a, g.base, g.keys + [k])
    requires
      var i := Longest(a, g.base, g.keys);
      c.s.input == UngetAll(rest, (g.keys + [k])[i..]) && c.s.dmap == Reached(a, g.base, g.keys[..i])
    ensures Answered(a, -2, c) == (Returned(0), Idle(Meaning(a, g.base, g.keys + [k], rest, c.s.log).1))
  {
    var i, last := Longest(a, g.base, g.keys), |c.chain| - 1;
    assert c.chain[last].okey == g.keys[i - 1] by { assert Linked(a, g.base, g.keys, last - g.below, c.chain[last]); }
    MeaningInside(a, g.base, g.keys, k, rest, c.s.log);
    AnswerRuns(a, c);
  }

  /** The binding that the dispatching keymap took the place of runs. */
  lemma AnswerRuns(a: Arena, c: Machine)
    requires c.chain != [] && Shadows(a, c.s.dmap)
    ensures
      var (e, key) := (Slot(a, c.s.dmap, ANYOTHERKEY), c.chain[|c.chain| - 1].okey);
      Answered(a, -2, c) ==
      (Returned(0), Idle(c.s.(log := c.s.log + [Effect(e, if e == Func(SelfInsert) then key else ANYOTHERKEY)])))
  {
  }

  /** A bound prefix that is not the whole sequence runs from the ANYOTHERKEY slot of the keymap it leads to. */
  lemma MeaningInside(a: Arena, base: nat, keys: seq<Key>, k: Key, rest: Input, log: seq<Event>)
    requires WellFormed(a) && base < |a| && Walk(a, base, keys).Some?
    requires 0 < Longest(a, base, keys) == Longest(a, base, keys + [k])
    ensures
      var i := Longest(a, base, keys);
      var m := Reached(a, base, keys[..i]);
      var e := Slot(a, m, ANYOTHERKEY);
      && Bound(e)
      && Meaning(a, base, keys + [k], rest, log).1 ==
         State(UngetAll(rest, (keys + [k])[i..]),
               log + [Effect(e, if e == Func(SelfInsert) then keys[i - 1] else ANYOTHERKEY)], m)
  {
    var i := Longest(a, base, keys);
    WalkPrefix(a, base, keys, i);
    LongestBound(a, base, keys);
    LongestInner(a, base, keys[..i]);
    assert (keys + [k])[..i] == keys[..i];
    ResolveInside(a, base, keys[..i]);
  }

  lemma ResolveInside(a: Arena, base: nat, keys: seq<Key>)
    requires WellFormed(a) && base < |a| && keys != [] && Walk(a, base, keys).Some?
    ensures Resolve(a, base, keys) == Slot(a, Reached(a, base, keys), ANYOTHERKEY)
  {
  }

  /** The loop goes on with the answer left in the newest context. */
  lemma DrainUp(a: Arena, o: Outcome, c: Machine)
    requires (o == Returned(-1) || o == Returned(-2)) && c.multikey && c.chain != [] && c.chain[|c.chain| - 1].dispatched
    ensures
      var (o', c') := Answered(a, c.chain[|c.chain| - 1].childval, c);
      Drain(a, o, c) == Drain(a, o', c')
  {
  }

  lemma UngetOne(keys: seq<Key>, k: Key, j: nat, rest: Input)
    requires 0 < j <= |keys|
    ensures UngetAll(rest, (keys + [k])[j - 1..]) == Unget(UngetAll(rest, (keys + [k])[j..]), keys[j - 1])
  {
    var all := keys + [k];
    assert all[j - 1..][1..] == all[j..] && all[j - 1..][0] == keys[j - 1];
  }

  /** Backing out runs the longest bound prefix of the segment and pushes back the keys after it. */
  lemma {:induction false} Unwinds(a: Arena, g: Segment, k: Key, j: nat, c: Machine, rest: Input)
    requires WellFormed(a) && g.base < |a| && Unwinding(a, g, j, c)
    requires 0 < Longest(a, g.base, g.keys) <= j && Longest(a, g.base, g.keys + [k]) == Longest(a, g.base, g.keys)
    requires c.s.input == UngetAll(rest, (g.keys + [k])[j..]) && c.s.dmap == Reached(a, g.base, g.keys[..j])
    ensures
      var (o, c') := Answered(a, Code(Longest(a, g.base, g.keys), j), c);
      Drain(a, o, c').1 == Idle(Meaning(a, g.base, g.keys + [k], rest, c.s.log).1)
    decreases j
  {
    if j == Longest(a, g.base, g.keys) {
      UnwindsRun(a, g, k, c, rest);
    } else {
      var c' := UnwindsUp(a, g, j, c);
      UngetOne(g.keys, k, j, rest);
      DrainUp(a, Returned(Code(Longest(a, g.base, g.keys), j - 1)), c');
      Unwinds(a, g, k, j - 1, c', rest);
    }
  }

  lemma ResolveLeaf(a: Arena, base: nat, keys: seq<Key>, k: Key)
    requires WellFormed(a) && base < |a| && Walk(a, base, keys).Some? && Walk(a, base, keys + [k]).None?
    ensures !Slot(a, Reached(a, base, keys), k).Kmap?
    ensures Resolve(a, base, keys + [k]) == Slot(a, Reached(a, base, keys), k)
    ensures !Bound(Slot(a, Reached(a, base, keys), k)) ==> Longest(a, base, keys + [k]) == Longest(a, base, keys)
  {
    assert (keys + [k])[..|keys|] == keys;
  }

  /** The machine with its newest context marked as dispatched. */
  function Marked(c: Machine): Machine
    requires c.chain != []
  {
    var last := |c.chain| - 1;
    c.(chain := c.chain[last := c.chain[last].(dispatched := true)])
  }

  lemma MarkedUnwinding(a: Arena, g: Segment, c: Machine, s: State)
    requires WellFormed(a) && Chained(a, g, c)
    ensures Unwinding(a, g, |g.keys|, Marked(c).(s := s))
  {
    var last := |c.chain| - 1;
    assert Linked(a, g.base, g.keys, last - g.below, c.chain[last]);
    forall j | g.below <= j < |c.chain| ensures Linked(a, g.base, g.keys, j - g.below, Marked(c).chain[j]) {
      assert Linked(a, g.base, g.keys, j - g.below, c.chain[j]);
    }
  }

  /** A key that leads to no keymap and is no stub: the longest bound prefix of the segment runs. */
  lemma Finishes(a: Arena, root: nat, g: Segment, c: Machine)
    requires WellFormed(a) && Chained(a, g, c) && c.s.input.Unread() != []
    requires !Stubbed(a, Here(a, g), ReadOne(c.s.input).0) && !a[Here(a, g)][ReadOne(c.s.input).0].Kmap?
    ensures
      var (k, rest) := ReadOne(c.s.input);
      ReadChar(a, root, c).1 == Idle(Meaning(a, g.base, g.keys + [k], rest, c.s.log).1)
  {
    var k := ReadOne(c.s.input).0;
    NewestIsHere(a, g, c);
    WalkOn(a, g.base, g.keys, k);
    ResolveLeaf(a, g.base, g.keys, k);
    if Bound(Slot(a, Here(a, g), k)) {
      FinishesBound(a, root, g, c);
    } else if Longest(a, g.base, g.keys) > 0 {
      FinishesBack(a, root, g, c);
    } else {
      LongestInner(a, g.base, g.keys);
      assert (g.keys + [k])[..|g.keys|] == g.keys;
    }
  }

  lemma FinishesBound(a: Arena, root: nat, g: Segment, c: Machine)
    requires WellFormed(a) && Chained(a, g, c) && c.s.input.Unread() != []
    requires !Stubbed(a, Here(a, g), ReadOne(c.s.input).0) && Bound(Slot(a, Here(a, g), ReadOne(c.s.input).0))
    requires Walk(a, g.base, g.keys + [ReadOne(c.s.input).0]).None?
    ensures
      var (k, rest) := ReadOne(c.s.input);
      ReadChar(a, root, c).1 == Idle(Meaning(a, g.base, g.keys + [k], rest, c.s.log).1)
  {
    NewestIsHere(a, g, c);
    BoundRead(a, root, c);
    BoundMeaning(a, g.base, g.keys, ReadOne(c.s.input).0, ReadOne(c.s.input).1, c.s.log);
  }

  /** Reading a bound key, whatever the contexts are. */
  lemma BoundRead(a: Arena, root: nat, c: Machine)
    requires c.multikey && c.chain != [] && c.s.input.Unread() != []
    requires
      var (cxt, key) := (c.chain[|c.chain| - 1], ReadOne(c.s.input).0);
      && !cxt.dispatched && c.s.dmap == cxt.dmap
      && !Stubbed(a, cxt.dmap, key) && Bound(Slot(a, cxt.dmap, key))
    ensures
      var (m, (key, rest)) := (c.chain[|c.chain| - 1].dmap, ReadOne(c.s.input));
      ReadChar(a, root, c).1 == Idle(State(rest, c.s.log + [Effect(Slot(a, m, key), key)], m))
  {
  }

  lemma BoundMeaning(a: Arena, base: nat, keys: seq<Key>, k: Key, rest: Input, log: seq<Event>)
    requires WellFormed(a) && base < |a| && Walk(a, base, keys).Some?
    requires Bound(Slot(a, Reached(a, base, keys), k)) && Walk(a, base, keys + [k]).None?
    ensures
      var m := Reached(a, base, keys);
      Meaning(a, base, keys + [k], rest, log).1 == State(rest, log + [Effect(Slot(a, m, k), k)], m)
  {
    var d, all := |keys|, keys + [k];
    ResolveLeaf(a, base, keys, k);
    assert all[..d] == keys && all[d + 1..] == [] && all[..d + 1] == all;
  }

  lemma FinishesBack(a: Arena, root: nat, g: Segment, c: Machine)
    requires WellFormed(a) && Chained(a, g, c) && c.s.input.Unread() != [] && Longest(a, g.base, g.keys) > 0
    requires
      var k := ReadOne(c.s.input).0;
      && !Stubbed(a, Here(a, g), k) && !Slot(a, Here(a, g), k).Kmap? && !Bound(Slot(a, Here(a, g), k))
      && Longest(a, g.base, g.keys + [k]) == Longest(a, g.base, g.keys)
    ensures
      var (k, rest) := ReadOne(c.s.input);
      ReadChar(a, root, c).1 == Idle(Meaning(a, g.base, g.keys + [k], rest, c.s.log).1)
  {
    var (k, rest) := ReadOne(c.s.input);
    var d, back := |g.keys|, Marked(c).(s := c.s.(input := Unget(rest, k)));
    NewestIsHere(a, g, c);
    assert g.keys[..d] == g.keys;
    ShadowsAt(a, g.base, g.keys, d);
    LeafRead(a, root, c);
    MarkedUnwinding(a, g, c, back.s);
    UngetLast(g.keys, k, rest);
    Unwinds(a, g, k, d, back, rest);
  }

  lemma UngetLast(keys: seq<Key>, k: Key, rest: Input)
    ensures UngetAll(rest, (keys + [k])[|keys|..]) == Unget(rest, k)
  {
    assert (keys + [k])[|keys|..] == [k];
    assert UngetAll(rest, [k]) == Unget(UngetAll(rest, []), k);
  }

  /** Reading a key that is not bound: the newest context is marked and answered. */
  lemma LeafRead(a: Arena, root: nat, c: Machine)
    requires c.multikey && c.chain != [] && c.s.input.Unread() != []
    requires
      var (cxt, k) := (c.chain[|c.chain| - 1], ReadOne(c.s.input).0);
      && !cxt.dispatched && !Stubbed(a, cxt.dmap, k) && !Slot(a, cxt.dmap, k).Kmap? && !Bound(Slot(a, cxt.dmap, k))
      && (Shadows(a, cxt.dmap) || cxt.subseqArg)
    ensures
      var (cxt, (k, rest)) := (c.chain[|c.chain| - 1], ReadOne(c.s.input));
      var back := Marked(c).(s := c.s.(input := Unget(rest, k)));
      var (o, c') := Answered(a, if Shadows(a, cxt.dmap) then -2 else -1, back);
      ReadChar(a, root, c) == Drain(a, o, c')
  {
  }

  /** The binding that keymap `m` took the place of runs, with the key that leads to `m`, and `keys` are unread again. */
  function Fallen(a: Arena, m: nat, key: Key, keys: seq<Key>, rest: Input, log: seq<Event>): State {
    SubseqResult(a, -2, m, key, false, State(UngetAll(rest, keys), log, m)).1
  }

  /** What becomes of the keys since the last stub, `key` being the one before them. */
  function SegmentEnd(a: Arena, m: nat, key: Key, keys: seq<Key>, rest: Input, log: seq<Event>): State
    requires WellFormed(a) && m < |a| && keys != []
  {
    if |keys| == 1 && Longest(a, m, keys) == 0 && Shadows(a, m) then Fallen(a, m, key, keys, rest, log)
    else Meaning(a, m, keys, rest, log).1
  }

  /** The leaf a stub leads to. */
  lemma FinishesStub(a: Arena, root: nat, g: Segment, c: Machine)
    requires WellFormed(a) && Chained(a, g, c) && c.s.input.Unread() != []
    requires Stubbed(a, Here(a, g), ReadOne(c.s.input).0)
    requires !a[Here(a, g)][Taken(a, Here(a, g), ReadOne(c.s.input).0)].Kmap?
    ensures
      var (key, rest) := ReadOne(c.s.input);
      var m := Here(a, g);
      ReadChar(a, root, c).1 ==
      Idle(SegmentEnd(a, m, g.keys[|g.keys| - 1], [Taken(a, m, key)], rest, c.s.log))
  {
    var (key, rest) := ReadOne(c.s.input);
    NewestIsHere(a, g, c);
    StubLeafRead(a, root, c);
    LeafEnd(a, Here(a, g), g.keys[|g.keys| - 1], Taken(a, Here(a, g), key), rest, c.s.log);
  }

  /** Reading it, whatever the contexts are. */
  lemma StubLeafRead(a: Arena, root: nat, c: Machine)
    requires c.multikey && c.chain != [] && c.s.input.Unread() != []
    requires
      var (cxt, key) := (c.chain[|c.chain| - 1], ReadOne(c.s.input).0);
      && !cxt.dispatched && c.s.dmap == cxt.dmap
      && Stubbed(a, cxt.dmap, key) && !Slot(a, cxt.dmap, Taken(a, cxt.dmap, key)).Kmap?
    ensures
      var (cxt, (key, rest)) := (c.chain[|c.chain| - 1], ReadOne(c.s.input));
      var (m, k) := (cxt.dmap, Taken(a, cxt.dmap, key));
      var e := Slot(a, m, k);
      ReadChar(a, root, c).1 == Idle(
        if Bound(e) then State(rest, c.s.log + [Effect(e, k)], m)
        else if Shadows(a, m) then SubseqResult(a, -2, m, cxt.okey, false, State(Unget(rest, k), c.s.log, m)).1
        else State(rest, c.s.log, m))
  {
  }

  /** A single key that leads to no keymap. */
  lemma LeafEnd(a: Arena, m: nat, key: Key, k: Key, rest: Input, log: seq<Event>)
    requires WellFormed(a) && m < |a| && !a[m][k].Kmap?
    ensures
      var e := Slot(a, m, k);
      SegmentEnd(a, m, key, [k], rest, log) ==
      if Bound(e) then State(rest, log + [Effect(e, k)], m)
      else if Shadows(a, m) then SubseqResult(a, -2, m, key, false, State(Unget(rest, k), log, m)).1
      else State(rest, log, m)
  {
    assert [k][..0] == [] && [k][..1] == [k] && [k][1..] == [];
    assert Walk(a, m, []) == Some(m) && Longest(a, m, []) == 0;
    assert UngetAll(rest, [k]) == Unget(UngetAll(rest, []), k);
  }

  // ----- Whole sequences -----

  /** The machine after one pass of rl_callback_read_char. */
  function Next(a: Arena, root: nat, c: Machine): Machine {
    ReadChar(a, root, c).1
  }

  function Iterated<T>(f: T -> T, x: T, n: nat): T
    decreases n
  {
    if n == 0 then x else Iterated(f, f(x), n - 1)
  }

  lemma {:induction false} IteratedAdd<T>(f: T -> T, x: T, n: nat, n': nat)
    ensures Iterated(f, x, n + n') == Iterated(f, Iterated(f, x, n), n')
    decreases n
  {
    if n > 0 { IteratedAdd(f, f(x), n - 1, n'); }
  }

  function Pass(a: Arena, root: nat): Machine -> Machine { c => Next(a, root, c) }

  /** `n` passes of rl_callback_read_char. */
  function Steps(a: Arena, root: nat, c: Machine, n: nat): Machine { Iterated(Pass(a, root), c, n) }

  lemma StepsFirst(a: Arena, root: nat, c: Machine, n: nat)
    ensures Steps(a, root, c, n + 1) == Steps(a, root, Next(a, root, c), n)
  {
  }

  lemma StepsAdd(a: Arena, root: nat, c: Machine, n: nat, mid: Machine, n': nat, end: Machine)
    requires Steps(a, root, c, n) == mid && Steps(a, root, mid, n') == end
    ensures Steps(a, root, c, n + n') == end
  {
    IteratedAdd(Pass(a, root), c, n, n');
  }

  /** The last stub is met before the keymaps are left, in a keymap that has it. */
  lemma {:induction false} StubInside(a: Arena, m: nat, u: seq<Key>, n: nat)
    requires WellFormed(a) && m < |a| && LeavesAt(a, m, Lowered(a, m, u), n)
    ensures LastStub(a, m, u) < n
    ensures
      var p := LastStub(a, m, u);
      p >= 0 ==> Stubbed(a, Reached(a, m, Lowered(a, m, u)[..p]), u[p])
    decreases |u|
  {
    var k, t, low := Taken(a, m, u[0]), u[1..], Lowered(a, m, u);
    assert u == [u[0]] + t;
    LoweredFirst(a, m, u[0], t);
    assert low[..0] == [] && Walk(a, m, []) == Some(m);
    if a[m][k].Kmap? {
      var c := a[m][k].ptr;
      LeavesFirst(a, m, k, Lowered(a, c, t), n);
      StubInside(a, c, t, n - 1);
      var q := LastStub(a, c, t);
      if q >= 0 {
        ReachedBelow(a, m, k, Lowered(a, c, t), q);
      }
    }
  }

  /** Where callback mode ends up when `low` are the keys still looked up and `p` is the last stub among them. */
  ghost function EndOf(a: Arena, g: Segment, low: seq<Key>, p: int, rest: Input, log: seq<Event>): Machine
    requires WellFormed(a) && g.base < |a| && g.keys != [] && low != [] && p < |low|
  {
    if p < 0 then Idle(Meaning(a, g.base, g.keys + low, rest, log).1)
    else
      var before := g.keys + low[..p];
      Idle(SegmentEnd(a, Reached(a, Here(a, g), low[..p]), before[|before| - 1], low[p..], rest, log))
  }

  /** The segment a key makes ends in the keymap the key leads to. */
  lemma HereNext(a: Arena, g: Segment, key: Key)
    requires WellFormed(a) && g.base < |a| && Walk(a, g.base, g.keys).Some?
    requires a[Here(a, g)][Taken(a, Here(a, g), key)].Kmap?
    ensures Here(a, Extended(a, g, key)) == a[Here(a, g)][Taken(a, Here(a, g), key)].ptr
    ensures Walk(a, Extended(a, g, key).base, Extended(a, g, key).keys).Some?
  {
    var m, k := Here(a, g), Taken(a, Here(a, g), key);
    WalkOn(a, g.base, g.keys, k);
    WalkOne(a, m, k);
  }

  /** The next `n` keys of the input end a sequence typed in keymap `m`: what is looked up, the last stub and the rest. */
  ghost predicate Typed(a: Arena, m: nat, input: Input, n: nat, low: seq<Key>, p: int, rest: Input)
    requires WellFormed(a) && m < |a|
  {
    && LeavesAt(a, m, Lowered(a, m, input.Unread()), n) && low == Lowered(a, m, input.Unread())[..n]
    && p == LastStub(a, m, input.Unread()) && p < n && rest == Skip(input, n)
  }

  lemma TypedIs(a: Arena, m: nat, input: Input, n: nat)
    requires WellFormed(a) && m < |a| && LeavesAt(a, m, Lowered(a, m, input.Unread()), n)
    ensures Typed(a, m, input, n, Lowered(a, m, input.Unread())[..n], LastStub(a, m, input.Unread()), Skip(input, n))
  {
    StubInside(a, m, input.Unread(), n);
  }

  /** By its first key, when more follow. */
  lemma TypedMore(a: Arena, m: nat, input: Input, n: nat, low: seq<Key>, p: int, rest: Input)
    returns (low': seq<Key>, q: int)
    requires WellFormed(a) && m < |a| && n >= 2 && Typed(a, m, input, n, low, p, rest)
    ensures
      var (key, more) := ReadOne(input);
      var k := Taken(a, m, key);
      && a[m][k].Kmap? && low == [k] + low' && |low'| == n - 1 && q < n - 1
      && p == (if q >= 0 then q + 1 else if Stubbed(a, m, key) then 0 else -1)
      && Typed(a, a[m][k].ptr, more, n - 1, low', q, rest)
  {
    var (key, more) := ReadOne(input);
    assert input.Unread() == [key] + more.Unread();
    KeysFirst(a, m, key, more.Unread(), n);
    var c := a[m][Taken(a, m, key)].ptr;
    low', q := Lowered(a, c, more.Unread())[..n - 1], LastStub(a, c, more.Unread());
    assert Skip(input, n) == Skip(more, n - 1);
    TypedIs(a, c, more, n - 1);
  }

  /** When it is its only key. */
  lemma TypedLast(a: Arena, m: nat, input: Input, low: seq<Key>, p: int, rest: Input)
    requires WellFormed(a) && m < |a| && Typed(a, m, input, 1, low, p, rest)
    ensures
      var (key, more) := ReadOne(input);
      && !a[m][Taken(a, m, key)].Kmap? && low == [Taken(a, m, key)] && rest == more
      && p == if Stubbed(a, m, key) then 0 else -1
  {
    var (key, more) := ReadOne(input);
    assert input.Unread() == [key] + more.Unread();
    KeyAlone(a, m, key, more.Unread());
    assert Skip(input, 1) == Skip(more, 0) == more;
  }

  lemma FinishedSame(a: Arena, g: Segment, key: Key, low: seq<Key>, q: int, rest: Input, log: seq<Event>)
    requires WellFormed(a) && g.base < |a| && g.keys != [] && Walk(a, g.base, g.keys).Some?
    requires a[Here(a, g)][Taken(a, Here(a, g), key)].Kmap? && low != [] && q < |low|
    ensures
      var k := Taken(a, Here(a, g), key);
      var p := if q >= 0 then q + 1 else if Stubbed(a, Here(a, g), key) then 0 else -1;
      EndOf(a, g, [k] + low, p, rest, log) == EndOf(a, Extended(a, g, key), low, q, rest, log)
  {
    HereNext(a, g, key);
    if q >= 0 {
      SamePastStub(a, g, key, low, q, rest, log);
    } else if Stubbed(a, Here(a, g), key) {
      SameAtStub(a, g, key, low, rest, log);
    } else {
      SameInside(a, g, key, low, rest, log);
    }
  }

  lemma SameInside(a: Arena, g: Segment, key: Key, low: seq<Key>, rest: Input, log: seq<Event>)
    requires WellFormed(a) && g.base < |a| && g.keys != [] && !Stubbed(a, Here(a, g), key) && low != []
    ensures EndOf(a, g, [key] + low, -1, rest, log) == EndOf(a, Extended(a, g, key), low, -1, rest, log)
  {
    assert g.keys + ([key] + low) == (g.keys + [key]) + low;
  }

  lemma SamePastStub(a: Arena, g: Segment, key: Key, low: seq<Key>, q: nat, rest: Input, log: seq<Event>)
    requires WellFormed(a) && g.base < |a| && g.keys != [] && Walk(a, g.base, g.keys).Some?
    requires a[Here(a, g)][Taken(a, Here(a, g), key)].Kmap? && low != [] && q < |low|
    ensures
      var k := Taken(a, Here(a, g), key);
      EndOf(a, g, [k] + low, q + 1, rest, log) == EndOf(a, Extended(a, g, key), low, q, rest, log)
  {
    var m, k, g' := Here(a, g), Taken(a, Here(a, g), key), Extended(a, g, key);
    var all := [k] + low;
    HereNext(a, g, key);
    ReachedBelow(a, m, k, low, q);
    SplitAt(k, low, q);
    LastKey(g.keys, g'.keys, k, low, q);
  }

  lemma SplitAt(k: Key, low: seq<Key>, q: nat)
    requires q < |low|
    ensures ([k] + low)[..q + 1] == [k] + low[..q] && ([k] + low)[q + 1..] == low[q..]
  {
  }

  /** The key before place `q` is the same whether `k` counts as the last of one part or the first of the next. */
  lemma LastKey(x: seq<Key>, y: seq<Key>, k: Key, low: seq<Key>, q: nat)
    requires q < |low| && y != [] && y[|y| - 1] == k
    ensures
      var (v, w) := (x + ([k] + low)[..q + 1], y + low[..q]);
      v[|v| - 1] == w[|w| - 1]
  {
    SplitAt(k, low, q);
  }

  lemma SameAtStub(a: Arena, g: Segment, key: Key, low: seq<Key>, rest: Input, log: seq<Event>)
    requires WellFormed(a) && g.base < |a| && g.keys != [] && Walk(a, g.base, g.keys).Some?
    requires Stubbed(a, Here(a, g), key) && low != []
    ensures
      var k := Taken(a, Here(a, g), key);
      EndOf(a, g, [k] + low, 0, rest, log) == EndOf(a, Extended(a, g, key), low, -1, rest, log)
  {
    var k := Taken(a, Here(a, g), key);
    assert ([k] + low)[..0] == [] && ([k] + low)[0..] == [k] + low;
    assert Walk(a, Here(a, g), []) == Some(Here(a, g));
  }

  /** Starting a sequence takes one pass, after which the machine is inside it. */
  lemma StartsOne(a: Arena, root: nat, s: State, n: nat) returns (c: Machine)
    requires WellFormed(a) && root < |a| && s.input.Unread() != []
    requires a[root][Taken(a, root, ReadOne(s.input).0)].Kmap?
    ensures Chained(a, Segment(root, [Taken(a, root, ReadOne(s.input).0)], 0), c)
    ensures c.s.input == ReadOne(s.input).1 && c.s.log == s.log
    ensures Steps(a, root, Idle(s), n + 1) == Steps(a, root, c, n)
  {
    c := Next(a, root, Idle(s));
    Starts(a, root, s);
    StepsFirst(a, root, Idle(s), n);
  }

  /** So does going on with one. */
  lemma ContinuesOne(a: Arena, root: nat, g: Segment, c: Machine, n: nat) returns (c': Machine)
    requires WellFormed(a) && Chained(a, g, c) && c.s.input.Unread() != []
    requires a[Here(a, g)][Taken(a, Here(a, g), ReadOne(c.s.input).0)].Kmap?
    ensures Chained(a, Extended(a, g, ReadOne(c.s.input).0), c')
    ensures c'.s.input == ReadOne(c.s.input).1 && c'.s.log == c.s.log && |c'.chain| == |c.chain| + 1
    ensures Steps(a, root, c, n + 1) == Steps(a, root, c', n)
  {
    c' := Next(a, root, c);
    Continues(a, root, g, c);
    StepsFirst(a, root, c, n);
  }

  /** The last key of a sequence. */
  lemma FeedsLast(a: Arena, root: nat, g: Segment, c: Machine, low: seq<Key>, p: int, rest: Input)
    requires WellFormed(a) && Chained(a, g, c) && Typed(a, Here(a, g), c.s.input, 1, low, p, rest)
    ensures low != [] && p < |low| && Steps(a, root, c, 1) == EndOf(a, g, low, p, rest, c.s.log)
  {
    var m, key := Here(a, g), ReadOne(c.s.input).0;
    TypedLast(a, m, c.s.input, low, p, rest);
    StepsFirst(a, root, c, 0);
    if Stubbed(a, m, key) {
      FinishesStub(a, root, g, c);
      assert low[..0] == [] && low[0..] == low && g.keys + [] == g.keys;
      assert Walk(a, m, []) == Some(m);
    } else {
      Finishes(a, root, g, c);
    }
  }

  /** Feeding the rest of a key sequence, one key a call. */
  lemma {:induction false} Feeds(a: Arena, root: nat, g: Segment, c: Machine, n: nat, low: seq<Key>, p: int, rest: Input)
    requires WellFormed(a) && Chained(a, g, c) && Typed(a, Here(a, g), c.s.input, n, low, p, rest)
    ensures low != [] && p < |low| && Steps(a, root, c, n) == EndOf(a, g, low, p, rest, c.s.log)
    decreases n
  {
    if n == 1 {
      FeedsLast(a, root, g, c, low, p, rest);
    } else {
      var key := ReadOne(c.s.input).0;
      var low', q := TypedMore(a, Here(a, g), c.s.input, n, low, p, rest);
      HereNext(a, g, key);
      var c' := ContinuesOne(a, root, g, c, n - 1);
      Feeds(a, root, Extended(a, g, key), c', n - 1, low', q, rest);
      FinishedSame(a, g, key, low', q, rest, c.s.log);
    }
  }

  /** Where callback mode ends up, `p` being the place of the last stub in `keys`, -1 if there is none. */
  function CallbackEnd(a: Arena, root: nat, keys: seq<Key>, p: int, rest: Input, log: seq<Event>): State
    requires WellFormed(a) && root < |a| && keys != [] && p < |keys|
  {
    if p <= 0 then Meaning(a, root, keys, rest, log).1
    else SegmentEnd(a, Reached(a, root, keys[..p]), keys[p - 1], keys[p..], rest, log)
  }

  lemma CallbackAtOnce(a: Arena, root: nat, s: State, n: nat, low: seq<Key>, p: int, rest: Input)
    requires WellFormed(a) && root < |a| && !Shadows(a, root) && n == 1 && Typed(a, root, s.input, n, low, p, rest)
    ensures low != [] && p <= 0 && Steps(a, root, Idle(s), n) == Idle(CallbackEnd(a, root, low, p, rest, s.log))
  {
    var key := ReadOne(s.input).0;
    TypedLast(a, root, s.input, low, p, rest);
    LeafEnd(a, root, key, low[0], rest, s.log);
    StepsFirst(a, root, Idle(s), 0);
  }

  lemma StartEnd(a: Arena, root: nat, k: Key, low: seq<Key>, p: int, q: int, rest: Input, log: seq<Event>)
    requires WellFormed(a) && root < |a| && a[root][k].Kmap? && low != [] && q < |low|
    requires if q >= 0 then p == q + 1 else p <= 0
    ensures EndOf(a, Segment(root, [k], 0), low, q, rest, log) == Idle(CallbackEnd(a, root, [k] + low, p, rest, log))
  {
    WalkOne(a, root, k);
    if q >= 0 {
      ReachedBelow(a, root, k, low, q);
      SplitAt(k, low, q);
      assert ([k] + low[..q])[q] == ([k] + low)[q];
    }
  }

  /** The first key of a sequence of two or more. */
  lemma StartsTyped(a: Arena, root: nat, s: State, n: nat, low: seq<Key>, p: int, rest: Input)
    returns (k: Key, c: Machine, low': seq<Key>, q: int)
    requires WellFormed(a) && root < |a| && n >= 2 && Typed(a, root, s.input, n, low, p, rest)
    ensures a[root][k].Kmap? && low == [k] + low' && |low'| == n - 1 && q < n - 1
    ensures if q >= 0 then p == q + 1 else p <= 0
    ensures Chained(a, Segment(root, [k], 0), c) && c.s.log == s.log
    ensures Typed(a, Here(a, Segment(root, [k], 0)), c.s.input, n - 1, low', q, rest)
    ensures Steps(a, root, Idle(s), n) == Steps(a, root, c, n - 1)
  {
    low', q := TypedMore(a, root, s.input, n, low, p, rest);
    k := Taken(a, root, ReadOne(s.input).0);
    WalkOne(a, root, k);
    c := StartsOne(a, root, s, n - 1);
  }

  lemma CallbackLater(a: Arena, root: nat, s: State, n: nat, low: seq<Key>, p: int, rest: Input)
    requires WellFormed(a) && root < |a| && n >= 2 && Typed(a, root, s.input, n, low, p, rest)
    ensures low != [] && p < |low| && Steps(a, root, Idle(s), n) == Idle(CallbackEnd(a, root, low, p, rest, s.log))
  {
    var k, c, low', q := StartsTyped(a, root, s, n, low, p, rest);
    Feeds(a, root, Segment(root, [k], 0), c, n - 1, low', q, rest);
    StartEnd(a, root, k, low', p, q, rest, s.log);
  }

  /** Fed one key a call, the chain is empty again once the sequence has ended. */
  lemma CallbackMeans(a: Arena, root: nat, s: State, n: nat, low: seq<Key>, p: int, rest: Input)
    requires WellFormed(a) && root < |a| && (n >= 2 || !Shadows(a, root)) && Typed(a, root, s.input, n, low, p, rest)
    ensures low != [] && p < |low| && Steps(a, root, Idle(s), n) == Idle(CallbackEnd(a, root, low, p, rest, s.log))
  {
    if n == 1 {
      CallbackAtOnce(a, root, s, n, low, p, rest);
    } else {
      CallbackLater(a, root, s, n, low, p, rest);
    }
  }

  // ----- The two agree -----

  /**
    What keys mean, seen from keymap `mp` that the first `p` of them lead to:
    their longest bound prefix is `longest`, the last keymap `reached`.
   */
  ghost predicate SeenAs(a: Arena, p: nat, mp: nat, seg: seq<Key>, key: Key, rest: Input, log: seq<Event>,
                         longest: nat, reached: nat, meaning: (Outcome, State))
    requires WellFormed(a) && mp < |a| && seg != []
  {
    var i := Longest(a, mp, seg);
    && reached == Reached(a, mp, seg[..|seg| - 1])
    && if i > 0 then longest == p + i && meaning == Meaning(a, mp, seg, rest, log)
       else if Shadows(a, mp) then longest == p && meaning == (Returned(0), Fallen(a, mp, key, seg, rest, log))
       else longest < p
  }

  ghost predicate SeenFrom(a: Arena, m: nat, keys: seq<Key>, p: nat, mp: nat, seg: seq<Key>, key: Key,
      rest: Input, log: seq<Event>)
    requires WellFormed(a) && m < |a| && mp < |a| && keys != [] && seg != []
  {
    SeenAs(a, p, mp, seg, key, rest, log,
           Longest(a, m, keys), Reached(a, m, keys[..|keys| - 1]), Meaning(a, m, keys, rest, log))
  }

  /** One key more in front. */
  lemma SeenMore(a: Arena, p: nat, mp: nat, seg: seq<Key>, key: Key, rest: Input, log: seq<Event>, longest: nat,
                 longest': nat, reached: nat, meaning: (Outcome, State), meaning': (Outcome, State))
    requires WellFormed(a) && mp < |a| && seg != [] && p > 0
    requires SeenAs(a, p, mp, seg, key, rest, log, longest, reached, meaning)
    requires if longest > 0 then longest' == longest + 1 && meaning' == meaning else longest' <= 1
    ensures SeenAs(a, p + 1, mp, seg, key, rest, log, longest', reached, meaning')
  {
  }

  lemma SeenHere(a: Arena, m: nat, k: Key, t: seq<Key>, rest: Input, log: seq<Event>)
    requires WellFormed(a) && m < |a| && a[m][k].Kmap? && t != []
    ensures SeenFrom(a, m, [k] + t, 1, a[m][k].ptr, t, k, rest, log)
  {
    var c := a[m][k].ptr;
    ReachedBelow(a, m, k, t, |t| - 1);
    LongestFirst(a, m, k, t);
    if Longest(a, c, t) > 0 {
      MeaningBelow(a, m, k, t, rest, log);
    } else if Shadows(a, c) {
      MeaningHere(a, m, k, t, rest, log);
    }
  }

  lemma MeaningAbove(a: Arena, m: nat, k: Key, t: seq<Key>, rest: Input, log: seq<Event>)
    requires WellFormed(a) && m < |a| && a[m][k].Kmap? && t != []
    ensures
      var (c, keys) := (a[m][k].ptr, [k] + t);
      && Reached(a, m, keys[..|keys| - 1]) == Reached(a, c, t[..|t| - 1])
      && if Longest(a, c, t) > 0 then
           Longest(a, m, keys) == Longest(a, c, t) + 1 && Meaning(a, m, keys, rest, log) == Meaning(a, c, t, rest, log)
         else Longest(a, m, keys) <= 1
  {
    ReachedBelow(a, m, k, t, |t| - 1);
    LongestFirst(a, m, k, t);
    if Longest(a, a[m][k].ptr, t) > 0 {
      MeaningBelow(a, m, k, t, rest, log);
    }
  }

  lemma SeenAbove(a: Arena, m: nat, k: Key, t: seq<Key>, p: nat, mp: nat, seg: seq<Key>, key: Key, rest: Input, log: seq<Event>)
    requires WellFormed(a) && m < |a| && mp < |a| && a[m][k].Kmap? && t != [] && seg != [] && p > 0
    requires SeenFrom(a, a[m][k].ptr, t, p, mp, seg, key, rest, log)
    ensures SeenFrom(a, m, [k] + t, p + 1, mp, seg, key, rest, log)
  {
    var c := a[m][k].ptr;
    MeaningAbove(a, m, k, t, rest, log);
    SeenMore(a, p, mp, seg, key, rest, log, Longest(a, c, t), Longest(a, m, [k] + t),
             Reached(a, c, t[..|t| - 1]), Meaning(a, c, t, rest, log), Meaning(a, m, [k] + t, rest, log));
  }

  /** A walk of at least one key, by its first key. */
  lemma WalkedFirst(a: Arena, m: nat, keys: seq<Key>, p: nat)
    requires WellFormed(a) && m < |a| && 0 < p <= |keys| && Walk(a, m, keys[..p]).Some?
    ensures a[m][keys[0]].Kmap?
    ensures
      var (c, t) := (a[m][keys[0]].ptr, keys[1..]);
      Walk(a, c, t[..p - 1]).Some? && Reached(a, m, keys[..p]) == Reached(a, c, t[..p - 1])
  {
    var k, t := keys[0], keys[1..];
    assert keys[..p] == [k] + t[..p - 1] && keys[..p][..1] == [] + [k];
    WalkPrefix(a, m, keys[..p], 1);
    assert Walk(a, m, []) == Some(m);
    WalkOn(a, m, [], k);
    WalkFirst(a, m, k, t[..p - 1]);
  }

  lemma {:induction false} MeaningAfter(a: Arena, m: nat, keys: seq<Key>, p: nat, rest: Input, log: seq<Event>)
    requires WellFormed(a) && m < |a| && 0 < p < |keys| && Walk(a, m, keys[..p]).Some?
    ensures SeenFrom(a, m, keys, p, Reached(a, m, keys[..p]), keys[p..], keys[p - 1], rest, log)
    decreases p
  {
    var k, t := keys[0], keys[1..];
    WalkedFirst(a, m, keys, p);
    assert keys == [k] + t && keys[p..] == t[p - 1..];
    if p == 1 {
      assert t[..0] == [] && t[0..] == t;
      SeenHere(a, m, k, t, rest, log);
    } else {
      MeaningAfter(a, a[m][k].ptr, t, p - 1, rest, log);
      SeenAbove(a, m, k, t, p - 1, Reached(a, m, keys[..p]), keys[p..], keys[p - 1], rest, log);
    }
  }

  lemma LeafAtOnce(a: Arena, root: nat, s: State)
    requires WellFormed(a) && root < |a| && LeavesAt(a, root, Lowered(a, root, s.input.Unread()), 1)
    ensures Steps(a, root, Idle(s), 1) == Idle(DispatchNext(a, root, s).1)
  {
    TypedIs(a, root, s.input, 1);
    TypedLast(a, root, s.input, Lowered(a, root, s.input.Unread())[..1], LastStub(a, root, s.input.Unread()), Skip(s.input, 1));
    StepsFirst(a, root, Idle(s), 0);
  }

  /**
    The last keymap in which dispatch knows of no binding passed on the way,
    the root or the one of the last stub, has an ANYOTHERKEY binding; two or
    more keys follow in it, and no prefix of them is bound.
   */
  ghost predicate Forgets(a: Arena, root: nat, keys: seq<Key>, p: int)
    requires WellFormed(a) && root < |a| && p < |keys| && keys != []
  {
    var (from, m) := if p <= 0 then (0, root) else (p, Reached(a, root, keys[..p]));
    Shadows(a, m) && |keys| - from >= 2 && Longest(a, m, keys[from..]) == 0
  }

  /** A stub was met on the way: both forms know only what came since. */
  lemma AgreesPastStub(a: Arena, root: nat, keys: seq<Key>, p: nat, rest: Input, log: seq<Event>)
    requires WellFormed(a) && root < |a| && 0 < p < |keys| && Walk(a, root, keys[..p]).Some?
    ensures CallbackEnd(a, root, keys, p, rest, log) == BackedPast(a, root, false, keys, p, rest, log).1
      <==> !Forgets(a, root, keys, p)
  {
    MeaningAfter(a, root, keys, p, rest, log);
  }

  /** No stub was met, or only by the first key. */
  lemma AgreesFromRoot(a: Arena, root: nat, keys: seq<Key>, p: int, input: Input, log: seq<Event>)
    requires WellFormed(a) && root < |a| && |keys| >= 1 && p <= 0 && (|keys| >= 2 || !Shadows(a, root))
    requires Fits(input) && |keys| <= |input.Unread()|
    ensures
      var rest := Skip(input, |keys|);
      CallbackEnd(a, root, keys, p, rest, log) == BackedPast(a, root, false, keys, p, rest, log).1
      <==> !Forgets(a, root, keys, p)
  {
    PushBackRing(input, |keys|, keys);
    assert keys[0..] == keys;
  }

  lemma EndsAgree(a: Arena, root: nat, low: seq<Key>, p: int, input: Input, n: nat, log: seq<Event>)
    requires WellFormed(a) && root < |a| && LeavesAt(a, root, low, n) && p < n && (n >= 2 || !Shadows(a, root))
    requires Fits(input) && n <= |input.Unread()|
    ensures
      var (keys, rest) := (low[..n], Skip(input, n));
      CallbackEnd(a, root, keys, p, rest, log) == BackedPast(a, root, false, keys, p, rest, log).1
      <==> !Forgets(a, root, keys, p)
  {
    var keys := low[..n];
    if p > 0 {
      WalkPrefix(a, root, low[..n - 1], p);
      assert low[..n - 1][..p] == keys[..p];
      AgreesPastStub(a, root, keys, p, Skip(input, n), log);
    } else {
      AgreesFromRoot(a, root, keys, p, input, log);
    }
  }

  /**
    Callback mode against recursive dispatch. After exactly the keys recursive
    dispatch reads, the chain of contexts is empty again and the commands run,
    the unread input and the dispatching keymap are the same, exactly when the
    keys are not among those that one form forgets and the other does not:
    got_subseq is computed from different keymaps.
   */
  lemma CallbackAgrees(a: Arena, root: nat, s: State, n: nat)
    requires WellFormed(a) && Settled(a) && root < |a| && Fits(s.input)
    requires LeavesAt(a, root, Lowered(a, root, s.input.Unread()), n)
    ensures
      var u := s.input.Unread();
      && LastStub(a, root, u) < n
      && (Steps(a, root, Idle(s), n) == Idle(DispatchNext(a, root, s).1)
          <==> !Forgets(a, root, Lowered(a, root, u)[..n], LastStub(a, root, u)))
  {
    var u := s.input.Unread();
    StubInside(a, root, u, n);
    if n == 1 && Shadows(a, root) {
      LeafAtOnce(a, root, s);
    } else {
      TypedIs(a, root, s.input, n);
      CallbackMeans(a, root, s, n, Lowered(a, root, u)[..n], LastStub(a, root, u), Skip(s.input, n));
      DispatchNextMeans(a, root, s, n);
      EndsAgree(a, root, Lowered(a, root, u), LastStub(a, root, u), s.input, n, s.log);
    }
  }

  /** Where it forgets, callback mode ends up somewhere else. */
  lemma ForgettingDiffers(a: Arena, root: nat, s: State, n: nat)
    requires WellFormed(a) && Settled(a) && root < |a| && Fits(s.input)
    requires LeavesAt(a, root, Lowered(a, root, s.input.Unread()), n) && LastStub(a, root, s.input.Unread()) < n
    requires Forgets(a, root, Lowered(a, root, s.input.Unread())[..n], LastStub(a, root, s.input.Unread()))
    ensures Steps(a, root, Idle(s), n) != Idle(DispatchNext(a, root, s).1)
  {
    CallbackAgrees(a, root, s, n);
  }

  // ----- Whole sessions -----

  /** Recursive dispatch of the next key sequence leads from `s` to `s'`. */
  ghost predicate Dispatched(a: Arena, root: nat, s: State, s': State) {
    DispatchNext(a, root, s).0 != Waiting && DispatchNext(a, root, s).1 == s'
  }

  /** The states before, between and behind any number of key sequences dispatched one after the other. */
  ghost predicate Session(a: Arena, root: nat, states: seq<State>) {
    states != [] && forall i | 0 < i < |states| :: Dispatched(a, root, states[i - 1], states[i])
  }

  /** Neither the root nor a keymap with a stub has an ANYOTHERKEY binding. */
  ghost predicate NothingToForget(a: Arena, root: nat) {
    && !Shadows(a, root)
    && (forall m: nat, k: Key | Stubbed(a, m, k) :: !Shadows(a, m))
  }

  /** The next sequence of `u` is not among those on which the two forms differ. */
  ghost predicate Remembers(a: Arena, root: nat, u: seq<Key>)
    requires WellFormed(a) && root < |a|
  {
    forall n: nat | LeavesAt(a, root, Lowered(a, root, u), n) && LastStub(a, root, u) < n ::
      !Forgets(a, root, Lowered(a, root, u)[..n], LastStub(a, root, u))
  }

  lemma InputRunsOutNext(a: Arena, root: nat, s: State)
    requires WellFormed(a) && Settled(a) && root < |a| && s.input.Unread() != []
    requires Walk(a, root, Lowered(a, root, s.input.Unread())).Some?
    ensures DispatchNext(a, root, s).0 == Waiting && DispatchNext(a, root, s).1.log == s.log
  {
    var (key, rest) := ReadOne(s.input);
    assert [key] + rest.Unread() == s.input.Unread();
    InputRunsOut(a, key, root, false, s.(input := rest, dmap := root));
  }

  /** Some number of callbacks leads from one idle state to another. */
  ghost predicate Reaches(a: Arena, root: nat, s: State, s': State) {
    exists n: nat :: Steps(a, root, Idle(s), n) == Idle(s')
  }

  lemma ReachesSelf(a: Arena, root: nat, s: State)
    ensures Reaches(a, root, s, s)
  {
    assert Steps(a, root, Idle(s), 0) == Idle(s);
  }

  lemma ReachesOn(a: Arena, root: nat, s: State, s': State, s'': State)
    requires Reaches(a, root, s, s') && Reaches(a, root, s', s'')
    ensures Reaches(a, root, s, s'')
  {
    var n: nat :| Steps(a, root, Idle(s), n) == Idle(s');
    var n': nat :| Steps(a, root, Idle(s'), n') == Idle(s'');
    StepsAdd(a, root, Idle(s), n, Idle(s'), n', Idle(s''));
  }

  lemma NextAgrees(a: Arena, root: nat, s: State, s': State)
    requires WellFormed(a) && Settled(a) && root < |a| && Fits(s.input)
    requires Dispatched(a, root, s, s') && Remembers(a, root, s.input.Unread())
    ensures Fits(s'.input) && Reaches(a, root, s, s')
  {
    var n := WalkEnds(a, root, Lowered(a, root, s.input.Unread()));
    if n == 0 {
      InputRunsOutNext(a, root, s);
    } else {
      CallbackAgrees(a, root, s, n);
      NextFits(a, root, s, n);
    }
  }

  lemma NeverForgets(a: Arena, root: nat, u: seq<Key>, n: nat)
    requires WellFormed(a) && root < |a| && NothingToForget(a, root) && LeavesAt(a, root, Lowered(a, root, u), n)
    ensures LastStub(a, root, u) < n && !Forgets(a, root, Lowered(a, root, u)[..n], LastStub(a, root, u))
  {
    StubInside(a, root, u, n);
    var p := LastStub(a, root, u);
    if p > 0 {
      assert Lowered(a, root, u)[..n][..p] == Lowered(a, root, u)[..p];
    }
  }

  lemma NextFits(a: Arena, root: nat, s: State, n: nat)
    requires WellFormed(a) && Settled(a) && root < |a| && Fits(s.input)
    requires LeavesAt(a, root, Lowered(a, root, s.input.Unread()), n)
    ensures Fits(DispatchNext(a, root, s).1.input)
  {
    DispatchNextMeans(a, root, s, n);
  }

  /** On a keymap with nothing to forget no sequence is forgotten. */
  lemma NothingForgotten(a: Arena, root: nat, u: seq<Key>)
    requires WellFormed(a) && root < |a| && NothingToForget(a, root)
    ensures Remembers(a, root, u)
  {
    forall n: nat | LeavesAt(a, root, Lowered(a, root, u), n) && LastStub(a, root, u) < n
      ensures !Forgets(a, root, Lowered(a, root, u)[..n], LastStub(a, root, u))
    {
      NeverForgets(a, root, u, n);
    }
  }

  lemma {:induction false} SessionReaches(a: Arena, root: nat, states: seq<State>, n: nat)
    requires WellFormed(a) && Settled(a) && root < |a| && n < |states|
    requires Session(a, root, states) && Fits(states[0].input)
    requires forall i | 0 <= i < |states| - 1 :: Remembers(a, root, states[i].input.Unread())
    ensures Fits(states[n].input) && Reaches(a, root, states[0], states[n])
    decreases n
  {
    if n == 0 {
      ReachesSelf(a, root, states[0]);
    } else {
      SessionReaches(a, root, states, n - 1);
      NextAgrees(a, root, states[n - 1], states[n]);
      ReachesOn(a, root, states[0], states[n - 1], states[n]);
    }
  }

  /** Any number of key sequences none of which is forgotten: some number of callbacks has exactly the same effect. */
  lemma SessionsAgree(a: Arena, root: nat, states: seq<State>)
    requires WellFormed(a) && Settled(a) && root < |a| && Session(a, root, states) && Fits(states[0].input)
    requires forall i | 0 <= i < |states| - 1 :: Remembers(a, root, states[i].input.Unread())
    ensures Reaches(a, root, states[0], states[|states| - 1])
  {
    SessionReaches(a, root, states, |states| - 1);
  }

  /** Input that stays inside the keymaps, by its first key. */
  lemma InsideFirst(a: Arena, m: nat, input: Input)
    requires WellFormed(a) && m < |a| && input.Unread() != [] && Walk(a, m, Lowered(a, m, input.Unread())).Some?
    ensures
      var (key, rest) := ReadOne(input);
      var k := Taken(a, m, key);
      && a[m][k].Kmap? && |rest.Unread()| == |input.Unread()| - 1
      && Walk(a, a[m][k].ptr, Lowered(a, a[m][k].ptr, rest.Unread())).Some?
  {
    var (key, rest) := ReadOne(input);
    var k := Taken(a, m, key);
    assert input.Unread() == [key] + rest.Unread();
    LoweredFirst(a, m, key, rest.Unread());
    WalkFirst(a, m, k, if a[m][k].Kmap? then Lowered(a, a[m][k].ptr, rest.Unread()) else rest.Unread());
  }

  lemma {:induction false} FeedsAll(a: Arena, root: nat, g: Segment, c: Machine) returns (g': Segment, end: Machine)
    requires WellFormed(a) && Chained(a, g, c)
    requires Walk(a, Here(a, g), Lowered(a, Here(a, g), c.s.input.Unread())).Some?
    ensures Steps(a, root, c, |c.s.input.Unread()|) == end && Chained(a, g', end)
    ensures end.s.input.Unread() == [] && end.s.log == c.s.log && |end.chain| == |c.chain| + |c.s.input.Unread()|
    decreases |c.s.input.Unread()|
  {
    if c.s.input.Unread() == [] {
      g', end := g, c;
    } else {
      var g1, c1 := FeedsOne(a, root, g, c);
      g', end := FeedsAll(a, root, g1, c1);
    }
  }

  lemma FeedsOne(a: Arena, root: nat, g: Segment, c: Machine) returns (g': Segment, c': Machine)
    requires WellFormed(a) && Chained(a, g, c) && c.s.input.Unread() != []
    requires Walk(a, Here(a, g), Lowered(a, Here(a, g), c.s.input.Unread())).Some?
    ensures Chained(a, g', c') && Walk(a, Here(a, g'), Lowered(a, Here(a, g'), c'.s.input.Unread())).Some?
    ensures |c.s.input.Unread()| == |c'.s.input.Unread()| + 1 && c'.s.log == c.s.log && |c'.chain| == |c.chain| + 1
    ensures Steps(a, root, c, |c.s.input.Unread()|) == Steps(a, root, c', |c'.s.input.Unread()|)
  {
    var (key, rest) := ReadOne(c.s.input);
    InsideFirst(a, Here(a, g), c.s.input);
    HereNext(a, g, key);
    g' := Extended(a, g, key);
    c' := ContinuesOne(a, root, g, c, |rest.Unread()|);
  }

  /** Where callback mode waits: a context for each key, and nothing run. */
  lemma CallbackWaits(a: Arena, root: nat, s: State) returns (end: Machine)
    requires WellFormed(a) && root < |a| && s.input.Unread() != []
    requires Walk(a, root, Lowered(a, root, s.input.Unread())).Some?
    ensures Steps(a, root, Idle(s), |s.input.Unread()|) == end
    ensures |end.chain| == |s.input.Unread()| && end.multikey && end.s.log == s.log
    ensures ReadChar(a, root, end) == (Waiting, end)
  {
    var g, c := WaitsFirst(a, root, s);
    var g';
    g', end := FeedsAll(a, root, g, c);
    WaitsInside(a, root, g', end);
  }

  lemma WaitsFirst(a: Arena, root: nat, s: State) returns (g: Segment, c: Machine)
    requires WellFormed(a) && root < |a| && s.input.Unread() != []
    requires Walk(a, root, Lowered(a, root, s.input.Unread())).Some?
    ensures Chained(a, g, c) && Walk(a, Here(a, g), Lowered(a, Here(a, g), c.s.input.Unread())).Some?
    ensures |c.chain| == 1 && |c.s.input.Unread()| == |s.input.Unread()| - 1 && c.s.log == s.log
    ensures Steps(a, root, Idle(s), |s.input.Unread()|) == Steps(a, root, c, |c.s.input.Unread()|)
  {
    var (key, rest) := ReadOne(s.input);
    var k := Taken(a, root, key);
    InsideFirst(a, root, s.input);
    c := StartsOne(a, root, s, |rest.Unread()|);
    WalkOne(a, root, k);
    g := Segment(root, [k], 0);
  }

  /** When the input runs out inside a keymap both wait for a key, with nothing run; the chain has a context for each key. */
  lemma BothWait(a: Arena, root: nat, s: State)
    requires WellFormed(a) && Settled(a) && root < |a| && s.input.Unread() != []
    requires Walk(a, root, Lowered(a, root, s.input.Unread())).Some?
    ensures DispatchNext(a, root, s).0 == Waiting && DispatchNext(a, root, s).1.log == s.log
    ensures
      var c := Steps(a, root, Idle(s), |s.input.Unread()|);
      && |c.chain| == |s.input.Unread()| && c.multikey && c.s.log == s.log
      && ReadChar(a, root, c) == (Waiting, c)
  {
    InputRunsOutNext(a, root, s);
    var end := CallbackWaits(a, root, s);
  }

  lemma WaitsInside(a: Arena, root: nat, g: Segment, c: Machine)
    requires WellFormed(a) && Chained(a, g, c) && c.s.input.Unread() == []
    ensures ReadChar(a, root, c) == (Waiting, c)
  {
    NewestIsHere(a, g, c);
  }

  /** Every state callback mode can be in: between sequences, or inside one. */
  ghost predicate Sound(a: Arena, c: Machine)
    requires WellFormed(a)
  {
    c == Idle(c.s) || exists g: Segment :: Chained(a, g, c)
  }

  lemma SoundIdle(a: Arena, root: nat, s: State)
    requires WellFormed(a) && root < |a|
    ensures Sound(a, ReadChar(a, root, Idle(s)).1) && ReadChar(a, root, Idle(s)).0 != Fault
  {
    if s.input.Unread() != [] && a[root][Taken(a, root, ReadOne(s.input).0)].Kmap? {
      Starts(a, root, s);
    }
  }

  lemma NoFault(a: Arena, o: Outcome, c: Machine)
    requires o != Fault
    ensures Drain(a, o, c).0 != Fault
    decreases |c.chain| + if o == Returned(-1) || o == Returned(-2) then 1 else 0
  {
    if (o == Returned(-1) || o == Returned(-2)) && c.multikey && c.chain != [] && c.chain[|c.chain| - 1].dispatched {
      var (o', c') := DispatchCallback(a, c);
      NoFault(a, o', c');
    }
  }

  lemma NoFaultInside(a: Arena, root: nat, c: Machine)
    requires c.multikey && c.chain != []
    ensures ReadChar(a, root, c).0 != Fault
  {
    var (o, c') := DispatchCallback(a, c);
    NoFault(a, o, c');
  }

  lemma SoundChained(a: Arena, root: nat, g: Segment, c: Machine)
    requires WellFormed(a) && Chained(a, g, c)
    ensures Sound(a, ReadChar(a, root, c).1)
  {
    NewestIsHere(a, g, c);
    if c.s.input.Unread() == [] {
      assert ReadChar(a, root, c).1 == c;
    } else {
      var key := ReadOne(c.s.input).0;
      if a[Here(a, g)][Taken(a, Here(a, g), key)].Kmap? {
        Continues(a, root, g, c);
      } else if Stubbed(a, Here(a, g), key) {
        FinishesStub(a, root, g, c);
      } else {
        Finishes(a, root, g, c);
      }
    }
  }

  lemma SoundStep(a: Arena, root: nat, c: Machine)
    requires WellFormed(a) && root < |a| && Sound(a, c)
    ensures Sound(a, ReadChar(a, root, c).1) && ReadChar(a, root, c).0 != Fault
  {
    if c == Idle(c.s) {
      SoundIdle(a, root, c.s);
    } else {
      var g: Segment :| Chained(a, g, c);
      SoundChained(a, root, g, c);
      NoFaultInside(a, root, c);
    }
  }

  lemma SoundFirst(a: Arena, root: nat, c: Machine, n: nat) returns (next: Machine)
    requires WellFormed(a) && root < |a| && Sound(a, c)
    ensures Sound(a, next) && Steps(a, root, c, n + 1) == Steps(a, root, next, n)
  {
    next := Next(a, root, c);
    SoundStep(a, root, c);
    StepsFirst(a, root, c, n);
  }

  lemma {:induction false} SoundSteps(a: Arena, root: nat, c: Machine, n: nat)
    requires WellFormed(a) && root < |a| && Sound(a, c)
    ensures Sound(a, Steps(a, root, c, n))
    decreases n
  {
    if n > 0 {
      var next := SoundFirst(a, root, c, n - 1);
      SoundSteps(a, root, next, n - 1);
    }
  }

  /** No run of callback mode ever follows a null context. */
  lemma NeverFaults(a: Arena, root: nat, c: Machine, n: nat)
    requires WellFormed(a) && root < |a| && Sound(a, c)
    ensures Sound(a, Steps(a, root, c, n)) && ReadChar(a, root, Steps(a, root, c, n)).0 != Fault
  {
    SoundSteps(a, root, c, n);
    SoundStep(a, root, Steps(a, root, c, n));
  }
}
