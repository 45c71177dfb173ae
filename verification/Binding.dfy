/**
  Binding and typing together: what rl_generic_bind puts into the keymaps is
  what dispatching the keys then runs.
 */
module Binding {

  import opened Common
  import opened Keymaps
  import opened InputQueue
  import opened Dispatch
  import opened Callback

  /** What rl_generic_bind leaves, said of every sequence but the one bound. */
  ghost predicate OthersKept(a0: Arena, a: Arena, root: nat, keys: seq<Key>)
    requires root < |a0| && root < |a| && WellFormed(a0) && WellFormed(a)
  {
    forall q: seq<Key> | q != [] && q != keys ::
      Resolve(a, root, q) ==
      if q < keys && Walk(a0, root, q).None? then Kept(Resolve(a0, root, q)) else Resolve(a0, root, q)
  }

  /** A walk that leaves the keymaps does so no sooner than at the end of a bound sequence. */
  lemma BoundReaches(a: Arena, root: nat, u: seq<Key>, k: nat, n: nat)
    requires root < |a| && WellFormed(a) && 0 < k <= |u| && Bound(Resolve(a, root, u[..k])) && LeavesAt(a, root, u, n)
    ensures k <= n
  {
    assert u[..k][..k - 1] == u[..k - 1];
    if n < k {
      assert u[..k - 1][..n] == u[..n];
      WalkPrefix(a, root, u[..k - 1], n);
    }
  }

  /** The longest bound prefix is a given one when it is bound and no longer one is. */
  lemma {:induction false} LongestIs(a: Arena, root: nat, w: seq<Key>, k: nat)
    requires root < |a| && WellFormed(a) && 0 < k <= |w| && Bound(Resolve(a, root, w[..k]))
    requires forall j | k < j <= |w| :: !Bound(Resolve(a, root, w[..j]))
    ensures Longest(a, root, w) == k
  {
    var i := Longest(a, root, w);
    if i < k {
      LongestMaximal(a, root, w, k);
    } else if i > k {
      LongestBound(a, root, w);
    }
  }

  /** The sequence just bound is the longest bound part of what is typed. */
  lemma LongestTyped(a0: Arena, a: Arena, root: nat, keys: seq<Key>, u: seq<Key>, n: nat)
    requires Trie(a0, root) && Trie(a, root) && keys != [] && keys <= u && LeavesAt(a, root, u, n)
    requires Bound(Resolve(a, root, keys)) && OthersKept(a0, a, root, keys)
    requires forall j | |keys| < j <= n :: !Bound(Resolve(a0, root, u[..j]))
    ensures |keys| <= n && Longest(a, root, u[..n]) == |keys| && u[..n][..|keys|] == keys
  {
    var k := |keys|;
    assert u[..k] == keys;
    BoundReaches(a, root, u, k, n);
    TakeTake(u, n, k);
    forall j | k < j <= n ensures !Bound(Resolve(a, root, u[..n][..j])) {
      TakeTake(u, n, j);
      StillUnbound(a0, a, root, keys, u[..j]);
    }
    LongestIs(a, root, u[..n], k);
  }

  lemma TakeTake(u: seq<Key>, n: nat, j: nat)
    requires j <= n <= |u|
    ensures u[..n][..j] == u[..j]
  {
  }

  lemma StillUnbound(a0: Arena, a: Arena, root: nat, keys: seq<Key>, q: seq<Key>)
    requires Trie(a0, root) && Trie(a, root) && OthersKept(a0, a, root, keys) && |keys| < |q|
    requires !Bound(Resolve(a0, root, q))
    ensures !Bound(Resolve(a, root, q))
  {
  }

  /**
    Once a sequence is bound, typing it runs the command it was bound to,
    unless more of what is typed was bound already or a lowercase stub is met
    more than one key behind it; the keys behind it are unread again, in order, if the input
    queue can hold them.
   */
  lemma BindThenType(a0: Arena, a: Arena, root: nat, keys: seq<Key>, e: Entry, s: State, n: nat)
    requires Trie(a0, root) && Trie(a, root) && Settled(a) && keys != []
    requires Bound(e) && e != Func(DoLowercase) && Fits(s.input)
    requires Resolve(a, root, keys) == Written(Walk(a0, root, keys).Some?, e) && OthersKept(a0, a, root, keys)
    requires keys <= Lowered(a, root, s.input.Unread()) && LeavesAt(a, root, Lowered(a, root, s.input.Unread()), n)
    requires LastStub(a, root, s.input.Unread()) <= |keys|
    requires forall j | |keys| < j <= n :: !Bound(Resolve(a0, root, Lowered(a, root, s.input.Unread())[..j]))
    ensures
      var (u, k) := (s.input.Unread(), |keys|);
      var (o, s') := DispatchNext(a, root, s);
      && k <= n && o == Returned(0)
      && s'.log == s.log + [Effect(e, if n == k || e == Func(SelfInsert) then keys[k - 1] else ANYOTHERKEY)]
      && (s'.input.Unread() == Lowered(a, root, u)[k..n] + u[n..] <==> n - k <= CAPACITY)
  {
    var low := Lowered(a, root, s.input.Unread());
    LongestTyped(a0, a, root, keys, low, n);
    BoundFires(a, root, low[..n], keys, e);
    PrefixRuns(a, root, s, n, low, |keys|);
  }

  lemma PrefixRuns(a: Arena, root: nat, s: State, n: nat, low: seq<Key>, k: nat)
    requires WellFormed(a) && Settled(a) && root < |a| && Fits(s.input)
    requires low == Lowered(a, root, s.input.Unread()) && LeavesAt(a, root, low, n)
    requires 0 < k == Longest(a, root, low[..n]) && LastStub(a, root, s.input.Unread()) <= k
    ensures
      var (o, s') := DispatchNext(a, root, s);
      && k <= n && o == Returned(0) && s'.log == s.log + [Fired(a, root, low[..n], k)]
      && (s'.input.Unread() == low[k..n] + s.input.Unread()[n..] <==> n - k <= CAPACITY)
  {
    LongestPrefixRuns(a, root, s, n);
    assert low[..n][k..] == low[k..n];
  }

  lemma BoundFires(a: Arena, root: nat, w: seq<Key>, keys: seq<Key>, e: Entry)
    requires root < |a| && WellFormed(a) && 0 < |keys| <= |w| && w[..|keys|] == keys && Resolve(a, root, keys) == e
    ensures Fired(a, root, w, |keys|) ==
      Effect(e, if |w| == |keys| || e == Func(SelfInsert) then keys[|keys| - 1] else ANYOTHERKEY)
  {
    assert w[|keys| - 1] == w[..|keys|][|keys| - 1];
  }

  // ----- Where the two forms of dispatch, or dispatch and the longest match, part -----

  /** A root keymap with a binding of its own and one key that leads to an empty keymap. */
  function ShadowedRoot(fn: Command, k: Key): Arena {
    [BareSlots()[k := Kmap(1)][ANYOTHERKEY := Func(fn)], BareSlots()]
  }

  /** That key and another typed into it: recursive dispatch pushes them back, callback mode drops them. */
  lemma RootBindingDiffers(fn: Command, k: Key, l: Key)
    requires fn != Null && fn != DoLowercase
    ensures
      var (a, s) := (ShadowedRoot(fn, k), State(Input([], [k, l]), [], 0));
      WellFormed(a) && Settled(a) && Steps(a, 0, Idle(s), 2) != Idle(DispatchNext(a, 0, s).1)
  {
    var a, s := ShadowedRoot(fn, k), State(Input([], [k, l]), [], 0);
    ShadowedRootFacts(a, fn, k, l);
    assert s.input.Unread() == [k, l];
    TypedDiffers(a, 0, s, [k, l]);
  }

  lemma TypedDiffers(a: Arena, root: nat, s: State, u: seq<Key>)
    requires WellFormed(a) && Settled(a) && root < |a| && Fits(s.input) && s.input.Unread() == u != []
    requires Lowered(a, root, u) == u && LastStub(a, root, u) == -1
    requires LeavesAt(a, root, u, |u|) && Forgets(a, root, u, -1)
    ensures Steps(a, root, Idle(s), |u|) != Idle(DispatchNext(a, root, s).1)
  {
    assert u[..|u|] == u;
    ForgettingDiffers(a, root, s, |u|);
  }

  lemma ShadowedRootFacts(a: Arena, fn: Command, k: Key, l: Key)
    requires fn != Null && fn != DoLowercase && a == ShadowedRoot(fn, k)
    ensures
      var u := [k, l];
      && WellFormed(a) && Settled(a) && Lowered(a, 0, u) == u && LastStub(a, 0, u) == -1
      && LeavesAt(a, 0, u, 2) && Forgets(a, 0, u, -1)
  {
    var u := [k, l];
    assert a[0][k] == Kmap(1) && a[1][l] == Empty;
    assert u[..1] == [k] && u[..2] == u && u[..1][..0] == [] && u[1..] == [l] && u[0..] == u;
    assert Lowered(a, 1, [l]) == [l] && LastStub(a, 1, [l]) == -1;
    assert Walk(a, 0, []) == Some(0) && Walk(a, 0, [k]) == Some(1);
    assert Walk(a, 0, u) == None && Resolve(a, 0, u) == Empty && Resolve(a, 0, [k]) == Empty;
    assert Longest(a, 0, [k]) == Longest(a, 0, []) == 0;
  }

  /** A bound key that also leads on to a keymap, and from there to one where A has the stub and a is not bound. */
  function StubBehind(fn: Command): Arena {
    [BareSlots()[1 := Kmap(1)],
     BareSlots()[2 := Kmap(2)][ANYOTHERKEY := Func(fn)],
     BareSlots()[65 := Func(DoLowercase)]]
  }

  /** Typed in full, the stub makes dispatch forget the bound key: nothing runs and the keys are gone. */
  lemma StubForgets(fn: Command)
    requires fn != Null && fn != DoLowercase
    ensures
      var (a, s) := (StubBehind(fn), State(Input([], [1, 2, 65]), [], 0));
      && WellFormed(a) && Settled(a) && Resolve(a, 0, [1]) == Func(fn)
      && DispatchNext(a, 0, s).0 == Aborted && DispatchNext(a, 0, s).1.input.Unread() == []
  {
    var a := StubBehind(fn);
    assert [1][..0] == [] && Walk(a, 0, []) == Some(0);
    var i := Input([], [1, 2, 65]);
    assert ReadOne(i) == (1, Input([], [2, 65])) by { assert [1, 2, 65][1..] == [2, 65]; }
    assert ReadOne(Input([], [2, 65])) == (2, Input([], [65])) by { assert [2, 65][1..] == [65]; }
    assert ReadOne(Input([], [65])) == (65, Input([], [])) by { assert [65][1..] == []; }
    var s2 := State(Input([], []), [], 2);
    assert DispatchSubseq(a, 65, 2, true, s2) == (Aborted, s2);
    var s1 := State(Input([], [65]), [], 1);
    assert DispatchSubseq(a, 2, 1, false, s1) == (Aborted, s2);
    assert DispatchSubseq(a, 1, 0, false, State(Input([], [2, 65]), [], 0)) == (Aborted, s2);
  }

  /** A bound key that also leads on to a keymap where A has the stub and a is not bound. */
  function StubNext(fn: Command): Arena {
    [BareSlots()[1 := Kmap(1)], BareSlots()[65 := Func(DoLowercase)][ANYOTHERKEY := Func(fn)]]
  }

  /** A stub on the key right behind it does no harm: the bound key runs, and a is left to be read. */
  lemma StubNextRuns(fn: Command)
    requires fn != Null && fn != DoLowercase && fn != SelfInsert
    ensures
      var (a, s) := (StubNext(fn), State(Input([], [1, 65]), [], 0));
      var (o, s') := DispatchNext(a, 0, s);
      && WellFormed(a) && Settled(a) && Resolve(a, 0, [1]) == Func(fn)
      && o == Returned(0) && s'.log == [Ran(fn, ANYOTHERKEY)] && s'.input.Unread() == [97]
  {
    var a := StubNext(fn);
    assert [1][..0] == [] && Walk(a, 0, []) == Some(0);
    assert ReadOne(Input([], [1, 65])) == (1, Input([], [65])) by { assert [1, 65][1..] == [65]; }
    assert ReadOne(Input([], [65])) == (65, Input([], [])) by { assert [65][1..] == []; }
    var s1 := State(Input([], []), [], 1);
    assert DispatchSubseq(a, 65, 1, true, s1) == (Returned(-2), s1.(input := Unget(s1.input, 97)));
  }
}
