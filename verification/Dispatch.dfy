/**
  Dispatching keys through a keymap (readline.c, callback.c).

  The same machine exists twice.  `DispatchSubseq` recurses into keymaps and
  backs out with the codes -1 and -2.  `ReadChar` does one call of the callback
  interface and keeps the recursion as a chain of contexts.  `Meaning` says
  what both amount to as long as no lowercase stub makes them forget a binding:
  the longest bound prefix of the keys looked up runs.
 */
module Dispatch {

  import opened Common
  import opened Keymaps
  import opened InputQueue

  datatype Event = Ran(fn: Command, key: int) | RanMacro(text: string)

  /**
    `Returned` carries the C return code.  `Aborted` is the jump out of
    _rl_abort_internal, `Waiting` a read with no key yet typed and `Fault` a
    use of a null context.
   */
  datatype Outcome = Returned(code: int) | Aborted | Waiting | Fault

  /** The unread input, the commands run so far and _rl_dispatching_keymap. */
  datatype State = State(input: Input, log: seq<Event>, dmap: nat)

  /** What slot `i` of keymap `m` holds. */
  function Slot(a: Arena, m: nat, i: nat): Entry {
    if m < |a| && i < KEYMAP_SIZE then a[m][i] else Empty
  }

  /** Keymap `m` took the place of a binding. */
  predicate Shadows(a: Arena, m: nat) {
    Bound(Slot(a, m, ANYOTHERKEY))
  }

  /** What running a bound entry does. */
  function Effect(e: Entry, key: int): Event {
    match e
    case Macro(text) => RanMacro(text)
    case Func(fn) => Ran(fn, key)
    case Kmap(_) => Ran(Null, key)
  }

  // ----- The lowercase stub -----

  /** The key is bound to rl_do_lowercase_version in keymap `m`. */
  predicate Stubbed(a: Arena, m: nat, k: Key) {
    Slot(a, m, k) == Func(DoLowercase)
  }

  /** The key that is looked up in keymap `m` when `k` is typed. */
  function Taken(a: Arena, m: nat, k: Key): Key {
    if Stubbed(a, m, k) then Lower(k) else k
  }

  /** The keys that are looked up, one after the other, when `w` is typed in keymap `m`. */
  function Lowered(a: Arena, m: nat, w: seq<Key>): (r: seq<Key>)
    ensures |r| == |w|
    decreases |w|
  {
    if w == [] then []
    else
      var k := Taken(a, m, w[0]);
      match Slot(a, m, k)
      case Kmap(c) => [k] + Lowered(a, c, w[1..])
      case Func(_) | Macro(_) => [k] + w[1..]
  }

  /** The place in `w` of the last stub that is met, -1 if none is. */
  function LastStub(a: Arena, m: nat, w: seq<Key>): (p: int)
    ensures -1 <= p < |w|
    decreases |w|
  {
    if w == [] then -1
    else
      var below := match Slot(a, m, Taken(a, m, w[0]))
        case Kmap(c) => LastStub(a, c, w[1..])
        case Func(_) | Macro(_) => -1;
      if below >= 0 then below + 1 else if Stubbed(a, m, w[0]) then 0 else -1
  }

  /** Both of them by the first key. */
  lemma LoweredFirst(a: Arena, m: nat, key: Key, u: seq<Key>)
    ensures
      var (w, k) := ([key] + u, Taken(a, m, key));
      var e := Slot(a, m, k);
      var below := if e.Kmap? then LastStub(a, e.ptr, u) else -1;
      && Lowered(a, m, w) == [k] + (if e.Kmap? then Lowered(a, e.ptr, u) else u)
      && LastStub(a, m, w) == if below >= 0 then below + 1 else if Stubbed(a, m, key) then 0 else -1
  {
    assert ([key] + u)[1..] == u;
  }

  /** Where no stub is met every key is looked up as it is typed. */
  lemma {:induction false} NoStubMet(a: Arena, m: nat, w: seq<Key>)
    requires LastStub(a, m, w) < 0
    ensures Lowered(a, m, w) == w
    decreases |w|
  {
    if w != [] {
      match Slot(a, m, w[0])
      case Kmap(c) => NoStubMet(a, c, w[1..]);
      case Func(_) | Macro(_) =>
    }
  }

  // ----- The recursive dispatcher -----

  /**
    _rl_dispatch_subseq outside callback mode. A stub dispatches the lower-case
    key in the same keymap, with got_subseq forgotten.
   */
  function DispatchSubseq(a: Arena, key: Key, m: nat, gotSubseq: bool, s: State): (r: (Outcome, State))
    decreases |s.input.Unread()|
  {
    var (k, got) := (Taken(a, m, key), gotSubseq && !Stubbed(a, m, key));
    var s0 := if Stubbed(a, m, key) then s.(dmap := m) else s;
    match Slot(a, m, k)
    case Kmap(c) =>
      if s.input.Unread() == [] then (Waiting, s0.(dmap := c))
      else
        var (newkey, rest) := ReadOne(s.input);
        var (o, s') := DispatchSubseq(a, newkey, c, got || Shadows(a, m), s0.(input := rest, dmap := c));
        if o.Returned? then SubseqResult(a, o.code, m, k, got, s') else (o, s')
    case Func(_) | Macro(_) =>
      var e := Slot(a, m, k);
      if Bound(e) then (Returned(0), s0.(log := s.log + [Effect(e, k)]))
      else if Shadows(a, m) then (Returned(-2), s0.(input := Unget(s.input, k)))
      else if got then (Returned(-1), s0.(input := Unget(s.input, k)))
      else (Aborted, s0)
  }

  /** _rl_subseq_result */
  function SubseqResult(a: Arena, code: int, m: nat, key: Key, gotSubseq: bool, s: State): (r: (Outcome, State))
  {
    if code == -2 then
      var e := Slot(a, s.dmap, ANYOTHERKEY);
      if Bound(e) then
        (Returned(0), s.(log := s.log + [Effect(e, if e == Func(SelfInsert) then key else ANYOTHERKEY)]))
      else (Aborted, s)
    else if code != 0 && Shadows(a, m) then
      (Returned(-2), s.(input := Unget(s.input, key), dmap := m))
    else if code != 0 && gotSubseq then
      (Returned(-1), s.(input := Unget(s.input, key), dmap := m))
    else
      (Returned(code), s)
  }

  /** readline_internal_char: read a key and dispatch it in the root keymap. */
  function DispatchNext(a: Arena, root: nat, s: State): (r: (Outcome, State))
  {
    if s.input.Unread() == [] then (Waiting, s)
    else
      var (key, rest) := ReadOne(s.input);
      DispatchSubseq(a, key, root, false, s.(input := rest, dmap := root))
  }

  // ----- What dispatching means -----

  /** The walk along `w` first leaves the keymaps with the key number `n`. */
  ghost predicate LeavesAt(a: Arena, m: nat, w: seq<Key>, n: nat)
    requires WellFormed(a) && m < |a|
  {
    1 <= n <= |w| && Walk(a, m, w[..n - 1]).Some? && Walk(a, m, w[..n]).None?
  }

  /** The length of the longest prefix of `keys` that is bound, 0 if there is none. */
  function Longest(a: Arena, m: nat, keys: seq<Key>): (i: nat)
    requires WellFormed(a) && m < |a|
    ensures i <= |keys|
  {
    if keys == [] then 0
    else if Bound(Resolve(a, m, keys)) then |keys|
    else Longest(a, m, keys[..|keys| - 1])
  }

  lemma {:induction false} LongestBound(a: Arena, m: nat, keys: seq<Key>)
    requires WellFormed(a) && m < |a|
    ensures var i := Longest(a, m, keys); i > 0 ==> Bound(Resolve(a, m, keys[..i]))
  {
    assert keys[..|keys|] == keys;
    if keys != [] && !Bound(Resolve(a, m, keys)) {
      var shorter := keys[..|keys| - 1];
      LongestBound(a, m, shorter);
      assert shorter[..Longest(a, m, shorter)] == keys[..Longest(a, m, shorter)];
    }
  }

  lemma {:induction false} LongestMaximal(a: Arena, m: nat, keys: seq<Key>, j: nat)
    requires WellFormed(a) && m < |a| && Longest(a, m, keys) < j <= |keys|
    ensures !Bound(Resolve(a, m, keys[..j]))
  {
    assert keys[..|keys|] == keys;
    if j < |keys| {
      var shorter := keys[..|keys| - 1];
      LongestMaximal(a, m, shorter, j);
      assert shorter[..j] == keys[..j];
    }
  }

  /**
    The effect of the binding of the first `i` keys.  A binding that a longer
    keymap took the place of is called with ANYOTHERKEY, self-insert excepted.
   */
  function Fired(a: Arena, m: nat, keys: seq<Key>, i: nat): Event
    requires WellFormed(a) && m < |a| && 0 < i <= |keys|
  {
    var e := Resolve(a, m, keys[..i]);
    Effect(e, if i == |keys| || e == Func(SelfInsert) then keys[i - 1] else ANYOTHERKEY)
  }

  function Reached(a: Arena, m: nat, keys: seq<Key>): (r: nat)
    requires WellFormed(a) && m < |a|
    ensures r < |a|
  {
    match Walk(a, m, keys) case Some(x) => x case None => 0
  }

  /** Where the first `i` keys run and the others are pushed back. */
  function RanPrefix(a: Arena, m: nat, keys: seq<Key>, i: nat, rest: Input, log: seq<Event>): State
    requires WellFormed(a) && m < |a| && 0 < i <= |keys|
  {
    State(UngetAll(rest, keys[i..]), log + [Fired(a, m, keys, i)],
          Reached(a, m, if i == |keys| then keys[..i - 1] else keys[..i]))
  }

  /**
    `keys` is the part of the input up to where the walk leaves the keymaps and
    `rest` the input behind it.  The longest bound prefix of `keys` runs and
    the keys after it are pushed back; with none bound everything is dropped.
   */
  function Meaning(a: Arena, m: nat, keys: seq<Key>, rest: Input, log: seq<Event>): (Outcome, State)
    requires WellFormed(a) && m < |a| && keys != []
  {
    var i := Longest(a, m, keys);
    if i == 0 then (Aborted, State(rest, log, Reached(a, m, keys[..|keys| - 1])))
    else (Returned(0), RanPrefix(a, m, keys, i, rest, log))
  }

  lemma {:induction false} LongestFirst(a: Arena, m: nat, k: Key, t: seq<Key>)
    requires WellFormed(a) && m < |a| && a[m][k].Kmap? && t != []
    ensures Longest(a, m, [k] + t)
         == if Longest(a, a[m][k].ptr, t) > 0 then Longest(a, a[m][k].ptr, t) + 1
            else if Bound(a[a[m][k].ptr][ANYOTHERKEY]) then 1 else 0
  {
    var n, keys := |t| - 1, [k] + t;
    ResolveFirst(a, m, k, t);
    assert keys[..|t|] == [k] + t[..n];
    if n == 0 {
      assert t[..n] == [] && keys[..1] == [k] && [k][..0] == [];
      assert Longest(a, m, []) == 0 && Longest(a, a[m][k].ptr, []) == 0;
      assert Walk(a, m, []) == Some(m);
    } else {
      LongestFirst(a, m, k, t[..n]);
    }
  }

  lemma LeavesFirst(a: Arena, m: nat, k: Key, u: seq<Key>, n: nat)
    requires WellFormed(a) && m < |a| && a[m][k].Kmap? && LeavesAt(a, m, [k] + u, n)
    ensures n >= 2 && LeavesAt(a, a[m][k].ptr, u, n - 1)
  {
    var w := [k] + u;
    WalkFirst(a, m, k, []);
    assert w[..1] == [k] + [];
    assert w[..n] == [k] + u[..n - 1] && w[..n - 1] == [k] + u[..n - 2];
    WalkFirst(a, m, k, u[..n - 1]);
    WalkFirst(a, m, k, u[..n - 2]);
  }

  lemma LeavesAtOnce(a: Arena, m: nat, k: Key, u: seq<Key>, n: nat)
    requires WellFormed(a) && m < |a| && !a[m][k].Kmap? && LeavesAt(a, m, [k] + u, n)
    ensures n == 1
  {
    if n > 1 {
      assert ([k] + u)[..n - 1] == [k] + u[..n - 2];
      WalkFirst(a, m, k, u[..n - 2]);
    }
  }

  lemma ReachedFirst(a: Arena, m: nat, k: Key, t: seq<Key>)
    requires WellFormed(a) && m < |a| && a[m][k].Kmap?
    ensures Reached(a, m, [k] + t) == Reached(a, a[m][k].ptr, t)
  {
    WalkFirst(a, m, k, t);
  }

  /** What dispatching inside keymap `m` comes to, a caller perhaps having bindings to fall back on. */
  function Backed(a: Arena, m: nat, gotSubseq: bool, keys: seq<Key>, rest: Input, log: seq<Event>): (r: (Outcome, State))
    requires WellFormed(a) && m < |a| && keys != []
  {
    if Longest(a, m, keys) > 0 then Meaning(a, m, keys, rest, log)
    else if Bound(a[m][ANYOTHERKEY]) then (Returned(-2), State(UngetAll(rest, keys), log, m))
    else if gotSubseq then (Returned(-1), State(UngetAll(rest, keys), log, m))
    else Meaning(a, m, keys, rest, log)
  }

  /** The binding that runs is the same one seen from the keymap below. */
  lemma FiredBelow(a: Arena, m: nat, k: Key, t: seq<Key>, i: nat)
    requires WellFormed(a) && m < |a| && a[m][k].Kmap? && 0 < i <= |t|
    ensures Fired(a, m, [k] + t, i + 1) == Fired(a, a[m][k].ptr, t, i)
  {
    assert ([k] + t)[..i + 1] == [k] + t[..i];
    ResolveFirst(a, m, k, t[..i]);
  }

  lemma ReachedBelow(a: Arena, m: nat, k: Key, t: seq<Key>, i: nat)
    requires WellFormed(a) && m < |a| && a[m][k].Kmap? && i <= |t|
    ensures Reached(a, m, ([k] + t)[..i + 1]) == Reached(a, a[m][k].ptr, t[..i])
  {
    assert ([k] + t)[..i + 1] == [k] + t[..i];
    ReachedFirst(a, m, k, t[..i]);
  }

  lemma MeaningBelow(a: Arena, m: nat, k: Key, t: seq<Key>, rest: Input, log: seq<Event>)
    requires WellFormed(a) && m < |a| && a[m][k].Kmap? && t != []
    requires Longest(a, a[m][k].ptr, t) > 0 || !Bound(a[a[m][k].ptr][ANYOTHERKEY])
    ensures Meaning(a, m, [k] + t, rest, log) == Meaning(a, a[m][k].ptr, t, rest, log)
  {
    var i := Longest(a, a[m][k].ptr, t);
    LongestFirst(a, m, k, t);
    if i > 0 {
      RunsBelow(a, m, k, t, i, rest, log);
    } else {
      ReachedBelow(a, m, k, t, |t| - 1);
    }
  }

  lemma RunsBelow(a: Arena, m: nat, k: Key, t: seq<Key>, i: nat, rest: Input, log: seq<Event>)
    requires WellFormed(a) && m < |a| && a[m][k].Kmap? && 0 < i <= |t|
    ensures RanPrefix(a, m, [k] + t, i + 1, rest, log) == RanPrefix(a, a[m][k].ptr, t, i, rest, log)
  {
    assert ([k] + t)[i + 1..] == t[i..];
    FiredBelow(a, m, k, t, i);
    ReachedBelow(a, m, k, t, if i == |t| then i - 1 else i);
  }

  lemma MeaningHere(a: Arena, m: nat, k: Key, t: seq<Key>, rest: Input, log: seq<Event>)
    requires WellFormed(a) && m < |a| && a[m][k].Kmap? && t != []
    requires Longest(a, a[m][k].ptr, t) == 0 && Bound(a[a[m][k].ptr][ANYOTHERKEY])
    ensures Meaning(a, m, [k] + t, rest, log)
         == SubseqResult(a, -2, m, k, false, State(UngetAll(rest, t), log, a[m][k].ptr))
  {
    var keys := [k] + t;
    LongestFirst(a, m, k, t);
    assert keys[1..] == t && keys[..1] == [k] + [];
    WalkFirst(a, m, k, []);
    assert [k][..0] == [] && Walk(a, m, []) == Some(m);
  }

  lemma BackedFirst(a: Arena, m: nat, k: Key, t: seq<Key>, gotSubseq: bool, rest: Input, log: seq<Event>)
    requires WellFormed(a) && m < |a| && a[m][k].Kmap? && t != []
    ensures var (o, s) := Backed(a, a[m][k].ptr, gotSubseq || Bound(a[m][ANYOTHERKEY]), t, rest, log);
            Backed(a, m, gotSubseq, [k] + t, rest, log)
            == if o.Returned? then SubseqResult(a, o.code, m, k, gotSubseq, s) else (o, s)
  {
    var c := a[m][k].ptr;
    LongestFirst(a, m, k, t);
    assert ([k] + t)[1..] == t;
    if Longest(a, c, t) == 0 && Bound(a[c][ANYOTHERKEY]) {
      MeaningHere(a, m, k, t, rest, log);
    } else {
      MeaningBelow(a, m, k, t, rest, log);
    }
  }

  lemma BackedLeaf(a: Arena, m: nat, key: Key, gotSubseq: bool, s: State)
    requires WellFormed(a) && m < |a| && s.dmap == m && !a[m][Taken(a, m, key)].Kmap?
    ensures DispatchSubseq(a, key, m, gotSubseq, s)
         == Backed(a, m, gotSubseq && !Stubbed(a, m, key), [Taken(a, m, key)], s.input, s.log)
  {
    var k := Taken(a, m, key);
    assert [k][..0] == [] && [k][1..] == [] && [k][..1] == [k];
    assert Walk(a, m, []) == Some(m);
    assert Longest(a, m, []) == 0;
    assert UngetAll(s.input, [k]) == Unget(UngetAll(s.input, []), k);
  }

  /** Nothing runs and the keys are gone. */
  function Lost(a: Arena, m: nat, keys: seq<Key>, rest: Input, log: seq<Event>): (Outcome, State)
    requires WellFormed(a) && m < |a| && keys != []
  {
    (Aborted, State(rest, log, Reached(a, m, keys[..|keys| - 1])))
  }

  /** What dispatching comes to when `p` is the place of the last stub met, -1 if none was. */
  function BackedPast(a: Arena, m: nat, gotSubseq: bool, keys: seq<Key>, p: int, rest: Input, log: seq<Event>): (Outcome, State)
    requires WellFormed(a) && m < |a| && keys != []
  {
    if p <= 0 then Backed(a, m, gotSubseq && p != 0, keys, rest, log)
    else if Longest(a, m, keys) >= p then Meaning(a, m, keys, rest, log)
    else Lost(a, m, keys, rest, log)
  }

  /** A stub below: what was bound above it is forgotten. */
  lemma BackedPastStub(a: Arena, m: nat, k: Key, t: seq<Key>, gotSubseq: bool, gotBelow: bool, q: nat,
      rest: Input, log: seq<Event>)
    requires WellFormed(a) && m < |a| && a[m][k].Kmap? && t != []
    ensures var (o, s) := BackedPast(a, a[m][k].ptr, gotBelow, t, q, rest, log);
            BackedPast(a, m, gotSubseq, [k] + t, q + 1, rest, log)
            == if o.Returned? then SubseqResult(a, o.code, m, k, gotSubseq, s) else (o, s)
  {
    var c, i := a[m][k].ptr, Longest(a, a[m][k].ptr, t);
    LongestFirst(a, m, k, t);
    ReachedBelow(a, m, k, t, |t| - 1);
    if i > 0 {
      MeaningBelow(a, m, k, t, rest, log);
    } else if q == 0 && Bound(a[c][ANYOTHERKEY]) {
      MeaningHere(a, m, k, t, rest, log);
    }
  }

  lemma BackedInner(a: Arena, key: Key, m: nat, gotSubseq: bool, s: State, t: seq<Key>, q: int, rest: Input)
    requires WellFormed(a) && m < |a| && s.dmap == m && t != [] && s.input.Unread() != [] && q >= -1
    requires a[m][Taken(a, m, key)].Kmap?
    requires var (newkey, input) := ReadOne(s.input);
             var c, got := a[m][Taken(a, m, key)].ptr, (gotSubseq && !Stubbed(a, m, key)) || Bound(a[m][ANYOTHERKEY]);
             DispatchSubseq(a, newkey, c, got, s.(input := input, dmap := c)) == BackedPast(a, c, got, t, q, rest, s.log)
    ensures DispatchSubseq(a, key, m, gotSubseq, s) ==
            BackedPast(a, m, gotSubseq, [Taken(a, m, key)] + t,
                       if q >= 0 then q + 1 else if Stubbed(a, m, key) then 0 else -1, rest, s.log)
  {
    var k, got := Taken(a, m, key), gotSubseq && !Stubbed(a, m, key);
    if q >= 0 {
      BackedPastStub(a, m, k, t, got, got || Bound(a[m][ANYOTHERKEY]), q, rest, s.log);
    } else {
      BackedFirst(a, m, k, t, got, rest, s.log);
    }
  }

  /** A walk that goes on behind its first key. */
  lemma LeavesBelow(a: Arena, m: nat, k: Key, u: seq<Key>, n: nat)
    requires WellFormed(a) && m < |a| && n >= 2 && LeavesAt(a, m, [k] + u, n)
    ensures a[m][k].Kmap? && LeavesAt(a, a[m][k].ptr, u, n - 1) && ([k] + u)[..n] == [k] + u[..n - 1]
  {
    if !a[m][k].Kmap? {
      LeavesAtOnce(a, m, k, u, n);
      assert false;
    }
    LeavesFirst(a, m, k, u, n);
  }

  /** What is typed, by its first key, when more follow. */
  lemma KeysFirst(a: Arena, m: nat, key: Key, u: seq<Key>, n: nat)
    requires WellFormed(a) && m < |a| && n >= 2 && LeavesAt(a, m, Lowered(a, m, [key] + u), n)
    ensures
      var k := Taken(a, m, key);
      && a[m][k].Kmap?
      && var c := a[m][k].ptr;
         var low := Lowered(a, c, u);
         && Lowered(a, m, [key] + u)[..n] == [k] + low[..n - 1]
         && LeavesAt(a, c, low, n - 1)
         && var q := LastStub(a, c, u);
            LastStub(a, m, [key] + u) == if q >= 0 then q + 1 else if Stubbed(a, m, key) then 0 else -1
  {
    var k := Taken(a, m, key);
    LoweredFirst(a, m, key, u);
    LeavesBelow(a, m, k, if a[m][k].Kmap? then Lowered(a, a[m][k].ptr, u) else u, n);
  }

  /** What is typed when its first key leaves the keymaps. */
  lemma KeyAlone(a: Arena, m: nat, key: Key, u: seq<Key>)
    requires WellFormed(a) && m < |a| && LeavesAt(a, m, Lowered(a, m, [key] + u), 1)
    ensures !a[m][Taken(a, m, key)].Kmap? && Lowered(a, m, [key] + u)[..1] == [Taken(a, m, key)]
    ensures LastStub(a, m, [key] + u) == if Stubbed(a, m, key) then 0 else -1
  {
    var k := Taken(a, m, key);
    LoweredFirst(a, m, key, u);
    if a[m][k].Kmap? {
      LeavesFirst(a, m, k, Lowered(a, a[m][k].ptr, u), 1);
      assert false;
    }
  }

  lemma LeafMeans(a: Arena, key: Key, m: nat, gotSubseq: bool, s: State)
    requires WellFormed(a) && Settled(a) && m < |a| && s.dmap == m
    requires LeavesAt(a, m, Lowered(a, m, [key] + s.input.Unread()), 1)
    ensures
      var w := [key] + s.input.Unread();
      DispatchSubseq(a, key, m, gotSubseq, s) ==
      BackedPast(a, m, gotSubseq, Lowered(a, m, w)[..1], LastStub(a, m, w), Skip(s.input, 0), s.log)
  {
    KeyAlone(a, m, key, s.input.Unread());
    BackedLeaf(a, m, key, gotSubseq, s);
  }

  /** Dispatching inside a keymap, whatever bindings were passed on the way to it. */
  lemma {:induction false} DispatchMeans(a: Arena, key: Key, m: nat, gotSubseq: bool, s: State, n: nat)
    requires WellFormed(a) && Settled(a) && m < |a| && s.dmap == m
    requires LeavesAt(a, m, Lowered(a, m, [key] + s.input.Unread()), n)
    ensures
      var w := [key] + s.input.Unread();
      DispatchSubseq(a, key, m, gotSubseq, s) ==
      BackedPast(a, m, gotSubseq, Lowered(a, m, w)[..n], LastStub(a, m, w), Skip(s.input, n - 1), s.log)
    decreases n
  {
    var u, k := s.input.Unread(), Taken(a, m, key);
    if n == 1 {
      LeafMeans(a, key, m, gotSubseq, s);
    } else {
      KeysFirst(a, m, key, u, n);
      var c := a[m][k].ptr;
      var (newkey, rest) := ReadOne(s.input);
      assert [newkey] + rest.Unread() == u;
      DispatchMeans(a, newkey, c, (gotSubseq && !Stubbed(a, m, key)) || Bound(a[m][ANYOTHERKEY]),
                    s.(input := rest, dmap := c), n - 1);
      MeansAbove(a, key, m, gotSubseq, s, n);
    }
  }

  /** What dispatching comes to, given what it comes to in the keymap the first key leads to. */
  lemma MeansAbove(a: Arena, key: Key, m: nat, gotSubseq: bool, s: State, n: nat)
    requires WellFormed(a) && m < |a| && s.dmap == m && n >= 2
    requires LeavesAt(a, m, Lowered(a, m, [key] + s.input.Unread()), n) && a[m][Taken(a, m, key)].Kmap?
    requires
      var (c, (newkey, rest)) := (a[m][Taken(a, m, key)].ptr, ReadOne(s.input));
      var (got, w) := ((gotSubseq && !Stubbed(a, m, key)) || Bound(a[m][ANYOTHERKEY]), [newkey] + rest.Unread());
      && n - 1 <= |w|
      && DispatchSubseq(a, newkey, c, got, s.(input := rest, dmap := c)) ==
         BackedPast(a, c, got, Lowered(a, c, w)[..n - 1], LastStub(a, c, w), Skip(rest, n - 2), s.log)
    ensures
      var w := [key] + s.input.Unread();
      DispatchSubseq(a, key, m, gotSubseq, s) ==
      BackedPast(a, m, gotSubseq, Lowered(a, m, w)[..n], LastStub(a, m, w), Skip(s.input, n - 1), s.log)
  {
    var u, c, rest := s.input.Unread(), a[m][Taken(a, m, key)].ptr, ReadOne(s.input).1;
    KeysFirst(a, m, key, u, n);
    assert [ReadOne(s.input).0] + rest.Unread() == u;
    assert Skip(s.input, n - 1) == Skip(rest, n - 2);
    BackedInner(a, key, m, gotSubseq, s, Lowered(a, c, u)[..n - 1], LastStub(a, c, u), Skip(rest, n - 2));
  }

  lemma DispatchNextMeans(a: Arena, root: nat, s: State, n: nat)
    requires WellFormed(a) && Settled(a) && root < |a|
    requires LeavesAt(a, root, Lowered(a, root, s.input.Unread()), n)
    ensures
      var u := s.input.Unread();
      DispatchNext(a, root, s) ==
      BackedPast(a, root, false, Lowered(a, root, u)[..n], LastStub(a, root, u), Skip(s.input, n), s.log)
  {
    var (key, rest) := ReadOne(s.input);
    assert [key] + rest.Unread() == s.input.Unread();
    DispatchMeans(a, key, root, false, s.(input := rest, dmap := root), n);
    assert Skip(s.input, n) == Skip(rest, n - 1);
  }

  /**
    Recursive dispatch runs the longest bound prefix of the keys looked up
    exactly when no lowercase stub was met more than one key behind it, and
    leaves the keys after it unread, in order, exactly when no more than 511
    have to be pushed back. A stub met further behind makes dispatch forget it:
    nothing runs and the keys are gone. With no bound prefix nothing runs either; only a root keymap
    that has an ANYOTHERKEY binding itself, with no stub met past it, has every
    key pushed back and -2 returned.
   */
  lemma LongestPrefixRuns(a: Arena, root: nat, s: State, n: nat)
    requires WellFormed(a) && Settled(a) && root < |a| && Fits(s.input)
    requires LeavesAt(a, root, Lowered(a, root, s.input.Unread()), n)
    ensures var u := s.input.Unread();
            var keys, p := Lowered(a, root, u)[..n], LastStub(a, root, u);
            var i := Longest(a, root, keys);
            var (o, s') := DispatchNext(a, root, s);
            if i > 0 && p <= i then
              && o == Returned(0)
              && s'.log == s.log + [Fired(a, root, keys, i)]
              && (s'.input.Unread() == keys[i..] + u[n..] <==> n - i <= CAPACITY)
            else if i == 0 && p <= 0 && Shadows(a, root) then
              && o == Returned(-2)
              && s'.log == s.log
              && (s'.input.Unread() == keys + u[n..] <==> n <= CAPACITY)
            else
              && o == Aborted
              && s'.log == s.log
              && s'.input.Unread() == u[n..]
  {
    var u := s.input.Unread();
    var keys := Lowered(a, root, u)[..n];
    DispatchNextMeans(a, root, s, n);
    PushBackAny(s.input, n, keys[Longest(a, root, keys)..]);
    assert keys[0..] == keys;
  }

  lemma {:induction false} InputRunsOut(a: Arena, key: Key, m: nat, gotSubseq: bool, s: State)
    requires WellFormed(a) && Settled(a) && m < |a| && s.dmap < |a|
    requires Walk(a, m, Lowered(a, m, [key] + s.input.Unread())).Some?
    ensures DispatchSubseq(a, key, m, gotSubseq, s).0 == Waiting
    ensures DispatchSubseq(a, key, m, gotSubseq, s).1.log == s.log
    decreases |s.input.Unread()|
  {
    var u, k := s.input.Unread(), Taken(a, m, key);
    LoweredFirst(a, m, key, u);
    if a[m][k].Kmap? {
      var c := a[m][k].ptr;
      WalkFirst(a, m, k, Lowered(a, c, u));
      if u != [] {
        var (newkey, rest) := ReadOne(s.input);
        assert [newkey] + rest.Unread() == u;
        InputRunsOut(a, newkey, c, (gotSubseq && !Stubbed(a, m, key)) || Bound(a[m][ANYOTHERKEY]),
                     s.(input := rest, dmap := c));
      }
    } else {
      WalkFirst(a, m, k, u);
    }
  }

  /** A walk stays inside the keymaps or leaves them at one key. */
  lemma {:induction false} WalkEnds(a: Arena, m: nat, w: seq<Key>) returns (n: nat)
    requires WellFormed(a) && m < |a|
    ensures if Walk(a, m, w).Some? then n == 0 else LeavesAt(a, m, w, n)
  {
    if Walk(a, m, w).Some? { return 0; }
    var last := |w| - 1;
    assert w[..|w|] == w;
    if Walk(a, m, w[..last]).Some? { return |w|; }
    n := WalkEnds(a, m, w[..last]);
    assert w[..last][..n] == w[..n] && w[..last][..n - 1] == w[..n - 1];
  }

  lemma {:induction false} WalkPrefix(a: Arena, m: nat, keys: seq<Key>, i: nat)
    requires WellFormed(a) && m < |a| && i <= |keys| && Walk(a, m, keys).Some?
    ensures Walk(a, m, keys[..i]).Some?
  {
    if i < |keys| {
      WalkPrefix(a, m, keys[..|keys| - 1], i);
      assert keys[..|keys| - 1][..i] == keys[..i];
    } else {
      assert keys[..i] == keys;
    }
  }

  /** A sequence that leads to a keymap resolves to what that keymap took the place of. */
  lemma LongestInner(a: Arena, m: nat, keys: seq<Key>)
    requires WellFormed(a) && m < |a| && keys != [] && Walk(a, m, keys).Some?
    ensures Resolve(a, m, keys) == a[Reached(a, m, keys)][ANYOTHERKEY]
    ensures Longest(a, m, keys) > 0 <==>
      Bound(a[Reached(a, m, keys)][ANYOTHERKEY]) || Longest(a, m, keys[..|keys| - 1]) > 0
  {
  }

  lemma {:induction false} LongestPrefix(a: Arena, m: nat, keys: seq<Key>, p: nat)
    requires WellFormed(a) && m < |a| && Longest(a, m, keys) <= p <= |keys|
    ensures Longest(a, m, keys[..p]) == Longest(a, m, keys)
  {
    if p < |keys| {
      LongestPrefix(a, m, keys[..|keys| - 1], p);
      assert keys[..|keys| - 1][..p] == keys[..p];
    } else {
      assert keys[..p] == keys;
    }
  }

  // ----- The callback machine -----

  /** _rl_keyseq_cxt */
  datatype Context = Context(
    subseq: bool, dispatched: bool, okey: Key, oldmap: nat, dmap: nat, subseqArg: bool, childval: int)

  /** The chain of contexts, _rl_kscxt last, and the RL_STATE_MULTIKEY flag. */
  datatype Machine = Machine(s: State, chain: seq<Context>, multikey: bool)

  function Idle(s: State): Machine { Machine(s, [], false) }

  /** The sentinel _rl_keyseq_cxt_alloc leaves in a new context. */
  const SENTINEL := 42

  /** _rl_dispatch_subseq in callback mode: a keymap adds a context instead of recursing. */
  function DispatchOnce(a: Arena, key: Key, m: nat, gotSubseq: bool, c: Machine): (r: (Outcome, Machine))
    ensures r.0.Returned? ==> |c.chain| <= |r.1.chain|
  {
    var (k, got) := (Taken(a, m, key), gotSubseq && !Stubbed(a, m, key));
    var c0 := if Stubbed(a, m, key) then c.(s := c.s.(dmap := m)) else c;
    var unread := c0.(s := c0.s.(input := Unget(c.s.input, k)));
    match Slot(a, m, k)
    case Kmap(d) =>
      var cxt := Context(got, false, k, m, d, got || Shadows(a, d), SENTINEL);
      (Returned(if c.multikey then -3 else 0), Machine(c0.s.(dmap := d), c.chain + [cxt], true))
    case Func(_) | Macro(_) =>
      var e := Slot(a, m, k);
      if Bound(e) then (Returned(0), c0.(s := c0.s.(log := c.s.log + [Effect(e, k)])))
      else if Shadows(a, m) then (Returned(-2), unread)
      else if got then (Returned(-1), unread)
      else (Aborted, Idle(c0.s))
  }

  /** The part of _rl_dispatch_callback after its child has answered `code`. */
  function Answered(a: Arena, code: int, c: Machine): (r: (Outcome, Machine))
    requires c.chain != []
    ensures code != -3 ==> |r.1.chain| < |c.chain|
  {
    var last := |c.chain| - 1;
    var cxt := c.chain[last];
    if code == -3 then
      (Returned(-3), c.(chain := c.chain[last := cxt.(childval := -3)]))
    else
      var (o, s') := SubseqResult(a, code, cxt.oldmap, cxt.okey, cxt.subseq, c.s);
      if o == Aborted || o == Returned(0) then (o, Idle(s'))
      else
        var up := c.chain[..last];
        var chain := if up == [] || !o.Returned? then up else up[last - 1 := up[last - 1].(childval := o.code)];
        (o, Machine(s', chain, c.multikey))
  }

  /** _rl_dispatch_callback on the newest context. */
  function DispatchCallback(a: Arena, c: Machine): (r: (Outcome, Machine))
    requires c.chain != []
  {
    var last := |c.chain| - 1;
    var cxt := c.chain[last];
    if cxt.dispatched then Answered(a, cxt.childval, c)
    else if c.s.input.Unread() == [] then (Waiting, c)
    else
      var (key, rest) := ReadOne(c.s.input);
      var (o, c') := DispatchOnce(a, key, cxt.dmap, cxt.subseqArg, c.(s := c.s.(input := rest)));
      if !o.Returned? then (o, c')
      else Answered(a, o.code, c'.(chain := c'.chain[last := cxt.(dispatched := true)]))
  }

  /** The loop of rl_callback_read_char that walks back up the chain. */
  function Drain(a: Arena, o: Outcome, c: Machine): (r: (Outcome, Machine))
    decreases |c.chain| + if o == Returned(-1) || o == Returned(-2) then 1 else 0
  {
    if (o == Returned(-1) || o == Returned(-2)) && c.multikey && c.chain != [] && c.chain[|c.chain| - 1].dispatched then
      var (o', c') := DispatchCallback(a, c);
      Drain(a, o', c')
    else (o, c)
  }

  /** One pass of rl_callback_read_char: continue a key sequence or start one. */
  function ReadChar(a: Arena, root: nat, c: Machine): (r: (Outcome, Machine))
  {
    if c.multikey then
      if c.chain == [] then (Fault, c)
      else
        var (o, c') := DispatchCallback(a, c);
        Drain(a, o, c')
    else if c.s.input.Unread() == [] then (Waiting, c)
    else
      var (key, rest) := ReadOne(c.s.input);
      DispatchOnce(a, key, root, false, c.(s := c.s.(input := rest, dmap := root)))
  }
}
