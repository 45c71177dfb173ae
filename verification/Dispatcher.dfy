/**
  The dispatcher as the program keeps it: one set of globals, updated in place
  by both the recursive and the callback form.  Every method is tied to the
  function of module Dispatch that says what it does.
 */
module Dispatcher {

  import opened Keymaps
  import opened InputQueue
  import D = Dispatch

  /** What dispatching the key `k` of keymap `m` comes to when it leads to no other keymap. */
  function Leaf(a: Arena, k: nat, m: nat, gotSubseq: bool, c: D.Machine): (D.Outcome, D.Machine) {
    var e := D.Slot(a, m, k);
    if Bound(e) then (D.Returned(0), c.(s := c.s.(log := c.s.log + [D.Effect(e, k)])))
    else if k < 256 && D.Shadows(a, m) then (D.Returned(-2), c.(s := c.s.(input := Unget(c.s.input, k))))
    else if k < 256 && gotSubseq then (D.Returned(-1), c.(s := c.s.(input := Unget(c.s.input, k))))
    else (D.Aborted, D.Idle(c.s))
  }

  /** It is the same in both forms of the dispatcher. */
  lemma LeafDispatches(a: Arena, k: nat, m: nat, gotSubseq: bool, c: D.Machine)
    requires !D.Slot(a, m, k).Kmap? && D.Slot(a, m, k) != Func(DoLowercase)
    ensures
      var (o, c') := Leaf(a, k, m, gotSubseq, c);
      k < 256 ==>
        && D.DispatchOnce(a, k, m, gotSubseq, c) == (o, c')
        && D.DispatchSubseq(a, k, m, gotSubseq, c.s) == (o, c'.s)
  {
  }

  /** A stub is dispatching the lower-case key in the same keymap, knowing of nothing passed on the way. */
  lemma StubDispatches(a: Arena, k: Key, m: nat, gotSubseq: bool, c: D.Machine)
    requires D.Stubbed(a, m, k) && !D.Stubbed(a, m, Lower(k))
    ensures
      var c0 := c.(s := c.s.(dmap := m));
      && D.DispatchOnce(a, k, m, gotSubseq, c) == D.DispatchOnce(a, Lower(k), m, false, c0)
      && D.DispatchSubseq(a, k, m, gotSubseq, c.s) == D.DispatchSubseq(a, Lower(k), m, false, c0.s)
  {
  }

  /** The chain without its newest context, the answer left in the one below. */
  function Popped(chain: seq<D.Context>, code: int): seq<D.Context>
    requires chain != []
  {
    var up := chain[..|chain| - 1];
    if up == [] then up else up[|up| - 1 := up[|up| - 1].(childval := code)]
  }

  lemma DrainNext(a: Arena, o: D.Outcome, c: D.Machine, o': D.Outcome, c': D.Machine)
    requires (o == D.Returned(-1) || o == D.Returned(-2)) && c.multikey && c.chain != [] && c.chain[|c.chain| - 1].dispatched
    requires (o', c') == D.DispatchCallback(a, c)
    ensures D.Drain(a, o, c) == D.Drain(a, o', c')
    ensures |c'.chain| < |c.chain| || (o' == D.Returned(-3) && |c'.chain| == |c.chain|)
  {
  }

  lemma DrainOver(a: Arena, o: D.Outcome, c: D.Machine)
    requires !((o == D.Returned(-1) || o == D.Returned(-2)) && c.multikey && c.chain != [] && c.chain[|c.chain| - 1].dispatched)
    ensures D.Drain(a, o, c) == (o, c)
  {
  }

  /** What dispatching a key that leads to a keymap comes to, given what the next key comes to there. */
  lemma SubseqBelow(a: Arena, key: Key, m: nat, gotSubseq: bool, s: D.State, o: D.Outcome, s': D.State)
    requires D.Slot(a, m, key).Kmap? && s.input.Unread() != []
    requires
      var (c, (newkey, rest)) := (D.Slot(a, m, key).ptr, ReadOne(s.input));
      (o, s') == D.DispatchSubseq(a, newkey, c, gotSubseq || D.Shadows(a, m), s.(input := rest, dmap := c))
    ensures D.DispatchSubseq(a, key, m, gotSubseq, s) ==
      if o.Returned? then D.SubseqResult(a, o.code, m, key, gotSubseq, s') else (o, s')
  {
  }

  lemma AnsweredIs(a: Arena, code: int, c: D.Machine, o: D.Outcome, s: D.State)
    requires c.chain != [] && code != -3
    requires
      var cxt := c.chain[|c.chain| - 1];
      (o, s) == D.SubseqResult(a, code, cxt.oldmap, cxt.okey, cxt.subseq, c.s)
    ensures D.Answered(a, code, c) == (o,
      if o == D.Aborted || o == D.Returned(0) then D.Idle(s) else D.Machine(s, Popped(c.chain, o.code), c.multikey))
  {
  }

  /** A key read and dispatched in the newest context's keymap, the context marked if that returns. */
  function ReadIn(a: Arena, c: D.Machine): (D.Outcome, D.Machine)
    requires c.chain != [] && c.s.input.Unread() != []
  {
    var last := |c.chain| - 1;
    var cxt := c.chain[last];
    var (key, rest) := ReadOne(c.s.input);
    var (o, c') := D.DispatchOnce(a, key, cxt.dmap, cxt.subseqArg, c.(s := c.s.(input := rest)));
    if o.Returned? then (o, c'.(chain := c'.chain[last := cxt.(dispatched := true)])) else (o, c')
  }

  lemma ReadInIs(a: Arena, c: D.Machine, o: D.Outcome, c': D.Machine)
    requires c.chain != [] && c.s.input.Unread() != []
    requires
      var (cxt, (key, rest)) := (c.chain[|c.chain| - 1], ReadOne(c.s.input));
      (o, c') == D.DispatchOnce(a, key, cxt.dmap, cxt.subseqArg, c.(s := c.s.(input := rest)))
    ensures o.Returned? ==> |c.chain| <= |c'.chain|
    ensures
      var last := |c.chain| - 1;
      ReadIn(a, c) == (o, if o.Returned? then c'.(chain := c'.chain[last := c.chain[last].(dispatched := true)]) else c')
  {
  }

  lemma ReadIs(a: Arena, c: D.Machine, o: D.Outcome, c': D.Machine)
    requires c.chain != [] && !c.chain[|c.chain| - 1].dispatched && c.s.input.Unread() != []
    requires (o, c') == ReadIn(a, c)
    ensures o.Returned? ==> c'.chain != []
    ensures D.DispatchCallback(a, c) == if o.Returned? then D.Answered(a, o.code, c') else (o, c')
  {
  }

  class Dispatcher {
    const maps: KeymapStore
    const queue: Queue

    /** RL_STATE_CALLBACK */
    const callback: bool

    var log: seq<D.Event>
    var dispatchingKeymap: nat
    var chain: seq<D.Context>
    var multikey: bool

    constructor (maps: KeymapStore, queue: Queue, callback: bool, root: nat)
      requires queue.Valid() && WellFormed(maps.nodes) && Settled(maps.nodes) && root < |maps.nodes|
      ensures Valid() && this.maps == maps && this.queue == queue && this.callback == callback
      ensures Machine() == D.Idle(D.State(queue.View(), [], root))
    {
      this.maps, this.queue, this.callback := maps, queue, callback;
      log, dispatchingKeymap, chain, multikey := [], root, [], false;
    }

    ghost predicate Valid()
      reads this, maps, queue
    {
      && queue.Valid() && WellFormed(maps.nodes) && Settled(maps.nodes)
      && dispatchingKeymap < |maps.nodes|
      && (forall i | 0 <= i < |chain| :: chain[i].oldmap < |maps.nodes| && chain[i].dmap < |maps.nodes|)
      && (!callback ==> chain == [] && !multikey)
    }

    ghost function State(): D.State
      requires queue.Valid()
      reads this, queue, queue.ibuffer
    {
      D.State(queue.View(), log, dispatchingKeymap)
    }

    ghost function Machine(): D.Machine
      requires queue.Valid()
      reads this, queue, queue.ibuffer
    {
      D.Machine(State(), chain, multikey)
    }

    /** _rl_dispatch_subseq where the key leads to no other keymap. */
    method DispatchLeaf(key: nat, map': nat, gotSubseq: bool) returns (o: D.Outcome)
      requires Valid() && map' < |maps.nodes| && key < KEYMAP_SIZE && (key == ANYOTHERKEY ==> !gotSubseq)
      requires !maps.nodes[map'][key].Kmap? && maps.nodes[map'][key] != Func(DoLowercase)
      modifies this, queue, queue.ibuffer
      ensures Valid() && (o, Machine()) == Leaf(maps.nodes, key, map', gotSubseq, old(Machine()))
    {
      var e := maps.nodes[map'][key];
      if Bound(e) {
        log := log + [D.Effect(e, key)];
        o := D.Returned(0);
      } else if Bound(maps.nodes[map'][ANYOTHERKEY]) {
        var _ := queue.UngetChar(key);
        o := D.Returned(-2);
      } else if gotSubseq {
        var _ := queue.UngetChar(key);
        o := D.Returned(-1);
      } else {
        multikey := false;
        chain := [];
        o := D.Aborted;
      }
    }

    /** _rl_dispatch_subseq in callback mode where the key leads to a keymap. */
    method PushContext(key: Key, map': nat, gotSubseq: bool) returns (o: D.Outcome)
      requires Valid() && callback && map' < |maps.nodes| && maps.nodes[map'][key].Kmap?
      modifies this
      ensures Valid() && (o, Machine()) == D.DispatchOnce(maps.nodes, key, map', gotSubseq, old(Machine()))
    {
      var d := maps.nodes[map'][key].ptr;
      dispatchingKeymap := d;
      o := D.Returned(if multikey then -3 else 0);
      var arg := gotSubseq || Bound(maps.nodes[d][ANYOTHERKEY]);
      chain := chain + [D.Context(gotSubseq, false, key, map', d, arg, D.SENTINEL)];
      multikey := true;
    }

    /** _rl_dispatch_subseq */
    method DispatchKey(key: nat, map': nat, gotSubseq: bool) returns (o: D.Outcome)
      requires Valid() && map' < |maps.nodes| && key < KEYMAP_SIZE && (key == ANYOTHERKEY ==> !gotSubseq)
      modifies this, maps, queue, queue.ibuffer
      ensures Valid() && maps.nodes == old(maps.nodes)
      ensures !maps.nodes[map'][key].Kmap? && maps.nodes[map'][key] != Func(DoLowercase) ==>
        (o, Machine()) == Leaf(maps.nodes, key, map', gotSubseq, old(Machine()))
      ensures key < 256 && !callback ==>
        (o, State()) == D.DispatchSubseq(maps.nodes, key, map', gotSubseq, old(State()))
      ensures key < 256 && callback ==>
        (o, Machine()) == D.DispatchOnce(maps.nodes, key, map', gotSubseq, old(Machine()))
      decreases Depth(key, map'), if maps.nodes[map'][key] == Func(DoLowercase) then 1 else 0
    {
      var e := maps.nodes[map'][key];
      if e == Func(DoLowercase) {
        StubDispatches(maps.nodes, key, map', gotSubseq, Machine());
        dispatchingKeymap := map';
        o := DispatchKey(Lower(key), map', false);
      } else if !e.Kmap? {
        o := DispatchLeaf(key, map', gotSubseq);
        LeafDispatches(maps.nodes, key, map', gotSubseq, old(Machine()));
      } else if callback {
        o := PushContext(key, map', gotSubseq);
      } else {
        o := DispatchBelow(key, map', gotSubseq);
      }
    }

    /** How much input dispatching a key may read, and one more if it may read any. */
    ghost function Depth(key: nat, map': nat): nat
      requires Valid() && map' < |maps.nodes| && key < KEYMAP_SIZE
      reads this, maps, queue, queue.ibuffer
    {
      var k := if maps.nodes[map'][key] == Func(DoLowercase) then Lower(key) else key;
      if maps.nodes[map'][k].Kmap? then |queue.View().Unread()| + 1 else 0
    }

    /** The key leads to a keymap: another one is read and dispatched there. */
    method DispatchBelow(key: Key, map': nat, gotSubseq: bool) returns (o: D.Outcome)
      requires Valid() && !callback && map' < |maps.nodes| && maps.nodes[map'][key].Kmap?
      modifies this, maps, queue, queue.ibuffer
      ensures Valid() && maps.nodes == old(maps.nodes)
      ensures (o, State()) == D.DispatchSubseq(maps.nodes, key, map', gotSubseq, old(State()))
      decreases |queue.View().Unread()|, 2
    {
      ghost var s := State();
      var e := maps.nodes[map'][key];
      dispatchingKeymap := e.ptr;
      var empty := queue.IsEmpty();
      if empty {
        return D.Waiting;
      }
      var newkey := queue.ReadKey();
      o := DispatchKey(newkey, e.ptr, gotSubseq || Bound(maps.nodes[map'][ANYOTHERKEY]));
      SubseqBelow(maps.nodes, key, map', gotSubseq, s, o, State());
      if o.Returned? {
        o := BackOut(o.code, map', key, gotSubseq);
      }
    }

    /** _rl_subseq_result */
    method BackOut(code: int, map': nat, key: Key, gotSubseq: bool) returns (o: D.Outcome)
      requires Valid() && map' < |maps.nodes|
      modifies this, maps, queue, queue.ibuffer
      ensures Valid() && maps.nodes == old(maps.nodes)
      ensures (o, State()) == D.SubseqResult(maps.nodes, code, map', key, gotSubseq, old(State()))
      ensures if o == D.Aborted then chain == [] && !multikey else chain == old(chain) && multikey == old(multikey)
      decreases 0, 2
    {
      if code == -2 {
        o := RunShadowed(map', key, gotSubseq);
      } else if code != 0 && Bound(maps.nodes[map'][ANYOTHERKEY]) {
        var _ := queue.UngetChar(key);
        dispatchingKeymap := map';
        o := D.Returned(-2);
      } else if code != 0 && gotSubseq {
        var _ := queue.UngetChar(key);
        dispatchingKeymap := map';
        o := D.Returned(-1);
      } else {
        o := D.Returned(code);
      }
    }

    /** The binding that the dispatching keymap took the place of is called. */
    method RunShadowed(ghost map': nat, key: Key, ghost gotSubseq: bool) returns (o: D.Outcome)
      requires Valid()
      modifies this, maps, queue, queue.ibuffer
      ensures Valid() && maps.nodes == old(maps.nodes)
      ensures (o, State()) == D.SubseqResult(maps.nodes, -2, map', key, gotSubseq, old(State()))
      ensures if o == D.Aborted then chain == [] && !multikey else chain == old(chain) && multikey == old(multikey)
      decreases 0, 1
    {
      var m := dispatchingKeymap;
      var shadowed := maps.nodes[m][ANYOTHERKEY];
      if shadowed == Func(SelfInsert) {
        // Dispatch needs a slot for this key that self-inserts: borrow the one in m.
        var saved := maps.nodes[m][key];
        ghost var nodes := maps.nodes;
        maps.nodes := maps.nodes[m := maps.nodes[m][key := shadowed]];
        dispatchingKeymap := m;
        o := DispatchKey(key, m, false);
        maps.nodes := maps.nodes[m := maps.nodes[m][key := saved]];
        assert nodes[m][key := shadowed][key := saved] == nodes[m];
        assert maps.nodes == nodes;
      } else {
        dispatchingKeymap := m;
        o := DispatchKey(ANYOTHERKEY, m, false);
      }
    }

    /** _rl_dispatch from readline_internal_char: read a key and dispatch it in `root`. */
    method DispatchRoot(root: nat) returns (o: D.Outcome)
      requires Valid() && root < |maps.nodes|
      modifies this, maps, queue, queue.ibuffer
      ensures Valid() && maps.nodes == old(maps.nodes)
      ensures !callback ==> (o, State()) == D.DispatchNext(maps.nodes, root, old(State()))
      ensures callback && !old(multikey) ==> (o, Machine()) == D.ReadChar(maps.nodes, root, old(Machine()))
    {
      var empty := queue.IsEmpty();
      if empty {
        return D.Waiting;
      }
      var key := queue.ReadKey();
      dispatchingKeymap := root;
      o := DispatchKey(key, root, false);
    }

    /** _rl_dispatch_callback on the newest context. */
    method DispatchContext() returns (o: D.Outcome)
      requires Valid() && callback && multikey && chain != []
      modifies this, maps, queue, queue.ibuffer
      ensures Valid() && maps.nodes == old(maps.nodes)
      ensures (o, Machine()) == D.DispatchCallback(maps.nodes, old(Machine()))
    {
      var cxt := chain[|chain| - 1];
      if cxt.dispatched {
        o := Answer(cxt.childval);
        return;
      }
      var empty := queue.IsEmpty();
      if empty {
        return D.Waiting;
      }
      o := DispatchRead();
    }

    /** The key read for the newest context. */
    method DispatchRead() returns (o: D.Outcome)
      requires Valid() && callback && chain != [] && !chain[|chain| - 1].dispatched && queue.View().Unread() != []
      modifies this, maps, queue, queue.ibuffer
      ensures Valid() && maps.nodes == old(maps.nodes)
      ensures (o, Machine()) == D.DispatchCallback(maps.nodes, old(Machine()))
    {
      ghost var c := Machine();
      o := DispatchMarked();
      ReadIs(maps.nodes, c, o, Machine());
      if o.Returned? {
        o := Answer(o.code);
      }
    }

    /** Reads a key, dispatches it in the newest context's keymap and marks the context. */
    method DispatchMarked() returns (o: D.Outcome)
      requires Valid() && callback && chain != [] && queue.View().Unread() != []
      modifies this, maps, queue, queue.ibuffer
      ensures Valid() && maps.nodes == old(maps.nodes) && (o.Returned? ==> chain != [])
      ensures (o, Machine()) == ReadIn(maps.nodes, old(Machine()))
    {
      ghost var c := Machine();
      var last := |chain| - 1;
      var cxt := chain[last];
      var key := queue.ReadKey();
      assert Machine() == c.(s := c.s.(input := ReadOne(c.s.input).1));
      o := DispatchKey(key, cxt.dmap, cxt.subseqArg);
      ReadInIs(maps.nodes, c, o, Machine());
      if o.Returned? {
        MarkContext(last, cxt);
      }
    }

    method MarkContext(i: nat, cxt: D.Context)
      requires Valid() && callback && i < |chain| && cxt.oldmap < |maps.nodes| && cxt.dmap < |maps.nodes|
      modifies `chain
      ensures Valid() && Machine() == old(Machine()).(chain := old(chain)[i := cxt.(dispatched := true)])
    {
      chain := chain[i := cxt.(dispatched := true)];
    }

    /** The second half of _rl_dispatch_callback, once the child has answered. */
    method Answer(code: int) returns (o: D.Outcome)
      requires Valid() && callback && chain != []
      modifies this, maps, queue, queue.ibuffer
      ensures Valid() && maps.nodes == old(maps.nodes)
      ensures (o, Machine()) == D.Answered(maps.nodes, code, old(Machine()))
    {
      if code == -3 {
        var last := |chain| - 1;
        chain := chain[last := chain[last].(childval := -3)];
        return D.Returned(-3);
      }
      o := AnswerNewest(code);
    }

    /** The newest context answers, with no other key expected. */
    method AnswerNewest(code: int) returns (o: D.Outcome)
      requires Valid() && callback && chain != [] && code != -3
      modifies this, maps, queue, queue.ibuffer
      ensures Valid() && maps.nodes == old(maps.nodes)
      ensures (o, Machine()) == D.Answered(maps.nodes, code, old(Machine()))
    {
      var cxt := chain[|chain| - 1];
      ghost var c := Machine();
      o := BackOut(code, cxt.oldmap, cxt.okey, cxt.subseq);
      ghost var s := State();
      AnsweredIs(maps.nodes, code, c, o, s);
      LeaveContext(o);
      assert State() == s;
    }

    /** What becomes of the chain when the newest context answers. */
    method LeaveContext(o: D.Outcome)
      requires Valid() && callback && (o == D.Aborted || o.Returned?)
      requires if o == D.Aborted then chain == [] && !multikey else chain != []
      modifies `chain, `multikey
      ensures Valid()
      ensures if o == D.Aborted || o == D.Returned(0) then chain == [] && !multikey
              else chain == Popped(old(chain), o.code) && multikey == old(multikey)
    {
      if o == D.Returned(0) {
        chain := [];
        multikey := false;
      } else if o != D.Aborted {
        var last := |chain| - 1;
        chain := chain[..last];
        if last > 0 {
          chain := chain[last - 1 := chain[last - 1].(childval := o.code)];
        }
      }
    }

    /** One pass of rl_callback_read_char. */
    method CallbackReadChar(root: nat) returns (o: D.Outcome)
      requires Valid() && callback && root < |maps.nodes| && (multikey ==> chain != [])
      modifies this, maps, queue, queue.ibuffer
      ensures Valid() && maps.nodes == old(maps.nodes)
      ensures (o, Machine()) == D.ReadChar(maps.nodes, root, old(Machine()))
    {
      if multikey {
        o := DispatchContext();
        o := DrainChain(o);
      } else {
        o := DispatchRoot(root);
      }
    }

    /** One turn of the loop of rl_callback_read_char. */
    method DrainOne(was: D.Outcome) returns (o: D.Outcome)
      requires Valid() && callback && (was == D.Returned(-1) || was == D.Returned(-2))
      requires multikey && chain != [] && chain[|chain| - 1].dispatched
      modifies this, maps, queue, queue.ibuffer
      ensures Valid() && maps.nodes == old(maps.nodes)
      ensures |chain| < |old(chain)| || (o == D.Returned(-3) && |chain| == |old(chain)|)
      ensures D.Drain(maps.nodes, o, Machine()) == D.Drain(maps.nodes, was, old(Machine()))
    {
      ghost var c := Machine();
      o := DispatchContext();
      DrainNext(maps.nodes, was, c, o, Machine());
    }

    /** The loop of rl_callback_read_char. */
    method DrainChain(start: D.Outcome) returns (o: D.Outcome)
      requires Valid() && callback
      modifies this, maps, queue, queue.ibuffer
      ensures Valid() && maps.nodes == old(maps.nodes)
      ensures (o, Machine()) == D.Drain(maps.nodes, start, old(Machine()))
    {
      o := start;
      while (o == D.Returned(-1) || o == D.Returned(-2)) && multikey && chain != [] && chain[|chain| - 1].dispatched
        invariant Valid() && maps.nodes == old(maps.nodes)
        invariant D.Drain(maps.nodes, o, Machine()) == D.Drain(maps.nodes, start, old(Machine()))
        decreases |chain| + if o == D.Returned(-1) || o == D.Returned(-2) then 1 else 0
      {
        o := DrainOne(o);
      }
      DrainOver(maps.nodes, o, Machine());
    }
  }
}
