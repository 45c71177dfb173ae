/**
  The kill ring (kill.c), as functions on values.
 */
module Kill {

  import opened Undo

  const MAX_KILLS := 10

  /** rl_kill_ring, rl_kill_index and _rl_last_command_was_kill. */
  datatype Ring = Ring(slots: seq<string>, index: nat, lastKill: bool)

  /** Adding to a slot needs a slot, and no slot is beyond the limit. */
  predicate Usable(r: Ring) {
    (r.lastKill ==> r.slots != []) && |r.slots| <= MAX_KILLS && (r.slots != [] ==> r.index < |r.slots|)
  }

  /** _rl_copy_to_kill_ring */
  function CopyToRing(r: Ring, text: string, append: bool): (r': Ring)
    requires Usable(r)
    ensures Usable(r') && r'.index == |r'.slots| - 1
  {
    if !r.lastKill then
      var kept := if |r.slots| == MAX_KILLS then r.slots[1..] else r.slots;
      Ring(kept + [text], |kept|, r.lastKill)
    else
      var last := |r.slots| - 1;
      var old' := r.slots[last];
      Ring(r.slots[last := if append then old' + text else text + old'], last, r.lastKill)
  }

  /** rl_kill_text: `from` is where the cursor is, `to` how far the kill reaches. */
  function KillText(e: Line, r: Ring, from: nat, to: nat): (Line, Ring)
    requires Usable(r) && from <= |e.text| && to <= |e.text|
  {
    if from == to then (e, r.(lastKill := true))
    else
      var text := if from < to then e.text[from..to] else e.text[to..from];
      (DeleteText(e, from, to), CopyToRing(r, text, from < to).(lastKill := true))
  }

  /** Killing nothing when nothing has been killed yet is what leaves no slot to add to. */
  lemma KillKeepsUsable(e: Line, r: Ring, from: nat, to: nat)
    requires Usable(r) && from <= |e.text| && to <= |e.text|
    ensures Usable(KillText(e, r, from, to).1) <==> !(from == to && r.slots == [])
  {
  }

  /** The kill commands: kill from the cursor to `target`; a backward kill moves the cursor there. */
  function KillTo(e: Line, r: Ring, target: nat): (Line, Ring)
    requires Usable(r) && e.point <= |e.text| && target <= |e.text| && target != e.point
  {
    var (e', r') := KillText(e, r, e.point, target);
    (e'.(point := if target < e.point then target else e.point), r')
  }

  /** rl_yank */
  function Yank(e: Line, r: Ring): Line
    requires e.point <= |e.text| && r.index < |r.slots|
  {
    InsertText(e, r.slots[r.index])
  }

  function Previous(i: nat, n: nat): (j: nat)
    requires i < n
    ensures j < n
  {
    if i == 0 then n - 1 else i - 1
  }

  /** The text before the cursor is the current slot, so rl_yank_pop may replace it. */
  predicate CanPop(e: Line, r: Ring) {
    && r.index < |r.slots| && |r.slots[r.index]| <= e.point <= |e.text|
    && e.text[e.point - |r.slots[r.index]|..e.point] == r.slots[r.index]
  }

  /** rl_yank_pop after a yank; when the text before the cursor is not the slot it aborts. */
  function YankPop(e: Line, r: Ring): (Line, Ring)
    requires CanPop(e, r)
  {
    var n := e.point - |r.slots[r.index]|;
    var e' := DeleteText(e, n, e.point).(point := n);
    var r' := r.(index := Previous(r.index, |r.slots|));
    (Yank(e', r'), r')
  }

  // ----- Kills in a row collect in one slot -----

  /** `before` is the line left of the cursor, then the slot, then the rest of the line. */
  ghost predicate Collected(before: string, e: Line, r: Ring) {
    && Usable(r) && r.lastKill && r.index == |r.slots| - 1 && e.point <= |e.text|
    && before == e.text[..e.point] + r.slots[r.index] + e.text[e.point..]
  }

  lemma FirstKill(e: Line, r: Ring, target: nat)
    requires Usable(r) && !r.lastKill && e.point <= |e.text| && target <= |e.text| && target != e.point
    ensures var (e', r') := KillTo(e, r, target); Collected(e.text, e', r')
  {
    var (e', r') := KillTo(e, r, target);
    var f, t := if target < e.point then target else e.point, if target < e.point then e.point else target;
    assert Bounds(|e.text|, e.point, target) == (f, t);
    assert r'.slots[r'.index] == e.text[f..t];
    assert e'.text[..f] == e.text[..f] && e'.text[f..] == e.text[t..];
    assert e.text == e.text[..f] + e.text[f..t] + e.text[t..];
  }

  lemma Regroup(text: string, slot: string, p: nat, t: nat)
    requires p <= |text| && t <= |text|
    ensures p <= t ==> text[..p] + slot + text[p..] == text[..p] + (slot + text[p..t]) + text[t..]
    ensures t <= p ==> text[..p] + slot + text[p..] == text[..t] + (text[t..p] + slot) + text[p..]
  {
    if p <= t {
      assert text[p..] == text[p..t] + text[t..];
    }
    if t <= p {
      assert text[..p] == text[..t] + text[t..p];
    }
  }

  /** A kill after a kill, what it takes from which side. */
  lemma KillToTakes(e: Line, r: Ring, target: nat)
    requires Usable(r) && r.lastKill && e.point <= |e.text| && target <= |e.text| && target != e.point
    ensures
      var (e', r') := KillTo(e, r, target);
      var f, t := if target < e.point then target else e.point, if target < e.point then e.point else target;
      var slot := r.slots[|r.slots| - 1];
      && e'.point == f && e'.text == e.text[..f] + e.text[t..]
      && Usable(r') && r'.lastKill && r'.index == |r'.slots| - 1 && |r'.slots| == |r.slots|
      && r'.slots[r'.index] == if target < e.point then e.text[f..t] + slot else slot + e.text[f..t]
  {
  }

  lemma NextKill(before: string, e: Line, r: Ring, target: nat)
    requires Collected(before, e, r) && target <= |e.text| && target != e.point
    ensures var (e', r') := KillTo(e, r, target); Collected(before, e', r')
  {
    var (e', r') := KillTo(e, r, target);
    KillToTakes(e, r, target);
    Regroup(e.text, r.slots[r.index], e.point, target);
    assert e'.text[..e'.point] == if target < e.point then e.text[..target] else e.text[..e.point];
    assert e'.text[e'.point..] == if target < e.point then e.text[e.point..] else e.text[target..];
  }

  /** Every target lies in what is then left of the line, off the cursor. */
  predicate AllReachable(e: Line, r: Ring, targets: seq<nat>)
    requires Usable(r) && e.point <= |e.text|
    decreases |targets|
  {
    targets == [] ||
    (targets[0] <= |e.text| && targets[0] != e.point &&
     var (e', r') := KillTo(e, r, targets[0]);
     KillToKeeps(e, r, targets[0]);
     AllReachable(e', r', targets[1..]))
  }

  lemma KillToKeeps(e: Line, r: Ring, target: nat)
    requires Usable(r) && e.point <= |e.text| && target <= |e.text| && target != e.point
    ensures var (e', r') := KillTo(e, r, target); Usable(r') && e'.point <= |e'.text|
  {
  }

  function KillAll(e: Line, r: Ring, targets: seq<nat>): (Line, Ring)
    requires Usable(r) && e.point <= |e.text| && AllReachable(e, r, targets)
    decreases |targets|
  {
    if targets == [] then (e, r)
    else
      var (e', r') := KillTo(e, r, targets[0]);
      KillToKeeps(e, r, targets[0]);
      KillAll(e', r', targets[1..])
  }

  lemma {:induction false} KillsCollect(before: string, e: Line, r: Ring, targets: seq<nat>)
    requires Collected(before, e, r) && AllReachable(e, r, targets)
    ensures var (e', r') := KillAll(e, r, targets); Collected(before, e', r') && |r'.slots| == |r.slots|
    decreases |targets|
  {
    if targets != [] {
      NextKill(before, e, r, targets[0]);
      var (e', r') := KillTo(e, r, targets[0]);
      KillsCollect(before, e', r', targets[1..]);
    }
  }

  /**
    Kills in a row, forward and backward in any order, take one slot, and one
    yank puts back everything they took.
   */
  lemma YankRestores(e: Line, r: Ring, targets: seq<nat>)
    requires Usable(r) && !r.lastKill && e.point <= |e.text| && targets != [] && AllReachable(e, r, targets)
    ensures var (e', r') := KillAll(e, r, targets);
            && r'.index < |r'.slots| && e'.point <= |e'.text|
            && Yank(e', r').text == e.text
            && r'.slots[..r'.index] == if |r.slots| == MAX_KILLS then r.slots[1..] else r.slots
  {
    FirstKill(e, r, targets[0]);
    var (e1, r1) := KillTo(e, r, targets[0]);
    KillsCollect(e.text, e1, r1, targets[1..]);
    KillsKeepOthers(e1, r1, targets[1..]);
    var (e', r') := KillAll(e1, r1, targets[1..]);
    YankPutsBack(e.text, e', r');
    FirstTakesSlot(e, r, targets[0]);
  }

  lemma YankPutsBack(before: string, e: Line, r: Ring)
    requires Collected(before, e, r)
    ensures Yank(e, r).text == before
  {
    if r.slots[r.index] == [] {
      assert e.text[..e.point] + [] + e.text[e.point..] == e.text;
    }
  }

  lemma FirstTakesSlot(e: Line, r: Ring, target: nat)
    requires Usable(r) && !r.lastKill && e.point <= |e.text| && target <= |e.text| && target != e.point
    ensures
      var r' := KillTo(e, r, target).1;
      r'.slots[..|r'.slots| - 1] == if |r.slots| == MAX_KILLS then r.slots[1..] else r.slots
  {
  }

  lemma {:induction false} KillsKeepOthers(e: Line, r: Ring, targets: seq<nat>)
    requires Usable(r) && r.lastKill && r.index == |r.slots| - 1
    requires e.point <= |e.text| && AllReachable(e, r, targets)
    ensures var r' := KillAll(e, r, targets).1; r'.index == r.index < |r'.slots| && r'.slots[..r.index] == r.slots[..r.index]
    decreases |targets|
  {
    if targets != [] {
      var (e', r') := KillTo(e, r, targets[0]);
      KillToKeeps(e, r, targets[0]);
      KillsKeepOthers(e', r', targets[1..]);
    }
  }

  // ----- Popping goes round the ring -----

  /** The line shows the current slot between `left` and `right`, the cursor behind it. */
  ghost predicate Shows(left: string, right: string, e: Line, r: Ring) {
    && r.index < |r.slots|
    && e.text == left + r.slots[r.index] + right
    && e.point == |left| + |r.slots[r.index]|
  }

  lemma PopShows(left: string, right: string, e: Line, r: Ring)
    requires Shows(left, right, e, r)
    ensures CanPop(e, r)
    ensures var (e', r') := YankPop(e, r); Shows(left, right, e', r')
  {
    var slot, n := r.slots[r.index], |left|;
    assert e.text[n..e.point] == slot;
    assert Bounds(|e.text|, n, e.point) == (n, e.point);
    var cut := DeleteText(e, n, e.point).(point := n);
    assert cut.text == left + right;
    assert cut.text[..n] == left && cut.text[n..] == right;
  }

  function Pops(e: Line, r: Ring, k: nat): (Line, Ring)
    decreases k
  {
    if k == 0 || !CanPop(e, r) then (e, r)
    else
      var (e', r') := YankPop(e, r);
      Pops(e', r', k - 1)
  }

  lemma {:induction false} PopsShow(left: string, right: string, e: Line, r: Ring, k: nat)
    requires Shows(left, right, e, r) && k <= |r.slots|
    ensures var (e', r') := Pops(e, r, k);
            && Shows(left, right, e', r') && r'.slots == r.slots && r'.lastKill == r.lastKill
            && r'.index == if k <= r.index then r.index - k else r.index - k + |r.slots|
    decreases k
  {
    if k > 0 {
      PopShows(left, right, e, r);
      var (e', r') := YankPop(e, r);
      PopsShow(left, right, e', r', k - 1);
    }
  }

  /** After a yank, as many pops as the ring has slots give back the line, the cursor and the index. */
  lemma PopsGoRound(e: Line, r: Ring)
    requires e.point <= |e.text| && r.index < |r.slots|
    ensures var y := Yank(e, r);
            var (e', r') := Pops(y, r, |r.slots|);
            e'.text == y.text && e'.point == y.point && r' == r
  {
    YankShows(e, r);
    PopsBack(e.text[..e.point], e.text[e.point..], Yank(e, r), r);
  }

  lemma PopsBack(left: string, right: string, e: Line, r: Ring)
    requires Shows(left, right, e, r)
    ensures var (e', r') := Pops(e, r, |r.slots|); e'.text == e.text && e'.point == e.point && r' == r
  {
    PopsShow(left, right, e, r, |r.slots|);
  }

  lemma YankShows(e: Line, r: Ring)
    requires e.point <= |e.text| && r.index < |r.slots|
    ensures Shows(e.text[..e.point], e.text[e.point..], Yank(e, r), r)
  {
    assert r.slots[r.index] == [] ==> e.text == e.text[..e.point] + [] + e.text[e.point..];
  }
}
