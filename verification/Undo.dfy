/**
  Editing one line with an undo log (text.c, undo.c), as functions on values.
 */
module Undo {

  import opened Common

  datatype Entry = Delete(start: nat, end: nat, text: string) | Insert(start: nat, end: nat) | Begin | End

  /** The line, the cursor and the undo log, newest entry last. */
  datatype Line = Line(text: string, point: nat, undo: seq<Entry>)

  /** Single-character inserts join the entry before them up to this length. */
  const MAX_COALESCED := 20

  // ----- Edits -----

  predicate Coalesces(undo: seq<Entry>, point: nat, n: nat) {
    && n == 1 && undo != []
    && var top := undo[|undo| - 1];
       top.Insert? && top.end == point && top.end - top.start < MAX_COALESCED
  }

  function LogInsert(undo: seq<Entry>, point: nat, n: nat): seq<Entry> {
    if Coalesces(undo, point, n) then
      var last := |undo| - 1;
      undo[last := Insert(undo[last].start, undo[last].end + 1)]
    else
      undo + [Insert(point, point + n)]
  }

  /** rl_insert_text */
  function InsertText(e: Line, s: string): Line
    requires e.point <= |e.text|
  {
    if s == [] then e
    else Line(e.text[..e.point] + s + e.text[e.point..], e.point + |s|, LogInsert(e.undo, e.point, |s|))
  }

  /** The bounds rl_delete_text works with: swapped if reversed, cut to the line. */
  function Bounds(len: nat, from: int, to: int): (r: (nat, nat))
    requires from >= 0 || to >= 0
    ensures r.0 <= r.1 <= len
  {
    var (f, t) := if from > to then (to, from) else (from, to);
    var (f', t') := if t > len then (if f > len then len else f, len) else (f, t);
    (if f' < 0 then 0 else f', t')
  }

  /** rl_delete_text, which leaves the cursor where it is. */
  function DeleteText(e: Line, from: int, to: int): Line
    requires from >= 0 || to >= 0
  {
    var (f, t) := Bounds(|e.text|, from, to);
    e.(text := e.text[..f] + e.text[t..], undo := e.undo + [Delete(f, t, e.text[f..t])])
  }

  function BeginGroup(e: Line): Line { e.(undo := e.undo + [Begin]) }

  function EndGroup(e: Line): Line { e.(undo := e.undo + [End]) }

  /** _rl_replace_text: the part from `start` to `end` inclusive. */
  function ReplaceText(e: Line, s: string, start: nat, end: int): Line
    requires start <= |e.text|
  {
    var e1 := BeginGroup(e);
    var e2 := if start <= end then DeleteText(e1, start, end + 1) else e1;
    EndGroup(InsertText(e2.(point := start), s))
  }

  /** rl_modifying: log that the text between is about to change in place. */
  function Modifying(e: Line, start: nat, end: nat): Line
    requires start <= |e.text| && end <= |e.text|
  {
    var (f, t) := if start > end then (end, start) else (start, end);
    if f == t then e
    else e.(undo := e.undo + [Begin, Delete(f, t, e.text[f..t]), Insert(f, t), End])
  }

  /** Changing part of the line in place, as case changes do, after logging it. */
  function ChangeInPlace(e: Line, start: nat, new': string): Line
    requires start + |new'| <= |e.text|
  {
    var e1 := Modifying(e, start, start + |new'|);
    e1.(text := e.text[..start] + new' + e.text[start + |new'|..], point := start + |new'|)
  }

  // ----- Undoing -----

  /** The line with one entry undone. */
  function Undone(text: string, x: Entry): string {
    match x
    case Delete(start, _, s) => if start <= |text| then text[..start] + s + text[start..] else text
    case Insert(start, end) => if start <= end <= |text| then text[..start] + text[end..] else text
    case Begin | End => text
  }

  /** The entry speaks of a place inside the line. */
  predicate Applies(text: string, x: Entry) {
    match x
    case Delete(start, end, s) => start <= |text| && end == start + |s|
    case Insert(start, end) => start <= end <= |text|
    case Begin | End => true
  }

  /** The line with the whole log undone, newest entry first. */
  function Rewound(text: string, undo: seq<Entry>): string
    decreases |undo|
  {
    if undo == [] then text
    else Rewound(Undone(text, undo[|undo| - 1]), undo[..|undo| - 1])
  }

  predicate Rewinds(text: string, undo: seq<Entry>)
    decreases |undo|
  {
    undo == [] || (Applies(text, undo[|undo| - 1]) && Rewinds(Undone(text, undo[|undo| - 1]), undo[..|undo| - 1]))
  }

  /** Where the cursor is once an entry has been undone. */
  function PointAfter(point: nat, x: Entry): nat {
    match x
    case Delete(start, _, s) => start + |s|
    case Insert(start, _) => start
    case Begin | End => point
  }

  /** One entry of the log undone: the line, the cursor and the log without it. */
  function PopEntry(e: Line): Line
    requires e.undo != []
  {
    var n := |e.undo| - 1;
    var x := e.undo[n];
    Line(Undone(e.text, x), PointAfter(e.point, x), e.undo[..n])
  }

  /** How many groups are still to be closed once `x` has been undone. */
  function Waiting(x: Entry, w: nat): nat {
    match x
    case End => w + 1
    case Begin => if w > 0 then w - 1 else 0
    case Insert(_, _) | Delete(_, _, _) => w
  }

  /** The loop of rl_do_undo. */
  function UndoLoop(e: Line, w: nat): (Line, bool)
    decreases |e.undo|
  {
    if e.undo == [] then (e, false)
    else
      var w' := Waiting(e.undo[|e.undo| - 1], w);
      if w' == 0 then (PopEntry(e), true) else UndoLoop(PopEntry(e), w')
  }

  /** rl_do_undo, and whether there was anything to undo. */
  function DoUndo(e: Line): (Line, bool) { UndoLoop(e, 0) }

  /** One turn of it. */
  lemma UndoLoopTurn(e: Line, w: nat)
    requires e.undo != [] && Rewinds(e.text, e.undo)
    ensures
      var (x, e') := (e.undo[|e.undo| - 1], PopEntry(e));
      var w' := Waiting(x, w);
      && Applies(e.text, x) && Rewinds(e'.text, e'.undo)
      && UndoLoop(e, w) == if w' == 0 then (e', true) else UndoLoop(e', w')
  {
  }

  lemma {:induction false} UndoLoopShrinks(e: Line, w: nat)
    requires e.undo != []
    ensures |UndoLoop(e, w).0.undo| < |e.undo|
    decreases |e.undo|
  {
    var e', w' := PopEntry(e), Waiting(e.undo[|e.undo| - 1], w);
    if w' != 0 && e'.undo != [] { UndoLoopShrinks(e', w'); }
  }

  /** rl_revert_line */
  function Revert(e: Line): Line
    decreases |e.undo|
  {
    if e.undo == [] then e else
      UndoLoopShrinks(e, 0);
      Revert(DoUndo(e).0)
  }

  // ----- Undoing everything restores the line -----

  lemma {:induction false} UndoLoopRewinds(e: Line, w: nat)
    requires Rewinds(e.text, e.undo)
    ensures var e' := UndoLoop(e, w).0;
            Rewinds(e'.text, e'.undo) && Rewound(e'.text, e'.undo) == Rewound(e.text, e.undo)
    decreases |e.undo|
  {
    if e.undo != [] {
      var w' := Waiting(e.undo[|e.undo| - 1], w);
      if w' != 0 { UndoLoopRewinds(PopEntry(e), w'); }
    }
  }

  lemma {:induction false} RevertRewinds(e: Line)
    requires Rewinds(e.text, e.undo)
    ensures Revert(e).text == Rewound(e.text, e.undo) && Revert(e).undo == []
    decreases |e.undo|
  {
    if e.undo != [] {
      UndoLoopShrinks(e, 0);
      UndoLoopRewinds(e, 0);
      RevertRewinds(DoUndo(e).0);
    }
  }

  // ----- Edits and the log -----

  /** `e` can be taken back to the line `text` with the log `undo`. */
  ghost predicate Extends(text: string, undo: seq<Entry>, e: Line) {
    && undo <= e.undo
    && Rewinds(e.text, e.undo[|undo|..])
    && Rewound(e.text, e.undo[|undo|..]) == text
  }

  lemma ExtendsPush(text: string, undo: seq<Entry>, e: Line, text': string, point: nat, x: Entry)
    requires Extends(text, undo, e) && Applies(text', x) && Undone(text', x) == e.text
    ensures Extends(text, undo, Line(text', point, e.undo + [x]))
  {
    TailPush(e.undo, x, |undo|);
    RewindsPush(text', e.undo[|undo|..], x);
  }

  lemma RewindsPush(text: string, undo: seq<Entry>, x: Entry)
    ensures Rewinds(text, undo + [x]) <==> Applies(text, x) && Rewinds(Undone(text, x), undo)
    ensures Rewound(text, undo + [x]) == Rewound(Undone(text, x), undo)
  {
    PushLast(undo, x);
  }

  /** Nothing can be joined to the last entry of the log. */
  predicate Sealed(undo: seq<Entry>) { undo == [] || !undo[|undo| - 1].Insert? }

  lemma InsertUndone(text: string, p: nat, s: string)
    requires p <= |text|
    ensures var text' := text[..p] + s + text[p..];
            Applies(text', Insert(p, p + |s|)) && Undone(text', Insert(p, p + |s|)) == text
  {
    var text' := text[..p] + s + text[p..];
    assert text'[..p] == text[..p] && text'[p + |s|..] == text[p..];
  }

  lemma DeleteUndone(text: string, f: nat, t: nat)
    requires f <= t <= |text|
    ensures var text', x := text[..f] + text[t..], Delete(f, t, text[f..t]);
            Applies(text', x) && Undone(text', x) == text
  {
    var text' := text[..f] + text[t..];
    assert text'[..f] == text[..f] && text'[f..] == text[t..];
    assert text == text[..f] + text[f..t] + text[t..];
  }

  /** Joining a character to an insert: both undo to the same line. */
  lemma CoalescedUndone(text: string, start: nat, p: nat, s: string)
    requires start <= p <= |text| && |s| == 1
    ensures Undone(text[..p] + s + text[p..], Insert(start, p + 1)) == Undone(text, Insert(start, p))
  {
    var text' := text[..p] + s + text[p..];
    assert text'[..start] == text[..start] && text'[p + 1..] == text[p..];
  }

  lemma LastReplaced(undo: seq<Entry>, more: seq<Entry>, x: Entry)
    requires undo < more
    ensures
      var n := |more| - 1;
      && more[|undo|..] == more[|undo|..n] + [more[n]]
      && undo <= more[n := x] && more[n := x][|undo|..] == more[|undo|..n] + [x]
  {
  }

  /** A character joined to the last entry. */
  lemma ExtendsCoalesced(text: string, undo: seq<Entry>, e: Line, text': string, point: nat, s: string)
    requires Extends(text, undo, e) && (Sealed(undo) || |undo| < |e.undo|) && e.point <= |e.text| && |s| == 1
    requires Coalesces(e.undo, e.point, |s|) && text' == e.text[..e.point] + s + e.text[e.point..]
    ensures Extends(text, undo, Line(text', point, LogInsert(e.undo, e.point, |s|)))
  {
    var n := |e.undo| - 1;
    var top, tail := e.undo[n], e.undo[|undo|..n];
    LastReplaced(undo, e.undo, Insert(top.start, top.end + 1));
    CoalescedUndone(e.text, top.start, e.point, s);
    RewindsPush(e.text, tail, top);
    RewindsPush(text', tail, Insert(top.start, top.end + 1));
  }

  lemma ExtendsInsert(text: string, undo: seq<Entry>, e: Line, s: string)
    requires Extends(text, undo, e) && (Sealed(undo) || |undo| < |e.undo|) && e.point <= |e.text|
    ensures Extends(text, undo, InsertText(e, s))
  {
    if s != [] {
      var e', p := InsertText(e, s), e.point;
      if Coalesces(e.undo, p, |s|) {
        ExtendsCoalesced(text, undo, e, e'.text, e'.point, s);
      } else {
        InsertUndone(e.text, p, s);
        ExtendsPush(text, undo, e, e'.text, e'.point, Insert(p, p + |s|));
      }
    }
  }

  lemma ExtendsDelete(text: string, undo: seq<Entry>, e: Line, from: int, to: int)
    requires Extends(text, undo, e) && (from >= 0 || to >= 0)
    ensures Extends(text, undo, DeleteText(e, from, to))
  {
    var (f, t) := Bounds(|e.text|, from, to);
    var e' := DeleteText(e, from, to);
    DeleteUndone(e.text, f, t);
    ExtendsPush(text, undo, e, e'.text, e'.point, Delete(f, t, e.text[f..t]));
  }

  lemma ExtendsMark(text: string, undo: seq<Entry>, e: Line, x: Entry)
    requires Extends(text, undo, e) && (x.Begin? || x.End?)
    ensures Extends(text, undo, e.(undo := e.undo + [x]))
  {
    ExtendsPush(text, undo, e, e.text, e.point, x);
  }

  lemma ExtendsPoint(text: string, undo: seq<Entry>, e: Line, p: nat)
    requires Extends(text, undo, e)
    ensures Extends(text, undo, e.(point := p))
  {
  }

  lemma ExtendsReplace(text: string, undo: seq<Entry>, e: Line, s: string, start: nat, end: int)
    requires Extends(text, undo, e) && start <= |e.text|
    ensures Extends(text, undo, ReplaceText(e, s, start, end))
  {
    var b := BeginGroup(e);
    ExtendsMark(text, undo, e, Begin);
    if start <= end {
      ExtendsDelete(text, undo, b, start, end + 1);
      DeletedBehind(b, start, end + 1);
      ExtendsFill(text, undo, DeleteText(b, start, end + 1), s, start);
    } else {
      ExtendsFill(text, undo, b, s, start);
    }
  }

  /** The insertion that ends a replacement. */
  lemma ExtendsFill(text: string, undo: seq<Entry>, e: Line, s: string, start: nat)
    requires Extends(text, undo, e) && |undo| < |e.undo| && start <= |e.text|
    ensures Extends(text, undo, EndGroup(InsertText(e.(point := start), s)))
  {
    ExtendsPoint(text, undo, e, start);
    ExtendsInsert(text, undo, e.(point := start), s);
    ExtendsMark(text, undo, InsertText(e.(point := start), s), End);
  }

  lemma DeletedBehind(e: Line, start: nat, to: nat)
    requires start <= |e.text| && start <= to
    ensures var e' := DeleteText(e, start, to); start <= |e'.text| && |e'.undo| == |e.undo| + 1
  {
  }

  /** A change in place is undone by taking the new text out and putting the old one back. */
  lemma ExtendsChange(text: string, undo: seq<Entry>, e: Line, start: nat, new': string)
    requires Extends(text, undo, e) && start + |new'| <= |e.text|
    ensures Extends(text, undo, ChangeInPlace(e, start, new'))
  {
    var end := start + |new'|;
    var e' := ChangeInPlace(e, start, new');
    if new' == [] {
      assert e'.text == e.text;
    } else {
      var old', cut := e.text[start..end], e.text[..start] + e.text[end..];
      var e1 := Line(e.text, e.point, e.undo + [Begin]);
      var e2 := Line(cut, e.point, e1.undo + [Delete(start, end, old')]);
      var e3 := Line(e'.text, e.point, e2.undo + [Insert(start, end)]);
      DeleteUndone(e.text, start, end);
      InsertUndone(cut, start, new');
      CutPieces(e.text, start, end);
      ExtendsMark(text, undo, e, Begin);
      ExtendsPush(text, undo, e1, cut, e.point, Delete(start, end, old'));
      ExtendsPush(text, undo, e2, e'.text, e.point, Insert(start, end));
      ExtendsPush(text, undo, e3, e'.text, e'.point, End);
      FourPushed(e.undo, Begin, Delete(start, end, old'), Insert(start, end), End);
    }
  }

  lemma CutPieces(text: string, start: nat, end: nat)
    requires start <= end <= |text|
    ensures var cut := text[..start] + text[end..]; cut[..start] == text[..start] && cut[start..] == text[end..]
  {
  }

  lemma FourPushed(undo: seq<Entry>, a: Entry, b: Entry, c: Entry, d: Entry)
    ensures undo + [a, b, c, d] == undo + [a] + [b] + [c] + [d]
  {
  }

  // ----- Runs of edits -----

  datatype Edit =
    | MoveTo(p: nat)
    | InsertAt(s: string)
    | DeleteFrom(from: int, to: int)
    | Replace(s: string, start: nat, end: int)
    | Change(start: nat, new': string)
    | OpenGroup
    | CloseGroup

  /** The edit speaks of a place inside the line. */
  predicate InRange(e: Line, x: Edit) {
    match x
    case MoveTo(p) => p <= |e.text|
    case InsertAt(_) => e.point <= |e.text|
    case DeleteFrom(from, to) => from >= 0 || to >= 0
    case Replace(_, start, _) => start <= |e.text|
    case Change(start, s) => start + |s| <= |e.text|
    case OpenGroup | CloseGroup => true
  }

  function Apply(e: Line, x: Edit): Line
    requires InRange(e, x)
  {
    match x
    case MoveTo(p) => e.(point := p)
    case InsertAt(s) => InsertText(e, s)
    case DeleteFrom(from, to) => DeleteText(e, from, to)
    case Replace(s, start, end) => ReplaceText(e, s, start, end)
    case Change(start, s) => ChangeInPlace(e, start, s)
    case OpenGroup => BeginGroup(e)
    case CloseGroup => EndGroup(e)
  }

  predicate AllInRange(e: Line, xs: seq<Edit>)
    decreases |xs|
  {
    xs == [] || (InRange(e, xs[0]) && AllInRange(Apply(e, xs[0]), xs[1..]))
  }

  function ApplyAll(e: Line, xs: seq<Edit>): Line
    requires AllInRange(e, xs)
    decreases |xs|
  {
    if xs == [] then e else ApplyAll(Apply(e, xs[0]), xs[1..])
  }

  lemma ExtendsApply(text: string, undo: seq<Entry>, e: Line, x: Edit)
    requires Extends(text, undo, e) && Sealed(undo) && InRange(e, x)
    ensures Extends(text, undo, Apply(e, x))
  {
    match x
    case MoveTo(p) => ExtendsPoint(text, undo, e, p);
    case InsertAt(s) => ExtendsInsert(text, undo, e, s);
    case DeleteFrom(from, to) => ExtendsDelete(text, undo, e, from, to);
    case Replace(s, start, end) => ExtendsReplace(text, undo, e, s, start, end);
    case Change(start, s) => ExtendsChange(text, undo, e, start, s);
    case OpenGroup => ExtendsMark(text, undo, e, Begin);
    case CloseGroup => ExtendsMark(text, undo, e, End);
  }

  lemma {:induction false} ExtendsApplyAll(text: string, undo: seq<Entry>, e: Line, xs: seq<Edit>)
    requires Extends(text, undo, e) && Sealed(undo) && AllInRange(e, xs)
    ensures Extends(text, undo, ApplyAll(e, xs))
    decreases |xs|
  {
    if xs != [] {
      ExtendsApply(text, undo, e, xs[0]);
      ExtendsApplyAll(text, undo, Apply(e, xs[0]), xs[1..]);
    }
  }

  /** An edit, or the undo command between edits. */
  datatype Action = Do(edit: Edit) | UndoOne

  function Act(e: Line, a: Action): Line
    requires a.Do? ==> InRange(e, a.edit)
  {
    if a.Do? then Apply(e, a.edit) else DoUndo(e).0
  }

  predicate AllPossible(e: Line, acts: seq<Action>)
    decreases |acts|
  {
    acts == [] || ((acts[0].Do? ==> InRange(e, acts[0].edit)) && AllPossible(Act(e, acts[0]), acts[1..]))
  }

  function ActAll(e: Line, acts: seq<Action>): Line
    requires AllPossible(e, acts)
    decreases |acts|
  {
    if acts == [] then e else ActAll(Act(e, acts[0]), acts[1..])
  }

  lemma {:induction false} ExtendsActAll(text: string, e: Line, acts: seq<Action>)
    requires Extends(text, [], e) && AllPossible(e, acts)
    ensures Extends(text, [], ActAll(e, acts))
    decreases |acts|
  {
    if acts != [] {
      var e' := Act(e, acts[0]);
      if acts[0].Do? {
        ExtendsApply(text, [], e, acts[0].edit);
      } else {
        ExtendsUndo(text, e);
      }
      ExtendsActAll(text, e', acts[1..]);
    }
  }

  lemma ExtendsUndo(text: string, e: Line)
    requires Extends(text, [], e)
    ensures Extends(text, [], DoUndo(e).0)
  {
    var e' := DoUndo(e).0;
    assert e.undo[0..] == e.undo && e'.undo[0..] == e'.undo;
    UndoLoopRewinds(e, 0);
  }

  /**
    Reverting restores the line: whatever edits were made since the log was
    empty, grouped or not, balanced or not, joined into one entry or not, and
    whatever was undone between them.
   */
  lemma RevertRestores(e: Line, acts: seq<Action>)
    requires e.undo == [] && AllPossible(e, acts)
    ensures Revert(ActAll(e, acts)).text == e.text && Revert(ActAll(e, acts)).undo == []
  {
    var e' := ActAll(e, acts);
    ExtendsActAll(e.text, e, acts);
    assert e'.undo[0..] == e'.undo;
    RevertRewinds(e');
  }

  // ----- Groups -----

  /** The part `tail` of a log leaves `open` groups open and closes none it did not open. */
  predicate Nested(tail: seq<Entry>, open: nat)
    decreases |tail|
  {
    if tail == [] then open == 0
    else
      var rest := tail[..|tail| - 1];
      match tail[|tail| - 1]
      case End => Nested(rest, open + 1)
      case Begin => open > 0 && Nested(rest, open - 1)
      case Insert(_, _) | Delete(_, _, _) => Nested(rest, open)
  }

  /** Undoing inside a group does not stop before everything nested in it is undone. */
  lemma UndoLoopThrough(base: seq<Entry>, e: Line, open: nat, w: nat) returns (p: nat)
    requires base <= e.undo && Nested(e.undo[|base|..], open) && w > 0
    ensures UndoLoop(e, open + w) == UndoLoop(Line(Rewound(e.text, e.undo[|base|..]), p, base), w)
  {
    var tail := e.undo[|base|..];
    assert e.undo == base + tail;
    p := TailUndone(base, tail, e.text, e.point, open, w);
  }

  lemma {:induction false} TailUndone(base: seq<Entry>, tail: seq<Entry>, text: string, point: nat, open: nat, w: nat)
    returns (p: nat)
    requires Nested(tail, open) && w > 0
    ensures UndoLoop(Line(text, point, base + tail), open + w) == UndoLoop(Line(Rewound(text, tail), p, base), w)
    decreases |tail|
  {
    if tail == [] {
      assert base + tail == base;
      p := point;
    } else {
      var n := |tail| - 1;
      var point', open' := TailPopped(base, tail, text, point, open, w);
      p := TailUndone(base, tail[..n], Undone(text, tail[n]), point', open', w);
    }
  }

  /** Undoing the last entry of the tail, inside the group. */
  lemma TailPopped(base: seq<Entry>, tail: seq<Entry>, text: string, point: nat, open: nat, w: nat)
    returns (point': nat, open': nat)
    requires tail != [] && Nested(tail, open) && w > 0
    ensures
      var n := |tail| - 1;
      && Nested(tail[..n], open')
      && UndoLoop(Line(text, point, base + tail), open + w) ==
         UndoLoop(Line(Undone(text, tail[n]), point', base + tail[..n]), open' + w)
  {
    var n, e := |tail| - 1, Line(text, point, base + tail);
    var x := tail[n];
    assert e.undo[|e.undo| - 1] == x && e.undo[..|e.undo| - 1] == base + tail[..n];
    open' := match x case End => open + 1 case Begin => open - 1 case Insert(_, _) | Delete(_, _, _) => open;
    point' := PopEntry(e).point;
    assert Waiting(x, open + w) == open' + w;
  }

  /** How many groups are open after a run of edits started with `open`; none is closed that was not opened. */
  predicate Groups(xs: seq<Edit>, open: nat)
    decreases |xs|
  {
    if xs == [] then open == 0
    else match xs[0]
      case OpenGroup => Groups(xs[1..], open + 1)
      case CloseGroup => open > 0 && Groups(xs[1..], open - 1)
      case _ => Groups(xs[1..], open)
  }

  /** How many groups are open once `x` has been logged. */
  function OpenAfter(open: nat, x: Entry): nat
    requires x.End? ==> open > 0
  {
    if x.Begin? then open + 1 else if x.End? then open - 1 else open
  }

  /** Above `base` the log is properly nested, with `open` groups open. */
  predicate NestedAbove(base: seq<Entry>, undo: seq<Entry>, open: nat) {
    base <= undo && Nested(undo[|base|..], open)
  }

  lemma NestedPush(base: seq<Entry>, undo: seq<Entry>, open: nat, x: Entry)
    requires NestedAbove(base, undo, open) && (x.End? ==> open > 0)
    ensures NestedAbove(base, undo + [x], OpenAfter(open, x))
  {
    var tail := undo[|base|..];
    assert (undo + [x])[|base|..] == tail + [x] && (tail + [x])[..|tail|] == tail;
  }

  lemma NestedInsert(base: seq<Entry>, undo: seq<Entry>, point: nat, open: nat, n: nat)
    requires base < undo || Sealed(base)
    requires NestedAbove(base, undo, open)
    ensures NestedAbove(base, LogInsert(undo, point, n), open)
  {
    var tail, undo' := undo[|base|..], LogInsert(undo, point, n);
    if Coalesces(undo, point, n) {
      assert tail != [] && tail[|tail| - 1] == undo[|undo| - 1];
      assert undo'[|base|..][..|tail| - 1] == tail[..|tail| - 1];
    } else {
      NestedPush(base, undo, open, Insert(point, point + n));
    }
  }

  lemma NestedReplace(base: seq<Entry>, e: Line, open: nat, s: string, start: nat, end: int)
    requires NestedAbove(base, e.undo, open) && start <= |e.text|
    ensures NestedAbove(base, ReplaceText(e, s, start, end).undo, open)
  {
    NestedPush(base, e.undo, open, Begin);
    var e1 := BeginGroup(e);
    var e2 := if start <= end then DeleteText(e1, start, end + 1) else e1;
    if start <= end {
      NestedPush(base, e1.undo, open + 1, e2.undo[|e1.undo|]);
    }
    var e3 := InsertText(e2.(point := start), s);
    if s != [] { NestedInsert(base, e2.undo, start, open + 1, |s|); }
    NestedPush(base, e3.undo, open + 1, End);
  }

  lemma NestedChange(base: seq<Entry>, e: Line, open: nat, start: nat, new': string)
    requires NestedAbove(base, e.undo, open) && start + |new'| <= |e.text|
    ensures NestedAbove(base, ChangeInPlace(e, start, new').undo, open)
  {
    if new' != [] {
      var x, y := Delete(start, start + |new'|, e.text[start..start + |new'|]), Insert(start, start + |new'|);
      NestedPush(base, e.undo, open, Begin);
      NestedPush(base, e.undo + [Begin], open + 1, x);
      NestedPush(base, e.undo + [Begin] + [x], open + 1, y);
      NestedPush(base, e.undo + [Begin] + [x] + [y], open + 1, End);
      assert ChangeInPlace(e, start, new').undo == e.undo + [Begin] + [x] + [y] + [End];
    }
  }

  /** An edit nests inside a group: it touches no entry made before the group was opened. */
  lemma NestedApply(base: seq<Entry>, e: Line, open: nat, x: Edit)
    requires base < e.undo || Sealed(base)
    requires NestedAbove(base, e.undo, open) && InRange(e, x) && (x.CloseGroup? ==> open > 0)
    ensures NestedAbove(base, Apply(e, x).undo,
                        if x.OpenGroup? then open + 1 else if x.CloseGroup? then open - 1 else open)
  {
    match x
    case MoveTo(p) =>
    case InsertAt(s) => NestedInsert(base, e.undo, e.point, open, |s|);
    case DeleteFrom(from, to) => NestedPush(base, e.undo, open, Apply(e, x).undo[|e.undo|]);
    case Replace(s, start, end) => NestedReplace(base, e, open, s, start, end);
    case Change(start, s) => NestedChange(base, e, open, start, s);
    case OpenGroup => NestedPush(base, e.undo, open, Begin);
    case CloseGroup => NestedPush(base, e.undo, open, End);
  }

  lemma {:induction false} NestedApplyAll(base: seq<Entry>, e: Line, open: nat, xs: seq<Edit>)
    requires NestedAbove(base, e.undo, open) && Sealed(base)
    requires AllInRange(e, xs) && Groups(xs, open)
    ensures NestedAbove(base, ApplyAll(e, xs).undo, 0)
    decreases |xs|
  {
    if xs != [] {
      var x := xs[0];
      var open' := if x.OpenGroup? then open + 1 else if x.CloseGroup? then open - 1 else open;
      NestedApply(base, e, open, x);
      NestedApplyAll(base, Apply(e, x), open', xs[1..]);
    }
  }

  /**
    A group is undone as a whole.  Whatever edits were made between its begin
    and its end, with groups nested in it to any depth, one undo restores the
    line and the log as they were before it was begun.
   */
  lemma GroupIsAtomic(e: Line, xs: seq<Edit>)
    requires AllInRange(BeginGroup(e), xs) && Groups(xs, 0)
    ensures var (e', did) := DoUndo(EndGroup(ApplyAll(BeginGroup(e), xs)));
            did && e'.text == e.text && e'.undo == e.undo
  {
    var b := BeginGroup(e);
    var e1 := ApplyAll(b, xs);
    var base := b.undo;
    assert b.undo[|base|..] == [];
    NestedApplyAll(base, b, 0, xs);
    ExtendsApplyAll(e.text, base, b, xs);
    var closed := EndGroup(e1);
    assert closed.undo[..|closed.undo| - 1] == e1.undo;
    assert PopEntry(closed) == e1;
    var p := UndoLoopThrough(base, e1, 0, 1);
    var inner := Line(e.text, p, base);
    assert PopEntry(inner) == Line(e.text, p, e.undo) by { assert base[..|base| - 1] == e.undo; }
    assert DoUndo(closed) == UndoLoop(e1, 1);
  }
}
