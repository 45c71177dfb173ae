/**
  The line editor as the program keeps it: a character buffer that is shifted
  in place, the undo log and the kill ring.  Every method is tied to the
  function of module Undo or Kill that says what it does.
 */
module Editor {

  import opened Common
  import opened Undo
  import K = Kill

  const BUFFER_GROWTH := 256

  datatype CaseOp = UpCase | DownCase | CapCase

  predicate Lower(c: char) { 'a' <= c <= 'z' }
  predicate Upper(c: char) { 'A' <= c <= 'Z' }
  predicate Alphabetic(c: char) { Lower(c) || Upper(c) || '0' <= c <= '9' }
  function ToUpper(c: char): char { if Lower(c) then c - 'a' + 'A' else c }
  function ToLower(c: char): char { if Upper(c) then c - 'A' + 'a' else c }

  /** Whether a letter is put into upper case. */
  predicate Up(op: CaseOp, inword: bool) {
    op == UpCase || (op == CapCase && !inword)
  }

  /** A character with its case changed, and whether a word has then begun. */
  function RecasedChar(c: char, op: CaseOp, inword: bool): (char, bool) {
    if !Alphabetic(c) then (c, false)
    else (if Up(op, inword) then ToUpper(c) else ToLower(c), op == CapCase)
  }

  /** `s` from index `i` on with its case changed, `inword` telling whether a word has begun. */
  function Recased(s: string, i: nat, op: CaseOp, inword: bool): (r: string)
    requires i <= |s|
    ensures |r| == |s| - i
    decreases |s| - i
  {
    if i == |s| then []
    else
      var (c, inword') := RecasedChar(s[i], op, inword);
      [c] + Recased(s, i + 1, op, inword')
  }

  /** One more character recased. */
  lemma RecasedFirst(s: string, i: nat, op: CaseOp, inword: bool, done: string)
    requires i < |s|
    ensures
      var (c, inword') := RecasedChar(s[i], op, inword);
      var rest := Recased(s, i, op, inword);
      rest[1..] == Recased(s, i + 1, op, inword') && done + rest == (done + [c]) + rest[1..]
  {
  }

  /** A sequence that agrees with another one except for a part is that part spliced in. */
  lemma Spliced(now: string, was: string, start: nat, part: string)
    requires |now| == |was| && start + |part| <= |was|
    requires forall j | 0 <= j < |was| && !(start <= j < start + |part|) :: now[j] == was[j]
    requires forall j | start <= j < start + |part| :: now[j] == part[j - start]
    ensures now == was[..start] + part + was[start + |part|..]
  {
  }

  lemma Inserted(a: array<char>, n: nat, was: string, at: nat, s: string)
    requires at <= |was| && n == |was| + |s| <= a.Length
    requires forall j | 0 <= j < at :: a[j] == was[j]
    requires forall j | at <= j < at + |s| :: a[j] == s[j - at]
    requires forall j | at + |s| <= j < n :: a[j] == was[j - |s|]
    ensures a[..n] == was[..at] + s + was[at..]
  {
  }

  lemma Removed(now: string, was: string, f: nat, n: nat)
    requires f + n <= |was| && |now| == |was| - n
    requires forall j | 0 <= j < f :: now[j] == was[j]
    requires forall j | f <= j < |now| :: now[j] == was[j + n]
    ensures now == was[..f] + was[f + n..]
  {
    var goal := was[..f] + was[f + n..];
    assert forall j | f <= j < |now| :: goal[j] == was[f + n..][j - f] == was[j + n];
  }

  class Editor {
    var buf: array<char>
    var end: nat
    var point: nat
    var undo: seq<Entry>
    var ring: K.Ring
    var doingUndo: bool
    var groupLevel: int

    constructor ()
      ensures Valid() && fresh(buf) && View() == Line([], 0, []) && ring == K.Ring([], 0, false) && !doingUndo
    {
      buf := new char[BUFFER_GROWTH](i => '\0');
      end, point, undo := 0, 0, [];
      ring, doingUndo, groupLevel := K.Ring([], 0, false), false, 0;
    }

    /** There is room for the terminating null, and it is there. */
    ghost predicate Valid()
      reads this, buf
    {
      end < buf.Length && buf[end] == '\0'
    }

    ghost function View(): Line
      requires Valid()
      reads this, buf
    {
      Line(buf[..end], point, undo)
    }

    /** rl_extend_line_buffer: grow until index `len` exists. */
    method ExtendLineBuffer(len: nat)
      requires Valid()
      modifies `buf
      ensures Valid() && len < buf.Length && buf[..end] == old(buf[..end])
      ensures buf == old(buf) || fresh(buf)
    {
      var size := buf.Length;
      while size <= len
        invariant size >= buf.Length
      {
        size := size + BUFFER_GROWTH;
      }
      if size > buf.Length {
        var bigger := new char[size](i => '\0');
        for i := 0 to end + 1
          invariant Valid() && buf == old(buf)
          invariant forall j | 0 <= j < i :: bigger[j] == buf[j]
        {
          bigger[i] := buf[i];
        }
        assert bigger[..end] == buf[..end];
        buf := bigger;
      }
    }

    /** Move everything from the cursor on, with the null, `n` places right. */
    method ShiftRight(n: nat, ghost text: string)
      requires Valid() && point <= end && end + n < buf.Length && text == buf[..end + 1]
      modifies buf
      ensures forall j | 0 <= j < point :: buf[j] == text[j]
      ensures forall j | point + n <= j <= end + n :: buf[j] == text[j - n]
    {
      for i := end + 1 downto point
        invariant forall j | 0 <= j < i :: buf[j] == text[j]
        invariant forall j | i + n <= j <= end + n :: buf[j] == text[j - n]
      {
        buf[i + n] := buf[i];
      }
    }

    /** Copy `s` into the buffer at the cursor. */
    method CopyIn(s: string)
      requires point + |s| <= buf.Length
      modifies buf
      ensures forall j | 0 <= j < buf.Length ::
        buf[j] == if point <= j < point + |s| then s[j - point] else old(buf[j])
    {
      for k := 0 to |s|
        invariant forall j | 0 <= j < buf.Length ::
          buf[j] == if point <= j < point + k then s[j - point] else old(buf[j])
      {
        buf[point + k] := s[k];
      }
    }

    /** Put `s` into the line at the cursor. */
    method PutIn(s: string)
      requires Valid() && point <= end && end + |s| < buf.Length
      modifies `end, buf
      ensures Valid() && end == old(end) + |s|
      ensures buf[..end] == old(buf[..end])[..point] + s + old(buf[..end])[point..]
    {
      ghost var was := buf[..end];
      var n := |s|;
      ShiftRight(n, buf[..end + 1]);
      CopyIn(s);
      end := end + n;
      Inserted(buf, end, was, point, s);
    }

    /** Take the `n` characters at `f` out of the line. */
    method TakeOut(f: nat, n: nat)
      requires Valid() && f + n <= end
      modifies `end, buf
      ensures Valid() && end == old(end) - n
      ensures buf[..end] == old(buf[..end])[..f] + old(buf[..end])[f + n..]
    {
      ghost var text := buf[..end];
      ShiftLeft(f, n, text);
      end := end - n;
      buf[end] := '\0';
      Removed(buf[..end], text, f, n);
    }

    /** rl_insert_text: shift the tail right, copy the text in, log it unless an undo is being done. */
    method InsertText(s: string) returns (n: nat)
      requires Valid() && point <= end
      modifies this, buf
      ensures Valid() && n == |s| && (buf == old(buf) || fresh(buf))
      ensures var e := Undo.InsertText(old(View()), s);
              View() == if doingUndo then e.(undo := old(undo)) else e
      ensures ring == old(ring) && doingUndo == old(doingUndo) && groupLevel == old(groupLevel)
    {
      n := |s|;
      if n == 0 {
        return;
      }
      if end + n >= buf.Length {
        ExtendLineBuffer(end + n);
      }
      PutIn(s);
      if !doingUndo {
        undo := LogInsert(undo, point, n);
      }
      point := point + n;
    }

    /** The bounds put in order and cut to the line. */
    method Clip(from: int, to: int) returns (f: int, t: int)
      requires from >= 0 || to >= 0
      ensures (f, t) == Bounds(end, from, to)
    {
      f, t := from, to;
      if f > t {
        f, t := t, f;
      }
      if t > end {
        t := end;
        if f > t {
          f := t;
        }
      }
      if f < 0 {
        f := 0;
      }
    }

    /** rl_delete_text: the bounds are put in order and cut to the line, the tail shifted left. */
    method DeleteText(from: int, to: int) returns (n: nat)
      requires Valid() && (from >= 0 || to >= 0)
      modifies this, buf
      ensures Valid() && buf == old(buf)
      ensures var e := Undo.DeleteText(old(View()), from, to);
              View() == (if doingUndo then e.(undo := old(undo)) else e) && n == old(end) - end
      ensures ring == old(ring) && doingUndo == old(doingUndo) && groupLevel == old(groupLevel)
    {
      var f, t := Clip(from, to);
      var cut := buf[f..t];
      assert cut == buf[..end][f..t];
      n := t - f;
      TakeOut(f, n);
      if !doingUndo {
        undo := undo + [Delete(f, t, cut)];
      }
    }

    /** Move what follows the `n` characters at `f` over them. */
    method ShiftLeft(f: nat, n: nat, ghost text: string)
      requires Valid() && f + n <= end && text == buf[..end]
      modifies buf
      ensures forall j | 0 <= j < f :: buf[j] == text[j]
      ensures forall j | f <= j < end - n :: buf[j] == text[j + n]
    {
      for i := f to end - n
        invariant forall j | 0 <= j < f :: buf[j] == text[j]
        invariant forall j | f <= j < i :: buf[j] == text[j + n]
        invariant forall j | i <= j < end :: buf[j] == text[j]
      {
        buf[i] := buf[i + n];
      }
    }

    /** rl_begin_undo_group */
    method BeginUndoGroup()
      requires Valid()
      modifies `undo, `groupLevel
      ensures Valid() && View() == BeginGroup(old(View())) && groupLevel == old(groupLevel) + 1
    {
      undo := undo + [Begin];
      groupLevel := groupLevel + 1;
    }

    /** rl_end_undo_group */
    method EndUndoGroup()
      requires Valid()
      modifies `undo, `groupLevel
      ensures Valid() && View() == EndGroup(old(View())) && groupLevel == old(groupLevel) - 1
    {
      undo := undo + [End];
      groupLevel := groupLevel - 1;
    }

    /** _rl_replace_text */
    method ReplaceText(s: string, start: nat, last: int) returns (n: nat)
      requires Valid() && !doingUndo && start <= end
      modifies this, buf
      ensures Valid() && (buf == old(buf) || fresh(buf))
      ensures View() == Undo.ReplaceText(old(View()), s, start, last) && n == |s|
      ensures ring == old(ring) && !doingUndo && groupLevel == old(groupLevel)
    {
      n := 0;
      BeginUndoGroup();
      ghost var e1 := View();
      if start <= last {
        var _ := DeleteText(start, last + 1);
      }
      ghost var e2 := View();
      assert e2 == if start <= last then Undo.DeleteText(e1, start, last + 1) else e1;
      point := start;
      assert View() == e2.(point := start);
      if s != [] {
        n := InsertText(s);
      }
      assert View() == Undo.InsertText(e2.(point := start), s);
      EndUndoGroup();
    }

    /** rl_modifying */
    method ModifyingText(start: nat, stop: nat)
      requires Valid() && start <= end && stop <= end
      modifies `undo, `groupLevel
      ensures Valid() && View() == Modifying(old(View()), start, stop) && groupLevel == old(groupLevel)
    {
      var f, t := start, stop;
      if f > t {
        f, t := t, f;
      }
      if f != t {
        var text := buf[f..t];
        assert buf[..end][f..t] == text;
        BeginUndoGroup();
        undo := undo + [Delete(f, t, text)];
        undo := undo + [Insert(f, t)];
        EndUndoGroup();
        assert undo == old(undo) + [Begin, Delete(f, t, text), Insert(f, t), End];
      }
    }

    /** rl_change_case, from the text at `start` to where the word motion ended. */
    method ChangeCase(start: nat, stop: nat, op: CaseOp)
      requires Valid() && start <= stop <= end
      modifies this, buf
      ensures Valid() && buf == old(buf)
      ensures View() == ChangeInPlace(old(View()), start, Recased(old(buf[start..stop]), 0, op, false))
      ensures ring == old(ring) && doingUndo == old(doingUndo) && groupLevel == old(groupLevel)
    {
      ModifyingText(start, stop);
      Recase(start, stop, op);
      point := stop;
    }

    /** The part of the line from `start` to `stop` with its case changed in place. */
    method Recase(start: nat, stop: nat, op: CaseOp)
      requires Valid() && start <= stop <= end
      modifies buf
      ensures Valid()
      ensures buf[..end] == old(buf[..end])[..start] + Recased(old(buf[start..stop]), 0, op, false) + old(buf[..end])[stop..]
    {
      ghost var text, todo := buf[..end], buf[start..stop];
      RecaseLoop(start, stop, op, text, todo);
      Spliced(buf[..end], text, start, Recased(todo, 0, op, false));
    }

    /** The loop of rl_change_case. */
    method RecaseLoop(start: nat, stop: nat, op: CaseOp, ghost text: string, ghost todo: string)
      requires Valid() && start <= stop <= end && text == buf[..end] && todo == buf[start..stop]
      modifies buf
      ensures Valid()
      ensures forall j | 0 <= j < end && !(start <= j < stop) :: buf[j] == text[j]
      ensures forall j | start <= j < stop :: buf[j] == Recased(todo, 0, op, false)[j - start]
    {
      ghost var all := Recased(todo, 0, op, false);
      ghost var done: string, rest := "", all;
      var i, inword := start, false;
      while i < stop
        invariant start <= i <= stop && Valid() && |done| == i - start
        invariant forall j {:trigger buf[j]} | 0 <= j < end :: buf[j] == if start <= j < i then done[j - start] else text[j]
        invariant all == done + rest && rest == Recased(todo, i - start, op, inword)
      {
        assert todo[i - start] == text[i];
        RecasedFirst(todo, i - start, op, inword, done);
        inword := RecaseOne(i, op, inword);
        done, rest := done + [buf[i]], rest[1..];
        i := i + 1;
      }
      assert rest == [];
    }

    /** One character of rl_change_case, and whether a word has begun. */
    method RecaseOne(i: nat, op: CaseOp, inword: bool) returns (inword': bool)
      requires i < buf.Length
      modifies buf
      ensures (buf[i], inword') == RecasedChar(old(buf[i]), op, inword)
      ensures forall j | 0 <= j < buf.Length && j != i :: buf[j] == old(buf[j])
    {
      if !Alphabetic(buf[i]) {
        return false;
      }
      buf[i] := if Up(op, inword) then ToUpper(buf[i]) else ToLower(buf[i]);
      return op == CapCase;
    }

    /** Undo the newest entry, on the line only. */
    method UndoTop()
      requires Valid() && undo != [] && Applies(View().text, undo[|undo| - 1])
      modifies this, buf
      ensures Valid() && (buf == old(buf) || fresh(buf))
      ensures View() == PopEntry(old(View()))
      ensures ring == old(ring) && !doingUndo && groupLevel == old(groupLevel)
    {
      doingUndo := true;
      UndoEntry(undo[|undo| - 1]);
      doingUndo := false;
      undo := undo[..|undo| - 1];
    }

    /** Takes back what an entry logged, without logging that. */
    method UndoEntry(x: Entry)
      requires Valid() && doingUndo && Applies(View().text, x)
      modifies this, buf
      ensures Valid() && (buf == old(buf) || fresh(buf)) && doingUndo
      ensures View() == Line(Undone(old(View()).text, x), PointAfter(old(View()).point, x), old(undo))
      ensures ring == old(ring) && groupLevel == old(groupLevel)
    {
      ghost var e0 := View();
      if x.Delete? {
        point := x.start;
        assert View() == e0.(point := x.start);
        var _ := InsertText(x.text);
      } else if x.Insert? {
        var _ := DeleteText(x.start, x.end);
        assert View() == Undo.DeleteText(e0, x.start, x.end).(undo := undo);
        point := x.start;
      }
    }

    /** rl_do_undo */
    method DoUndo() returns (did: bool)
      requires Valid() && !doingUndo && Rewinds(View().text, undo)
      modifies this, buf
      ensures Valid() && (buf == old(buf) || fresh(buf))
      ensures (View(), did) == Undo.DoUndo(old(View())) && Rewinds(View().text, undo)
      ensures ring == old(ring) && !doingUndo && groupLevel == old(groupLevel)
    {
      var waitingForBegin := 0;
      while true
        invariant Valid() && !doingUndo && (buf == old(buf) || fresh(buf)) && Rewinds(View().text, undo)
        invariant UndoLoop(View(), waitingForBegin) == Undo.DoUndo(old(View()))
        invariant ring == old(ring) && groupLevel == old(groupLevel)
        decreases |undo|
      {
        if undo == [] {
          return false;
        }
        UndoLoopTurn(View(), waitingForBegin);
        if undo[|undo| - 1].End? {
          waitingForBegin := waitingForBegin + 1;
        } else if undo[|undo| - 1].Begin? && waitingForBegin > 0 {
          waitingForBegin := waitingForBegin - 1;
        }
        UndoTop();
        if waitingForBegin == 0 {
          return true;
        }
      }
    }

    /** rl_revert_line */
    method RevertLine()
      requires Valid() && !doingUndo && Rewinds(View().text, undo)
      modifies this, buf
      ensures Valid() && View() == Revert(old(View())) && undo == []
      ensures View().text == Rewound(old(View()).text, old(undo))
    {
      RevertRewinds(View());
      while undo != []
        invariant Valid() && !doingUndo && (buf == old(buf) || fresh(buf)) && Rewinds(View().text, undo)
        invariant Revert(View()) == Revert(old(View()))
        decreases |undo|
      {
        UndoLoopShrinks(View(), 0);
        var _ := DoUndo();
      }
    }

    /** Every slot takes the text of the next; for the last one that is read from behind the ring. */
    static method SlideSlots(slots: seq<string>) returns (r: seq<string>, behind: bool)
      requires slots != []
      ensures |r| == |slots| && r[..|r| - 1] == slots[1..] && behind
    {
      r, behind := slots, false;
      for i := 0 to |slots|
        invariant |r| == |slots| && (behind <==> i == |slots|)
        invariant forall k {:trigger r[k]} | 0 <= k < |slots| ::
          r[k] == if k < i && k + 1 < |slots| then slots[k + 1] else slots[k]
      {
        if i + 1 < |slots| {
          r := r[i := r[i + 1]];
        } else {
          behind := true;
        }
      }
    }

    /** _rl_copy_to_kill_ring */
    method CopyToKillRing(text: string, append: bool) returns (behind: bool)
      requires K.Usable(ring)
      modifies `ring
      ensures ring == K.CopyToRing(old(ring), text, append)
      ensures behind <==> !old(ring).lastKill && |old(ring).slots| == K.MAX_KILLS
    {
      behind := false;
      var slots := ring.slots;
      var slot: int;
      if !ring.lastKill {
        if slots == [] {
          slots := [[]];
          slot := 0;
        } else {
          slot := |slots|;
          if slot == K.MAX_KILLS {
            slots, behind := SlideSlots(slots);
          } else {
            slots := slots + [[]];
            slot := slot + 1;
          }
          slot := slot - 1;
        }
        slots := slots[slot := text];
      } else {
        slot := |slots| - 1;
        slots := slots[slot := if append then slots[slot] + text else text + slots[slot]];
      }
      ring := K.Ring(slots, slot, ring.lastKill);
    }

    /** rl_kill_text */
    method KillText(from: nat, to: nat)
      requires Valid() && !doingUndo && K.Usable(ring) && from <= end && to <= end
      modifies this, buf
      ensures Valid() && buf == old(buf) && !doingUndo
      ensures (View(), ring) == K.KillText(old(View()), old(ring), from, to)
    {
      if from == to {
        ring := ring.(lastKill := true);
        return;
      }
      var text := if from < to then buf[from..to] else buf[to..from];
      if from < to { SliceOfPrefix(buf, end, from, to); } else { SliceOfPrefix(buf, end, to, from); }
      var _ := DeleteText(from, to);
      var _ := CopyToKillRing(text, from < to);
      ring := ring.(lastKill := true);
    }

    /** The shape of rl_kill_word, rl_backward_kill_word and the line kills: `target` is where the motion ended. */
    method KillTo(target: nat)
      requires Valid() && !doingUndo && K.Usable(ring) && point <= end && target <= end
      modifies this, buf
      ensures Valid() && buf == old(buf) && !doingUndo && K.Usable(ring)
      ensures if target == old(point) then View() == old(View()) && ring == old(ring)
              else (View(), ring) == K.KillTo(old(View()), old(ring), target)
    {
      var origPoint := point;
      point := target;
      if point != origPoint {
        KillText(origPoint, point);
      }
      if origPoint < target {
        point := origPoint;
      }
    }

    /** rl_kill_line and rl_backward_kill_line */
    method KillLine(backward: bool)
      requires Valid() && !doingUndo && K.Usable(ring) && point <= end
      modifies this, buf
      ensures Valid() && buf == old(buf) && !doingUndo && K.Usable(ring)
      ensures var e := old(View());
              var target := if backward then 0 else |e.text|;
              if target == e.point then View() == e && ring == old(ring)
              else (View(), ring) == K.KillTo(e, old(ring), target)
    {
      KillTo(if backward then 0 else end);
    }

    /** rl_yank; with nothing ever killed it aborts. */
    method Yank() returns (ok: bool)
      requires Valid() && !doingUndo && K.Usable(ring) && point <= end
      modifies this, buf
      ensures Valid() && (buf == old(buf) || fresh(buf)) && ring == old(ring) && !doingUndo
      ensures ok == (ring.slots != [])
      ensures View() == if ok then K.Yank(old(View()), ring) else old(View())
    {
      if ring.slots == [] {
        return false;
      }
      var _ := InsertText(ring.slots[ring.index]);
      return true;
    }

    /** rl_yank_pop; `afterYank` tells that the last command was a yank or a pop. */
    method YankPop(afterYank: bool) returns (ok: bool)
      requires Valid() && !doingUndo && K.Usable(ring) && point <= end
      modifies this, buf
      ensures Valid() && (buf == old(buf) || fresh(buf)) && !doingUndo
      ensures ok <==> afterYank && K.CanPop(old(View()), old(ring))
      ensures (View(), ring) == if ok then K.YankPop(old(View()), old(ring)) else (old(View()), old(ring))
    {
      if !afterYank || ring.slots == [] {
        return false;
      }
      var l := |ring.slots[ring.index]|;
      var n := point - l;
      if n >= 0 { SliceOfPrefix(buf, end, n, point); }
      if n < 0 || buf[n..point] != ring.slots[ring.index] {
        return false;
      }
      ghost var e0 := View();
      var _ := DeleteText(n, point);
      ghost var e1 := View();
      assert e1 == Undo.DeleteText(e0, n, e0.point) && |e1.text| == end;
      point := n;
      ring := ring.(index := K.Previous(ring.index, |ring.slots|));
      assert View() == e1.(point := n) && n <= end;
      var _ := Yank();
      return true;
    }
  }
}
