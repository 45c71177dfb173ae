/**
  The history list: a growing array of entries with a NULL after the last,
  which a stifled list slides down one slot for every new line.
 */
module History {
  import opened Common

  datatype Record = Record(line: string, timestamp: string)

  /** The list as callers see it: entry i has the number base + i. */
  datatype List = List(entries: seq<Record>, base: nat, stifled: bool, max: nat)

  const GROW_SIZE := 50

  function Add(h: List, record: Record): List {
    if h.stifled && |h.entries| == h.max then
      if h.entries == [] then h
      else h.(entries := h.entries[1..] + [record], base := h.base + 1)
    else
      h.(entries := h.entries + [record])
  }

  function AddAll(h: List, records: seq<Record>): List
    decreases |records|
  {
    if records == [] then h else AddAll(Add(h, records[0]), records[1..])
  }

  function AddTime(h: List, timestamp: string): List {
    if h.entries == [] then h
    else h.(entries := h.entries[|h.entries| - 1 := h.entries[|h.entries| - 1].(timestamp := timestamp)])
  }

  function Get(h: List, number: int): Option<Record> {
    if 0 <= number - h.base < |h.entries| then Some(h.entries[number - h.base]) else None
  }

  /** How many of n entries a list of at most max entries has let go. */
  function Dropped(h: List, n: nat): nat {
    if h.stifled && n > h.max then n - h.max else 0
  }

  /**
    After any run of add_history the list holds the last lines added, as many
    as it may, and its base has moved by exactly as many as were let go. A
    list stifled to nothing takes no lines and leaves its base alone.
   */
  lemma {:induction false} LastLines(h: List, records: seq<Record>)
    requires h.stifled ==> |h.entries| <= h.max
    ensures
      var all := h.entries + records;
      var drop := Dropped(h, |all|);
      AddAll(h, records) ==
        if h.stifled && h.max == 0 then h
        else h.(entries := all[drop..], base := h.base + drop)
    decreases |records|
  {
    var all := h.entries + records;
    if records != [] {
      var h' := Add(h, records[0]);
      var all' := h'.entries + records[1..];
      LastLines(h', records[1..]);
      var drop, drop' := Dropped(h, |all|), Dropped(h', |all'|);
      if !(h.stifled && h.max == 0) {
        if h.stifled && |h.entries| == h.max {
          assert all' == all[1..];
          assert all'[drop'..] == all[drop..];
        } else {
          assert all' == all;
        }
      }
    }
  }

  /**
    Numbers are stable: whatever is added, asking for any number gives the
    entry that ever had it, or nothing once that entry has been let go.
   */
  lemma NumbersAreStable(h: List, records: seq<Record>, number: int)
    requires h.stifled ==> |h.entries| <= h.max
    ensures
      var all := h.entries + records;
      Get(AddAll(h, records), number) ==
        if h.base + Dropped(h, |all|) <= number < h.base + |all| then Some(all[number - h.base]) else None
  {
    LastLines(h, records);
  }

  /** stifle_history with max not negative: the base is set, not moved. */
  function Stifle(h: List, max: nat): List {
    var drop := if |h.entries| > max then |h.entries| - max else 0;
    List(h.entries[drop..], if drop > 0 then drop else h.base, true, max)
  }

  /**
    Stifling keeps the newest entries, but they keep their numbers exactly
    when nothing is let go, nothing is kept, or the base was still zero. The
    base starts at one, so the first stifling that lets go of an entry already
    renumbers the rest.
   */
  lemma StifleNumbers(h: List, max: nat)
    ensures |Stifle(h, max).entries| <= max
    ensures
      (forall i | 0 <= i < |Stifle(h, max).entries| ::
        var kept := |h.entries| - |Stifle(h, max).entries| + i;
        Stifle(h, max).entries[i] == h.entries[kept] && Stifle(h, max).base + i == h.base + kept)
      <==> |h.entries| <= max || max == 0 || h.base == 0
  {
    var s := Stifle(h, max);
    var drop := |h.entries| - |s.entries|;
    if |h.entries| > max > 0 && h.base > 0 {
      assert s.base + 0 != h.base + drop && s.entries[0] == h.entries[drop + 0];
    }
  }

  /** Two lines numbered 1 and 2, stifled to one: the second line is then number 1. */
  lemma StifleRenumbers(first: Record, second: Record)
    ensures
      var h := List([first, second], 1, false, 0);
      Get(h, 2) == Some(second) && Get(Stifle(h, 1), 1) == Some(second) && Get(Stifle(h, 1), 2) == None
  {
    assert [first, second][1..] == [second];
  }

  /** Setting the time of the line just added is adding it with that time, even where nothing is added. */
  lemma AddThenTime(h: List, record: Record, timestamp: string)
    ensures AddTime(Add(h, record), timestamp) == Add(h, record.(timestamp := timestamp))
  {
    var h' := Add(h, record);
    if h'.entries != [] && !(h.stifled && |h.entries| == h.max == 0) {
      var n := |h'.entries| - 1;
      assert h'.entries[n] == record;
      assert h'.entries[n := record.(timestamp := timestamp)] == h'.entries[..n] + [record.(timestamp := timestamp)];
    }
  }

  class HistoryList {
    var slots: array<Option<Record>>
    var length: nat
    var base: nat
    var stifled: bool
    var max: nat

    constructor ()
      ensures Valid() && fresh(slots) && View() == List([], 1, false, 0)
    {
      slots := new Option<Record>[0];
      length, base, stifled, max := 0, 1, false, 0;
    }

    /** There is room for a NULL after the last entry and it is there. */
    ghost predicate Valid()
      reads this, slots
    {
      && (slots.Length == 0 ==> length == 0)
      && (slots.Length > 0 ==> length < slots.Length && slots[length] == None)
      && (forall i | 0 <= i < length :: slots[i].Some?)
    }

    ghost function View(): List
      requires Valid()
      reads this, slots
    {
      List(seq(length, i requires 0 <= i < length reads this, slots
                       requires i < slots.Length && slots[i].Some? => slots[i].value), base, stifled, max)
    }

    /** Moves every entry, and the NULL, down one slot. */
    method SlideDown()
      requires Valid() && length > 0
      modifies slots
      ensures forall i | 0 <= i < length :: slots[i] == old(slots[i + 1])
      ensures slots[length] == None
    {
      for i := 0 to length
        invariant forall k | 0 <= k < i :: slots[k] == old(slots[k + 1])
        invariant forall k | i <= k < slots.Length :: slots[k] == old(slots[k])
      {
        slots[i] := slots[i + 1];
      }
    }

    /** Makes the first array, or a longer one when only the slot of the NULL is left. */
    method MakeRoom()
      requires Valid()
      modifies this`slots
      ensures length + 1 < slots.Length && (slots == old(slots) || fresh(slots))
      ensures forall i | 0 <= i < length :: slots[i] == old(slots[i])
    {
      if slots.Length == 0 {
        slots := new Option<Record>[GROW_SIZE];
      } else if length == slots.Length - 1 {
        var bigger := new Option<Record>[slots.Length + GROW_SIZE];
        for i := 0 to length
          invariant unchanged(this)
          invariant forall k | 0 <= k < i :: bigger[k] == slots[k]
        {
          bigger[i] := slots[i];
        }
        slots := bigger;
      }
    }

    /** add_history, the time it is called at given. */
    method AddHistory(line: string, now: string)
      requires Valid()
      modifies this, slots
      ensures Valid() && (slots == old(slots) || fresh(slots))
      ensures View() == Add(old(View()), Record(line, now))
    {
      if stifled && length == max {
        if length == 0 {
          return;
        }
        SlideDown();
        base := base + 1;
      } else {
        MakeRoom();
        length := length + 1;
      }
      slots[length] := None;
      slots[length - 1] := Some(Record(line, now));
      assert View().entries == Add(old(View()), Record(line, now)).entries;
    }

    /** add_history_time */
    method AddHistoryTime(timestamp: string)
      requires Valid()
      modifies slots
      ensures Valid() && View() == AddTime(old(View()), timestamp)
    {
      if length < 1 {
        return;
      }
      slots[length - 1] := Some(slots[length - 1].value.(timestamp := timestamp));
      assert View().entries == AddTime(old(View()), timestamp).entries;
    }

    /** history_get */
    method HistoryGet(offset: int) returns (record: Option<Record>)
      requires Valid()
      ensures record == Get(View(), offset)
    {
      var local := offset - base;
      if local >= length || local < 0 {
        return None;
      }
      return slots[local];
    }

    /** The newest entries moved to the front. */
    method KeepNewest(drop: nat, kept: nat, ghost was: seq<Option<Record>>)
      requires drop + kept <= slots.Length && was == slots[..]
      modifies slots
      ensures forall k {:trigger slots[k]} | 0 <= k < slots.Length :: slots[k] == if k < kept then was[k + drop] else was[k]
    {
      for j := 0 to kept
        invariant forall k {:trigger slots[k]} | 0 <= k < slots.Length :: slots[k] == if k < j then was[k + drop] else was[k]
      {
        slots[j] := slots[j + drop];
      }
    }

    /** The oldest entries leave the list, and their number becomes the base. */
    method LetGo(drop: nat)
      requires Valid() && 0 < drop <= length
      modifies `length, `base, slots
      ensures Valid() && View() == old(View()).(entries := old(View()).entries[drop..], base := drop)
    {
      ghost var entries, was := View().entries, slots[..];
      assert forall k | 0 <= k < length :: was[k] == Some(entries[k]);
      KeepNewest(drop, length - drop, was);
      length := length - drop;
      base := drop;
      slots[length] := None;
      assert forall k | 0 <= k < length :: slots[k] == Some(entries[k + drop]);
      assert View().entries == entries[drop..];
    }

    /** stifle_history */
    method StifleHistory(limit: int)
      requires Valid()
      modifies this, slots
      ensures Valid() && slots == old(slots)
      ensures View() == Stifle(old(View()), if limit < 0 then 0 else limit)
    {
      var limit' := if limit < 0 then 0 else limit;
      if length > limit' {
        LetGo(length - limit');
      }
      stifled, max := true, limit';
    }
  }
}
