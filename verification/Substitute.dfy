/**
  The :s and :gs modifiers of history expansion (history_expand_internal in
  histexpand.c): the loop that rewrites the string it is scanning.
 */
module Substitute {

  datatype Result = Ok(text: string) | NoPreviousSubstitution | SubstitutionFailed

  /** `lhs` is in `s` at index `i`. */
  predicate OccursAt(s: string, lhs: string, i: nat) {
    i + |lhs| <= |s| && s[i..i + |lhs|] == lhs
  }

  ghost predicate Occurs(s: string, lhs: string) {
    exists i: nat :: OccursAt(s, lhs, i)
  }

  // ----- What substitution means -----

  /**
    The parts of `s` between the occurrences of `lhs` found from left to
    right, each search starting behind the occurrence before.
   */
  function Pieces(s: string, lhs: string): (r: seq<string>)
    requires lhs != []
    ensures r != []
    decreases |s|
  {
    if |s| < |lhs| then [s]
    else if OccursAt(s, lhs, 0) then [[]] + Pieces(s[|lhs|..], lhs)
    else
      var rest := Pieces(s[1..], lhs);
      [[s[0]] + rest[0]] + rest[1..]
  }

  function Join(pieces: seq<string>, sep: string): string
    requires pieces != []
    decreases |pieces|
  {
    if |pieces| == 1 then pieces[0] else pieces[0] + sep + Join(pieces[1..], sep)
  }

  /** The first occurrence only. */
  function JoinFirst(pieces: seq<string>, lhs: string, rhs: string): string
    requires pieces != []
  {
    if |pieces| == 1 then pieces[0] else pieces[0] + rhs + Join(pieces[1..], lhs)
  }

  /** Putting the text itself between the pieces gives the string back. */
  lemma {:induction false} PiecesJoin(s: string, lhs: string)
    requires lhs != []
    ensures Join(Pieces(s, lhs), lhs) == s
    decreases |s|
  {
    if |s| >= |lhs| && OccursAt(s, lhs, 0) {
      PiecesJoin(s[|lhs|..], lhs);
      var p := Pieces(s[|lhs|..], lhs);
      assert ([[]] + p)[1..] == p;
      assert s == lhs + s[|lhs|..];
      assert [] + lhs == lhs;
    } else if |s| >= |lhs| {
      PiecesJoin(s[1..], lhs);
      JoinHead(Pieces(s[1..], lhs), s[0], lhs);
      assert s == [s[0]] + s[1..];
    }
  }

  lemma JoinHead(p: seq<string>, c: char, sep: string)
    requires p != []
    ensures Join([[c] + p[0]] + p[1..], sep) == [c] + Join(p, sep)
  {
    var q := [[c] + p[0]] + p[1..];
    assert q[1..] == p[1..];
    if |p| > 1 {
      assert ([c] + p[0]) + sep + Join(p[1..], sep) == [c] + (p[0] + sep + Join(p[1..], sep));
    }
  }

  /** The text is behind the first piece, if there is a second. */
  lemma {:induction false} FirstIsThere(s: string, lhs: string)
    requires lhs != [] && |Pieces(s, lhs)| > 1
    ensures OccursAt(s, lhs, |Pieces(s, lhs)[0]|)
    decreases |s|
  {
    if !OccursAt(s, lhs, 0) {
      PiecesSkip(s, lhs);
      FirstIsThere(s[1..], lhs);
      OccursShift(s, lhs, |Pieces(s[1..], lhs)[0]| + 1);
    }
  }

  /** The text is nowhere before that, and nowhere at all if there is only one piece. */
  lemma {:induction false} NothingBefore(s: string, lhs: string, i: nat)
    requires lhs != [] && (|Pieces(s, lhs)| == 1 || i < |Pieces(s, lhs)[0]|)
    ensures !OccursAt(s, lhs, i)
    decreases |s|
  {
    if |s| >= |lhs| {
      if OccursAt(s, lhs, 0) {
        PiecesMatch(s, lhs);
        assert false;
      }
      PiecesSkip(s, lhs);
      if i > 0 {
        NothingBefore(s[1..], lhs, i - 1);
        OccursShift(s, lhs, i);
      }
    }
  }

  lemma OccursShift(s: string, lhs: string, i: nat)
    requires s != []
    ensures i > 0 ==> (OccursAt(s, lhs, i) <==> OccursAt(s[1..], lhs, i - 1))
  {
    if 0 < i <= |s| - |lhs| {
      var x, y := s[i..i + |lhs|], s[1..][i - 1..i - 1 + |lhs|];
      assert forall k | 0 <= k < |lhs| :: x[k] == s[i + k] == y[k];
      assert x == y;
    }
  }

  lemma PiecesSkip(s: string, lhs: string)
    requires lhs != [] && |s| >= |lhs| && !OccursAt(s, lhs, 0)
    ensures var p := Pieces(s[1..], lhs); Pieces(s, lhs) == [[s[0]] + p[0]] + p[1..]
    ensures |Pieces(s, lhs)| == |Pieces(s[1..], lhs)|
  {
  }

  /** Behind the first occurrence the pieces are those of what follows it. */
  lemma {:induction false} PiecesRest(s: string, lhs: string) returns (n: nat, rest: seq<string>)
    requires lhs != [] && |Pieces(s, lhs)| > 1
    ensures n + |lhs| <= |s| && rest == Pieces(s[n + |lhs|..], lhs) && Pieces(s, lhs) == [s[..n]] + rest
    decreases |s|
  {
    if OccursAt(s, lhs, 0) {
      n := 0;
      rest := FirstRest(s, lhs);
    } else {
      PiecesSkip(s, lhs);
      n, rest := PiecesRest(s[1..], lhs);
      LongerRest(s, lhs, n, rest);
      n := n + 1;
    }
  }

  lemma FirstRest(s: string, lhs: string) returns (rest: seq<string>)
    requires lhs != [] && OccursAt(s, lhs, 0)
    ensures rest == Pieces(s[0 + |lhs|..], lhs) && Pieces(s, lhs) == [s[..0]] + rest
  {
    rest := Pieces(s[|lhs|..], lhs);
    PiecesMatch(s, lhs);
    assert s[..0] == [];
  }

  lemma LongerRest(s: string, lhs: string, n: nat, rest: seq<string>)
    requires lhs != [] && |s| >= |lhs| && !OccursAt(s, lhs, 0) && n + |lhs| < |s|
    requires rest == Pieces(s[1..][n + |lhs|..], lhs) && Pieces(s[1..], lhs) == [s[1..][..n]] + rest
    ensures rest == Pieces(s[n + 1 + |lhs|..], lhs) && Pieces(s, lhs) == [s[..n + 1]] + rest
  {
    PiecesSkip(s, lhs);
    assert s[1..][n + |lhs|..] == s[n + 1 + |lhs|..];
    FirstLonger(s, Pieces(s[1..], lhs), n, rest);
  }

  /** The first piece with the first character put back. */
  lemma FirstLonger(s: string, p: seq<string>, n: nat, rest: seq<string>)
    requires n < |s| && p == [s[1..][..n]] + rest
    ensures [[s[0]] + p[0]] + p[1..] == [s[..n + 1]] + rest
  {
    assert [s[0]] + s[1..][..n] == s[..n + 1];
  }

  function ReplaceAll(s: string, lhs: string, rhs: string): string
    requires lhs != []
  {
    Join(Pieces(s, lhs), rhs)
  }

  function ReplaceFirst(s: string, lhs: string, rhs: string): string
    requires lhs != []
  {
    JoinFirst(Pieces(s, lhs), lhs, rhs)
  }

  function Replaced(s: string, lhs: string, rhs: string, globally: bool): string
    requires lhs != []
  {
    if globally then ReplaceAll(s, lhs, rhs) else ReplaceFirst(s, lhs, rhs)
  }

  // ----- One step of the scan -----

  lemma Assoc(a: string, b: string, c: string)
    ensures a + (b + c) == (a + b) + c
  {
  }

  lemma PiecesMatch(s: string, lhs: string)
    requires lhs != [] && OccursAt(s, lhs, 0)
    ensures Pieces(s, lhs) == [[]] + Pieces(s[|lhs|..], lhs) && Pieces(s, lhs)[1..] == Pieces(s[|lhs|..], lhs)
  {
  }

  lemma ReplacedMatch(s: string, lhs: string, rhs: string)
    requires lhs != [] && OccursAt(s, lhs, 0)
    ensures ReplaceAll(s, lhs, rhs) == rhs + ReplaceAll(s[|lhs|..], lhs, rhs)
    ensures ReplaceFirst(s, lhs, rhs) == rhs + s[|lhs|..]
  {
    PiecesMatch(s, lhs);
    PiecesJoin(s[|lhs|..], lhs);
    assert [] + rhs == rhs;
  }

  lemma JoinFirstHead(p: seq<string>, c: char, lhs: string, rhs: string)
    requires p != []
    ensures JoinFirst([[c] + p[0]] + p[1..], lhs, rhs) == [c] + JoinFirst(p, lhs, rhs)
  {
    var q := [[c] + p[0]] + p[1..];
    assert q[1..] == p[1..];
    if |p| > 1 {
      assert ([c] + p[0]) + rhs + Join(p[1..], lhs) == [c] + (p[0] + rhs + Join(p[1..], lhs));
    }
  }

  lemma ReplacedSkip(s: string, lhs: string, rhs: string, globally: bool)
    requires lhs != [] && |s| >= |lhs| && !OccursAt(s, lhs, 0)
    ensures Replaced(s, lhs, rhs, globally) == [s[0]] + Replaced(s[1..], lhs, rhs, globally)
  {
    PiecesSkip(s, lhs);
    if globally {
      JoinHead(Pieces(s[1..], lhs), s[0], rhs);
    } else {
      JoinFirstHead(Pieces(s[1..], lhs), s[0], lhs, rhs);
    }
  }

  /** What holds while scanning: `done` is final, `rest` is what is left of the original. */
  ghost predicate Scanning(text: string, lhs: string, rhs: string, globally: bool, done: string, rest: string, failed: bool)
    requires lhs != []
  {
    && (failed ==> done + rest == text && |Pieces(text, lhs)| == |Pieces(rest, lhs)|)
    && (!failed ==> globally && |Pieces(text, lhs)| > 1)
    && Replaced(text, lhs, rhs, globally) == done + Replaced(rest, lhs, rhs, globally)
  }

  lemma ScanSkip(text: string, lhs: string, rhs: string, globally: bool, done: string, rest: string, failed: bool)
    requires lhs != [] && Scanning(text, lhs, rhs, globally, done, rest, failed)
    requires |lhs| <= |rest| && !OccursAt(rest, lhs, 0)
    ensures Scanning(text, lhs, rhs, globally, done + [rest[0]], rest[1..], failed)
  {
    var c, tail := [rest[0]], rest[1..];
    ReplacedSkip(rest, lhs, rhs, globally);
    PiecesSkip(rest, lhs);
    Assoc(done, c, tail);
    Assoc(done, c, Replaced(tail, lhs, rhs, globally));
    assert rest == c + tail;
  }

  lemma ScanMatch(text: string, lhs: string, rhs: string, globally: bool, done: string, rest: string, failed: bool)
    requires lhs != [] && Scanning(text, lhs, rhs, globally, done, rest, failed) && OccursAt(rest, lhs, 0)
    ensures |Pieces(text, lhs)| > 1
    ensures !globally ==> (done + rhs) + rest[|lhs|..] == ReplaceFirst(text, lhs, rhs)
    ensures globally ==> Scanning(text, lhs, rhs, globally, done + rhs, rest[|lhs|..], false)
  {
    var tail := rest[|lhs|..];
    ReplacedMatch(rest, lhs, rhs);
    PiecesMatch(rest, lhs);
    Assoc(done, rhs, tail);
    Assoc(done, rhs, ReplaceAll(tail, lhs, rhs));
  }

  /**
    The substitution of history_expand_internal, word by word matching aside.
    The global form terminates although it lengthens the string it is
    scanning, and what it has put in is never scanned again.
   */
  method Substitute(text: string, lhs: string, rhs: string, globally: bool) returns (r: Result)
    ensures lhs == [] <==> r == NoPreviousSubstitution
    ensures lhs != [] ==> (r == SubstitutionFailed <==> !Occurs(text, lhs))
    ensures r.Ok? && globally ==> r.text == ReplaceAll(text, lhs, rhs)
    ensures r.Ok? && !globally ==> r.text == ReplaceFirst(text, lhs, rhs)
  {
    if lhs == [] {
      return NoPreviousSubstitution;
    }
    NoOccurrence(text, lhs);
    if |lhs| > |text| {
      return SubstitutionFailed;
    }
    var temp, si, lTemp, failed := text, 0, |text|, true;
    ghost var done, rest := "", text;
    ScanStart(text, lhs, rhs, globally);
    while si + |lhs| <= lTemp
      invariant si == |done| && lTemp == |temp| && temp == done + rest
      invariant Scanning(text, lhs, rhs, globally, done, rest, failed)
      decreases lTemp - si
    {
      Standing(temp, done, rest, lhs, rhs);
      if temp[si..si + |lhs|] == lhs {
        ScanMatch(text, lhs, rhs, globally, done, rest, failed);
        temp := temp[..si] + rhs + temp[si + |lhs|..];
        failed := false;
        if !globally {
          return Ok(temp);
        }
        done, rest := done + rhs, rest[|lhs|..];
        si := si + |rhs| - 1;
        lTemp := |temp|;
      } else {
        ScanSkip(text, lhs, rhs, globally, done, rest, failed);
        done, rest := done + [rest[0]], rest[1..];
      }
      si := si + 1;
    }
    ScanEnd(text, lhs, rhs, globally, done, rest, failed);
    r := if failed then SubstitutionFailed else Ok(temp);
  }

  lemma ScanStart(text: string, lhs: string, rhs: string, globally: bool)
    requires lhs != []
    ensures "" + text == text && Scanning(text, lhs, rhs, globally, "", text, true)
  {
    assert "" + text == text;
    assert "" + Replaced(text, lhs, rhs, globally) == Replaced(text, lhs, rhs, globally);
  }

  lemma ScanEnd(text: string, lhs: string, rhs: string, globally: bool, done: string, rest: string, failed: bool)
    requires lhs != [] && Scanning(text, lhs, rhs, globally, done, rest, failed) && |rest| < |lhs|
    ensures failed <==> |Pieces(text, lhs)| == 1
    ensures Replaced(text, lhs, rhs, globally) == done + rest
  {
    assert Pieces(rest, lhs) == [rest];
  }

  /** The string as seen from where the scan stands. */
  lemma Standing(temp: string, done: string, rest: string, lhs: string, rhs: string)
    requires temp == done + rest && 0 < |lhs| <= |rest|
    ensures
      var n := |done|;
      && (temp[n..n + |lhs|] == lhs <==> OccursAt(rest, lhs, 0))
      && temp[..n] + rhs + temp[n + |lhs|..] == (done + rhs) + rest[|lhs|..]
      && temp == (done + [rest[0]]) + rest[1..]
  {
    var n := |done|;
    assert temp[..n] == done && temp[n + |lhs|..] == rest[|lhs|..] && temp[n..n + |lhs|] == rest[0..|lhs|];
  }

  lemma NoOccurrence(s: string, lhs: string)
    requires lhs != []
    ensures Occurs(s, lhs) <==> |Pieces(s, lhs)| > 1
  {
    if |Pieces(s, lhs)| > 1 {
      FirstIsThere(s, lhs);
    } else {
      forall i: nat ensures !OccursAt(s, lhs, i) {
        NothingBefore(s, lhs, i);
      }
    }
  }
}
