/**
  Texts that leave rl_translate_keyseq (bind.c) without a key: after a control
  or meta prefix at its very end the parser takes the null for the key and
  steps over it.
 */
module KeyText {

  import opened KeySequence

  /** How far a key's name has been read. The three Awaiting modes take any byte as the key, the null too. */
  datatype Mode =
    | Start | Slash | SlashC | SlashM
    | AwaitingCtrl | CtrlSlash | CtrlSlashM | AfterCtrlMeta
    | AwaitingMeta | MetaSlash | MetaSlashC | AwaitingMetaCtrl

  function First(c: Byte): Mode { if c == BACKSLASH then Slash else Start }

  /** The mode once one more byte has been read. */
  function Next(mode: Mode, c: Byte, metaPrefix: bool): Mode {
    match mode
    case Start => First(c)
    case Slash => if c == CAP_C then SlashC else if c == CAP_M then SlashM else Start
    case SlashC => if c == DASH then AwaitingCtrl else First(c)
    case SlashM => if c == DASH then (if metaPrefix then Start else AwaitingMeta) else First(c)
    case AwaitingCtrl => if c == BACKSLASH then CtrlSlash else Start
    case CtrlSlash => if c == CAP_M then CtrlSlashM else First(c)
    case CtrlSlashM => if c == DASH then AfterCtrlMeta else First(c)
    case AfterCtrlMeta => Start
    case AwaitingMeta => if c == BACKSLASH then MetaSlash else Start
    case MetaSlash => if c == CAP_C then MetaSlashC else First(c)
    case MetaSlashC => if c == DASH then AwaitingMetaCtrl else First(c)
    case AwaitingMetaCtrl => Start
  }

  /** The mode a text ends in. */
  function Ends(mode: Mode, t: seq<Byte>, metaPrefix: bool): Mode
    decreases |t|
  {
    if t == [] then mode else Ends(Next(mode, t[0], metaPrefix), t[1..], metaPrefix)
  }

  predicate Open(mode: Mode) { mode == AwaitingCtrl || mode == AwaitingMeta || mode == AwaitingMetaCtrl }

  /** A text ends in the middle of a control or meta prefix. */
  predicate EndsOpen(mode: Mode, t: seq<Byte>, metaPrefix: bool) { Open(Ends(mode, t, metaPrefix)) }

  lemma EndsOne(mode: Mode, t: seq<Byte>, metaPrefix: bool)
    requires |t| == 1
    ensures Ends(mode, t, metaPrefix) == Next(mode, t[0], metaPrefix)
  {
    assert t[1..] == [];
    assert Ends(Next(mode, t[0], metaPrefix), [], metaPrefix) == Next(mode, t[0], metaPrefix);
  }

  lemma EndsTail(mode: Mode, t: seq<Byte>, metaPrefix: bool)
    requires t != []
    ensures Ends(mode, t, metaPrefix) == Ends(Next(mode, t[0], metaPrefix), t[1..], metaPrefix)
  {
  }

  /** Bytes other than a backslash are keys by themselves. */
  lemma {:induction false} PlainSkipped(t: seq<Byte>, n: nat, metaPrefix: bool)
    requires n <= |t| && forall i | 0 <= i < n :: t[i] != BACKSLASH
    ensures Ends(Start, t, metaPrefix) == Ends(Start, t[n..], metaPrefix)
    decreases n
  {
    if n > 0 {
      PlainSkipped(t[1..], n - 1, metaPrefix);
      assert t[1..][n - 1..] == t[n..];
    } else {
      assert t[0..] == t;
    }
  }

  /** A backslash or letter that only might have begun a longer name is a key of its own. */
  lemma HalfRead(t: seq<Byte>, metaPrefix: bool)
    ensures !(At(t, 0) == CAP_M && At(t, 1) == DASH && |t| >= 2) ==>
      (EndsOpen(CtrlSlash, t, metaPrefix) <==> EndsOpen(Start, t, metaPrefix))
    ensures !(At(t, 0) == CAP_C && At(t, 1) == DASH && |t| >= 2) ==>
      (EndsOpen(MetaSlash, t, metaPrefix) <==> EndsOpen(Start, t, metaPrefix))
    ensures At(t, 0) != DASH ==>
      && (EndsOpen(SlashC, t, metaPrefix) <==> EndsOpen(Start, t, metaPrefix))
      && (EndsOpen(SlashM, t, metaPrefix) <==> EndsOpen(Start, t, metaPrefix))
  {
    if |t| >= 2 {
      EndsTail(CtrlSlashM, t[1..], metaPrefix);
      EndsTail(MetaSlashC, t[1..], metaPrefix);
      EndsTail(Start, t[1..], metaPrefix);
    } else if |t| == 1 {
      EndsOne(CtrlSlash, t, metaPrefix);
      EndsOne(MetaSlash, t, metaPrefix);
      EndsOne(Start, t, metaPrefix);
    }
  }

  /** The names of control and meta keys. */
  lemma PrefixEnds(t: seq<Byte>, metaPrefix: bool)
    requires 0 !in t && |t| >= 3 && t[0] == BACKSLASH && (t[1] == CAP_C || t[1] == CAP_M) && t[2] == DASH
    ensures
      var n := FirstKeys(t, metaPrefix).1;
      if n > |t| then EndsOpen(Start, t, metaPrefix)
      else EndsOpen(Start, t, metaPrefix) <==> EndsOpen(Start, t[n..], metaPrefix)
  {
    EndsTail(Start, t, metaPrefix);
    EndsTail(Slash, t[1..], metaPrefix);
    assert t[1..][1..] == t[2..];
    EndsTail(Next(Slash, t[1], metaPrefix), t[2..], metaPrefix);
    assert t[2..][1..] == t[3..];
    if t[1] == CAP_C {
      CtrlEnds(t[3..], metaPrefix);
      KeyShift(t);
    } else if !metaPrefix {
      MetaEnds(t[3..], metaPrefix);
      KeyShift(t);
    }
  }

  lemma KeyShift(t: seq<Byte>)
    requires |t| >= 3
    ensures forall i: nat :: At(t[3..], i) == At(t, i + 3)
    ensures |t| >= 4 ==> t[3..][1..] == t[4..]
    ensures |t| >= 7 ==> t[3..][4..] == t[7..]
    ensures |t| == 6 ==> t[3..][3..] == t[6..]
  {
  }

  /** What follows a control prefix. */
  lemma CtrlEnds(t: seq<Byte>, metaPrefix: bool)
    requires 0 !in t
    ensures
      if t == [] then EndsOpen(AwaitingCtrl, t, metaPrefix)
      else if At(t, 0) == BACKSLASH && At(t, 1) == CAP_M && At(t, 2) == DASH then
        EndsOpen(AwaitingCtrl, t, metaPrefix) <==> |t| > 3 && EndsOpen(Start, t[4..], metaPrefix)
      else
        EndsOpen(AwaitingCtrl, t, metaPrefix) <==> EndsOpen(Start, t[1..], metaPrefix)
  {
    if t != [] {
      EndsTail(AwaitingCtrl, t, metaPrefix);
      if t[0] == BACKSLASH {
        HalfRead(t[1..], metaPrefix);
        if |t| >= 3 && t[1] == CAP_M && t[2] == DASH {
          ThreeMore(CtrlSlash, t, metaPrefix);
        }
      }
    }
  }

  /** What follows a meta prefix that is part of the key. */
  lemma MetaEnds(t: seq<Byte>, metaPrefix: bool)
    requires 0 !in t
    ensures
      if t == [] then EndsOpen(AwaitingMeta, t, metaPrefix)
      else if At(t, 0) == BACKSLASH && At(t, 1) == CAP_C && At(t, 2) == DASH then
        EndsOpen(AwaitingMeta, t, metaPrefix) <==> |t| == 3 || EndsOpen(Start, t[4..], metaPrefix)
      else
        EndsOpen(AwaitingMeta, t, metaPrefix) <==> EndsOpen(Start, t[1..], metaPrefix)
  {
    if t != [] {
      EndsTail(AwaitingMeta, t, metaPrefix);
      if t[0] == BACKSLASH {
        HalfRead(t[1..], metaPrefix);
        if |t| >= 3 && t[1] == CAP_C && t[2] == DASH {
          ThreeMore(MetaSlash, t, metaPrefix);
        }
      }
    }
  }

  lemma ThreeMore(mode: Mode, t: seq<Byte>, metaPrefix: bool)
    requires |t| >= 3
    ensures
      var mode3 := Next(Next(mode, t[1], metaPrefix), t[2], metaPrefix);
      && Ends(mode, t[1..], metaPrefix) == Ends(mode3, t[3..], metaPrefix)
      && (|t| > 3 ==> Ends(mode3, t[3..], metaPrefix) == Ends(Next(mode3, t[3], metaPrefix), t[4..], metaPrefix))
  {
    EndsTail(mode, t[1..], metaPrefix);
    assert t[1..][1..] == t[2..];
    EndsTail(Next(mode, t[1], metaPrefix), t[2..], metaPrefix);
    assert t[2..][1..] == t[3..];
    if |t| > 3 {
      EndsTail(Next(Next(mode, t[1], metaPrefix), t[2], metaPrefix), t[3..], metaPrefix);
      assert t[3..][1..] == t[4..];
    }
  }

  /** All the other names. */
  lemma OtherEnds(t: seq<Byte>, metaPrefix: bool)
    requires 0 !in t && t != []
    requires !(t[0] == BACKSLASH && (At(t, 1) == CAP_C || At(t, 1) == CAP_M) && At(t, 2) == DASH)
    ensures
      var n := FirstKeys(t, metaPrefix).1;
      n <= |t| && (EndsOpen(Start, t, metaPrefix) <==> EndsOpen(Start, t[n..], metaPrefix))
  {
    var n := FirstKeys(t, metaPrefix).1;
    EndsTail(Start, t, metaPrefix);
    if t[0] == BACKSLASH && |t| > 1 {
      EndsTail(Slash, t[1..], metaPrefix);
      assert t[1..][1..] == t[2..] && At(t[2..], 0) == At(t, 2);
      if t[1] == CAP_C || t[1] == CAP_M {
        HalfRead(t[2..], metaPrefix);
      } else if n > 2 {
        assert forall i | 0 <= i < n - 2 :: t[2..][i] == t[i + 2] && t[i + 2] != BACKSLASH;
        PlainSkipped(t[2..], n - 2, metaPrefix);
        assert t[2..][n - 2..] == t[n..];
      }
    }
  }

  /** The parser steps over the null exactly when the text ends in the middle of a control or meta prefix. */
  lemma {:induction false} OverstepsExactly(t: seq<Byte>, metaPrefix: bool)
    requires 0 !in t
    ensures Oversteps(t, metaPrefix) <==> EndsOpen(Start, t, metaPrefix)
    decreases |t|
  {
    if t != [] {
      var n := FirstKeys(t, metaPrefix).1;
      if t[0] == BACKSLASH && (At(t, 1) == CAP_C || At(t, 1) == CAP_M) && At(t, 2) == DASH {
        PrefixEnds(t, metaPrefix);
      } else {
        OtherEnds(t, metaPrefix);
      }
      if n <= |t| {
        OverstepsExactly(t[n..], metaPrefix);
      }
    }
  }

  /** A text that does not end in a dash is read to its end and no further. */
  lemma {:induction false} NoDashNoOverstep(t: seq<Byte>, metaPrefix: bool)
    requires 0 !in t && t != [] && t[|t| - 1] != DASH
    ensures !Oversteps(t, metaPrefix)
  {
    OverstepsExactly(t, metaPrefix);
    if EndsOpen(Start, t, metaPrefix) {
      OpenAfterDash(Start, t, metaPrefix);
    }
  }

  lemma {:induction false} OpenAfterDash(mode: Mode, t: seq<Byte>, metaPrefix: bool)
    requires t != [] && EndsOpen(mode, t, metaPrefix)
    ensures t[|t| - 1] == DASH
    decreases |t|
  {
    if |t| > 1 {
      OpenAfterDash(Next(mode, t[0], metaPrefix), t[1..], metaPrefix);
    } else {
      EndsOne(mode, t, metaPrefix);
    }
  }

  /** Stepping over the null leaves it, or a meta null, as the last key. */
  lemma {:induction false} OverstepLeavesNull(t: seq<Byte>, metaPrefix: bool)
    requires Oversteps(t, metaPrefix)
    ensures
      var keys := Translate(t, metaPrefix);
      keys != [] && (keys[|keys| - 1] == 0 || keys[|keys| - 1] == 128)
    decreases |t|
  {
    var (keys, n) := FirstKeys(t, metaPrefix);
    if n > |t| {
      assert keys == [0] || keys == [128];
      assert Translate(t, metaPrefix) == keys + [];
    } else {
      OverstepLeavesNull(Drop(t, n), metaPrefix);
    }
  }

  lemma {:induction false} PrintedLast(s: seq<Byte>, style: Style)
    requires s != [] && s[|s| - 1] == 128 && Printable(s, style)
    ensures var t := Untranslate(s, style); t != [] && t[|t| - 1] == 128
    decreases |s|
  {
    if |s| > 1 {
      assert s[1..][|s| - 2] == s[|s| - 1];
      PrintedLast(s[1..], style);
    } else {
      assert Untranslate(s[1..], style) == [];
    }
  }

  lemma {:induction false} NoNullPrinted(s: seq<Byte>, style: Style)
    requires Printable(s, style)
    ensures 0 !in Untranslate(s, style)
    decreases |s|
  {
    if s != [] {
      NoNullPrinted(s[1..], style);
      assert 0 !in Print(s[0], style);
    }
  }

  /** No sequence that survives being printed and parsed makes the parser step over the null. */
  lemma SurvivorsStayInside(s: seq<Byte>, style: Style, metaPrefix: bool)
    requires Printable(s, style) && Survives(s, false, style, metaPrefix)
    ensures !Oversteps(Untranslate(s, style), metaPrefix)
  {
    RoundTripExactly(s, false, style, metaPrefix);
    if Oversteps(Untranslate(s, style), metaPrefix) {
      OverstepLeavesNull(Untranslate(s, style), metaPrefix);
      PrintedLast(s, style);
      NoNullPrinted(s, style);
      NoDashNoOverstep(Untranslate(s, style), metaPrefix);
    }
  }

  /** A control prefix alone, and the printed text of FS, C and a dash, which ends in one. */
  lemma PrefixOversteps(style: Style, metaPrefix: bool)
    ensures Oversteps([BACKSLASH, CAP_C, DASH], metaPrefix)
    ensures Oversteps(Untranslate([FS, CAP_C, DASH], style), metaPrefix)
  {
    var tail := [BACKSLASH, CAP_C, DASH];
    assert Oversteps(tail, metaPrefix);
    var s := [FS, CAP_C, DASH];
    assert s[1..] == [CAP_C, DASH] && [CAP_C, DASH][1..] == [DASH] && [DASH][1..] == [];
    assert Untranslate([DASH], style) == [DASH] + Untranslate([], style);
    assert Untranslate([CAP_C, DASH], style) == [CAP_C] + Untranslate([DASH], style);
    var t := Untranslate(s, style);
    assert t == [BACKSLASH, CAP_C, DASH, BACKSLASH] + tail;
    assert FirstKeys(t, metaPrefix).1 == 4 && Drop(t, 4) == tail;
  }
}
