/**
  Printing and parsing key sequences (bind.c): _rl_untranslate_macro_value and
  rl_translate_keyseq.  Text and keys are bytes.
 */
module KeySequence {

  type Byte = b: int | 0 <= b < 256

  const BACKSLASH: Byte := 92
  const QUOTE: Byte := 34
  const DASH: Byte := 45
  const ESC: Byte := 27
  const RUBOUT: Byte := 127
  const FS: Byte := 28
  const META_BACKSLASH: Byte := 220

  const CAP_C: Byte := 67
  const CAP_M: Byte := 77
  const LOW_X: Byte := 120
  const LOW_E: Byte := 101
  const LOW_D: Byte := 100
  const QUESTION: Byte := 63

  /** A C string read at an index; behind its end there is a null. */
  function At(t: seq<Byte>, i: nat): Byte { if i < |t| then t[i] else 0 }

  function Drop(t: seq<Byte>, n: nat): (r: seq<Byte>)
    ensures n > 0 && t != [] ==> |r| < |t|
  {
    if n <= |t| then t[n..] else []
  }

  function ToUpper(b: Byte): Byte { if 97 <= b <= 122 then b - 32 else b }
  function ToLower(b: Byte): Byte { if 65 <= b <= 90 then b + 32 else b }
  function Ctrl(b: Byte): Byte { b % 32 }
  function Meta(b: Byte): Byte { if b < 128 then b + 128 else b }
  predicate IsOctal(b: Byte) { 48 <= b <= 55 }
  predicate IsHex(b: Byte) { 48 <= b <= 57 || 97 <= b <= 102 || 65 <= b <= 70 }

  function HexValue(b: Byte): nat
    requires IsHex(b)
  {
    if 97 <= b <= 102 then b - 97 + 10 else if 65 <= b <= 70 then b - 65 + 10 else b - 48
  }

  /** What \C- in front of a character stands for. */
  function Controlled(b: Byte): Byte { if b == QUESTION then RUBOUT else Ctrl(ToUpper(b)) }

  // ----- Parsing -----

  /** How many octal digits, up to three, start at index 1, the first one being there. */
  function OctalDigits(t: seq<Byte>): (n: nat)
    ensures 1 <= n <= 3
  {
    if !IsOctal(At(t, 2)) then 1 else if !IsOctal(At(t, 3)) then 2 else 3
  }

  function OctalValue(t: seq<Byte>): Byte
    requires IsOctal(At(t, 1))
  {
    var n := OctalDigits(t);
    var a := At(t, 1) - 48;
    if n == 1 then a
    else if n == 2 then a * 8 + (At(t, 2) - 48)
    else ((a * 8 + (At(t, 2) - 48)) * 8 + (At(t, 3) - 48)) % 256
  }

  function HexDigits(t: seq<Byte>): (n: nat)
    ensures n <= 2
  {
    if !IsHex(At(t, 2)) then 0 else if !IsHex(At(t, 3)) then 1 else 2
  }

  function HexChar(t: seq<Byte>): Byte {
    var n := HexDigits(t);
    if n == 0 then LOW_X
    else if n == 1 then HexValue(At(t, 2))
    else HexValue(At(t, 2)) * 16 + HexValue(At(t, 3))
  }

  /** The one-letter escapes. */
  function Escape(c: Byte): Byte {
    if c == 97 then 7 else if c == 98 then 8 else if c == LOW_D then RUBOUT else if c == LOW_E then ESC
    else if c == 102 then 12 else if c == 110 then 10 else if c == 114 then 13 else if c == 116 then 9
    else if c == 118 then 11 else c
  }

  /** The first key, or two, that the text `t` names and how much of it they take; nothing at the end of the text. */
  function FirstKeys(t: seq<Byte>, metaPrefix: bool): (r: (seq<Byte>, nat))
    requires t != []
    ensures r.1 > 0
  {
    if t[0] != BACKSLASH then ([t[0]], 1)
    else
      var c := At(t, 1);
      if c == 0 then ([], 1)
      else if (c == CAP_C || c == CAP_M) && At(t, 2) == DASH then
        if c == CAP_C && At(t, 3) == BACKSLASH && At(t, 4) == CAP_M && At(t, 5) == DASH then
          ([ESC, Ctrl(ToUpper(At(t, 6)))], if At(t, 6) == 0 then 6 else 7)
        else if c == CAP_M then
          if metaPrefix then ([ESC], 3)
          else if At(t, 3) == BACKSLASH && At(t, 4) == CAP_C && At(t, 5) == DASH then ([Meta(Controlled(At(t, 6)))], 7)
          else ([Meta(At(t, 3))], 4)
        else ([Controlled(At(t, 3))], 4)
      else if IsOctal(c) then ([OctalValue(t)], 1 + OctalDigits(t))
      else if c == LOW_X then ([HexChar(t)], 2 + HexDigits(t))
      else ([Escape(c)], 2)
  }

  function Translate(t: seq<Byte>, metaPrefix: bool): seq<Byte>
    decreases |t|
  {
    if t == [] then []
    else
      var (keys, n) := FirstKeys(t, metaPrefix);
      keys + Translate(Drop(t, n), metaPrefix)
  }

  /** Some key is taken to be the null behind the text, and the text is left behind with it. */
  predicate Oversteps(t: seq<Byte>, metaPrefix: bool)
    decreases |t|
  {
    t != [] &&
    var n := FirstKeys(t, metaPrefix).1;
    n > |t| || Oversteps(Drop(t, n), metaPrefix)
  }

  // ----- Printing -----

  predicate IsEscape(c: Byte) { 7 <= c <= 13 }

  /** _rl_escchar */
  function EscapeChar(c: Byte): Byte {
    if c == 7 then 97 else if c == 8 then 98 else if c == 12 then 102 else if c == 10 then 110
    else if c == 13 then 114 else if c == 9 then 116 else if c == 11 then 118 else c
  }

  /** How keys are printed: with use_escapes or not, and where plain char is signed or not. */
  datatype Style = Style(escapes: bool, signedChar: bool)

  /** The key is printed as itself; a byte from 128 on is negative as a signed char and then no meta key. */
  predicate AsItself(c: Byte, style: Style) {
    (32 <= c < RUBOUT && c != BACKSLASH && c != QUOTE) || (c > 127 && style.signedChar)
  }

  /** One key as _rl_untranslate_macro_value prints it. */
  function Print(c: Byte, style: Style): (r: seq<Byte>)
    ensures 1 <= |r| <= 7
  {
    if c > 127 && !style.signedChar then
      var d := c - 128;
      [BACKSLASH, CAP_M, DASH] +
        if d == ESC then [BACKSLASH, LOW_E] else if d == BACKSLASH || d == QUOTE then [BACKSLASH, d] else [d]
    else if c == ESC then [BACKSLASH, LOW_E]
    else if c < 32 then
      if style.escapes && IsEscape(c) then [BACKSLASH, EscapeChar(c)]
      else
        var d := ToLower(c + 64);
        [BACKSLASH, CAP_C, DASH] + if d == BACKSLASH then [BACKSLASH, d] else [d]
    else if c == RUBOUT then [BACKSLASH, CAP_C, DASH, QUESTION]
    else if c == BACKSLASH || c == QUOTE then [BACKSLASH, c]
    else [c]
  }

  function Untranslate(s: seq<Byte>, style: Style): seq<Byte>
    decreases |s|
  {
    if s == [] then [] else Print(s[0], style) + Untranslate(s[1..], style)
  }

  /** The printed text with its null fits the 7n + 1 bytes allocated for it. */
  lemma {:induction false} UntranslateFits(s: seq<Byte>, style: Style)
    ensures |Untranslate(s, style)| + 1 <= 7 * |s| + 1
    decreases |s|
  {
    if s != [] { UntranslateFits(s[1..], style); }
  }

  // ----- Print, then parse -----

  /** A text whose first key takes up exactly `p`, whatever follows. */
  lemma TranslateFirst(p: seq<Byte>, t: seq<Byte>, keys: seq<Byte>, metaPrefix: bool)
    requires p != [] && FirstKeys(p + t, metaPrefix) == (keys, |p|)
    ensures Translate(p + t, metaPrefix) == keys + Translate(t, metaPrefix)
  {
    assert (p + t)[|p|..] == t;
  }

  /** Keys that are printed so that they are read back whatever follows. */
  predicate Clean(c: Byte, style: Style, metaPrefix: bool) {
    || (1 <= c <= 127 && c != FS)
    || (c > 127 && style.signedChar)
    || (c > 128 && !metaPrefix && c - 128 != ESC && c - 128 != BACKSLASH && c - 128 != QUOTE)
  }

  /** Keys that are read back but leave a stray backslash in front of what follows. */
  predicate LeavesStray(c: Byte, style: Style, metaPrefix: bool) {
    c == FS || (c == META_BACKSLASH && !metaPrefix && !style.signedChar)
  }

  lemma PrintTranslates(c: Byte, t: seq<Byte>, style: Style, metaPrefix: bool)
    requires Clean(c, style, metaPrefix)
    ensures Translate(Print(c, style) + t, metaPrefix) == [c] + Translate(t, metaPrefix)
  {
    var p := Print(c, style);
    var all := p + t;
    assert forall i | 0 <= i < |p| :: At(all, i) == p[i];
    assert FirstKeys(all, metaPrefix) == ([c], |p|);
    TranslateFirst(p, t, [c], metaPrefix);
  }

  /** The printed form ends in two backslashes and the parser takes one of them. */
  lemma StrayTranslates(c: Byte, t: seq<Byte>, style: Style, metaPrefix: bool)
    requires LeavesStray(c, style, metaPrefix)
    ensures Translate(Print(c, style) + t, metaPrefix) == [c] + Translate([BACKSLASH] + t, metaPrefix)
  {
    var p, rest := [BACKSLASH, if c == FS then CAP_C else CAP_M, DASH, BACKSLASH], [BACKSLASH] + t;
    assert Print(c, style) + t == p + rest;
    assert forall i | 0 <= i < 4 :: At(p + rest, i) == p[i];
    assert At(p + rest, 4) == BACKSLASH;
    assert FirstKeys(p + rest, metaPrefix) == ([c], 4);
    TranslateFirst(p, rest, [c], metaPrefix);
  }

  /** All other meta keys are read as an escape, or as the backslash they are printed with. */
  lemma GarbledFirst(c: Byte, t: seq<Byte>, style: Style, metaPrefix: bool)
    requires c > 128 && !Clean(c, style, metaPrefix) && !LeavesStray(c, style, metaPrefix)
    ensures
      var keys := FirstKeys(Print(c, style) + t, metaPrefix).0;
      |keys| == 1 && keys[0] != c && (keys[0] == ESC || keys[0] == META_BACKSLASH)
  {
    var p := Print(c, style);
    assert forall i | 0 <= i < |p| :: At(p + t, i) == p[i];
  }

  /** Keys as they can be printed: a null ends the sequence, and the text of meta null holds one. */
  predicate Printable(s: seq<Byte>, style: Style) {
    forall i | 0 <= i < |s| :: s[i] != 0 && (s[i] == 128 ==> style.signedChar)
  }

  /** A backslash put in front of the printed text of `s` only disappears again. */
  predicate Harmless(s: seq<Byte>, style: Style)
    requires s != []
  {
    var (c, next) := (s[0], At(s, 1));
    && AsItself(c, style) && !IsOctal(c) && Escape(c) == c
    && !(c == LOW_X && IsHex(next))
    && !((c == CAP_C || c == CAP_M) && next == DASH)
  }

  /**
    The sequences that survive being printed and parsed. FS, and without the
    meta prefix meta backslash, leave a stray backslash; it is lost at the end
    of the sequence or in front of a character that it does not change, and one
    more backslash passes it on. With the meta prefix no meta key survives, and
    without it all but two do. Where char is signed no byte is a meta key.
   */
  predicate Survives(s: seq<Byte>, stray: bool, style: Style, metaPrefix: bool)
    decreases |s|
  {
    if s == [] then true
    else if stray then
      if s[0] == BACKSLASH then Survives(s[1..], true, style, metaPrefix)
      else Harmless(s, style) && Survives(s[1..], false, style, metaPrefix)
    else
      (Clean(s[0], style, metaPrefix) || LeavesStray(s[0], style, metaPrefix)) &&
      Survives(s[1..], LeavesStray(s[0], style, metaPrefix), style, metaPrefix)
  }

  lemma {:induction false} CleanSurvives(s: seq<Byte>, style: Style, metaPrefix: bool)
    requires forall i | 0 <= i < |s| :: Clean(s[i], style, metaPrefix)
    ensures Survives(s, false, style, metaPrefix)
    decreases |s|
  {
    if s != [] { CleanSurvives(s[1..], style, metaPrefix); }
  }

  /** The text printed for what follows a character starts with that very character where it matters. */
  lemma NextPrinted(s: seq<Byte>, style: Style)
    requires Printable(s, style)
    ensures var t := Untranslate(s, style);
            && (IsHex(At(t, 0)) <==> IsHex(At(s, 0))) && (At(t, 0) == DASH <==> At(s, 0) == DASH)
            && (IsOctal(At(t, 0)) <==> IsOctal(At(s, 0)))
            && (IsHex(At(s, 0)) ==> At(t, 0) == At(s, 0))
            && (At(t, 0) == 0 ==> s == [])
  {
  }

  lemma HarmlessFirst(t: seq<Byte>, style: Style, metaPrefix: bool)
    requires |t| >= 2 && t[0] == BACKSLASH && Harmless([t[1], At(t, 2)], style)
    ensures FirstKeys(t, metaPrefix) == ([t[1]], 2)
  {
  }

  lemma HarmlessTranslates(s: seq<Byte>, style: Style, metaPrefix: bool)
    requires s != [] && Printable(s, style) && Harmless(s, style)
    ensures Translate([BACKSLASH] + Untranslate(s, style), metaPrefix)
         == [s[0]] + Translate(Untranslate(s[1..], style), metaPrefix)
  {
    var p, t := [BACKSLASH, s[0]], Untranslate(s[1..], style);
    PlainPrinted(s, style);
    assert [BACKSLASH] + ([s[0]] + t) == p + t;
    HarmlessTaken(s, t, style, metaPrefix);
    TranslateFirst(p, t, [s[0]], metaPrefix);
  }

  lemma HarmlessTaken(s: seq<Byte>, t: seq<Byte>, style: Style, metaPrefix: bool)
    requires s != [] && Printable(s, style) && Harmless(s, style) && t == Untranslate(s[1..], style)
    ensures FirstKeys([BACKSLASH, s[0]] + t, metaPrefix) == ([s[0]], 2)
  {
    HarmlessPrinted(s, style);
    HarmlessFirst([BACKSLASH, s[0]] + t, style, metaPrefix);
  }

  lemma HarmlessPrinted(s: seq<Byte>, style: Style)
    requires s != [] && Printable(s, style) && Harmless(s, style)
    ensures
      var t := [BACKSLASH, s[0]] + Untranslate(s[1..], style);
      t[1] == s[0] && Harmless([t[1], At(t, 2)], style)
  {
    var t1 := Untranslate(s[1..], style);
    NextPrinted(s[1..], style);
    assert At(s, 1) == At(s[1..], 0) && At([BACKSLASH, s[0]] + t1, 2) == At(t1, 0);
  }

  lemma BackslashTranslates(s: seq<Byte>, style: Style, metaPrefix: bool)
    requires s != [] && s[0] == BACKSLASH
    ensures Translate([BACKSLASH] + Untranslate(s, style), metaPrefix)
         == [BACKSLASH] + Translate([BACKSLASH] + Untranslate(s[1..], style), metaPrefix)
  {
    var p, t := [BACKSLASH, BACKSLASH], [BACKSLASH] + Untranslate(s[1..], style);
    assert [BACKSLASH] + Untranslate(s, style) == p + t;
    assert FirstKeys(p + t, metaPrefix) == ([BACKSLASH], 2);
    TranslateFirst(p, t, [BACKSLASH], metaPrefix);
  }

  /** Two sequences agree for k keys, and then both end or the first has a key that is no digit. */
  predicate Faithful(r: seq<Byte>, s: seq<Byte>, k: nat) {
    && k <= |r| && k <= |s| && r[..k] == s[..k]
    && (k == |s| ==> r == s) && (k < |s| ==> k < |r| && !IsHex(r[k]))
  }

  lemma FaithfulStep(r: seq<Byte>, s: seq<Byte>, k: nat)
    requires r != [] && s != [] && r[0] == s[0] && Faithful(r[1..], s[1..], k)
    ensures Faithful(r, s, k + 1)
  {
    assert r == [r[0]] + r[1..] && s == [s[0]] + s[1..];
    assert r[..k + 1] == [r[0]] + r[1..][..k] && s[..k + 1] == [s[0]] + s[1..][..k];
  }

  lemma FirstPrinted(s: seq<Byte>, style: Style, metaPrefix: bool)
    requires s != [] && Clean(s[0], style, metaPrefix)
    ensures
      var r := Translate(Untranslate(s, style), metaPrefix);
      r != [] && r[0] == s[0] && r[1..] == Translate(Untranslate(s[1..], style), metaPrefix)
  {
    PrintTranslates(s[0], Untranslate(s[1..], style), style, metaPrefix);
  }

  /** A key that is not clean is read as something that is no digit. */
  lemma UncleanPrinted(s: seq<Byte>, style: Style, metaPrefix: bool)
    requires s != [] && Printable(s, style) && !Clean(s[0], style, metaPrefix)
    ensures
      var r := Translate(Untranslate(s, style), metaPrefix);
      r != [] && !IsHex(r[0])
  {
    var t := Untranslate(s[1..], style);
    if LeavesStray(s[0], style, metaPrefix) {
      StrayTranslates(s[0], t, style, metaPrefix);
    } else {
      GarbledFirst(s[0], t, style, metaPrefix);
    }
  }

  /** Up to its first key that is not clean a sequence is always printed and parsed faithfully. */
  lemma {:induction false} FaithfulPrefix(s: seq<Byte>, k: nat, style: Style, metaPrefix: bool)
    requires Printable(s, style) && k <= |s| && forall i | 0 <= i < k :: Clean(s[i], style, metaPrefix)
    requires k < |s| ==> !Clean(s[k], style, metaPrefix)
    ensures Faithful(Translate(Untranslate(s, style), metaPrefix), s, k)
    decreases |s|
  {
    if s != [] {
      if k == 0 {
        UncleanPrinted(s, style, metaPrefix);
      } else {
        FirstPrinted(s, style, metaPrefix);
        FaithfulPrefix(s[1..], k - 1, style, metaPrefix);
        FaithfulStep(Translate(Untranslate(s, style), metaPrefix), s, k - 1);
      }
    }
  }

  /** A sequence that agrees with itself put behind digits begins with digits only. */
  lemma {:induction false} ShiftedIsDigits(more: seq<Byte>, s: seq<Byte>, k: nat, i: nat)
    requires more != [] && (forall j | 0 <= j < |more| :: IsHex(more[j]))
    requires k <= |s| && (more + s)[..k] == s[..k] && i <= k
    ensures IsHex((more + s)[i])
    decreases i
  {
    if i >= |more| {
      var j := i - |more|;
      ShiftedIsDigits(more, s, k, j);
      assert (more + s)[i] == s[j] == s[..k][j] == (more + s)[..k][j] == (more + s)[j];
    }
  }

  /** A sequence with digits put in front of it never comes out of printing and parsing the sequence. */
  lemma NotShifted(s: seq<Byte>, more: seq<Byte>, style: Style, metaPrefix: bool)
    requires Printable(s, style) && more != [] && forall j | 0 <= j < |more| :: IsHex(more[j])
    ensures Translate(Untranslate(s, style), metaPrefix) != more + s
  {
    var k := 0;
    while k < |s| && Clean(s[k], style, metaPrefix)
      invariant k <= |s| && forall i | 0 <= i < k :: Clean(s[i], style, metaPrefix)
    {
      k := k + 1;
    }
    FaithfulPrefix(s, k, style, metaPrefix);
    var r := Translate(Untranslate(s, style), metaPrefix);
    if k < |s| && r == more + s {
      ShiftedIsDigits(more, s, k, k);
    }
  }

  lemma FirstDiffers(t: seq<Byte>, s: seq<Byte>, metaPrefix: bool)
    requires t != [] && s != []
    requires var keys := FirstKeys(t, metaPrefix).0; keys != [] && keys[0] != s[0]
    ensures Translate(t, metaPrefix) != s
  {
  }

  /** A number that stands for its own first character has two digits more, or one. */
  lemma OwnDigits(t: seq<Byte>, metaPrefix: bool)
    requires |t| >= 2 && t[0] == BACKSLASH && (IsOctal(t[1]) || (t[1] == LOW_X && IsHex(At(t, 2))))
    ensures var (keys, n) := FirstKeys(t, metaPrefix);
            |keys| == 1 && (keys[0] == t[1] ==> 3 <= n <= 4 && IsHex(At(t, 2)) && (n == 4 ==> IsHex(At(t, 3))))
  {
  }

  /** Digits and most other characters print as themselves. */
  lemma PlainPrinted(s: seq<Byte>, style: Style)
    requires s != [] && AsItself(s[0], style)
    ensures Untranslate(s, style) == [s[0]] + Untranslate(s[1..], style)
  {
  }

  /** If the printed text goes on with a digit, so does the sequence. */
  lemma DigitNext(s: seq<Byte>, style: Style)
    requires Printable(s, style) && IsHex(At(Untranslate(s, style), 0))
    ensures s != [] && IsHex(s[0]) && Untranslate(s, style) == [s[0]] + Untranslate(s[1..], style)
  {
    NextPrinted(s, style);
    PlainPrinted(s, style);
  }

  lemma OneMore(s: seq<Byte>, k: nat, t: seq<Byte>)
    requires k < |s|
    ensures s[..k] + ([s[k]] + t) == s[..k + 1] + t && s[k..][1..] == s[k + 1..]
  {
  }

  lemma TwoPrinted(s: seq<Byte>, style: Style)
    requires s != [] && Printable(s, style) && (IsHex(s[0]) || s[0] == LOW_X)
    requires IsHex(At(Untranslate(s, style), 1))
    ensures |s| >= 2 && IsHex(s[1]) && Untranslate(s, style) == s[..2] + Untranslate(s[2..], style)
  {
    PlainPrinted(s, style);
    assert At([s[0]] + Untranslate(s[1..], style), 1) == At(Untranslate(s[1..], style), 0);
    DigitNext(s[1..], style);
    OneMore(s, 1, Untranslate(s[2..], style));
    assert s[..1] == [s[0]];
  }

  lemma ThreePrinted(s: seq<Byte>, style: Style)
    requires s != [] && Printable(s, style) && (IsHex(s[0]) || s[0] == LOW_X)
    requires IsHex(At(Untranslate(s, style), 1)) && IsHex(At(Untranslate(s, style), 2))
    ensures |s| >= 3 && IsHex(s[1]) && IsHex(s[2])
    ensures Untranslate(s, style) == s[..3] + Untranslate(s[3..], style)
  {
    TwoPrinted(s, style);
    assert At(s[..2] + Untranslate(s[2..], style), 2) == At(Untranslate(s[2..], style), 0);
    DigitNext(s[2..], style);
    OneMore(s, 2, Untranslate(s[3..], style));
  }

  /** What is read behind a stray backslash, when it is a number. */
  lemma DigitsRead(s: seq<Byte>, style: Style)
    requires s != [] && Printable(s, style) && (IsOctal(s[0]) || (s[0] == LOW_X && IsHex(At(s, 1))))
    ensures
      var u := Untranslate(s, style);
      var t := [BACKSLASH] + u;
      && |t| >= 2 && t[1] == s[0] && (t[1] == LOW_X ==> IsHex(At(t, 2)))
      && At(t, 2) == At(u, 1) && At(t, 3) == At(u, 2)
  {
    var u, u1 := Untranslate(s, style), Untranslate(s[1..], style);
    PlainPrinted(s, style);
    NextPrinted(s[1..], style);
    assert At(u, 1) == At(u1, 0) && At(s, 1) == At(s[1..], 0);
  }

  /** The digits behind a stray backslash are read as one key, and then some are missing. */
  lemma DigitsDiffer(s: seq<Byte>, style: Style, metaPrefix: bool)
    requires s != [] && Printable(s, style) && (IsOctal(s[0]) || (s[0] == LOW_X && IsHex(At(s, 1))))
    ensures Translate([BACKSLASH] + Untranslate(s, style), metaPrefix) != s
  {
    var t := [BACKSLASH] + Untranslate(s, style);
    DigitsRead(s, style);
    OwnDigits(t, metaPrefix);
    var (keys, n) := FirstKeys(t, metaPrefix);
    if keys[0] != s[0] {
      FirstDiffers(t, s, metaPrefix);
    } else {
      assert keys == [s[0]];
      OwnDigitsDiffer(s, n, style, metaPrefix);
    }
  }

  lemma OwnDigitsDiffer(s: seq<Byte>, n: nat, style: Style, metaPrefix: bool)
    requires s != [] && Printable(s, style) && (IsHex(s[0]) || s[0] == LOW_X) && 3 <= n <= 4
    requires FirstKeys([BACKSLASH] + Untranslate(s, style), metaPrefix) == ([s[0]], n)
    requires IsHex(At(Untranslate(s, style), 1)) && (n == 4 ==> IsHex(At(Untranslate(s, style), 2)))
    ensures Translate([BACKSLASH] + Untranslate(s, style), metaPrefix) != s
  {
    if n == 3 {
      TwoPrinted(s, style);
      MissingDiffers(s, 2, style, metaPrefix);
    } else {
      ThreePrinted(s, style);
      MissingDiffers(s, 3, style, metaPrefix);
    }
  }

  lemma MissingDiffers(s: seq<Byte>, k: nat, style: Style, metaPrefix: bool)
    requires Printable(s, style) && 2 <= k <= |s| && forall j | 1 <= j < k :: IsHex(s[j])
    requires Untranslate(s, style) == s[..k] + Untranslate(s[k..], style)
    requires FirstKeys([BACKSLASH] + Untranslate(s, style), metaPrefix) == ([s[0]], k + 1)
    ensures Translate([BACKSLASH] + Untranslate(s, style), metaPrefix) != s
  {
    var p, u := [BACKSLASH] + s[..k], Untranslate(s[k..], style);
    assert [BACKSLASH] + (s[..k] + u) == p + u;
    TranslateFirst(p, u, [s[0]], metaPrefix);
    MissingTail(s, k, style, metaPrefix);
    TailDiffers(Translate(u, metaPrefix), s);
  }

  lemma MissingTail(s: seq<Byte>, k: nat, style: Style, metaPrefix: bool)
    requires Printable(s, style) && 2 <= k <= |s| && forall j | 1 <= j < k :: IsHex(s[j])
    ensures Translate(Untranslate(s[k..], style), metaPrefix) != s[1..]
  {
    TailSplits(s, k, style);
    NotShifted(s[k..], s[1..k], style, metaPrefix);
  }

  lemma TailSplits(s: seq<Byte>, k: nat, style: Style)
    requires Printable(s, style) && 1 <= k <= |s|
    ensures s[1..] == s[1..k] + s[k..] && Printable(s[k..], style)
  {
  }

  lemma TailDiffers(r: seq<Byte>, s: seq<Byte>)
    requires s != [] && r != s[1..]
    ensures [s[0]] + r != s
  {
    assert ([s[0]] + r)[1..] == r;
  }

  lemma HarmfulDiffers(s: seq<Byte>, style: Style, metaPrefix: bool)
    requires s != [] && Printable(s, style) && s[0] != BACKSLASH && !Harmless(s, style)
    ensures Translate([BACKSLASH] + Untranslate(s, style), metaPrefix) != s
  {
    if IsOctal(s[0]) || (s[0] == LOW_X && IsHex(At(s, 1))) {
      DigitsDiffer(s, style, metaPrefix);
    } else {
      HarmfulFirst(s, style, metaPrefix);
      FirstDiffers([BACKSLASH] + Untranslate(s, style), s, metaPrefix);
    }
  }

  /** Where it is not a number, what a stray backslash does not keep it makes a different key. */
  lemma HarmfulFirst(s: seq<Byte>, style: Style, metaPrefix: bool)
    requires s != [] && Printable(s, style) && s[0] != BACKSLASH && !Harmless(s, style)
    requires !IsOctal(s[0]) && !(s[0] == LOW_X && IsHex(At(s, 1)))
    ensures
      var keys := FirstKeys([BACKSLASH] + Untranslate(s, style), metaPrefix).0;
      keys != [] && keys[0] != s[0]
  {
    HarmfulPrinted(s, style);
    var t := [BACKSLASH] + Untranslate(s, style);
    if AsItself(s[0], style) {
      HarmfulKey(t, metaPrefix);
    } else {
      HarmfulBackslash(t, s[0], metaPrefix);
    }
  }

  lemma HarmfulPrinted(s: seq<Byte>, style: Style)
    requires s != [] && Printable(s, style) && s[0] != BACKSLASH
    ensures
      var t := [BACKSLASH] + Untranslate(s, style);
      && |t| >= 2 && t[0] == BACKSLASH
      && if AsItself(s[0], style) then
           t[1] == s[0] && (At(t, 2) == DASH <==> At(s, 1) == DASH) && (IsHex(At(t, 2)) <==> IsHex(At(s, 1)))
         else t[1] == BACKSLASH
  {
    if AsItself(s[0], style) {
      PlainPrinted(s, style);
      NextPrinted(s[1..], style);
      assert At(s, 1) == At(s[1..], 0);
    } else {
      assert Print(s[0], style)[0] == BACKSLASH;
    }
  }

  lemma HarmfulKey(t: seq<Byte>, metaPrefix: bool)
    requires |t| >= 2 && t[0] == BACKSLASH && t[1] >= 32 && t[1] != BACKSLASH
    requires !IsOctal(t[1]) && !(t[1] == LOW_X && IsHex(At(t, 2)))
    requires Escape(t[1]) != t[1] || ((t[1] == CAP_C || t[1] == CAP_M) && At(t, 2) == DASH)
    ensures var keys := FirstKeys(t, metaPrefix).0; keys != [] && keys[0] != t[1]
  {
  }

  lemma HarmfulBackslash(t: seq<Byte>, c: Byte, metaPrefix: bool)
    requires |t| >= 2 && t[0] == BACKSLASH && t[1] == BACKSLASH && c != BACKSLASH
    ensures var keys := FirstKeys(t, metaPrefix).0; keys != [] && keys[0] != c
  {
  }

  /**
    Printing a key sequence and parsing the text gives the sequence back
    exactly when it survives; both ways of printing are the same in this.
   */
  lemma {:induction false} RoundTripExactly(s: seq<Byte>, stray: bool, style: Style, metaPrefix: bool)
    requires Printable(s, style)
    ensures var t := Untranslate(s, style);
            Translate(if stray then [BACKSLASH] + t else t, metaPrefix) == s <==> Survives(s, stray, style, metaPrefix)
    decreases |s|
  {
    if s == [] {
      assert [BACKSLASH] + [] == [BACKSLASH];
      assert Translate([BACKSLASH], metaPrefix) == [] + Translate([], metaPrefix);
    } else if !stray {
      RoundTripFirst(s, style, metaPrefix);
      RoundTripExactly(s[1..], LeavesStray(s[0], style, metaPrefix), style, metaPrefix);
    } else {
      assert s == [s[0]] + s[1..];
      if s[0] == BACKSLASH {
        BackslashTranslates(s, style, metaPrefix);
        RoundTripExactly(s[1..], true, style, metaPrefix);
      } else if Harmless(s, style) {
        HarmlessTranslates(s, style, metaPrefix);
        RoundTripExactly(s[1..], false, style, metaPrefix);
      } else {
        HarmfulDiffers(s, style, metaPrefix);
      }
    }
  }

  /** The first key, with no stray backslash before it. */
  lemma RoundTripFirst(s: seq<Byte>, style: Style, metaPrefix: bool)
    requires s != [] && Printable(s, style)
    ensures
      var (t, stray) := (Untranslate(s[1..], style), LeavesStray(s[0], style, metaPrefix));
      Translate(Untranslate(s, style), metaPrefix) == s <==>
        && (Clean(s[0], style, metaPrefix) || stray)
        && Translate(if stray then [BACKSLASH] + t else t, metaPrefix) == s[1..]
  {
    var t, all := Untranslate(s[1..], style), Untranslate(s, style);
    assert s == [s[0]] + s[1..];
    if Clean(s[0], style, metaPrefix) {
      PrintTranslates(s[0], t, style, metaPrefix);
    } else if LeavesStray(s[0], style, metaPrefix) {
      StrayTranslates(s[0], t, style, metaPrefix);
    } else {
      GarbledFirst(s[0], t, style, metaPrefix);
      FirstDiffers(all, s, metaPrefix);
    }
  }

  /** Every sequence of clean keys comes back. */
  lemma RoundTrip(s: seq<Byte>, style: Style, metaPrefix: bool)
    requires forall i | 0 <= i < |s| :: Clean(s[i], style, metaPrefix)
    ensures Translate(Untranslate(s, style), metaPrefix) == s
  {
    CleanSurvives(s, style, metaPrefix);
    RoundTripExactly(s, false, style, metaPrefix);
  }

  lemma {:induction false} SurvivingKeys(s: seq<Byte>, stray: bool, style: Style, metaPrefix: bool, i: nat)
    requires Survives(s, stray, style, metaPrefix) && i < |s|
    ensures Clean(s[i], style, metaPrefix) || LeavesStray(s[i], style, metaPrefix)
    decreases |s|
  {
    if i > 0 {
      var next := if stray then s[0] == BACKSLASH else LeavesStray(s[0], style, metaPrefix);
      SurvivingKeys(s[1..], next, style, metaPrefix, i - 1);
    }
  }

  /** With the meta prefix no sequence with a meta key comes back; without it, none with meta escape or meta quote. */
  lemma MetaKeysLost(s: seq<Byte>, i: nat, style: Style, metaPrefix: bool)
    requires Printable(s, style) && i < |s| && s[i] > 128
    requires !style.signedChar && (metaPrefix || s[i] == Meta(ESC) || s[i] == Meta(QUOTE))
    ensures Translate(Untranslate(s, style), metaPrefix) != s
  {
    RoundTripExactly(s, false, style, metaPrefix);
    if Survives(s, false, style, metaPrefix) {
      SurvivingKeys(s, false, style, metaPrefix, i);
    }
  }

  /** FS and then d print as text that is read as FS and a rubout. */
  lemma FSFails(style: Style, metaPrefix: bool)
    ensures Translate(Untranslate([FS, LOW_D], style), metaPrefix) != [FS, LOW_D]
  {
    var s := [FS, LOW_D];
    assert s[1..] == [LOW_D] && !Harmless([LOW_D], style);
    assert !Survives(s[1..], true, style, metaPrefix);
    RoundTripExactly(s, false, style, metaPrefix);
  }

  /** One turn of the loop of rl_translate_keyseq: the keys it appends and where it goes on. */
  method TranslateOne(text: seq<Byte>, start: nat, metaPrefix: bool) returns (keys: seq<Byte>, i: nat)
    requires start < |text|
    ensures (keys, i - start) == FirstKeys(text[start..], metaPrefix)
  {
    ghost var t := text[start..];
    assert forall k: nat :: At(t, k) == At(text, start + k);
    i := start;
    var c := At(text, i);
    if c != BACKSLASH {
      return [c], i + 1;
    }
    i := i + 1;
    c := At(text, i);
    if c == 0 {
      return [], i;
    }
    if (c == CAP_C || c == CAP_M) && At(text, i + 1) == DASH {
      if c == CAP_C && At(text, i + 2) == BACKSLASH && At(text, i + 3) == CAP_M && At(text, i + 4) == DASH {
        i := i + 5;
        keys := [ESC, Ctrl(ToUpper(At(text, i)))];
        if At(text, i) == 0 {
          i := i - 1;
        }
      } else if c == CAP_M {
        i := i + 1;
        if metaPrefix {
          keys := [ESC];
        } else if At(text, i + 1) == BACKSLASH && At(text, i + 2) == CAP_C && At(text, i + 3) == DASH {
          i := i + 4;
          keys := [Meta(if At(text, i) == QUESTION then RUBOUT else Ctrl(ToUpper(At(text, i))))];
        } else {
          i := i + 1;
          keys := [Meta(At(text, i))];
        }
      } else {
        i := i + 2;
        keys := [if At(text, i) == QUESTION then RUBOUT else Ctrl(ToUpper(At(text, i)))];
      }
      return keys, i + 1;
    }
    if IsOctal(c) {
      keys, i := OctalEscape(text, i);
    } else if c == LOW_X {
      keys, i := HexEscape(text, i);
    } else {
      keys := [Escape(c)];
    }
    i := i + 1;
  }

  /** Up to two more octal digits; `i` ends on the last one. */
  method OctalEscape(text: seq<Byte>, at: nat) returns (keys: seq<Byte>, i: nat)
    requires 0 < at < |text| && IsOctal(text[at])
    ensures keys == [OctalValue(text[at - 1..])] && i == at - 1 + OctalDigits(text[at - 1..])
  {
    ghost var t := text[at - 1..];
    assert forall k: nat :: At(t, k) == At(text, at - 1 + k);
    i := at + 1;
    var c: int, temp := text[at] - 48, 2;
    while IsOctal(At(text, i)) && temp > 0
      invariant 0 <= temp <= 2 && i == at + 1 + (2 - temp)
      invariant forall j | at < j < i :: IsOctal(At(text, j))
      invariant temp == 2 ==> c == At(t, 1) - 48
      invariant temp == 1 ==> c == (At(t, 1) - 48) * 8 + (At(t, 2) - 48)
      invariant temp == 0 ==> c == ((At(t, 1) - 48) * 8 + (At(t, 2) - 48)) * 8 + (At(t, 3) - 48)
      decreases temp
    {
      c := c * 8 + (At(text, i) - 48);
      i, temp := i + 1, temp - 1;
    }
    assert IsOctal(At(t, 1)) && At(t, 2) == At(text, at + 1) && At(t, 3) == At(text, at + 2);
    i := i - 1;
    keys := [c % 256];
  }

  /** Up to two hexadecimal digits; with none the letter stands for itself. */
  method HexEscape(text: seq<Byte>, at: nat) returns (keys: seq<Byte>, i: nat)
    requires 0 < at < |text| && text[at] == LOW_X
    ensures keys == [HexChar(text[at - 1..])] && i == at + HexDigits(text[at - 1..])
  {
    ghost var t := text[at - 1..];
    assert forall k: nat :: At(t, k) == At(text, at - 1 + k);
    i := at + 1;
    var c: int, temp := 0, 2;
    while IsHex(At(text, i)) && temp > 0
      invariant 0 <= temp <= 2 && i == at + 1 + (2 - temp)
      invariant forall j | at < j < i :: IsHex(At(text, j))
      invariant temp == 2 ==> c == 0
      invariant temp == 1 ==> c == HexValue(At(text, at + 1))
      invariant temp == 0 ==> c == HexValue(At(text, at + 1)) * 16 + HexValue(At(text, at + 2))
      decreases temp
    {
      c := c * 16 + HexValue(At(text, i));
      i, temp := i + 1, temp - 1;
    }
    assert At(t, 2) == At(text, at + 1) && At(t, 3) == At(text, at + 2);
    if temp == 2 {
      c := LOW_X;
    }
    i := i - 1;
    keys := [c];
  }

  method TranslateSome(text: seq<Byte>, start: nat, metaPrefix: bool) returns (keys: seq<Byte>, i: nat)
    requires start < |text|
    ensures start < i && Translate(Drop(text, start), metaPrefix) == keys + Translate(Drop(text, i), metaPrefix)
    ensures Oversteps(Drop(text, start), metaPrefix) <==> i > |text| || Oversteps(Drop(text, i), metaPrefix)
  {
    keys, i := TranslateOne(text, start, metaPrefix);
    TranslateNext(text, start, i, keys, metaPrefix);
  }

  /** rl_translate_keyseq; `over` tells that the loop has stepped over the null, behind which the C code reads on. */
  method TranslateKeyseq(text: seq<Byte>, metaPrefix: bool) returns (keys: seq<Byte>, over: bool)
    ensures keys == Translate(text, metaPrefix) && (over <==> Oversteps(text, metaPrefix))
  {
    keys, over := [], false;
    var i := 0;
    ghost var rest := Translate(text, metaPrefix);
    while i < |text|
      invariant keys + rest == Translate(text, metaPrefix) && rest == Translate(Drop(text, i), metaPrefix)
      invariant Oversteps(text, metaPrefix) <==> over || Oversteps(Drop(text, i), metaPrefix)
      decreases |text| - i
    {
      var more, next := TranslateSome(text, i, metaPrefix);
      over := over || next > |text|;
      rest := Translate(Drop(text, next), metaPrefix);
      Appended(keys, more, rest);
      keys, i := keys + more, next;
    }
    assert rest == [];
  }

  lemma Appended(keys: seq<Byte>, more: seq<Byte>, rest: seq<Byte>)
    ensures keys + (more + rest) == (keys + more) + rest
  {
  }

  lemma TranslateNext(text: seq<Byte>, i: nat, next: nat, keys: seq<Byte>, metaPrefix: bool)
    requires i < |text| && i < next && (keys, next - i) == FirstKeys(text[i..], metaPrefix)
    ensures Translate(Drop(text, i), metaPrefix) == keys + Translate(Drop(text, next), metaPrefix)
    ensures Oversteps(Drop(text, i), metaPrefix) <==> next > |text| || Oversteps(Drop(text, next), metaPrefix)
  {
    assert Drop(text[i..], next - i) == Drop(text, next);
  }

  lemma {:induction false} UntranslateJoin(s: seq<Byte>, t: seq<Byte>, style: Style)
    ensures Untranslate(s + t, style) == Untranslate(s, style) + Untranslate(t, style)
    decreases |s|
  {
    if s == [] {
      assert s + t == t;
    } else {
      assert (s + t)[0] == s[0] && (s + t)[1..] == s[1..] + t;
      UntranslateJoin(s[1..], t, style);
    }
  }

  /** One turn of the loop of _rl_untranslate_macro_value. */
  method PrintOne(key: Byte, style: Style) returns (p: seq<Byte>)
    ensures p == Print(key, style)
  {
    var c: int := if style.signedChar && key > 127 then key - 256 else key;
    p := [];
    if c > 127 {
      p := [BACKSLASH, CAP_M, DASH];
      c := c - 128;
    } else if c == ESC {
      p := [BACKSLASH];
      c := LOW_E;
    } else if 0 <= c < 32 {
      p := [BACKSLASH];
      if style.escapes && IsEscape(c) {
        c := EscapeChar(c);
      } else {
        p := p + [CAP_C, DASH];
        c := ToLower(c + 64);
      }
    } else if c == RUBOUT {
      p := [BACKSLASH, CAP_C, DASH];
      c := QUESTION;
    }
    if c == ESC {
      p := p + [BACKSLASH];
      c := LOW_E;
    } else if c == BACKSLASH || c == QUOTE {
      p := p + [BACKSLASH];
    }
    p := p + [c % 256];
  }

  /** _rl_untranslate_macro_value */
  method UntranslateMacroValue(s: seq<Byte>, style: Style) returns (r: seq<Byte>)
    ensures r == Untranslate(s, style) && |r| + 1 <= 7 * |s| + 1
  {
    r := [];
    for k := 0 to |s|
      invariant r == Untranslate(s[..k], style)
    {
      var p := PrintOne(s[k], style);
      assert s[..k + 1] == s[..k] + [s[k]] && [s[k]][1..] == [];
      UntranslateJoin(s[..k], [s[k]], style);
      r := r + p;
    }
    assert s[..|s|] == s;
    UntranslateFits(s, style);
  }
}
