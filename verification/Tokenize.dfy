/**
  Splitting a history line into words (histexpand.c).
 */
module Tokenize {

  import opened Common

  const QUOTES := "\"'`"

  predicate Whitespace(c: char) { c == ' ' || c == '\t' }

  // ----- One word -----

  datatype Step = Stop | Go(next: nat, delim: char, nest: nat)

  /**
    One turn of the loop of history_tokenize_word.  `delim` is the quote or
    bracket that has to be closed, null if none, and `nest` how deep brackets
    are nested.  A backslash takes the character behind it along, even the
    final null.
   */
  function ScanStep(s: string, i: nat, delim: char, nest: nat, delims: string): (r: Step)
    requires i < |s|
    ensures r.Go? ==> r.next == i + 1 || (s[i] == '\\' && r.next == i + 2)
  {
    if s[i] == '\\' && (At(s, i + 1) == '\n' || delim != '\'') then Go(i + 2, delim, nest)
    else if nest > 0 && s[i] == '(' then Go(i + 1, delim, nest + 1)
    else if nest > 0 && s[i] == delim then Go(i + 1, if nest == 1 then NUL else delim, nest - 1)
    else if delim != NUL && s[i] == delim then Go(i + 1, NUL, nest)
    else if delim == NUL && s[i] in delims then Stop
    else if delim == NUL && s[i] in QUOTES then Go(i + 1, s[i], nest)
    else Go(i + 1, delim, nest)
  }

  /** The loop of history_tokenize_word. */
  function ScanWord(s: string, i: nat, delim: char, nest: nat, delims: string): (r: nat)
    ensures i <= r && (r <= |s| || r <= i || (s != [] && s[|s| - 1] == '\\' && r == |s| + 1))
    decreases |s| - i
  {
    if i >= |s| then i
    else match ScanStep(s, i, delim, nest, delims)
      case Stop => i
      case Go(next, delim', nest') => ScanWord(s, next, delim', nest', delims)
  }

  datatype Start = Operator(end: nat) | Word(from: nat, open: char, depth: nat)

  /** What a word starts with: an operator of fixed length, or something to be scanned. */
  function WordStart(s: string, start: nat): (r: Start)
    requires start < |s|
    ensures r.Operator? ==> start < r.end <= |s|
    ensures r.Word? ==> start <= r.from <= |s|
  {
    var c, peek := s[start], At(s, start + 1);
    if c in "()\n" then Operator(start + 1)
    else if c in "<>;&|" && peek == c then
      Operator(if c == '<' && (At(s, start + 2) == '-' || At(s, start + 2) == '<') then start + 3 else start + 2)
    else if (c in "<>" && peek == '&') || (c == '&' && peek == '>') then Operator(start + 2)
    else if c in "<>$!@?+*" && peek == '(' then Word(start + 2, ')', 1)
    else if c in "<>;&|" then Operator(start + 1)
    else if c in QUOTES then Word(start + 1, c, 0)
    else Word(start, NUL, 0)
  }

  /** history_tokenize_word: where the word that starts at `start` ends. */
  function WordEnd(s: string, start: nat, delims: string): (r: nat)
    requires start < |s|
    ensures start <= r && (r <= |s| || (s[|s| - 1] == '\\' && r == |s| + 1))
  {
    match WordStart(s, start)
    case Operator(end) => end
    case Word(from, open, depth) => ScanWord(s, from, open, depth, delims)
  }

  // ----- All the words of a line -----

  datatype Token = Token(start: nat, end: nat)

  function SkipBlanks(s: string, i: nat): (r: nat)
    requires i <= |s|
    ensures i <= r <= |s| && AllBlank(s, i, r) && (r < |s| ==> !Whitespace(s[r]))
    decreases |s| - i
  {
    if i < |s| && Whitespace(s[i]) then SkipBlanks(s, i + 1) else i
  }

  function SkipDelimiters(s: string, i: nat, delims: string): (r: nat)
    requires i <= |s|
    ensures i <= r <= |s| && forall j | i <= j < r :: s[j] in delims
    decreases |s| - i
  {
    if i < |s| && s[i] in delims then SkipDelimiters(s, i + 1, delims) else i
  }

  /** Where the token that starts at `start` ends; delimiters that end no word are a token of their own. */
  function TokenEnd(s: string, start: nat, delims: string): (r: nat)
    requires start < |s|
    ensures start < r && (r <= |s| || (s[|s| - 1] == '\\' && r == |s| + 1))
  {
    var e := WordEnd(s, start, delims);
    if e == start then SkipDelimiters(s, start + 1, delims) else e
  }

  /** history_tokenize_internal, from index `i` on; a scan that has left the string is not continued. */
  function Tokens(s: string, i: nat, delims: string, comment: char): seq<Token>
    requires i <= |s|
    decreases |s| - i
  {
    var start := SkipBlanks(s, i);
    if start == |s| || s[start] == comment then []
    else
      var e := TokenEnd(s, start, delims);
      if e > |s| then [Token(start, |s|)] else [Token(start, e)] + Tokens(s, e, delims, comment)
  }

  /** Some word's scan steps over the null that ends the string. */
  predicate RunsOver(s: string, i: nat, delims: string, comment: char)
    requires i <= |s|
    decreases |s| - i
  {
    var start := SkipBlanks(s, i);
    start < |s| && s[start] != comment &&
    var e := TokenEnd(s, start, delims);
    e > |s| || RunsOver(s, e, delims, comment)
  }

  predicate AllBlank(s: string, from: nat, to: nat)
    requires to <= |s|
  {
    forall j | from <= j < to :: Whitespace(s[j])
  }

  /**
    The tokens are in order, do not overlap and are not empty; between them
    there are only blanks, and behind the last one only blanks up to the end of
    the line or a comment.
   */
  ghost predicate Partitions(s: string, from: nat, toks: seq<Token>, comment: char)
    decreases |toks|
  {
    if toks == [] then
      exists stop: nat :: from <= stop <= |s| && AllBlank(s, from, stop) && (stop == |s| || s[stop] == comment)
    else
      && from <= toks[0].start < toks[0].end <= |s| && AllBlank(s, from, toks[0].start)
      && !Whitespace(s[toks[0].start]) && s[toks[0].start] != comment
      && Partitions(s, toks[0].end, toks[1..], comment)
  }

  lemma {:induction false} TokensPartition(s: string, i: nat, delims: string, comment: char)
    requires i <= |s|
    ensures Partitions(s, i, Tokens(s, i, delims, comment), comment)
    decreases |s| - i
  {
    var start := SkipBlanks(s, i);
    var toks := Tokens(s, i, delims, comment);
    if start < |s| && s[start] != comment {
      var e := TokenEnd(s, start, delims);
      if e <= |s| {
        TokensPartition(s, e, delims, comment);
        assert toks[1..] == Tokens(s, e, delims, comment);
      } else {
        assert toks[1..] == [];
        assert AllBlank(s, |s|, |s|);
      }
    }
  }

  lemma {:induction false} PartitionAfter(s: string, from: nat, toks: seq<Token>, comment: char, k: nat)
    requires Partitions(s, from, toks, comment) && k < |toks|
    ensures from <= toks[k].start < toks[k].end <= |s|
    decreases |toks|
  {
    if k > 0 { PartitionAfter(s, toks[0].end, toks[1..], comment, k - 1); }
  }

  /** A position lies in one token at most. */
  lemma {:induction false} InOneToken(s: string, from: nat, toks: seq<Token>, comment: char, j: nat, k: nat)
    requires Partitions(s, from, toks, comment) && j < k < |toks|
    ensures toks[j].end <= toks[k].start
    decreases |toks|
  {
    if j == 0 {
      PartitionAfter(s, toks[0].end, toks[1..], comment, k - 1);
    } else {
      InOneToken(s, toks[0].end, toks[1..], comment, j - 1, k - 1);
    }
  }

  /** The loop of history_tokenize_word. */
  method ScanRest(s: string, from: nat, open: char, depth: nat, delims: string) returns (i: nat)
    ensures i == ScanWord(s, from, open, depth, delims)
  {
    i := from;
    var delim, nest := open, depth;
    while i < |s|
      invariant ScanWord(s, i, delim, nest, delims) == ScanWord(s, from, open, depth, delims)
      decreases |s| - i
    {
      if s[i] == '\\' && At(s, i + 1) == '\n' {
        i := i + 1;
      } else if s[i] == '\\' && delim != '\'' {
        i := i + 1;
      } else if nest > 0 && s[i] == '(' {
        nest := nest + 1;
      } else if nest > 0 && s[i] == delim {
        nest := nest - 1;
        if nest == 0 {
          delim := NUL;
        }
      } else if delim != NUL && s[i] == delim {
        delim := NUL;
      } else if delim == NUL && s[i] in delims {
        return;
      } else if delim == NUL && s[i] in QUOTES {
        delim := s[i];
      }
      i := i + 1;
    }
  }

  /** history_tokenize_word: what the word starts with, then the loop. */
  method TokenizeWord(s: string, start: nat, delims: string) returns (i: nat)
    requires start < |s|
    ensures i == WordEnd(s, start, delims)
  {
    i := start;
    var delim, nest: nat := NUL, 0;
    var c, peek := s[i], At(s, i + 1);
    if c in "()\n" {
      return i + 1;
    }
    if c in "<>;&|$" {
      if peek == c && peek != '$' {
        if peek == '<' && (At(s, i + 2) == '-' || At(s, i + 2) == '<') {
          i := i + 1;
        }
        return i + 2;
      } else if (peek == '&' && (c == '>' || c == '<')) || (peek == '>' && c == '&') {
        return i + 2;
      } else if peek == '(' && (c == '>' || c == '<' || c == '$') {
        i, delim, nest := i + 2, ')', 1;
      } else if c != '$' {
        return i + 1;
      }
    }
    if nest == 0 && c in "!@?+*" && peek == '(' {
      i, delim, nest := i + 2, ')', 1;
    }
    if delim == NUL && s[i] in QUOTES {
      delim := s[i];
      i := i + 1;
    }
    i := ScanRest(s, i, delim, nest, delims);
  }

  /** Where the next token starts, if the line has one more. */
  method NextStart(s: string, from: nat) returns (i: nat)
    requires from <= |s|
    ensures i == SkipBlanks(s, from)
  {
    i := from;
    while i < |s| && Whitespace(s[i])
      invariant from <= i <= |s| && SkipBlanks(s, i) == SkipBlanks(s, from)
    {
      i := i + 1;
    }
  }

  method NextEnd(s: string, start: nat, delims: string) returns (i: nat)
    requires start < |s|
    ensures i == TokenEnd(s, start, delims)
  {
    i := TokenizeWord(s, start, delims);
    if i == start {
      i := i + 1;
      while i < |s| && s[i] in delims
        invariant start + 1 <= i <= |s|
        invariant SkipDelimiters(s, i, delims) == SkipDelimiters(s, start + 1, delims)
      {
        i := i + 1;
      }
    }
  }

  /** The next token of the line and where to go on; behind the end when the scan ran over. */
  method NextToken(s: string, from: nat, delims: string, comment: char) returns (more: bool, tok: Token, next: nat)
    requires from <= |s|
    ensures !more ==> Tokens(s, from, delims, comment) == [] && !RunsOver(s, from, delims, comment)
    ensures more && next <= |s| ==>
      && from < next && Tokens(s, from, delims, comment) == [tok] + Tokens(s, next, delims, comment)
      && (RunsOver(s, from, delims, comment) <==> RunsOver(s, next, delims, comment))
    ensures more && next > |s| ==> Tokens(s, from, delims, comment) == [tok] && RunsOver(s, from, delims, comment)
  {
    var start := NextStart(s, from);
    if start == |s| || s[start] == comment {
      return false, Token(0, 0), from;
    }
    next := NextEnd(s, start, delims);
    more, tok := true, Token(start, if next > |s| then |s| else next);
  }

  predicate Holds(t: Token, wind: int) { t.start <= wind < t.end }

  /** `ind` is the index of a token that holds `wind`, -1 if none does. */
  predicate Located(toks: seq<Token>, wind: int, ind: int) {
    && -1 <= ind < |toks|
    && (ind >= 0 ==> Holds(toks[ind], wind))
    && (ind == -1 ==> forall k | 0 <= k < |toks| :: !Holds(toks[k], wind))
  }

  lemma LocatedMore(toks: seq<Token>, wind: int, ind: int, t: Token)
    requires Located(toks, wind, ind)
    ensures Located(toks + [t], wind, if Holds(t, wind) then |toks| else ind)
  {
  }

  lemma LocatedOnce(s: string, toks: seq<Token>, comment: char, wind: int, ind: int)
    requires Located(toks, wind, ind) && Partitions(s, 0, toks, comment)
    ensures forall k | 0 <= k < |toks| :: Holds(toks[k], wind) <==> k == ind
  {
    forall k | 0 <= k < |toks| && ind >= 0 && k != ind ensures !Holds(toks[k], wind) {
      if k < ind { InOneToken(s, 0, toks, comment, k, ind); } else { InOneToken(s, 0, toks, comment, ind, k); }
    }
  }

  /** The loop of history_tokenize_internal; `over` tells that it left the string. */
  method CollectTokens(s: string, wind: int, delims: string, comment: char)
    returns (toks: seq<Token>, ind: int, over: bool)
    ensures toks == Tokens(s, 0, delims, comment) && Located(toks, wind, ind)
    ensures over <==> RunsOver(s, 0, delims, comment)
  {
    toks, ind, over := [], -1, false;
    var i, done := 0, false;
    ghost var rest := Tokens(s, 0, delims, comment);
    ghost var all := rest;
    while i < |s| && !done
      invariant i <= |s| && Located(toks, wind, ind) && all == toks + rest
      invariant rest == if done then [] else Tokens(s, i, delims, comment)
      invariant RunsOver(s, 0, delims, comment) <==> if done then over else RunsOver(s, i, delims, comment)
      invariant over ==> done
      decreases |s| - i, !done
    {
      var more, tok, next := NextToken(s, i, delims, comment);
      if more {
        LocatedMore(toks, wind, ind, tok);
        if Holds(tok, wind) {
          ind := |toks|;
        }
        Moved(toks, rest);
        toks, rest := toks + [tok], rest[1..];
      }
      if !more || next > |s| {
        done, over := true, more;
      } else {
        i := next;
      }
    }
  }

  lemma Moved(toks: seq<Token>, rest: seq<Token>)
    requires rest != []
    ensures toks + rest == (toks + [rest[0]]) + rest[1..]
  {
  }

  /**
    history_tokenize_internal: the tokens, and which one holds position `wind`.
    Where `over` is set the C goes on behind the string and the last token is
    only known up to its end.
   */
  method TokenizeLine(s: string, wind: int, delims: string, comment: char)
    returns (toks: seq<Token>, ind: int, over: bool)
    ensures toks == Tokens(s, 0, delims, comment)
    ensures -1 <= ind < |toks|
    ensures forall k | 0 <= k < |toks| :: Holds(toks[k], wind) <==> k == ind
    ensures over <==> RunsOver(s, 0, delims, comment)
  {
    toks, ind, over := CollectTokens(s, wind, delims, comment);
    TokensPartition(s, 0, delims, comment);
    LocatedOnce(s, toks, comment, wind, ind);
  }

  /** history_find_word */
  method FindWord(s: string, wind: nat, delims: string, comment: char)
    returns (found: bool, word: string, over: bool)
    ensures var toks := Tokens(s, 0, delims, comment);
            && (found <==> exists k :: 0 <= k < |toks| && Holds(toks[k], wind))
            && (found ==> wind < |s| && exists k :: 0 <= k < |toks| && Holds(toks[k], wind) &&
                                                   toks[k].end <= |s| && word == s[toks[k].start..toks[k].end])
    ensures over <==> RunsOver(s, 0, delims, comment)
  {
    var toks, ind;
    toks, ind, over := TokenizeLine(s, wind, delims, comment);
    if ind == -1 {
      return false, [], over;
    }
    TokensPartition(s, 0, delims, comment);
    PartitionAfter(s, 0, toks, comment, ind);
    assert Holds(toks[ind], wind);
    return true, s[toks[ind].start..toks[ind].end], over;
  }

  // ----- When the scan stays inside the string -----

  /** How many backslashes end the string. */
  function Trailing(s: string): (n: nat)
    ensures n <= |s| && forall j | |s| - n <= j < |s| :: s[j] == '\\'
    ensures n < |s| ==> s[|s| - n - 1] != '\\'
    decreases |s|
  {
    if s != [] && s[|s| - 1] == '\\' then Trailing(s[..|s| - 1]) + 1 else 0
  }

  lemma {:induction false} StaysInside(s: string, i: nat, delims: string, comment: char)
    requires i <= |s| && (s == [] || s[|s| - 1] != '\\')
    ensures !RunsOver(s, i, delims, comment)
    decreases |s| - i
  {
    var start := SkipBlanks(s, i);
    if start < |s| && s[start] != comment {
      StaysInside(s, TokenEnd(s, start, delims), delims, comment);
    }
  }

  /** The quote or bracket that is still open where the scan of a word ends. */
  function EndDelim(s: string, i: nat, delim: char, nest: nat, delims: string): char
    decreases |s| - i
  {
    if i >= |s| then delim
    else match ScanStep(s, i, delim, nest, delims)
      case Stop => NUL
      case Go(next, delim', nest') => EndDelim(s, next, delim', nest', delims)
  }

  /** The same for a whole word. */
  function WordDelim(s: string, start: nat, delims: string): char
    requires start < |s|
  {
    match WordStart(s, start)
    case Operator(_) => NUL
    case Word(from, open, depth) => EndDelim(s, from, open, depth, delims)
  }

  /** A line that ends neither in a comment nor inside single quotes. */
  predicate EndsPlain(s: string, i: nat, delims: string, comment: char)
    requires i <= |s|
    decreases |s| - i
  {
    var start := SkipBlanks(s, i);
    start == |s| ||
    (s[start] != comment &&
     var e := TokenEnd(s, start, delims);
     if e < |s| then EndsPlain(s, e, delims, comment) else WordDelim(s, start, delims) != '\'')
  }

  /** `s` is `p` with `n` backslashes put behind it, and `p` ends in none. */
  predicate Slashed(p: string, n: nat, s: string) {
    && |s| == |p| + n && s[..|p|] == p && (forall j | |p| <= j < |s| :: s[j] == '\\')
    && (p != [] ==> p[|p| - 1] != '\\')
  }

  /** Among backslashes only, the scan stays inside the string in single quotes or when they come in pairs. */
  lemma {:induction false} ScanSlashes(p: string, n: nat, s: string, i: nat, delim: char, nest: nat, delims: string)
    requires Slashed(p, n, s) && |p| <= i <= |s| && '\\' !in delims && delim != '\\'
    ensures ScanWord(s, i, delim, nest, delims) == if delim == '\'' || (|s| - i) % 2 == 0 then |s| else |s| + 1
    decreases |s| - i
  {
    if i < |s| {
      StepSlashes(p, n, s, i, delim, nest, delims);
      if delim == '\'' {
        ScanSlashes(p, n, s, i + 1, delim, nest, delims);
      } else if i + 2 <= |s| {
        ScanSlashes(p, n, s, i + 2, delim, nest, delims);
      }
    }
  }

  lemma StepSlashes(p: string, n: nat, s: string, i: nat, delim: char, nest: nat, delims: string)
    requires Slashed(p, n, s) && |p| <= i < |s| && '\\' !in delims && delim != '\\'
    ensures ScanStep(s, i, delim, nest, delims) == Go(if delim == '\'' then i + 1 else i + 2, delim, nest)
  {
    assert s[i] == '\\' && At(s, i + 1) != '\n';
  }

  /** What a scan that gets to the backslashes does there. */
  function Beyond(p: string, n: nat, delim: char): nat {
    if delim == '\'' || n % 2 == 0 then |p| + n else |p| + n + 1
  }

  /** A word is scanned as without the backslashes, and if it is the last one the scan goes on into them. */
  lemma {:induction false} ScanSlashed(p: string, n: nat, s: string, i: nat, delim: char, nest: nat, delims: string)
    requires Slashed(p, n, s) && i <= |p| && '\\' !in delims && delim != '\\'
    ensures
      var e := ScanWord(p, i, delim, nest, delims);
      && e <= |p|
      && ScanWord(s, i, delim, nest, delims) ==
         if e < |p| then e else Beyond(p, n, EndDelim(p, i, delim, nest, delims))
    decreases |p| - i
  {
    if i == |p| {
      ScanSlashes(p, n, s, i, delim, nest, delims);
    } else {
      StepSlashed(p, n, s, i, delim, nest, delims);
      var step := ScanStep(p, i, delim, nest, delims);
      if step.Go? { ScanSlashed(p, n, s, step.next, step.delim, step.nest, delims); }
    }
  }

  lemma StepSlashed(p: string, n: nat, s: string, i: nat, delim: char, nest: nat, delims: string)
    requires Slashed(p, n, s) && i < |p| && delim != '\\'
    ensures
      var step := ScanStep(p, i, delim, nest, delims);
      ScanStep(s, i, delim, nest, delims) == step && (step.Go? ==> step.next <= |p| && step.delim != '\\')
  {
    SlashedNext(p, n, s, i);
  }

  /** The characters looked at behind the current one are the same, or none that matters. */
  lemma SlashedNext(p: string, n: nat, s: string, i: nat)
    requires Slashed(p, n, s) && i < |p|
    ensures s[i] == p[i] && (p[i] == '\\' ==> i + 2 <= |p|)
    ensures At(s, i + 1) == At(p, i + 1) || (At(s, i + 1) == '\\' && At(p, i + 1) == NUL)
    ensures At(s, i + 2) == At(p, i + 2) || (At(s, i + 2) == '\\' && At(p, i + 2) == NUL)
  {
  }

  /** Where a word ends, without the backslashes behind the line and with them. */
  lemma WordSlashed(p: string, n: nat, s: string, start: nat, delims: string)
    requires Slashed(p, n, s) && start < |p| && '\\' !in delims
    ensures
      var (e, f, delim) := (WordEnd(p, start, delims), WordEnd(s, start, delims), WordDelim(p, start, delims));
      && e <= |p| && (e < |p| ==> f == e) && (e == start ==> delim == NUL)
      && (e == |p| ==> f == Beyond(p, n, delim) || (f == |p| && delim == NUL))
  {
    StartSlashed(p, n, s, start);
    var w := WordStart(p, start);
    if w.Word? { ScanSlashed(p, n, s, w.from, w.open, w.depth, delims); }
  }

  lemma StartSlashed(p: string, n: nat, s: string, start: nat)
    requires Slashed(p, n, s) && start < |p|
    ensures var w := WordStart(p, start); WordStart(s, start) == w && (w.Word? ==> w.open != '\\')
  {
    SlashedNext(p, n, s, start);
  }

  lemma {:induction false} SkipSlashed(p: string, n: nat, s: string, i: nat, delims: string)
    requires Slashed(p, n, s) && i <= |p| && '\\' !in delims
    ensures SkipDelimiters(s, i, delims) == SkipDelimiters(p, i, delims)
    ensures SkipBlanks(s, i) == SkipBlanks(p, i)
    decreases |p| - i
  {
    if i < |p| {
      SkipSlashed(p, n, s, i + 1, delims);
      assert s[i] == p[i];
    }
  }

  lemma TokenSlashed(p: string, n: nat, s: string, start: nat, delims: string)
    requires Slashed(p, n, s) && start < |p| && '\\' !in delims
    ensures
      var (e, f, delim) := (TokenEnd(p, start, delims), TokenEnd(s, start, delims), WordDelim(p, start, delims));
      && e <= |p| && (e < |p| ==> f == e)
      && (e == |p| ==> f == Beyond(p, n, delim) || (f == |p| && delim == NUL))
  {
    WordSlashed(p, n, s, start, delims);
    SkipSlashed(p, n, s, start + 1, delims);
  }

  /** A word that starts at the backslashes. */
  lemma SlashesRunOver(p: string, n: nat, s: string, delims: string, comment: char)
    requires Slashed(p, n, s) && '\\' !in delims && comment != '\\'
    ensures RunsOver(s, |p|, delims, comment) <==> n % 2 == 1
  {
    if n > 0 {
      assert s[|p|] == '\\' && SkipBlanks(s, |p|) == |p|;
      assert WordStart(s, |p|) == Word(|p|, NUL, 0);
      ScanSlashes(p, n, s, |p|, NUL, 0, delims);
    }
  }

  lemma {:induction false} RunsOverSlashed(p: string, n: nat, s: string, i: nat, delims: string, comment: char)
    requires Slashed(p, n, s) && i <= |p| && '\\' !in delims && comment != '\\'
    ensures RunsOver(s, i, delims, comment) <==> n % 2 == 1 && EndsPlain(p, i, delims, comment)
    decreases |p| - i
  {
    SkipSlashed(p, n, s, i, delims);
    SlashesRunOver(p, n, s, delims, comment);
    var start := SkipBlanks(p, i);
    if start < |p| && p[start] != comment {
      TokenSlashed(p, n, s, start, delims);
      var e := TokenEnd(p, start, delims);
      if e < |p| { RunsOverSlashed(p, n, s, e, delims, comment); }
    } else if start == |p| {
      RunsFromBlank(s, i, start, delims, comment);
    }
  }

  lemma RunsFromBlank(s: string, i: nat, start: nat, delims: string, comment: char)
    requires i <= |s| && start == SkipBlanks(s, i)
    ensures RunsOver(s, i, delims, comment) <==> RunsOver(s, start, delims, comment)
  {
    assert SkipBlanks(s, start) == start;
  }

  /**
    The scan leaves the string exactly when the line ends in an odd number of
    backslashes that are not in a comment or in single quotes.
   */
  lemma RunsOverExactly(s: string, delims: string, comment: char)
    requires '\\' !in delims && comment != '\\'
    ensures RunsOver(s, 0, delims, comment) <==>
      Trailing(s) % 2 == 1 && EndsPlain(s[..|s| - Trailing(s)], 0, delims, comment)
  {
    RunsOverSlashed(s[..|s| - Trailing(s)], Trailing(s), s, 0, delims, comment);
  }

  lemma {:induction false} NoQuoteOpened(s: string, i: nat, delim: char, nest: nat, delims: string)
    requires '\'' !in s && delim != '\''
    ensures EndDelim(s, i, delim, nest, delims) != '\''
    decreases |s| - i
  {
    if i < |s| {
      var step := ScanStep(s, i, delim, nest, delims);
      if step.Go? { NoQuoteOpened(s, step.next, step.delim, step.nest, delims); }
    }
  }

  /** A line without single quotes and comments ends plainly. */
  lemma {:induction false} NoQuotesPlain(s: string, i: nat, delims: string, comment: char)
    requires i <= |s| && '\'' !in s && comment !in s
    ensures EndsPlain(s, i, delims, comment)
    decreases |s| - i
  {
    var start := SkipBlanks(s, i);
    if start < |s| {
      var w := WordStart(s, start);
      if w.Word? { NoQuoteOpened(s, w.from, w.open, w.depth, delims); }
      var e := TokenEnd(s, start, delims);
      if e < |s| { NoQuotesPlain(s, e, delims, comment); }
    }
  }

  /** A backslash behind a letter is stepped over together with the null, one behind a single quote is not. */
  lemma RunsOverAtTheEnd(delims: string, comment: char)
    requires '\\' !in delims && comment !in "a'\\"
    ensures RunsOver("a\\", 0, delims, comment) && !RunsOver("'\\", 0, delims, comment)
  {
    LetterRunsOver(delims, comment);
    QuoteStaysInside(delims, comment);
  }

  lemma LetterRunsOver(delims: string, comment: char)
    requires '\\' !in delims && comment !in "a'\\"
    ensures RunsOver("a\\", 0, delims, comment)
  {
    RunsOverSlashed("a", 1, "a\\", 0, delims, comment);
    NoQuotesPlain("a", 0, delims, comment);
  }

  lemma QuoteStaysInside(delims: string, comment: char)
    requires '\\' !in delims && comment !in "a'\\"
    ensures !RunsOver("'\\", 0, delims, comment)
  {
    RunsOverSlashed("'", 1, "'\\", 0, delims, comment);
    var w := WordStart("'", 0);
    assert ScanWord("'", w.from, w.open, w.depth, delims) == 1;
  }
}
