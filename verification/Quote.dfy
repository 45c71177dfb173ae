/**
  sh_single_quote (shell.c), against the history tokenizer and against quote
  removal as the POSIX Shell Command Language defines it for backslashes and
  single quotes (sections 2.2.1 and 2.2.2).
 */
module Quote {

  import opened Common
  import opened Tokenize

  /** The text between the outer quotes. */
  function Escaped(s: string): string {
    if s == [] then []
    else (if s[0] == '\'' then "'\\''" else [s[0]]) + Escaped(s[1..])
  }

  function SingleQuoted(s: string): string { "'" + Escaped(s) + "'" }

  /** Quote removal, `inside` single quotes or not; none if a quote is left open or a backslash has nothing behind it. */
  function Unquoted(s: string, inside: bool): Option<string>
    decreases |s|
  {
    if s == [] then (if inside then None else Some([]))
    else if inside then
      if s[0] == '\'' then Unquoted(s[1..], false)
      else match Unquoted(s[1..], true) case None => None case Some(r) => Some([s[0]] + r)
    else if s[0] == '\'' then Unquoted(s[1..], true)
    else if s[0] == '\\' then
      if |s| == 1 then None
      else if s[1] == '\n' then Unquoted(s[2..], false)
      else match Unquoted(s[2..], false) case None => None case Some(r) => Some([s[1]] + r)
    else match Unquoted(s[1..], false) case None => None case Some(r) => Some([s[0]] + r)
  }

  lemma {:induction false} EscapedUnquoted(s: string)
    ensures Unquoted(Escaped(s) + "'", true) == Some(s)
    decreases |s|
  {
    var q := Escaped(s) + "'";
    if s == [] {
      assert q == "'" && q[1..] == [];
    } else {
      EscapedUnquoted(s[1..]);
      var rest := Escaped(s[1..]) + "'";
      if s[0] == '\'' {
        var q1, q2 := "\\''" + rest, "'" + rest;
        assert q == "'\\''" + rest && q[1..] == q1 && q1[2..] == q2 && q2[1..] == rest;
        assert Unquoted(q2, false) == Unquoted(rest, true);
        assert Unquoted(q1, false) == Some(['\''] + s[1..]);
      } else {
        assert q == [s[0]] + rest && q[1..] == rest;
      }
      assert s == [s[0]] + s[1..];
    }
  }

  /** Removing the quotes gives every string back. */
  lemma QuoteRemoval(s: string)
    ensures Unquoted(SingleQuoted(s), false) == Some(s)
  {
    EscapedUnquoted(s);
    assert SingleQuoted(s)[1..] == Escaped(s) + "'";
  }

  /** Inside single quotes the scan runs to the closing quote of the whole text. */
  lemma {:induction false} ScanEscaped(q: string, i: nat, s: string, delims: string)
    requires i <= |q| && q[i..] == Escaped(s) + "'" && '\'' !in delims
    ensures ScanWord(q, i, '\'', 0, delims) == |q|
    decreases |s|
  {
    var tail := q[i..];
    assert forall k | 0 <= k < |tail| :: tail[k] == q[i + k];
    if s == [] {
      assert tail == "'" && i + 1 == |q|;
    } else if s[0] == '\'' {
      var rest := Escaped(s[1..]) + "'";
      assert tail == "'\\''" + rest;
      assert q[i] == '\'' && q[i + 1] == '\\' && q[i + 2] == '\'' && q[i + 3] == '\'';
      assert q[i + 4..] == tail[4..] == rest;
      ScanEscaped(q, i + 4, s[1..], delims);
      ScanQuoteOpens(q, i, delims);
    } else {
      var rest := Escaped(s[1..]) + "'";
      assert tail == [s[0]] + rest;
      assert q[i] == s[0] && q[i + 1..] == tail[1..] == rest;
      if s[0] == '\\' && At(q, i + 1) == '\n' {
        assert rest[0] == '\n';
        assert s[1..] != [] && s[1] == '\n';
        assert rest == ['\n'] + (Escaped(s[1..][1..]) + "'");
        assert q[i + 2..] == rest[1..] == Escaped(s[2..]) + "'" by { assert s[1..][1..] == s[2..]; }
        ScanEscaped(q, i + 2, s[2..], delims);
      } else {
        ScanEscaped(q, i + 1, s[1..], delims);
      }
    }
  }

  lemma ScanQuoteOpens(q: string, i: nat, delims: string)
    requires i + 3 < |q| && q[i] == '\'' && q[i + 1] == '\\' && q[i + 2] == '\'' && q[i + 3] == '\''
    requires '\'' !in delims
    ensures ScanWord(q, i, '\'', 0, delims) == ScanWord(q, i + 4, '\'', 0, delims)
  {
    assert ScanWord(q, i, '\'', 0, delims) == ScanWord(q, i + 1, NUL, 0, delims);
    assert ScanWord(q, i + 1, NUL, 0, delims) == ScanWord(q, i + 3, NUL, 0, delims);
  }

  /** A single-quoted string, whatever is in it, is one word of the history line. */
  lemma QuotedIsOneToken(s: string, delims: string, comment: char)
    requires '\'' !in delims && comment != '\''
    ensures Tokens(SingleQuoted(s), 0, delims, comment) == [Token(0, |SingleQuoted(s)|)]
    ensures !RunsOver(SingleQuoted(s), 0, delims, comment)
  {
    var q := SingleQuoted(s);
    assert q[1..] == Escaped(s) + "'";
    ScanEscaped(q, 1, s, delims);
    assert WordEnd(q, 0, delims) == |q|;
    assert Tokens(q, |q|, delims, comment) == [];
  }

  lemma {:induction false} EscapedJoin(s: string, t: string)
    ensures Escaped(s + t) == Escaped(s) + Escaped(t)
    decreases |s|
  {
    if s == [] {
      assert s + t == t;
    } else {
      assert (s + t)[1..] == s[1..] + t;
      EscapedJoin(s[1..], t);
    }
  }

  lemma {:induction false} EscapedFits(s: string)
    ensures |Escaped(s)| <= 4 * |s|
    decreases |s|
  {
    if s != [] { EscapedFits(s[1..]); }
  }

  /** sh_single_quote: the result with its null fits the 3 + 4n bytes allocated for it. */
  method SingleQuote(s: string) returns (r: string)
    ensures r == SingleQuoted(s) && |r| + 1 <= 3 + 4 * |s|
  {
    r := "'";
    for i := 0 to |s|
      invariant r == "'" + Escaped(s[..i])
    {
      assert s[..i + 1] == s[..i] + [s[i]] && [s[i]][1..] == [];
      EscapedJoin(s[..i], [s[i]]);
      r := r + [s[i]];
      if s[i] == '\'' {
        r := r + ['\\'] + ['\''] + ['\''];
      }
    }
    assert s[..|s|] == s;
    EscapedFits(s);
    r := r + "'";
  }
}
