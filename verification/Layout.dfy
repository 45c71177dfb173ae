/**
  Drawing the prompt and the line into the display buffer (the first part of
  rl_redisplay): what each character looks like and where screen rows begin.
 */
module Layout {

  import opened Common

  const TAB := '\t'
  const NEWLINE := '\n'
  const RUBOUT := 127 as char

  function OctalDigit(n: nat): char
    requires n < 8
  {
    '0' + n as char
  }

  /** A byte as it is displayed when the cursor is in column `col`. */
  function Shown(c: char, col: nat, outputMeta: bool): (r: string)
    ensures 1 <= |r| <= 8 && NUL !in r
  {
    var b := c as int;
    if 128 <= b < 256 && !outputMeta then
      ['\\', OctalDigit(b / 64), OctalDigit(b / 8 % 8), OctalDigit(b % 8)]
    else if c == TAB then Blanks(8 - col % 8)
    else if b < 32 then ['^', (b + 64) as char]
    else if c == RUBOUT then ['^', '?']
    else [c]
  }

  // ----- What the screen should look like -----

  /** Rows of text, each filled to `width` before the next one begins. */
  type Page = seq<string>

  function Last(p: Page): string
    requires p != []
  {
    p[|p| - 1]
  }

  function Type(p: Page, c: char, width: nat): (r: Page)
    requires p != []
    ensures r != []
  {
    var row := Last(p) + [c];
    p[..|p| - 1] + if |row| < width then [row] else [row, []]
  }

  function TypeAll(p: Page, s: string, width: nat): (r: Page)
    requires p != []
    ensures r != []
    decreases |s|
  {
    if s == [] then p else TypeAll(Type(p, s[0], width), s[1..], width)
  }

  function TypeLine(p: Page, line: string, width: nat, outputMeta: bool): (r: Page)
    requires p != []
    ensures r != []
    decreases |line|
  {
    if line == [] then p
    else if line[0] == NEWLINE then TypeLine(p + [[]], line[1..], width, outputMeta)
    else TypeLine(TypeAll(p, Shown(line[0], |Last(p)|, outputMeta), width), line[1..], width, outputMeta)
  }

  /** The prompt and then the line, typed on an empty screen. */
  function Rendered(prompt: string, line: string, width: nat, outputMeta: bool): (r: Page)
    ensures r != []
  {
    TypeLine(TypeAll([[]], prompt, width), line, width, outputMeta)
  }

  // ----- The buffer and its table of breaks -----

  /** invisible_line, inv_lbreaks up to the current row, and lpos. */
  datatype Drawing = Drawing(buf: string, breaks: seq<nat>, lpos: nat)

  function Put(d: Drawing, c: char, width: nat): Drawing {
    if d.lpos + 1 >= width then Drawing(d.buf + [c], d.breaks + [|d.buf| + 1], 0)
    else Drawing(d.buf + [c], d.breaks, d.lpos + 1)
  }

  function PutAll(d: Drawing, s: string, width: nat): (r: Drawing)
    ensures d.breaks <= r.breaks
    decreases |s|
  {
    if s == [] then d else PutAll(Put(d, s[0], width), s[1..], width)
  }

  function PutNewline(d: Drawing): Drawing {
    Drawing(d.buf + [NUL], d.breaks + [|d.buf| + 1], 0)
  }

  function Draw(d: Drawing, line: string, width: nat, outputMeta: bool): (r: Drawing)
    ensures d.breaks <= r.breaks
    decreases |line|
  {
    if line == [] then d
    else if line[0] == NEWLINE then Draw(PutNewline(d), line[1..], width, outputMeta)
    else Draw(PutAll(d, Shown(line[0], d.lpos, outputMeta), width), line[1..], width, outputMeta)
  }

  /** Row `i` of the drawing is row `i` of the page, followed by a null if a newline ended it. */
  ghost predicate RowAt(buf: string, from: nat, to: nat, row: string, width: nat) {
    && from + |row| <= to <= |buf| && buf[from..from + |row|] == row
    && if to == from + |row| then |row| == width
       else |row| < width && to == from + |row| + 1 && buf[to - 1] == NUL
  }

  /** The breaks cut the buffer into exactly the rows of the page. */
  ghost predicate Tiles(d: Drawing, p: Page, width: nat) {
    && p != [] && |d.breaks| == |p| && d.breaks[0] == 0
    && (forall i | 0 <= i < |p| - 1 :: RowAt(d.buf, d.breaks[i], d.breaks[i + 1], p[i], width))
    && (forall i | 0 <= i < |p| :: NUL !in p[i])
    && d.breaks[|p| - 1] <= |d.buf| && d.buf[d.breaks[|p| - 1]..] == Last(p)
    && d.lpos == |Last(p)| < width
  }

  lemma RowAtMore(buf: string, more: string, from: nat, to: nat, row: string, width: nat)
    requires RowAt(buf, from, to, row, width)
    ensures RowAt(buf + more, from, to, row, width)
  {
    assert (buf + more)[from..from + |row|] == buf[from..from + |row|];
  }

  lemma TilesPut(d: Drawing, p: Page, c: char, width: nat)
    requires Tiles(d, p, width) && c != NUL
    ensures Tiles(Put(d, c, width), Type(p, c, width), width)
  {
    var d', p', last := Put(d, c, width), Type(p, c, width), |p| - 1;
    forall i | 0 <= i < last ensures RowAt(d'.buf, d'.breaks[i], d'.breaks[i + 1], p'[i], width) {
      assert RowAt(d.buf, d.breaks[i], d.breaks[i + 1], p[i], width);
      RowAtMore(d.buf, [c], d.breaks[i], d.breaks[i + 1], p[i], width);
    }
    assert d'.buf[d.breaks[last]..] == Last(p) + [c];
    if d.lpos + 1 >= width {
      assert d'.buf[d.breaks[last]..|d'.buf|] == p'[last];
      assert d'.buf[|d'.buf|..] == [];
    }
  }

  lemma TilesNewline(d: Drawing, p: Page, width: nat)
    requires Tiles(d, p, width)
    ensures Tiles(PutNewline(d), p + [[]], width)
  {
    var d', p', last := PutNewline(d), p + [[]], |p| - 1;
    forall i | 0 <= i < last ensures RowAt(d'.buf, d'.breaks[i], d'.breaks[i + 1], p'[i], width) {
      assert RowAt(d.buf, d.breaks[i], d.breaks[i + 1], p[i], width);
      RowAtMore(d.buf, [NUL], d.breaks[i], d.breaks[i + 1], p[i], width);
    }
    assert d'.buf[d.breaks[last]..|d.buf|] == d.buf[d.breaks[last]..];
    assert RowAt(d'.buf, d'.breaks[last], d'.breaks[last + 1], p'[last], width);
    assert d'.buf[|d'.buf|..] == [];
  }

  lemma {:induction false} TilesPutAll(d: Drawing, p: Page, s: string, width: nat)
    requires Tiles(d, p, width) && NUL !in s
    ensures Tiles(PutAll(d, s, width), TypeAll(p, s, width), width)
    decreases |s|
  {
    if s != [] {
      TilesPut(d, p, s[0], width);
      TilesPutAll(Put(d, s[0], width), Type(p, s[0], width), s[1..], width);
    }
  }

  /** However the line is made up, the breaks cut the buffer into the rows the text should fill. */
  lemma {:induction false} TilesDraw(d: Drawing, p: Page, line: string, width: nat, outputMeta: bool)
    requires Tiles(d, p, width)
    ensures Tiles(Draw(d, line, width, outputMeta), TypeLine(p, line, width, outputMeta), width)
    decreases |line|
  {
    if line != [] && line[0] == NEWLINE {
      TilesNewline(d, p, width);
      TilesDraw(PutNewline(d), p + [[]], line[1..], width, outputMeta);
    } else if line != [] {
      var s := Shown(line[0], d.lpos, outputMeta);
      TilesPutAll(d, p, s, width);
      TilesDraw(PutAll(d, s, width), TypeAll(p, s, width), line[1..], width, outputMeta);
    }
  }

  /** A few characters put at once: at most one row is completed by them. */
  lemma {:induction false} PutAllShort(d: Drawing, s: string, width: nat)
    requires d.lpos < width && |s| <= width
    ensures PutAll(d, s, width) ==
      if d.lpos + |s| < width then Drawing(d.buf + s, d.breaks, d.lpos + |s|)
      else Drawing(d.buf + s, d.breaks + [|d.buf| + width - d.lpos], d.lpos + |s| - width)
    decreases |s|
  {
    if s == [] {
      assert d.buf + s == d.buf;
    } else {
      var d' := Put(d, s[0], width);
      PutAllShort(d', s[1..], width);
      assert d'.buf + s[1..] == d.buf + s;
    }
  }

  lemma {:induction false} PutAllJoin(d: Drawing, s: string, t: string, width: nat)
    ensures PutAll(d, s + t, width) == PutAll(PutAll(d, s, width), t, width)
    decreases |s|
  {
    if s == [] {
      assert s + t == t;
    } else {
      assert (s + t)[0] == s[0] && (s + t)[1..] == s[1..] + t;
      PutAllJoin(Put(d, s[0], width), s[1..], t, width);
    }
  }

  lemma {:induction false} DrawJoin(d: Drawing, s: string, t: string, width: nat, outputMeta: bool)
    ensures Draw(d, s + t, width, outputMeta) == Draw(Draw(d, s, width, outputMeta), t, width, outputMeta)
    decreases |s|
  {
    if s == [] {
      assert s + t == t;
    } else {
      assert (s + t)[0] == s[0] && (s + t)[1..] == s[1..] + t;
      var d' := if s[0] == NEWLINE then PutNewline(d) else PutAll(d, Shown(s[0], d.lpos, outputMeta), width);
      DrawJoin(d', s[1..], t, width, outputMeta);
    }
  }

  /** Typing more only adds: earlier rows stay and the current one is continued. */
  ghost predicate Continues(p: Page, r: Page) {
    && p != [] && |p| <= |r| && Last(p) <= r[|p| - 1]
    && forall i | 0 <= i < |p| - 1 :: r[i] == p[i]
  }

  lemma {:induction false} TypeAllContinues(p: Page, s: string, width: nat)
    requires p != []
    ensures Continues(p, TypeAll(p, s, width))
    decreases |s|
  {
    if s != [] { TypeAllContinues(Type(p, s[0], width), s[1..], width); }
  }

  lemma {:induction false} TypeLineContinues(p: Page, line: string, width: nat, outputMeta: bool)
    requires p != []
    ensures Continues(p, TypeLine(p, line, width, outputMeta))
    decreases |line|
  {
    if line != [] && line[0] == NEWLINE {
      TypeLineContinues(p + [[]], line[1..], width, outputMeta);
    } else if line != [] {
      var s := Shown(line[0], |Last(p)|, outputMeta);
      TypeAllContinues(p, s, width);
      TypeLineContinues(TypeAll(p, s, width), line[1..], width, outputMeta);
    }
  }

  lemma {:induction false} TypeLineJoin(p: Page, s: string, t: string, width: nat, outputMeta: bool)
    requires p != []
    ensures TypeLine(p, s + t, width, outputMeta) == TypeLine(TypeLine(p, s, width, outputMeta), t, width, outputMeta)
    decreases |s|
  {
    if s == [] {
      assert s + t == t;
    } else {
      assert (s + t)[0] == s[0] && (s + t)[1..] == s[1..] + t;
      var p' := if s[0] == NEWLINE then p + [[]] else TypeAll(p, Shown(s[0], |Last(p)|, outputMeta), width);
      TypeLineJoin(p', s[1..], t, width, outputMeta);
    }
  }
}
