/**
  rl_redisplay with several screen rows: draw the line into a buffer, bring
  every row of the screen up to date, blank the rows no longer used and put the
  cursor where the point is.
 */
module Redisplay {

  import opened Common
  import opened Layout
  import Terminal
  import Disp = Display

  const Start: Drawing := Drawing([], [0], 0)

  /** The drawing of the prompt and the first `n` characters of the line. */
  function Drawn(prompt: string, line: string, n: nat, width: nat, outputMeta: bool): Drawing
    requires n <= |line|
  {
    Draw(PutAll(Start, prompt, width), line[..n], width, outputMeta)
  }

  lemma DrawnNext(prompt: string, line: string, n: nat, width: nat, outputMeta: bool)
    requires n < |line|
    ensures var d := Drawn(prompt, line, n, width, outputMeta);
            Drawn(prompt, line, n + 1, width, outputMeta) ==
            if line[n] == NEWLINE then PutNewline(d) else PutAll(d, Shown(line[n], d.lpos, outputMeta), width)
  {
    assert line[..n + 1] == line[..n] + [line[n]];
    DrawJoin(PutAll(Start, prompt, width), line[..n], [line[n]], width, outputMeta);
    var d := Drawn(prompt, line, n, width, outputMeta);
    assert [line[n]][1..] == [];
  }

  /** The loop that breaks a prompt wider than the screen. */
  method DrawPrompt(prompt: string, width: nat) returns (d: Drawing)
    requires width > 0
    ensures d == PutAll(Start, prompt, width) && d.lpos < width
  {
    var lpos: nat, breaks: seq<nat>, newlines: nat := |prompt|, [0], 0;
    ghost var done: nat := 0;
    while lpos >= width
      invariant lpos + done == |prompt| && done == newlines * width
      invariant PutAll(Start, prompt[..done], width) == Drawing(prompt[..done], breaks, 0)
    {
      PromptBreaks(prompt, done, width, breaks);
      assert (newlines + 1) * width == done + width;
      breaks := breaks + [(newlines + 1) * width];
      newlines := newlines + 1;
      lpos := lpos - width;
      done := done + width;
    }
    PromptEnds(prompt, done, width, breaks);
    d := Drawing(prompt, breaks, lpos);
  }

  lemma PromptBreaks(prompt: string, done: nat, width: nat, breaks: seq<nat>)
    requires width > 0 && done + width <= |prompt|
    requires PutAll(Start, prompt[..done], width) == Drawing(prompt[..done], breaks, 0)
    ensures PutAll(Start, prompt[..done + width], width) ==
            Drawing(prompt[..done + width], breaks + [done + width], 0)
  {
    var next := prompt[done..done + width];
    assert prompt[..done + width] == prompt[..done] + next;
    PutAllJoin(Start, prompt[..done], next, width);
    PutAllShort(Drawing(prompt[..done], breaks, 0), next, width);
  }

  lemma PromptEnds(prompt: string, done: nat, width: nat, breaks: seq<nat>)
    requires done <= |prompt| < done + width
    requires PutAll(Start, prompt[..done], width) == Drawing(prompt[..done], breaks, 0)
    ensures PutAll(Start, prompt, width) == Drawing(prompt, breaks, |prompt| - done)
  {
    var rest := prompt[done..];
    assert prompt == prompt[..done] + rest;
    PutAllJoin(Start, prompt[..done], rest, width);
    PutAllShort(Drawing(prompt[..done], breaks, 0), rest, width);
  }

  /** One character of the line, drawn as the loop of rl_redisplay draws it. */
  method DrawChar(d: Drawing, c: char, width: nat, outputMeta: bool) returns (r: Drawing)
    requires width >= 8 && d.lpos < width
    ensures r == (if c == NEWLINE then PutNewline(d) else PutAll(d, Shown(c, d.lpos, outputMeta), width))
    ensures r.lpos < width
  {
    var buf, breaks, lpos := d.buf, d.breaks, d.lpos;
    var b := c as int;
    PutAllShort(d, Shown(c, d.lpos, outputMeta), width);
    if 128 <= b < 256 && !outputMeta {
      var out := |buf|;
      buf := buf + ['\\', OctalDigit(b / 64), OctalDigit(b / 8 % 8), OctalDigit(b % 8)];
      breaks, lpos := Advance(out, breaks, lpos, 4, width);
    } else if c == TAB {
      var out := |buf|;
      var newout := out + 8 - lpos % 8;
      var temp := newout - out;
      breaks, lpos := Advance(out, breaks, lpos, temp, width);
      buf := buf + Blanks(temp);
    } else if c == NEWLINE {
      buf := buf + [NUL];
      breaks := breaks + [|buf|];
      lpos := 0;
    } else if b < 32 || c == RUBOUT {
      buf := buf + ['^'];
      breaks, lpos := CheckLpos(|buf|, breaks, lpos, width);
      buf := buf + [if b < 32 then (b + 64) as char else '?'];
      breaks, lpos := CheckLpos(|buf|, breaks, lpos, width);
    } else {
      buf := buf + [c];
      breaks, lpos := CheckLpos(|buf|, breaks, lpos, width);
    }
    r := Drawing(buf, breaks, lpos);
  }

  /** CHECK_LPOS */
  method CheckLpos(out: nat, breaks: seq<nat>, lpos: nat, width: nat) returns (breaks': seq<nat>, lpos': nat)
    ensures lpos' == if lpos + 1 >= width then 0 else lpos + 1
    ensures breaks' == if lpos + 1 >= width then breaks + [out] else breaks
  {
    breaks', lpos' := breaks, lpos + 1;
    if lpos' >= width {
      breaks', lpos' := breaks + [out], 0;
    }
  }

  /** Moving on over `n` characters drawn at once, perhaps past the right margin. */
  method Advance(out: nat, breaks: seq<nat>, lpos: nat, n: nat, width: nat) returns (breaks': seq<nat>, lpos': nat)
    requires lpos < width && n <= width
    ensures breaks' == if lpos + n < width then breaks else breaks + [out + width - lpos]
    ensures lpos' == if lpos + n < width then lpos + n else lpos + n - width
  {
    breaks', lpos' := breaks, lpos + n;
    if lpos + n >= width {
      var temp := width - lpos;
      breaks', lpos' := breaks + [out + temp], n - temp;
    }
  }

  /** Draw prompt and line, noting where the cursor goes: its place in the buffer and its row. */
  method DrawLine(prompt: string, line: string, point: nat, width: nat, outputMeta: bool)
    returns (d: Drawing, cpos: nat, linenum: nat)
    requires width >= 8 && point <= |line|
    ensures d == Drawn(prompt, line, |line|, width, outputMeta)
    ensures var at := Drawn(prompt, line, point, width, outputMeta);
            cpos == |at.buf| && linenum == |at.breaks| - 1
  {
    d := DrawPrompt(prompt, width);
    var found := false;
    cpos, linenum := 0, 0;
    for i := 0 to |line|
      invariant d == Drawn(prompt, line, i, width, outputMeta) && d.lpos < width && d.breaks != []
      invariant found == (point < i)
      invariant found ==> var at := Drawn(prompt, line, point, width, outputMeta);
                          cpos == |at.buf| && linenum == |at.breaks| - 1
    {
      if i == point {
        cpos, linenum, found := |d.buf|, |d.breaks| - 1, true;
      }
      DrawnNext(prompt, line, i, width, outputMeta);
      d := DrawChar(d, line[i], width, outputMeta);
    }
    assert line[..|line|] == line;
    if !found {
      cpos, linenum := |d.buf|, |d.breaks| - 1;
    }
  }

  // ----- Rows of a drawing -----

  /** The part of the buffer behind break `i`, and how long row `i` is with its null. */
  function RowBuffer(buf: string, breaks: seq<nat>, i: nat): string {
    if i < |breaks| && breaks[i] <= |buf| then buf[breaks[i]..] else []
  }

  function RowLength(buf: string, breaks: seq<nat>, i: nat): nat {
    if i >= |breaks| then 0
    else
      var end := if i + 1 < |breaks| then breaks[i + 1] else |buf|;
      if breaks[i] <= end then end - breaks[i] else 0
  }

  function RowOf(p: Page, i: nat): string { if i < |p| then p[i] else [] }

  lemma RowTextIs(s: string, max: nat, row: string)
    requires row <= s && |row| <= max && NUL !in row && (|row| == max || At(s, |row|) == NUL)
    ensures Disp.RowText(s, max) == row
  {
    var r := Disp.RowText(s, max);
    assert r == s[..|r|] && row == s[..|row|];
  }

  /** Every row of a tiled drawing meets what the row update asks of a buffer. */
  lemma TiledRow(d: Drawing, p: Page, width: nat, i: nat)
    requires Tiles(d, p, width) && width > 0
    ensures var (s, max) := (RowBuffer(d.buf, d.breaks, i), RowLength(d.buf, d.breaks, i));
            && Disp.RowText(s, max) == RowOf(p, i) && max <= width
            && (At(s, 0) != NUL ==> max > 0)
            && (|RowOf(p, i)| == width || At(s, |RowOf(p, i)|) == NUL)
            && RowOf(p, i) <= s
  {
    var s, max := RowBuffer(d.buf, d.breaks, i), RowLength(d.buf, d.breaks, i);
    if i + 1 < |p| {
      var from, to, row := d.breaks[i], d.breaks[i + 1], p[i];
      assert RowAt(d.buf, from, to, row, width);
      assert s[..|row|] == d.buf[from..from + |row|];
      assert to != from + |row| ==> s[|row|] == d.buf[to - 1];
    } else if i + 1 == |p| {
      assert s == p[i];
    }
    RowTextIs(s, max, RowOf(p, i));
  }

  /** The screen shows the rows of the page and nothing else. */
  ghost predicate ShowsPage(rows: seq<string>, p: Page) {
    |p| <= |rows| && forall i | 0 <= i < |rows| :: Terminal.Shows(rows[i], RowOf(p, i))
  }

  class Redisplayer {
    const disp: Disp.Display
    const scr: Terminal.Screen
    const outputMeta: bool

    /** visible_line and vis_lbreaks. */
    var visible: string
    var visBreaks: seq<nat>

    /** The page the screen shows. */
    ghost var page: Page

    constructor (disp: Disp.Display, outputMeta: bool)
      requires disp.Valid() && disp.visBotlin == 0 && disp.scr.width >= 8
      requires forall i | 0 <= i < |disp.scr.rows| :: Terminal.Shows(disp.scr.rows[i], [])
      ensures Valid() && this.disp == disp && this.outputMeta == outputMeta && page == [[]]
    {
      this.disp, scr, this.outputMeta := disp, disp.scr, outputMeta;
      visible, visBreaks, page := [], [0], [[]];
    }

    /** The screen shows the page, and the visible buffer is cut into its rows. */
    ghost predicate Valid()
      reads this, disp, scr
    {
      && disp.scr == scr && disp.Valid() && scr.width >= 8
      && page != [] && Tiles(Drawing(visible, visBreaks, |Last(page)|), page, scr.width)
      && disp.visBotlin == |page| - 1
      && ShowsPage(scr.rows, page)
    }

    /** Update one row, which showed what the visible buffer holds for it. */
    method UpdateRow(d: Drawing, ghost p: Page, linenum: nat, invBotlin: nat)
      requires disp.scr == scr && disp.Valid() && page != [] && linenum < |p| && linenum < |scr.rows|
      requires Tiles(Drawing(visible, visBreaks, |Last(page)|), page, scr.width) && Tiles(d, p, scr.width)
      requires Terminal.Shows(scr.rows[linenum], RowOf(page, linenum))
      modifies disp, scr
      ensures disp.Valid() && disp.visBotlin == old(disp.visBotlin) && |scr.rows| == |old(scr.rows)|
      ensures Terminal.Shows(scr.rows[linenum], p[linenum])
      ensures forall i | 0 <= i < |scr.rows| && i != linenum :: scr.rows[i] == old(scr.rows)[i]
    {
      TiledRow(Drawing(visible, visBreaks, |Last(page)|), page, scr.width, linenum);
      TiledRow(d, p, scr.width, linenum);
      disp.UpdateLine(RowBuffer(visible, visBreaks, linenum), RowBuffer(d.buf, d.breaks, linenum), linenum,
                      RowLength(visible, visBreaks, linenum), RowLength(d.buf, d.breaks, linenum), invBotlin);
    }

    /** Update every row of the new text, top to bottom. */
    method UpdateRows(d: Drawing, ghost p: Page)
      requires Valid() && Tiles(d, p, scr.width) && |p| <= |scr.rows|
      modifies disp, scr
      ensures disp.Valid() && disp.visBotlin == old(disp.visBotlin) && |scr.rows| == |old(scr.rows)|
      ensures forall i | 0 <= i < |scr.rows| :: Terminal.Shows(scr.rows[i], if i < |p| then p[i] else RowOf(page, i))
    {
      var invBotlin := |d.breaks| - 1;
      var linenum := 0;
      while linenum <= invBotlin
        invariant linenum <= |p| && disp.Valid() && disp.visBotlin == |page| - 1
        invariant |scr.rows| == |old(scr.rows)|
        invariant forall i | 0 <= i < |scr.rows| ::
          Terminal.Shows(scr.rows[i], if i < linenum then p[i] else RowOf(page, i))
      {
        UpdateRow(d, p, linenum, invBotlin);
        linenum := linenum + 1;
      }
    }

    /** Blank one row, at least `n` cells of which may be in use. */
    method ClearRow(linenum: nat, tt: string, n: nat)
      requires disp.scr == scr && disp.Valid() && linenum < |scr.rows| && n <= scr.width
      requires exists row: string :: |row| <= n && Terminal.Shows(scr.rows[linenum], row)
      modifies disp, scr
      ensures disp.Valid() && disp.visBotlin == old(disp.visBotlin)
      ensures scr.rows == old(scr.rows)[linenum := Blanks(|old(scr.rows)[linenum]|)]
    {
      disp.MoveVert(linenum);
      disp.MoveCursorRelative(0, tt);
      ghost var was := scr.rows[linenum];
      disp.ClearToEol(n);
      assert Terminal.Cleared(was, 0) == Blanks(|was|);
      assert Terminal.Overwritten(was, 0, Blanks(n)) == Blanks(|was|);
    }

    /** Blank the rows the old text used and the new one does not. */
    method ClearLeftover(botlin: nat, ghost p: Page)
      requires disp.scr == scr && disp.Valid() && page != [] && disp.visBotlin == |page| - 1 && |page| <= |scr.rows|
      requires Tiles(Drawing(visible, visBreaks, |Last(page)|), page, scr.width) && |p| == botlin + 1 <= |scr.rows|
      requires forall i | 0 <= i < |scr.rows| :: Terminal.Shows(scr.rows[i], if i < |p| then p[i] else RowOf(page, i))
      modifies disp, scr
      ensures disp.Valid() && ShowsPage(scr.rows, p)
    {
      var linenum := botlin + 1;
      while linenum <= disp.visBotlin
        invariant disp.Valid() && disp.visBotlin == |page| - 1 && |scr.rows| == |old(scr.rows)|
        invariant |p| <= linenum
        invariant forall i | 0 <= i < |scr.rows| ::
          Terminal.Shows(scr.rows[i], if i < |p| then p[i] else if i < linenum then [] else RowOf(page, i))
      {
        var tt := RowBuffer(visible, visBreaks, linenum);
        TiledRow(Drawing(visible, visBreaks, |Last(page)|), page, scr.width, linenum);
        ghost var row := RowOf(page, linenum);
        var n := if linenum == disp.visBotlin then |tt| else scr.width;
        assert |row| <= n && Terminal.Shows(scr.rows[linenum], row);
        ClearRow(linenum, tt, n);
        assert Terminal.Shows(scr.rows[linenum], []) by {
          assert scr.rows[linenum] == [] + Blanks(|scr.rows[linenum]|);
        }
        linenum := linenum + 1;
      }
    }

    /** Put the cursor at place `cpos` of the buffer, in row `linenum`. */
    method PlaceCursor(d: Drawing, cpos: nat, linenum: nat, ghost p: Page)
      requires disp.scr == scr && disp.Valid() && Tiles(d, p, scr.width) && ShowsPage(scr.rows, p)
      requires linenum < |p| && d.breaks[linenum] <= cpos <= d.breaks[linenum] + |p[linenum]|
      requires cpos - d.breaks[linenum] < scr.width
      modifies disp, scr
      ensures disp.Valid() && disp.visBotlin == old(disp.visBotlin) && scr.rows == old(scr.rows)
      ensures scr.row == linenum && scr.col == cpos - d.breaks[linenum]
    {
      disp.MoveVert(linenum);
      var pos := d.breaks[linenum];
      var nleft := cpos - pos;
      TiledRow(d, p, scr.width, linenum);
      ghost var data := RowBuffer(d.buf, d.breaks, linenum);
      assert data[..nleft] == p[linenum][..nleft] == scr.rows[linenum][..nleft];
      disp.MoveCursorRelative(nleft, RowBuffer(d.buf, d.breaks, linenum));
    }

    /**
      rl_redisplay.  Whatever the screen showed before, it then shows exactly
      the prompt and the line as typing them on an empty screen would, and the
      cursor is in the cell where the character at point is or would be.
     */
    method Redisplay(prompt: string, line: string, point: nat)
      requires Valid() && point <= |line| && NUL !in prompt
      requires |Rendered(prompt, line, scr.width, outputMeta)| <= |scr.rows|
      modifies this, disp, scr
      ensures Valid() && page == Rendered(prompt, line, scr.width, outputMeta)
      ensures var before := Rendered(prompt, line[..point], scr.width, outputMeta);
              scr.row == |before| - 1 && scr.col == |Last(before)|
    {
      ghost var p := Rendered(prompt, line, scr.width, outputMeta);
      var d, cpos, cursorLinenum := DrawLine(prompt, line, point, scr.width, outputMeta);
      RenderedTiles(prompt, line, |line|, scr.width, outputMeta);
      assert line[..|line|] == line;
      CursorInside(prompt, line, point, scr.width, outputMeta);
      UpdateRows(d, p);
      ClearLeftover(|d.breaks| - 1, p);
      disp.visBotlin := |d.breaks| - 1;
      PlaceCursor(d, cpos, cursorLinenum, p);
      visible, visBreaks, page := d.buf, d.breaks, p;
    }
  }

  lemma RenderedTiles(prompt: string, line: string, n: nat, width: nat, outputMeta: bool)
    requires n <= |line| && width > 0 && NUL !in prompt
    ensures Tiles(Drawn(prompt, line, n, width, outputMeta), Rendered(prompt, line[..n], width, outputMeta), width)
  {
    assert Tiles(Start, [[]], width);
    TilesPutAll(Start, [[]], prompt, width);
    TilesDraw(PutAll(Start, prompt, width), TypeAll([[]], prompt, width), line[..n], width, outputMeta);
  }

  /** The cursor's row is one of the page's rows, and what is before the cursor is part of it. */
  lemma RenderedContinues(prompt: string, line: string, n: nat, width: nat, outputMeta: bool)
    requires n <= |line|
    ensures Continues(Rendered(prompt, line[..n], width, outputMeta), Rendered(prompt, line, width, outputMeta))
    ensures Drawn(prompt, line, n, width, outputMeta).breaks <= Drawn(prompt, line, |line|, width, outputMeta).breaks
  {
    assert line == line[..n] + line[n..] && line[..|line|] == line;
    var p, d := TypeAll([[]], prompt, width), PutAll(Start, prompt, width);
    TypeLineJoin(p, line[..n], line[n..], width, outputMeta);
    TypeLineContinues(TypeLine(p, line[..n], width, outputMeta), line[n..], width, outputMeta);
    DrawJoin(d, line[..n], line[n..], width, outputMeta);
  }

  /**
    The cursor's place in the buffer lies inside the row recorded for it, as
    many columns from its break as the page has before the cursor.
   */
  lemma CursorInside(prompt: string, line: string, n: nat, width: nat, outputMeta: bool)
    requires n <= |line| && width > 0 && NUL !in prompt
    ensures var at, d := Drawn(prompt, line, n, width, outputMeta), Drawn(prompt, line, |line|, width, outputMeta);
            var before, p := Rendered(prompt, line[..n], width, outputMeta), Rendered(prompt, line, width, outputMeta);
            var row := |at.breaks| - 1;
            && row == |before| - 1 && 0 <= row < |p| && row < |d.breaks|
            && |at.buf| == d.breaks[row] + |Last(before)|
            && |Last(before)| <= |p[row]| && |Last(before)| < width
  {
    RenderedTiles(prompt, line, n, width, outputMeta);
    RenderedContinues(prompt, line, n, width, outputMeta);
  }
}
