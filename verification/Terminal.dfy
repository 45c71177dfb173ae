/**
  One row of a character terminal: what the capabilities that redisplay uses
  do to it.  Cells hold characters and a blank cell holds a space.
 */
module Terminal {

  import opened Common

  /** The row shows `s` from its first column, and nothing else. */
  predicate Shows(row: string, s: string) {
    |s| <= |row| && row == s + Blanks(|row| - |s|)
  }

  /** `s` written over the cells from `col` on. */
  function Overwritten(row: string, col: nat, s: string): (r: string)
    requires col + |s| <= |row|
    ensures |r| == |row|
  {
    row[..col] + s + row[col + |s|..]
  }

  /** `n` blank cells opened at `col`; what is pushed past the right edge is gone. */
  function Opened(row: string, col: nat, n: nat): (r: string)
    requires col + n <= |row|
    ensures |r| == |row|
  {
    row[..col] + Blanks(n) + row[col..|row| - n]
  }

  /** `n` cells deleted at `col`; blanks come in at the right edge. */
  function Deleted(row: string, col: nat, n: nat): (r: string)
    requires col + n <= |row|
    ensures |r| == |row|
  {
    row[..col] + row[col + n..] + Blanks(n)
  }

  function Cleared(row: string, col: nat): (r: string)
    requires col <= |row|
    ensures |r| == |row|
  {
    row[..col] + Blanks(|row| - col)
  }

  /**
    What the terminal can do: insert many blanks (IC), enter insert mode (im),
    insert one blank (ic), delete many (DC), delete one (dc), clear to the end
    of the line (ce), wrap at the right margin (am and xn).
   */
  datatype Capabilities = Capabilities(
    IC: bool, im: bool, ic: bool, DC: bool, dc: bool, clreol: bool, autowrap: bool)

  /**
    The screen.  Column `width` is behind the last column readline uses: on a
    terminal that wraps, the cursor is kept there until the next character goes
    to the row below; on any other terminal it is one more physical column.
   */
  class Screen {
    const width: nat
    const caps: Capabilities
    var rows: seq<string>
    var row: nat
    var col: nat
    var inserting: bool

    constructor (width: nat, caps: Capabilities, height: nat)
      requires height > 0
      ensures Valid() && !inserting && |rows| == height && this.width == width && this.caps == caps
      ensures row == 0 && col == 0 && forall i | 0 <= i < height :: Shows(rows[i], [])
    {
      this.width, this.caps := width, caps;
      rows := seq(height, _ => Blanks(width + if caps.autowrap then 0 else 1));
      row, col, inserting := 0, 0, false;
      new;
      assert forall i | 0 <= i < height :: rows[i] == [] + rows[i];
    }

    ghost predicate Valid()
      reads this
    {
      && row < |rows| && col <= width
      && forall i | 0 <= i < |rows| :: |rows[i]| == width + if caps.autowrap then 0 else 1
    }

    /** One printable character. */
    method Put(c: char)
      requires Valid() && !inserting && col < width
      modifies `rows, `col
      ensures Valid() && col == old(col) + 1
      ensures rows == old(rows)[row := Overwritten(old(rows)[row], old(col), [c])]
    {
      assert rows[row][col := c] == Overwritten(rows[row], col, [c]);
      rows := rows[row := rows[row][col := c]];
      col := col + 1;
    }

    /** One printable character at the right margin of a terminal that wraps. */
    method PutWrapping(c: char)
      requires Valid() && !inserting && caps.autowrap && col == width > 0 && row + 1 < |rows|
      modifies `rows, `row, `col
      ensures Valid() && row == old(row) + 1 && col == 1
      ensures rows == old(rows)[row := Overwritten(old(rows)[row], 0, [c])]
    {
      row, col := row + 1, 0;
      Put(c);
    }

    /** One printable character in insert mode. */
    method PutInserting(c: char)
      requires Valid() && inserting && col < width
      modifies `rows, `col
      ensures Valid() && col == old(col) + 1
      ensures var was := old(rows)[row];
              rows == old(rows)[row := was[..old(col)] + [c] + was[old(col)..|was| - 1]]
    {
      var was := rows[row];
      rows := rows[row := was[..col] + [c] + was[col..|was| - 1]];
      col := col + 1;
    }

    /** _rl_output_some_chars */
    method Output(s: string)
      requires Valid() && !inserting && col + |s| <= width
      modifies `rows, `col
      ensures Valid() && col == old(col) + |s|
      ensures rows == old(rows)[row := Overwritten(old(rows)[row], old(col), s)]
    {
      ghost var was, at := rows[row], col;
      assert rows == rows[row := Overwritten(was, at, [])] by { assert Overwritten(was, at, []) == was; }
      for i := 0 to |s|
        invariant Valid() && col == at + i
        invariant rows == old(rows)[row := Overwritten(was, at, s[..i])]
      {
        Put(s[i]);
        assert s[..i + 1] == s[..i] + [s[i]];
        OverwrittenMore(was, at, s[..i], s[i]);
      }
      assert s[..|s|] == s;
    }

    method CarriageReturn()
      requires Valid()
      modifies `col
      ensures Valid() && col == 0
    {
      col := 0;
    }

    /** _rl_backspace */
    method Backspace(n: nat)
      requires Valid() && n <= col
      modifies `col
      ensures Valid() && col == old(col) - n
    {
      for i := 0 to n
        invariant Valid() && col == old(col) - i
      {
        col := col - 1;
      }
    }

    /** Line feeds and a carriage return. */
    method Down(n: nat)
      requires Valid() && row + n < |rows|
      modifies `row, `col
      ensures Valid() && row == old(row) + n && col == 0
    {
      row, col := row + n, 0;
    }

    /** The `up` capability, which keeps the column. */
    method Up(n: nat)
      requires Valid() && n <= row
      modifies `row
      ensures Valid() && row == old(row) - n
    {
      row := row - n;
    }

    method InsertBlanks(n: nat)
      requires Valid() && col + n <= width
      modifies `rows
      ensures Valid() && rows == old(rows)[row := Opened(old(rows)[row], col, n)]
    {
      rows := rows[row := Opened(rows[row], col, n)];
    }

    method DeleteCells(n: nat)
      requires Valid() && col + n <= width
      modifies `rows
      ensures Valid() && rows == old(rows)[row := Deleted(old(rows)[row], col, n)]
    {
      rows := rows[row := Deleted(rows[row], col, n)];
    }

    method ClearToEol()
      requires Valid()
      modifies `rows
      ensures Valid() && rows == old(rows)[row := Cleared(old(rows)[row], col)]
    {
      rows := rows[row := Cleared(rows[row], col)];
    }
  }

  lemma OverwrittenMore(row: string, col: nat, s: string, c: char)
    requires col + |s| < |row|
    ensures Overwritten(Overwritten(row, col, s), col + |s|, [c]) == Overwritten(row, col, s + [c])
  {
    var one := Overwritten(row, col, s);
    assert one[..col + |s|] == row[..col] + s;
    assert one[col + |s| + 1..] == row[col + |s| + 1..];
  }

  /** The cells of a row with a gap opened in it, and of one with cells deleted. */
  lemma OpenedCell(row: string, col: nat, n: nat, j: nat)
    requires col + n <= |row| && j < |row|
    ensures Opened(row, col, n)[j] == if j < col then row[j] else if j < col + n then ' ' else row[j - n]
  {
  }

  lemma DeletedCell(row: string, col: nat, n: nat, j: nat)
    requires col + n <= |row| && j < |row|
    ensures Deleted(row, col, n)[j] == if j < col then row[j] else if j < |row| - n then row[j + n] else ' '
  {
  }

  lemma OpenedMore(row: string, col: nat, n: nat)
    requires col + n + 1 <= |row|
    ensures Opened(Opened(row, col, n), col, 1) == Opened(row, col, n + 1)
  {
    var one, two, all := Opened(row, col, n), Opened(Opened(row, col, n), col, 1), Opened(row, col, n + 1);
    forall j | 0 <= j < |row| ensures two[j] == all[j] {
      OpenedCell(one, col, 1, j);
      OpenedCell(row, col, n + 1, j);
      OpenedCell(row, col, n, if j > col then j - 1 else j);
    }
  }

  lemma DeletedMore(row: string, col: nat, n: nat)
    requires col + n + 1 <= |row|
    ensures Deleted(Deleted(row, col, n), col, 1) == Deleted(row, col, n + 1)
  {
    var one, two, all := Deleted(row, col, n), Deleted(Deleted(row, col, n), col, 1), Deleted(row, col, n + 1);
    forall j | 0 <= j < |row| ensures two[j] == all[j] {
      DeletedCell(one, col, 1, j);
      DeletedCell(row, col, n + 1, j);
      DeletedCell(row, col, n, if col <= j < |row| - 1 then j + 1 else j);
    }
  }

  /** Printing blanks in insert mode opens them, the cursor moving along. */
  lemma OpenedInserting(row: string, col: nat, n: nat)
    requires col + n + 1 <= |row|
    ensures var one := Opened(row, col, n);
            one[..col + n] + [' '] + one[col + n..|row| - 1] == Opened(row, col, n + 1)
  {
    var one, all := Opened(row, col, n), Opened(row, col, n + 1);
    var two := one[..col + n] + [' '] + one[col + n..|row| - 1];
    forall j | 0 <= j < |row| ensures two[j] == all[j] {
      OpenedCell(row, col, n + 1, j);
      OpenedCell(row, col, n, if j > col + n then j - 1 else j);
    }
  }

  // ----- What the edits of redisplay do to a row that shows `o` -----

  lemma OverwriteShows(row: string, o: string, n: string, d: nat)
    requires Shows(row, o) && d <= |o| && d <= |n| && |o| <= |n| <= |row| && o[..d] == n[..d]
    ensures Shows(Overwritten(row, d, n[d..]), n)
  {
    assert n == n[..d] + n[d..];
    assert row[..d] == n[..d];
  }

  /** What a row that shows `s` has in column `j`. */
  function Cell(s: string, j: nat): char { if j < |s| then s[j] else ' ' }

  lemma CellShown(row: string, s: string, j: nat)
    requires Shows(row, s) && j < |row|
    ensures row[j] == Cell(s, j)
  {
  }

  lemma ShowsByCell(row: string, s: string)
    requires |s| <= |row| && forall j | 0 <= j < |row| :: row[j] == Cell(s, j)
    ensures Shows(row, s)
  {
    assert forall j | 0 <= j < |row| :: (s + Blanks(|row| - |s|))[j] == Cell(s, j);
  }

  /** `o` is p x t and `n` is p y t; what differs ends at `ols` and `nls`. */
  predicate Framed(o: string, n: string, d: nat, ols: nat, nls: nat) {
    d <= ols <= |o| && d <= nls <= |n| && o[..d] == n[..d] && o[ols..] == n[nls..]
  }

  lemma FramedHead(o: string, n: string, d: nat, ols: nat, nls: nat, j: nat)
    requires Framed(o, n, d, ols, nls) && j < d
    ensures Cell(o, j) == Cell(n, j)
  {
    assert o[..d][j] == n[..d][j];
  }

  lemma FramedTail(o: string, n: string, d: nat, ols: nat, nls: nat, j: nat)
    requires Framed(o, n, d, ols, nls)
    ensures |o| - ols == |n| - nls && Cell(o, ols + j) == Cell(n, nls + j)
  {
    assert j < |o| - ols ==> o[ols..][j] == n[nls..][j];
  }

  /** Open a gap and fill it: y is longer than x. */
  lemma OpenShows(row: string, o: string, n: string, d: nat, ols: nat, nls: nat)
    requires Shows(row, o) && |n| <= |row| && ols < nls && Framed(o, n, d, ols, nls)
    ensures Shows(Overwritten(Opened(row, d, nls - ols), d, n[d..nls]), n)
  {
    var r := Overwritten(Opened(row, d, nls - ols), d, n[d..nls]);
    forall j | 0 <= j < |row| ensures r[j] == Cell(n, j) {
      OpenCell(row, o, n, d, ols, nls, j);
    }
    ShowsByCell(r, n);
  }

  lemma OpenCell(row: string, o: string, n: string, d: nat, ols: nat, nls: nat, j: nat)
    requires Shows(row, o) && |n| <= |row| && ols < nls && Framed(o, n, d, ols, nls) && j < |row|
    ensures Overwritten(Opened(row, d, nls - ols), d, n[d..nls])[j] == Cell(n, j)
  {
    var k := nls - ols;
    if j < d {
      CellShown(row, o, j);
      FramedHead(o, n, d, ols, nls, j);
    } else if j >= nls {
      assert Opened(row, d, k)[j] == row[j - k];
      CellShown(row, o, j - k);
      FramedTail(o, n, d, ols, nls, j - nls);
    }
  }

  /** Delete cells and overwrite: y is no longer than x. */
  lemma DeleteShows(row: string, o: string, n: string, d: nat, ols: nat, nls: nat)
    requires Shows(row, o) && |n| <= |row| && nls <= ols && Framed(o, n, d, ols, nls)
    ensures Shows(Overwritten(Deleted(row, d, ols - nls), d, n[d..nls]), n)
  {
    var r := Overwritten(Deleted(row, d, ols - nls), d, n[d..nls]);
    forall j | 0 <= j < |row| ensures r[j] == Cell(n, j) {
      DeleteCell(row, o, n, d, ols, nls, j);
    }
    ShowsByCell(r, n);
  }

  lemma DeleteCell(row: string, o: string, n: string, d: nat, ols: nat, nls: nat, j: nat)
    requires Shows(row, o) && |n| <= |row| && nls <= ols && Framed(o, n, d, ols, nls) && j < |row|
    ensures Overwritten(Deleted(row, d, ols - nls), d, n[d..nls])[j] == Cell(n, j)
  {
    var k := ols - nls;
    if j < d {
      CellShown(row, o, j);
      FramedHead(o, n, d, ols, nls, j);
    } else if nls <= j < |row| - k {
      assert Deleted(row, d, k)[j] == row[j + k];
      CellShown(row, o, j + k);
      FramedTail(o, n, d, ols, nls, j - nls);
    } else if j >= nls {
      assert Deleted(row, d, k)[j] == ' ';
      FramedTail(o, n, d, ols, nls, 0);
    }
  }

  /** Overwrite, then blank what is left of `o`. */
  lemma OverwriteThenBlank(row: string, o: string, n: string, d: nat)
    requires Shows(row, o) && d <= |n| <= |o| && o[..d] == n[..d]
    ensures var r := Overwritten(row, d, n[d..]);
            Shows(Cleared(r, |n|), n) && Shows(Overwritten(r, |n|, Blanks(|o| - |n|)), n)
  {
    var r := Overwritten(row, d, n[d..]);
    assert n == n[..d] + n[d..];
    assert row[..d] == n[..d];
    assert r[..|n|] == n;
  }
}
