/**
  Incremental redisplay of one screen row (update_line and the routines it
  uses in display.c), against a terminal that starts by showing the old row.
 */
module Display {

  import opened Common
  import opened Terminal

  /** The row a buffer holds: up to its first null, `max` characters at most. */
  function RowText(s: string, max: nat): (r: string)
    ensures |r| <= max && |r| <= |s| && r == s[..|r|]
    ensures forall i | 0 <= i < |r| :: r[i] != NUL
    ensures |r| < max ==> At(s, |r|) == NUL
    decreases max
  {
    if max == 0 || s == [] || s[0] == NUL then []
    else
      var r := RowText(s[1..], max - 1);
      assert s[..|r| + 1] == [s[0]] + s[1..][..|r|];
      [s[0]] + r
  }

  class Display {
    const scr: Screen

    /** _rl_last_v_pos and _rl_last_c_pos: where the cursor is believed to be. */
    var lastV: nat
    var lastC: nat

    /** _rl_vis_botlin: the last row now showing text. */
    var visBotlin: nat

    constructor (scr: Screen)
      requires scr.Valid() && scr.width > 0 && !scr.inserting && scr.row == 0 && scr.col == 0
      ensures Valid() && this.scr == scr && visBotlin == 0
    {
      this.scr, lastV, lastC, visBotlin := scr, 0, 0, 0;
    }

    /** What is believed about the cursor is true. */
    ghost predicate Valid()
      reads this, scr
    {
      scr.Valid() && !scr.inserting && scr.width > 0 && scr.row == lastV && scr.col == lastC
    }

    /** The first index at which the rows differ. */
    method FirstDifference(old': string, omax: nat, new': string) returns (d: nat)
      ensures d <= |RowText(old', omax)|
      ensures forall j | 0 <= j < d :: old'[j] == At(new', j)
      ensures d < |RowText(old', omax)| ==> old'[d] != At(new', d)
    {
      ghost var o := RowText(old', omax);
      d := 0;
      while d < omax && At(old', d) != NUL && At(old', d) == At(new', d)
        invariant d <= |o| && forall j | 0 <= j < d :: old'[j] == At(new', j)
      {
        d := d + 1;
      }
      assert d < |o| ==> o[d] == old'[d] && o[d] != NUL;
    }

    /** The end of the row a buffer holds, looking from `from` on. */
    method RowEnd(s: string, max: nat, from: nat) returns (e: nat)
      requires from <= |RowText(s, max)|
      ensures e == |RowText(s, max)|
    {
      ghost var r := RowText(s, max);
      e := from;
      while e < max && At(s, e) != NUL
        invariant from <= e <= |r|
      {
        assert e < |r|;
        e := e + 1;
      }
    }

    /** Where the common tails of the rows begin; a tail of blanks does not count. */
    method LastSame(o: string, n: string, d: nat) returns (ols: nat, nls: nat)
      requires d <= |o| && d <= |n|
      ensures d <= ols <= |o| && d <= nls <= |n| && o[ols..] == n[nls..]
    {
      var ol, nl, wsatend := |o| - 1, |n| - 1, true;
      while ol > d && nl > d && o[ol] == n[nl]
        invariant ol <= |o| - 1 && nl <= |n| - 1 && |o| - ol == |n| - nl
        invariant !wsatend ==> ol >= d && nl >= d
        invariant |o| - 1 > ol ==> ol >= d && nl >= d
        invariant -1 <= ol && -1 <= nl
        invariant o[ol + 1..] == n[nl + 1..]
      {
        if o[ol] != ' ' {
          wsatend := false;
        }
        assert o[ol..] == [o[ol]] + o[ol + 1..] && n[nl..] == [n[nl]] + n[nl + 1..];
        ol := ol - 1;
        nl := nl - 1;
      }
      if wsatend {
        ols, nls := |o|, |n|;
      } else if o[ol] != n[nl] {
        ols, nls := ol + 1, nl + 1;
      } else {
        assert o[ol..] == [o[ol]] + o[ol + 1..] && n[nl..] == [n[nl]] + n[nl + 1..];
        ols, nls := ol, nl;
      }
    }

    /** The two rows, the first difference between them and where their common tails begin. */
    method CompareRows(old': string, omax: nat, new': string, nmax: nat)
      returns (o: string, n: string, d: nat, ols: nat, nls: nat)
      requires At(old', 0) != NUL ==> omax > 0
      requires At(new', 0) != NUL ==> nmax > 0
      requires omax <= |RowText(new', nmax)| || At(new', |RowText(new', nmax)|) == NUL
      ensures o == RowText(old', omax) <= old' && n == RowText(new', nmax)
      ensures d <= ols <= |o| && d <= nls <= |n| && o[..d] == n[..d] && o[ols..] == n[nls..]
      ensures d == |o| && d == |n| ==> o == n
      ensures (n == [] <==> At(new', 0) == NUL) && (o == [] <==> At(old', 0) == NUL)
    {
      d := FirstDifference(old', omax, new');
      assert d <= |RowText(new', nmax)|;
      var oe := RowEnd(old', omax, d);
      var ne := RowEnd(new', nmax, d);
      o, n := old'[..oe], new'[..ne];
      assert o[..d] == n[..d];
      ols, nls := LastSame(o, n, d);
    }

    /** _rl_move_cursor_relative: forward moves reprint what the row shows. */
    method MoveCursorRelative(dpos: nat, data: string)
      requires Valid() && dpos <= scr.width && dpos <= |data| && data[..dpos] == scr.rows[lastV][..dpos]
      modifies this, scr
      ensures Valid() && lastC == dpos && lastV == old(lastV) && visBotlin == old(visBotlin)
      ensures scr.rows == old(scr.rows)
    {
      if lastC == dpos {
        return;
      }
      var cpos := lastC;
      if dpos == 0 || dpos + 1 < lastC - dpos || (scr.caps.autowrap && lastC == scr.width) {
        scr.CarriageReturn();
        cpos := 0;
        lastC := 0;
      }
      if cpos < dpos {
        ghost var was := scr.rows[lastV];
        scr.Output(data[cpos..dpos]);
        assert data[cpos..dpos] == data[..dpos][cpos..] == was[cpos..dpos];
        assert Overwritten(was, cpos, data[cpos..dpos]) == was;
      } else if cpos > dpos {
        scr.Backspace(cpos - dpos);
      }
      lastC := dpos;
    }

    /** _rl_move_vert; a row below the screen is not moved to. */
    method MoveVert(to: nat)
      requires Valid() && to != |scr.rows|
      modifies this, scr
      ensures Valid() && scr.rows == old(scr.rows) && visBotlin == old(visBotlin)
      ensures lastV == if to < |scr.rows| then to else old(lastV)
      ensures lastC == if old(lastV) < to < |scr.rows| then 0 else old(lastC)
    {
      if lastV == to || to > |scr.rows| {
        return;
      }
      if to > lastV {
        scr.Down(to - lastV);
        lastC := 0;
      } else {
        scr.Up(lastV - to);
      }
      lastV := to;
    }

    /** open_some_spaces, with whichever capability there is. */
    method OpenSomeSpaces(n: nat)
      requires Valid() && lastC + n <= scr.width && (scr.caps.IC || scr.caps.im || scr.caps.ic)
      modifies scr
      ensures Valid() && scr.rows == old(scr.rows)[lastV := Opened(old(scr.rows)[lastV], lastC, n)]
    {
      if scr.caps.IC {
        scr.InsertBlanks(n);
      } else if scr.caps.im {
        scr.inserting := true;
        OpenInserting(n);
        scr.inserting := false;
        scr.Backspace(n);
      } else {
        OpenOneByOne(n);
      }
    }

    /** Blanks typed in insert mode. */
    method OpenInserting(n: nat)
      requires scr.Valid() && scr.inserting && scr.row == lastV && scr.col == lastC && lastC + n <= scr.width
      modifies scr`rows, scr`col
      ensures scr.Valid() && scr.col == lastC + n
      ensures scr.rows == old(scr.rows)[lastV := Opened(old(scr.rows)[lastV], lastC, n)]
    {
      ghost var was := scr.rows[lastV];
      assert Opened(was, lastC, 0) == was;
      for i := 0 to n
        invariant scr.Valid() && scr.col == lastC + i
        invariant scr.rows == old(scr.rows)[lastV := Opened(was, lastC, i)]
      {
        scr.PutInserting(' ');
        OpenedInserting(was, lastC, i);
      }
    }

    /** Blanks inserted where the cursor is, one by one. */
    method OpenOneByOne(n: nat)
      requires Valid() && lastC + n <= scr.width
      modifies scr
      ensures Valid() && scr.rows == old(scr.rows)[lastV := Opened(old(scr.rows)[lastV], lastC, n)]
    {
      ghost var was := scr.rows[lastV];
      assert Opened(was, lastC, 0) == was;
      for i := 0 to n
        invariant Valid() && scr.rows == old(scr.rows)[lastV := Opened(was, lastC, i)]
      {
        scr.InsertBlanks(1);
        OpenedMore(was, lastC, i);
      }
    }

    /** delete_chars, in one go or one by one. */
    method DeleteChars(n: nat)
      requires Valid() && lastC + n <= scr.width && scr.caps.dc
      modifies scr
      ensures Valid() && scr.rows == old(scr.rows)[lastV := Deleted(old(scr.rows)[lastV], lastC, n)]
    {
      ghost var was := scr.rows[lastV];
      assert Deleted(was, lastC, 0) == was;
      if n > scr.width {
        return;
      }
      if scr.caps.DC {
        scr.DeleteCells(n);
      } else {
        for i := 0 to n
          invariant Valid() && scr.rows == old(scr.rows)[lastV := Deleted(was, lastC, i)]
        {
          scr.DeleteCells(1);
          DeletedMore(was, lastC, i);
        }
      }
    }

    /** space_to_eol */
    method SpaceToEol(n: nat)
      requires Valid() && lastC + n <= scr.width
      modifies this, scr
      ensures Valid() && lastC == old(lastC) + n && lastV == old(lastV) && visBotlin == old(visBotlin)
      ensures scr.rows == old(scr.rows)[lastV := Overwritten(old(scr.rows)[lastV], old(lastC), Blanks(n))]
    {
      scr.Output(Blanks(n));
      lastC := lastC + n;
    }

    /** _rl_clear_to_eol: `n` cells at least are not blank. */
    method ClearToEol(n: nat)
      requires Valid() && lastC + n <= scr.width
      modifies this, scr
      ensures Valid() && lastV == old(lastV) && visBotlin == old(visBotlin)
      ensures var was := old(scr.rows)[lastV];
              || scr.rows == old(scr.rows)[lastV := Cleared(was, old(lastC))]
              || scr.rows == old(scr.rows)[lastV := Overwritten(was, old(lastC), Blanks(n))]
    {
      if scr.caps.clreol {
        scr.ClearToEol();
      } else if n > 0 {
        SpaceToEol(n);
      } else {
        assert Overwritten(scr.rows[lastV], lastC, Blanks(0)) == scr.rows[lastV];
      }
    }

    /** Nothing but row `line` has changed and it shows `n`. */
    twostate predicate OnlyRow(line: nat, n: string)
      reads this, scr
    {
      && line < |scr.rows| && |scr.rows| == |old(scr.rows)|
      && Shows(scr.rows[line], n)
      && (forall i | 0 <= i < |scr.rows| && i != line :: scr.rows[i] == old(scr.rows)[i])
    }

    /** Deletes cells if there are any to delete. */
    method DeleteSome(k: nat)
      requires Valid() && lastC + k <= scr.width && scr.caps.dc
      modifies scr
      ensures Valid() && scr.rows == old(scr.rows)[lastV := Deleted(old(scr.rows)[lastV], lastC, k)]
    {
      if k != 0 {
        DeleteChars(k);
      } else {
        assert Deleted(scr.rows[lastV], lastC, 0) == scr.rows[lastV];
      }
    }

    /** Writes text, if there is any, where the cursor is. */
    method WriteSome(s: string)
      requires Valid() && lastC + |s| <= scr.width
      modifies this, scr
      ensures Valid() && lastC == old(lastC) + |s| && lastV == old(lastV) && visBotlin == old(visBotlin)
      ensures scr.rows == old(scr.rows)[lastV := Overwritten(old(scr.rows)[lastV], old(lastC), s)]
    {
      if |s| > 0 {
        scr.Output(s);
        lastC := lastC + |s|;
      } else {
        assert Overwritten(scr.rows[lastV], lastC, s) == scr.rows[lastV];
      }
    }

    /** The new row needs more room: open a gap where that is possible and cheap, else write the rest. */
    method Grow(o: string, n: string, d: nat, ols: nat, nls: nat, tail: bool, gl: bool, ghost shown: string)
      requires Valid() && lastC == d && Shows(scr.rows[lastV], shown) && |n| <= scr.width
      requires d <= ols <= |o| && d <= nls <= |n| && ols < nls && o[..d] == n[..d] && o[ols..] == n[nls..]
      requires shown == o || (d == 0 && |shown| <= |n| && !tail)
      modifies this, scr
      ensures Valid() && lastV == old(lastV) && visBotlin == old(visBotlin) && OnlyRow(lastV, n)
    {
      ghost var was := scr.rows[lastV];
      var lendiff, temp := nls - ols, |n| - d;
      var caps := scr.caps;
      if (caps.IC || caps.im || caps.ic) && (2 * temp >= lendiff || caps.IC) && (!caps.autowrap || !gl) && tail {
        OpenSomeSpaces(lendiff);
        scr.Output(n[d..nls]);
        lastC := lastC + (nls - d);
        OpenShows(was, o, n, d, ols, nls);
      } else {
        scr.Output(n[d..]);
        lastC := lastC + temp;
        OverwriteShows(was, shown, n, d);
      }
    }

    /** Delete the cells that are too many, then write what differs. */
    method ShrinkByDeleting(o: string, n: string, d: nat, ols: nat, nls: nat)
      requires Valid() && lastC == d && Shows(scr.rows[lastV], o) && |o| <= scr.width && scr.caps.dc
      requires d <= ols <= |o| && d <= nls <= |n| && nls <= ols && o[..d] == n[..d] && o[ols..] == n[nls..]
      modifies this, scr
      ensures Valid() && lastV == old(lastV) && visBotlin == old(visBotlin) && OnlyRow(lastV, n)
    {
      ghost var was := scr.rows[lastV];
      assert |n| <= |o|;
      DeleteSome(ols - nls);
      WriteSome(n[d..nls]);
      DeleteShows(was, o, n, d, ols, nls);
    }

    /** Write the rest of the new row, then blank what is left of the old one. */
    method ShrinkByBlanking(olen: nat, n: string, d: nat, more: bool, ghost shown: string)
      requires Valid() && lastC == d && Shows(scr.rows[lastV], shown) && |shown| == olen <= scr.width
      requires d <= |n| <= olen && shown[..d] == n[..d]
      modifies this, scr
      ensures Valid() && lastV == old(lastV) && visBotlin == old(visBotlin) && OnlyRow(lastV, n)
    {
      ghost var was := scr.rows[lastV];
      WriteSome(n[d..]);
      OverwriteThenBlank(was, shown, n, d);
      var lendiff := olen - |n|;
      if lendiff == 0 {
        assert Overwritten(scr.rows[lastV], |n|, Blanks(0)) == scr.rows[lastV];
      } else if scr.caps.autowrap && more {
        SpaceToEol(lendiff);
      } else {
        ClearToEol(lendiff);
      }
    }

    /** What a row shows when its first cell has been written over. */
    static lemma WrapShows(was: string, o: string, c: char)
      requires Shows(was, o) && was != []
      ensures Shows(Overwritten(was, 0, [c]), if o == [] then (if c == ' ' then [] else [c]) else [c] + o[1..])
    {
      var shown := if o == [] then (if c == ' ' then [] else [c]) else [c] + o[1..];
      assert Overwritten(was, 0, [c]) == shown + Blanks(|was| - |shown|);
    }

    /**
      At the right margin of the row above, the first character goes out at
      once so that the terminal wraps.  `shown` is what the row then shows; it
      is the old row `o` unless one of the two rows is empty.
     */
    method WrapToRow(old': string, omax: nat, new': string, line: nat) returns (old1: string, ghost shown: string)
      requires Valid() && line < |scr.rows| && omax <= scr.width && Shows(scr.rows[line], RowText(old', omax))
      requires At(old', 0) != NUL ==> omax > 0
      modifies this, scr
      ensures Valid() && visBotlin == old(visBotlin) && OnlyRow(line, shown)
      ensures |RowText(old1, omax)| == |RowText(old', omax)| && (At(old1, 0) != NUL ==> omax > 0)
      ensures || shown == RowText(old1, omax)
              || (RowText(old1, omax) == [] && |shown| == 1 && At(new', 0) != NUL)
              || (|shown| == |RowText(old1, omax)| > 0 && At(new', 0) == NUL)
    {
      ghost var o := RowText(old', omax);
      old1, shown := old', o;
      if lastC == scr.width && scr.caps.autowrap && lastV + 1 == line {
        var c := if At(new', 0) != NUL then new'[0] else ' ';
        ghost var was := scr.rows[line];
        scr.PutWrapping(c);
        lastV, lastC := lastV + 1, 1;
        if At(old', 0) != NUL && At(new', 0) != NUL {
          old1 := old'[0 := new'[0]];
          assert old1[1..] == old'[1..];
        }
        WrapShows(was, o, c);
        shown := if o == [] then (if c == ' ' then [] else [c]) else [c] + o[1..];
      }
    }

    /** The cursor is at the first difference; the shorter way to the new row is taken. */
    method ChangeRow(o: string, n: string, d: nat, ols: nat, nls: nat, tail: bool, line: nat, invBotlin: nat,
        ghost shown: string)
      requires Valid() && lastC == d && lastV == line && Shows(scr.rows[line], shown) && |o| <= scr.width && |n| <= scr.width
      requires d <= ols <= |o| && d <= nls <= |n| && o[..d] == n[..d] && o[ols..] == n[nls..]
      requires
        || shown == o
        || (d == 0 && o == [] && |shown| == 1 && |n| > 0 && !tail)
        || (d == 0 && |shown| == |o| > 0 && n == [])
      modifies this, scr
      ensures Valid() && lastV == line && visBotlin == old(visBotlin) && OnlyRow(line, n)
    {
      if nls > ols {
        var gl := line >= visBotlin && invBotlin > visBotlin;
        Grow(o, n, d, ols, nls, tail, gl, shown);
      } else if scr.caps.dc && 2 * (|n| - d) >= ols - nls {
        ShrinkByDeleting(o, n, d, ols, nls);
      } else {
        ShrinkByBlanking(|o|, n, d, line < invBotlin, shown);
      }
    }

    /** To column `dpos` of a row. */
    method MoveTo(line: nat, dpos: nat, data: string)
      requires Valid() && line < |scr.rows| && dpos <= scr.width && dpos <= |data|
      requires data[..dpos] == scr.rows[line][..dpos]
      modifies this, scr
      ensures Valid() && lastV == line && lastC == dpos && visBotlin == old(visBotlin) && scr.rows == old(scr.rows)
    {
      if lastV != line {
        MoveVert(line);
      }
      MoveCursorRelative(dpos, data);
    }

    /**
      update_line.  The row showed what the old buffer holds and the cursor was
      where it was believed to be; afterwards the row shows exactly what the
      new buffer holds, no other row has changed, and the cursor is again where
      it is believed to be.
     */
    method UpdateLine(old': string, new': string, line: nat, omax: nat, nmax: nat, invBotlin: nat)
      requires Valid() && line < |scr.rows| && omax <= scr.width && nmax <= scr.width
      requires Shows(scr.rows[line], RowText(old', omax))
      requires At(old', 0) != NUL ==> omax > 0
      requires At(new', 0) != NUL ==> nmax > 0
      requires omax <= |RowText(new', nmax)| || At(new', |RowText(new', nmax)|) == NUL
      modifies this, scr
      ensures Valid() && visBotlin == old(visBotlin)
      ensures OnlyRow(line, RowText(new', nmax))
    {
      var old1, shown := WrapToRow(old', omax, new', line);
      var o, n, d, ols, nls := CompareRows(old1, omax, new', nmax);
      if d == |o| && d == |n| {
        return;
      }
      MoveTo(line, d, old1);
      ChangeRow(o, n, d, ols, nls, At(old1, ols) != NUL, line, invBotlin, shown);
    }
  }
}
