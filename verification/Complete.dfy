/**
  What completion shows (complete.c): the prefix its matches share, and the
  table they are printed in.
 */
module Complete {
  import opened Common

  // ----- The common prefix -----

  const MOST_MATCHED := 100000

  /** Characters are compared as they are, or in lower case. */
  function Fold(fold: bool, c: char): char {
    if fold && 'A' <= c <= 'Z' then c - 'A' + 'a' else c
  }

  /** Two strings share their first n characters. */
  predicate Agree(fold: bool, a: string, b: string, n: nat) {
    n <= |a| && n <= |b| && forall k | 0 <= k < n :: Fold(fold, a[k]) == Fold(fold, b[k])
  }

  /** All the strings share their first n characters. */
  predicate Shared(fold: bool, matches: seq<string>, n: nat) {
    forall i | 0 <= i < |matches| :: Agree(fold, matches[0], matches[i], n)
  }

  /** How far two strings match. */
  function Matched(fold: bool, a: string, b: string): nat {
    if a == [] || b == [] || Fold(fold, a[0]) != Fold(fold, b[0]) then 0 else 1 + Matched(fold, a[1..], b[1..])
  }

  /** The least of how far neighbours match. */
  function Least(fold: bool, matches: seq<string>): nat {
    var n := |matches|;
    if n < 2 then MOST_MATCHED else
      var low, si := Least(fold, matches[..n - 1]), Matched(fold, matches[n - 2], matches[n - 1]);
      if low > si then si else low
  }

  lemma {:induction false} MatchedIsLongest(fold: bool, a: string, b: string, n: nat)
    ensures n <= Matched(fold, a, b) <==> Agree(fold, a, b, n)
  {
    if n > 0 && a != [] && b != [] && Fold(fold, a[0]) == Fold(fold, b[0]) {
      MatchedIsLongest(fold, a[1..], b[1..], n - 1);
      if Agree(fold, a, b, n) {
        assert forall k | 0 <= k < n - 1 :: a[1..][k] == a[k + 1] && b[1..][k] == b[k + 1];
      } else if n <= |a| && n <= |b| {
        var k :| 0 <= k < n && Fold(fold, a[k]) != Fold(fold, b[k]);
        assert a[1..][k - 1] == a[k] && b[1..][k - 1] == b[k];
      }
    }
  }

  lemma {:induction false} LeastIsShared(fold: bool, matches: seq<string>, n: nat)
    requires matches != [] && n <= |matches[0]|
    ensures n <= Least(fold, matches) <==> n <= MOST_MATCHED && Shared(fold, matches, n)
    decreases |matches|
  {
    var last := |matches| - 1;
    if last > 0 {
      var front := matches[..last];
      LeastIsShared(fold, front, n);
      MatchedIsLongest(fold, matches[last - 1], matches[last], n);
      SharedGrows(fold, matches, n);
    }
  }

  lemma {:induction false} LeastWithin(fold: bool, matches: seq<string>)
    requires |matches| >= 2
    ensures Least(fold, matches) <= |matches[0]|
    decreases |matches|
  {
    var last := |matches| - 1;
    if last > 1 {
      LeastWithin(fold, matches[..last]);
    } else {
      MatchedIsLongest(fold, matches[0], matches[1], Matched(fold, matches[0], matches[1]));
    }
  }

  /**
    Comparing only neighbours is enough: what the code finds is the longest
    prefix all the matches share, up to its limit.
   */
  lemma NeighboursSuffice(fold: bool, matches: seq<string>, n: nat)
    requires |matches| >= 2
    ensures n <= Least(fold, matches) <==> n <= MOST_MATCHED && Shared(fold, matches, n)
  {
    LeastWithin(fold, matches);
    if n <= |matches[0]| {
      LeastIsShared(fold, matches, n);
    } else {
      assert !Agree(fold, matches[0], matches[0], n);
    }
  }

  lemma SharedGrows(fold: bool, matches: seq<string>, n: nat)
    requires |matches| >= 2
    ensures
      var last := |matches| - 1;
      Shared(fold, matches, n) <==>
        Shared(fold, matches[..last], n) && Agree(fold, matches[last - 1], matches[last], n)
  {
    var last := |matches| - 1;
    var front := matches[..last];
    assert front[0] == matches[0] && front[last - 1] == matches[last - 1];
    if Shared(fold, matches, n) {
      assert Agree(fold, matches[0], matches[last - 1], n) && Agree(fold, matches[0], matches[last], n);
    }
    if Shared(fold, front, n) && Agree(fold, matches[last - 1], matches[last], n) {
      assert Agree(fold, front[0], front[last - 1], n);
      forall i | 0 <= i < |matches| ensures Agree(fold, matches[0], matches[i], n) {
        assert i < last ==> front[i] == matches[i];
      }
    }
  }

  /** The loop that compares two strings. */
  method MatchPair(fold: bool, a: string, b: string) returns (si: nat)
    ensures si == Matched(fold, a, b)
  {
    si := 0;
    while si < |a| && si < |b| && Fold(fold, a[si]) == Fold(fold, b[si])
      invariant si <= |a| && si <= |b|
      invariant Matched(fold, a, b) == si + Matched(fold, a[si..], b[si..])
      decreases |a| - si
    {
      assert a[si..][1..] == a[si + 1..] && b[si..][1..] == b[si + 1..];
      si := si + 1;
    }
  }

  /** The match list: the common prefix in slot 0, the matches after it, then a NULL. */
  ghost predicate MatchList(list: array<Option<string>>, count: nat)
    reads list
  {
    0 < count && count + 1 < list.Length && forall i | 1 <= i <= count :: list[i].Some?
  }

  ghost function Matches(list: array<Option<string>>, count: nat): (r: seq<string>)
    requires MatchList(list, count)
    reads list
    ensures |r| == count && forall i | 0 <= i < count :: r[i] == list[i + 1].value
  {
    seq(count, i requires 0 <= i < count && MatchList(list, count) reads list => list[i + 1].value)
  }

  /** The loop over neighbours. */
  method LeastMatched(fold: bool, list: array<Option<string>>, count: nat) returns (low: nat)
    requires MatchList(list, count)
    ensures low == Least(fold, Matches(list, count))
  {
    low := MOST_MATCHED;
    ghost var matches := Matches(list, count);
    for i := 1 to count
      invariant low == Least(fold, matches[..i])
    {
      var si := MatchPair(fold, list[i].value, list[i + 1].value);
      assert matches[..i + 1][..i] == matches[..i];
      if low > si {
        low := si;
      }
    }
    assert matches[..count] == matches;
  }

  /** strncpy of a length and the NUL put after it. */
  function Prefix(s: string, n: nat): string {
    if n <= |s| then s[..n] else s
  }

  /** The match whose case is kept: the first that starts like the text typed, or the first of all. */
  predicate Typed(order: seq<string>, start: string, i: nat) {
    && i < |order|
    && (start <= order[i] || i == 0)
    && (forall j | 0 <= j < |order| && start <= order[j] :: i <= j && start <= order[i])
  }

  method FindTyped(order: seq<string>, start: string) returns (i: nat)
    requires order != []
    ensures Typed(order, start, i)
  {
    i := 0;
    while i < |order|
      invariant i <= |order| && forall j | 0 <= j < i :: !(start <= order[j])
    {
      if start <= order[i] {
        return;
      }
      i := i + 1;
    }
    i := 0;
  }

  /** qsort leaves the same matches in an order of its own. */
  method Reorder(list: array<Option<string>>, count: nat, order: seq<string>)
    requires MatchList(list, count) && |order| == count
    modifies list
    ensures MatchList(list, count) && Matches(list, count) == order
    ensures forall i | i == 0 || count < i < list.Length :: list[i] == old(list[i])
  {
    for i := 0 to count
      invariant MatchList(list, count)
      invariant forall k | 0 <= k < i :: list[k + 1] == Some(order[k])
      invariant forall k | k == 0 || count < k < list.Length :: list[k] == old(list[k])
    {
      list[i + 1] := Some(order[i]);
    }
  }

  /**
    compute_lcd_of_matches. When case is folded the matches are sorted, into
    the order given, and the case of what was typed is kept if it can be.
   */
  method ComputeLcd(fold: bool, list: array<Option<string>>, count: nat, text: string, order: seq<string>)
    requires MatchList(list, count) && multiset(order) == multiset(Matches(list, count))
    modifies list
    ensures count == 1 ==> list[0] == old(list[1]) && list[1] == None
    ensures count > 1 ==>
      var matches := old(Matches(list, count));
      var low := Least(fold, matches);
      if low == 0 && text != [] then list[0] == Some(text) && Same(list, count, matches)
      else if !fold then list[0] == Some(Prefix(matches[0], low)) && Same(list, count, matches)
      else Same(list, count, order) &&
           exists i: nat | Typed(order, Prefix(text, low), i) :: list[0] == Some(Prefix(order[i], low))
    ensures forall i | count < i < list.Length :: list[i] == old(list[i])
  {
    if count == 1 {
      list[0], list[1] := list[1], None;
      return;
    }
    var low := LeastMatched(fold, list, count);
    ghost var matches := Matches(list, count);
    if low == 0 && text != [] {
      list[0] := Some(text);
    } else if fold {
      assert |order| == |multiset(order)| == |multiset(matches)| == count;
      Reorder(list, count, order);
      var i := FindTyped(order, Prefix(text, low));
      list[0] := Some(Prefix(order[i], low));
    } else {
      list[0] := Some(Prefix(list[1].value, low));
    }
  }

  ghost predicate Same(list: array<Option<string>>, count: nat, matches: seq<string>)
    reads list
  {
    MatchList(list, count) && Matches(list, count) == matches
  }

  /** Whichever match gives the case, what is put in slot 0 is shared by all of them. */
  lemma ChosenIsShared(matches: seq<string>, order: seq<string>, i: nat, k: nat)
    requires |matches| > 1 && multiset(order) == multiset(matches) && i < |order| && k < |matches|
    ensures Agree(true, order[i], matches[k], Least(true, matches))
    ensures |Prefix(order[i], Least(true, matches))| == Least(true, matches)
  {
    var low := Least(true, matches);
    assert order[i] in multiset(matches);
    var j :| 0 <= j < |matches| && matches[j] == order[i];
    LeastWithin(true, matches);
    LeastIsShared(true, matches, low);
    assert Agree(true, matches[0], matches[j], low) && Agree(true, matches[0], matches[k], low);
  }

  /** What is put in slot 0 is a prefix of every match, and no longer one within the limit is. */
  lemma PrefixIsLongest(matches: seq<string>, p: string)
    requires |matches| > 1 && |p| <= MOST_MATCHED
    ensures p <= Prefix(matches[0], Least(false, matches)) <==> forall i | 0 <= i < |matches| :: p <= matches[i]
  {
    var low := Least(false, matches);
    if p <= matches[0] {
      LeastIsShared(false, matches, |p|);
      forall i | 0 <= i < |matches|
        ensures Agree(false, matches[0], matches[i], |p|) <==> p <= matches[i]
      {
        AgreeIsPrefix(matches[0], matches[i], p);
      }
    }
  }

  lemma AgreeIsPrefix(a: string, b: string, p: string)
    requires p <= a
    ensures Agree(false, a, b, |p|) <==> p <= b
  {
    if Agree(false, a, b, |p|) {
      assert forall k | 0 <= k < |p| :: Fold(false, a[k]) == Fold(false, b[k]);
      assert b[..|p|] == p;
    }
    if p <= b {
      forall k | 0 <= k < |p| ensures Fold(false, a[k]) == Fold(false, b[k]) {
        assert a[k] == p[k] && b[k] == p[k];
      }
    }
  }

  // ----- The table -----

  /** Division as in C, toward zero. */
  function Quotient(a: int, b: int): int
    requires b != 0
  {
    if (a >= 0) == (b > 0) || a % b == 0 then a / b else if b > 0 then a / b + 1 else a / b - 1
  }

  /** complete_get_screenwidth: a setting, then the environment, then the screen. */
  function ScreenWidth(columns: int, environment: Option<int>, screen: nat): (cols: nat)
    ensures cols <= screen
  {
    if 0 <= columns <= screen then columns
    else if environment.Some? && 0 <= environment.value <= screen then environment.value
    else screen
  }

  /** How many columns of the given width go on a line. */
  function Limit(cols: nat, width: nat, screen: nat): int
    requires width > 0
  {
    var limit := cols / width;
    var limit' := if limit != 1 && limit * width == cols then limit - 1 else limit;
    if cols < screen && limit' < 0 then 1
    else if limit' == 0 then 1
    else limit'
  }

  /** There is a column unless the screen has no width at all. */
  lemma LimitIsPositive(cols: nat, width: nat, screen: nat)
    requires width > 0 && cols <= screen
    ensures Limit(cols, width, screen) != 0
    ensures Limit(cols, width, screen) > 0 <==> screen > 0
  {
    var limit := cols / width;
    if limit == 0 {
      assert limit * width == 0;
    }
  }

  /** A full line, its last entry without the two blanks, stays short of the edge unless one entry does not. */
  lemma LinesFit(cols: nat, width: nat, screen: nat)
    requires width > 0 && cols <= screen && screen > 0
    ensures Limit(cols, width, screen) * width - 2 < cols <==> width < cols + 2
  {
    LimitIsPositive(cols, width, screen);
    var limit := cols / width;
    assert limit * width <= cols < limit * width + width;
    if limit >= 2 {
      assert (limit - 1) * width == limit * width - width && limit * width >= 2 * width;
    }
  }

  /** An entry of the table and the screen column it starts in. */
  datatype Cell = Cell(item: nat, column: nat)

  /** The entry in row r and column j, counting from 0. */
  predicate Shows(rows: seq<seq<Cell>>, r: nat, j: nat, item: nat) {
    r < |rows| && j < |rows[r]| && rows[r][j].item == item
  }

  ghost predicate Shown(rows: seq<seq<Cell>>, item: nat) {
    exists r: nat, j: nat :: Shows(rows, r, j, item)
  }

  ghost predicate EachShownOnce(rows: seq<seq<Cell>>, len: nat) {
    && (forall l: nat | 1 <= l <= len :: Shown(rows, l))
    && (forall r: nat, j: nat, l: nat | Shows(rows, r, j, l) :: 1 <= l <= len)
    && (forall r: nat, j: nat, r': nat, j': nat, l: nat | Shows(rows, r, j, l) && Shows(rows, r', j', l) :: r == r' && j == j')
  }

  /** A row runs through every count-th entry, as far as there are any, at columns one width apart. */
  predicate IsRow(row: seq<Cell>, first: nat, count: nat, len: nat, width: nat) {
    && (forall j | 0 <= j < |row| :: row[j] == Cell(first + j * count, j * width) && row[j].item <= len)
    && first + |row| * count > len
  }

  predicate IsTable(rows: seq<seq<Cell>>, count: nat, len: nat, width: nat) {
    |rows| == count && forall r | 0 <= r < count :: IsRow(rows[r], r + 1, count, len, width)
  }

  lemma TimesOrder(a: nat, b: nat, c: nat)
    ensures a * c < b * c ==> a < b
    ensures a <= b ==> a * c <= b * c
  {
    if a <= b {
      assert b * c == a * c + (b - a) * c && (b - a) * c >= 0;
    }
  }

  lemma DivModUnique(n: nat, c: nat, q: nat, r: nat)
    requires c > 0 && r < c && n == q * c + r
    ensures n / c == q && n % c == r
  {
    var d := n / c;
    assert d * c + n % c == n;
    TimesOrder(q + 1, d, c);
    TimesOrder(d + 1, q, c);
    assert (q + 1) * c == q * c + c && (d + 1) * c == d * c + c;
  }

  /** Where an entry is, if anywhere. */
  lemma Place(rows: seq<seq<Cell>>, count: nat, len: nat, width: nat, r: nat, j: nat, l: nat)
    requires IsTable(rows, count, len, width) && Shows(rows, r, j, l)
    ensures 1 <= l <= len && r == (l - 1) % count && j == (l - 1) / count
  {
    assert IsRow(rows[r], r + 1, count, len, width);
    assert rows[r][j] == Cell(r + 1 + j * count, j * width);
    assert j * count >= 0;
    DivModUnique(l - 1, count, j, r);
  }

  /** Every entry is where it should be. */
  lemma Placed(rows: seq<seq<Cell>>, count: nat, len: nat, width: nat, l: nat)
    requires IsTable(rows, count, len, width) && count > 0 && 1 <= l <= len
    ensures Shows(rows, (l - 1) % count, (l - 1) / count, l)
  {
    var r, j := (l - 1) % count, (l - 1) / count;
    assert l - 1 == j * count + r;
    var row := rows[r];
    assert IsRow(row, r + 1, count, len, width);
    assert j < |row| by {
      TimesOrder(j, |row|, count);
    }
  }

  lemma TableShowsEach(rows: seq<seq<Cell>>, count: nat, len: nat, width: nat)
    requires IsTable(rows, count, len, width) && count > 0
    ensures EachShownOnce(rows, len)
  {
    forall l: nat | 1 <= l <= len ensures Shown(rows, l) {
      Placed(rows, count, len, width, l);
    }
    forall r: nat, j: nat, l: nat | Shows(rows, r, j, l) ensures 1 <= l <= len && r == (l - 1) % count && j == (l - 1) / count {
      Place(rows, count, len, width, r, j, l);
    }
  }

  /** The inner loop: one line of the table. */
  method PrintRow(first: nat, count: nat, limit: int, len: nat, width: nat, printed: seq<nat>) returns (row: seq<Cell>)
    requires count > 0 && len <= |printed| && (forall l | 0 <= l < len :: printed[l] <= width)
    requires 1 <= first && (limit > 0 ==> len <= count * limit)
    ensures limit <= 0 ==> row == []
    ensures limit > 0 ==> IsRow(row, first, count, len, width)
  {
    row := [];
    var j, l, column := 0, first, 0;
    while j < limit
      invariant |row| == j && l == first + j * count && (j > 0 ==> j <= limit)
      invariant j < limit ==> column == j * width
      invariant forall k | 0 <= k < j :: row[k] == Cell(first + k * count, k * width) && row[k].item <= len
    {
      if l > len {
        break;
      }
      row := row + [Cell(l, column)];
      column := column + printed[l - 1];
      if j + 1 < limit {
        column := column + (width - printed[l - 1]);
      }
      l := l + count;
      j := j + 1;
    }
  }

  /** Rounding up leaves room for everything. */
  lemma CountSuffices(len: nat, limit: int)
    requires limit > 0
    ensures len <= Quotient(len + (limit - 1), limit) * limit
    ensures Quotient(len + (limit - 1), limit) > 0 <==> len > 0
  {
    var n := len + (limit - 1);
    assert n == (n / limit) * limit + n % limit;
    if len == 0 {
      DivModUnique(n, limit, 0, n);
    } else {
      TimesOrder(1, n / limit, limit);
    }
  }

  /**
    The table of rl_display_match_list, down its columns. Every entry is shown
    exactly once, with entry 1 + r + j * count in row r and column j, for every
    number of entries and every width; only a screen without any width shows none.
   */
  method PrintDown(columns: int, environment: Option<int>, width: nat, screen: nat, len: nat, printed: seq<nat>)
    returns (rows: seq<seq<Cell>>)
    requires width > 0 && |printed| == len
    requires forall l | 0 <= l < len :: printed[l] <= width
    ensures EachShownOnce(rows, len) <==> screen > 0 || len == 0
    ensures screen > 0 ==> IsTable(rows, |rows|, len, width)
  {
    var cols := ScreenWidth(columns, environment, screen);
    var limit := Limit(cols, width, screen);
    LimitIsPositive(cols, width, screen);
    var count := Quotient(len + (limit - 1), limit);
    if limit > 0 {
      CountSuffices(len, limit);
    }
    rows := [];
    var i := 1;
    while i <= count
      invariant 1 <= i && |rows| == i - 1 && (i > 1 ==> i <= count + 1)
      invariant limit <= 0 ==> forall r | 0 <= r < |rows| :: rows[r] == []
      invariant limit > 0 ==> forall r | 0 <= r < |rows| :: IsRow(rows[r], r + 1, count, len, width)
    {
      var row := PrintRow(i, count, limit, len, width, printed);
      rows := rows + [row];
      i := i + 1;
    }
    if limit > 0 && count > 0 {
      TableShowsEach(rows, count, len, width);
    } else if limit <= 0 && len > 0 {
      assert !Shown(rows, 1);
    }
  }
}
