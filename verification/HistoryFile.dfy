/**
  The history file: entries one to a line, each after its timestamp if it has
  one, written into a buffer of a size worked out beforehand and read back by
  cutting the file into C strings in place.
 */
module HistoryFile {
  import opened Common
  import opened History

  /** What a C string starting with these characters reads as. */
  function Cut(s: string): string {
    if s == [] || s[0] == NUL then [] else [s[0]] + Cut(s[1..])
  }

  lemma {:induction false} CutAt(s: string, n: nat)
    requires n < |s| && s[n] == NUL
    ensures Cut(s) == Cut(s[..n])
    decreases n
  {
    if n > 0 {
      assert s[1..][..n - 1] == s[..n][1..];
      CutAt(s[1..], n - 1);
    }
  }

  lemma {:induction false} CutExtends(a: string, b: string)
    requires NUL in a
    ensures Cut(a + b) == Cut(a)
  {
    var n :| 0 <= n < |a| && a[n] == NUL;
    CutAt(a, n);
    CutAt(a + b, n);
    assert (a + b)[..n] == a[..n];
  }

  lemma {:induction false} CutClean(s: string)
    ensures NUL !in Cut(s) && Cut(s) <= s
    ensures NUL !in s ==> Cut(s) == s
  {
    if s != [] && s[0] != NUL {
      CutClean(s[1..]);
    }
  }

  /** HIST_TIMESTAMP_START on a line that is not empty. */
  predicate Stamp(comment: char, line: string) {
    |line| >= 2 && line[0] == comment && '0' <= line[1] <= '9'
  }

  /** A line of the file without the carriage return it may end in. */
  function Strip(line: string): string {
    if line != [] && line[|line| - 1] == '\r' then line[..|line| - 1] else line
  }

  /** What is kept of a line of the file. */
  function Text(line: string): string {
    Cut(Strip(line))
  }

  function FirstNewline(s: string): (n: nat)
    ensures n <= |s| && '\n' !in s[..n] && (n < |s| ==> s[n] == '\n')
  {
    if s == [] || s[0] == '\n' then 0 else
      var n := FirstNewline(s[1..]);
      assert s[..n + 1] == [s[0]] + s[1..][..n];
      n + 1
  }

  /** The lines of a file; what follows the last newline is not one. */
  function Lines(s: string): seq<string>
    decreases |s|
  {
    var n := FirstNewline(s);
    if n == |s| then [] else [s[..n]] + Lines(s[n + 1..])
  }

  lemma {:induction false} FirstNewlineAfter(line: string, rest: string)
    requires '\n' !in line
    ensures FirstNewline(line + ['\n'] + rest) == |line|
  {
    if line != [] {
      assert (line + ['\n'] + rest)[1..] == line[1..] + ['\n'] + rest;
      FirstNewlineAfter(line[1..], rest);
    }
  }

  lemma LinesStep(line: string, rest: string)
    requires '\n' !in line
    ensures Lines(line + ['\n'] + rest) == [line] + Lines(rest)
  {
    var s := line + ['\n'] + rest;
    FirstNewlineAfter(line, rest);
    assert s[..|line|] == line && s[|line| + 1..] == rest;
  }

  /** The entries lines stand for, the last timestamp seen waiting for its line. */
  function Decode(comment: char, now: string, lines: seq<string>, waiting: Option<string>): seq<Record>
    decreases |lines|
  {
    if lines == [] then [] else
      var text := Text(lines[0]);
      if text == [] then
        Decode(comment, now, lines[1..], waiting)
      else if Stamp(comment, text) then
        Decode(comment, now, lines[1..], Some(text))
      else
        [Record(text, Default(waiting, now))] + Decode(comment, now, lines[1..], None)
  }

  function Default(waiting: Option<string>, now: string): string {
    if waiting.Some? then waiting.value else now
  }

  function EncodeOne(stamps: bool, record: Record): string {
    (if Stamped(stamps, record) then record.timestamp + ['\n'] else []) + record.line + ['\n']
  }

  function Encode(stamps: bool, records: seq<Record>): string {
    if records == [] then [] else EncodeOne(stamps, records[0]) + Encode(stamps, records[1..])
  }

  // Reading back what was written.

  /** A line that fills one line of the file and is taken for a line of text. */
  predicate Storable(comment: char, line: string) {
    line != [] && '\n' !in line && line[|line| - 1] != '\r' && !Stamp(comment, line)
  }

  /** A timestamp that fills one line of the file and is taken for a timestamp. */
  predicate Timed(comment: char, timestamp: string) {
    Stamp(comment, timestamp) && '\n' !in timestamp && timestamp[|timestamp| - 1] != '\r'
  }

  /** A time as it is made when a line is added; a null comment character leaves it empty. */
  predicate TimeText(comment: char, time: string) {
    (Stamp(comment, time) && '\n' !in time) || (comment == NUL && time == [])
  }

  predicate CStrings(record: Record) { NUL !in record.line && NUL !in record.timestamp }

  /** Whether the time of an entry is written. */
  predicate Stamped(stamps: bool, record: Record) { stamps && record.timestamp != [] }

  /** A timestamp that is written reads as one, with a carriage return behind it or not. */
  predicate Sane(comment: char, stamps: bool, record: Record) {
    && CStrings(record)
    && (Stamped(stamps, record) ==> Stamp(comment, record.timestamp) && '\n' !in record.timestamp)
  }

  /** An entry that comes back. */
  predicate Kept(comment: char, stamps: bool, record: Record) {
    Storable(comment, record.line) && (Stamped(stamps, record) ==> Timed(comment, record.timestamp))
  }

  /** Entries as they should come back: untimed ones get the time of reading. */
  function Restored(stamps: bool, now: string, records: seq<Record>): (r: seq<Record>)
    ensures |r| == |records|
    ensures forall i | 0 <= i < |r| :: r[i].line == records[i].line
  {
    if records == [] then [] else
      var r := records[0];
      [if Stamped(stamps, r) then r else r.(timestamp := now)] + Restored(stamps, now, records[1..])
  }

  /** Reading the encoding of records, a timestamp waiting. */
  function Back(comment: char, now: string, stamps: bool, records: seq<Record>, waiting: Option<string>): seq<Record> {
    Decode(comment, now, Lines(Encode(stamps, records)), waiting)
  }

  lemma EncodedLines(comment: char, stamps: bool, records: seq<Record>)
    requires records != [] && Sane(comment, stamps, records[0]) && '\n' !in records[0].line
    ensures
      var r := records[0];
      var rest := [r.line] + Lines(Encode(stamps, records[1..]));
      Lines(Encode(stamps, records)) == if Stamped(stamps, r) then [r.timestamp] + rest else rest
  {
    var r, rest := records[0], Encode(stamps, records[1..]);
    EncodeFirst(stamps, records);
    LinesStep(r.line, rest);
    if Stamped(stamps, r) { LinesStep(r.timestamp, r.line + ['\n'] + rest); }
  }

  lemma EncodeFirst(stamps: bool, records: seq<Record>)
    requires records != []
    ensures
      var r := records[0];
      var rest := r.line + ['\n'] + Encode(stamps, records[1..]);
      Encode(stamps, records) == if Stamped(stamps, r) then r.timestamp + ['\n'] + rest else rest
  {
    var r, rest := records[0], Encode(stamps, records[1..]);
    LinesJoin(r.timestamp, r.line, rest);
    assert [] + r.line == r.line;
  }

  lemma LinesJoin(a: string, b: string, rest: string)
    ensures (a + ['\n'] + b + ['\n']) + rest == a + ['\n'] + (b + ['\n'] + rest)
  {
  }

  lemma DecodeStep(comment: char, now: string, line: string, lines: seq<string>, waiting: Option<string>)
    ensures
      var text := Text(line);
      Decode(comment, now, [line] + lines, waiting) ==
        if text == [] then Decode(comment, now, lines, waiting)
        else if Stamp(comment, text) then Decode(comment, now, lines, Some(text))
        else [Record(text, Default(waiting, now))] + Decode(comment, now, lines, None)
  {
    assert ([line] + lines)[1..] == lines;
  }

  lemma TextOfLine(comment: char, stamps: bool, r: Record)
    requires Sane(comment, stamps, r) && !Stamp(comment, r.line)
    ensures Text(r.line) == Strip(r.line) && !Stamp(comment, Text(r.line))
    ensures Stamped(stamps, r) ==> Text(r.timestamp) == Strip(r.timestamp) && Stamp(comment, Text(r.timestamp))
  {
    CutClean(Strip(r.line));
    CutClean(Strip(r.timestamp));
  }

  /** The first entry, when its line stays on one line of the file. */
  lemma BackFirst(comment: char, now: string, stamps: bool, records: seq<Record>, waiting: Option<string>)
    requires records != [] && Sane(comment, stamps, records[0])
    requires '\n' !in records[0].line && !Stamp(comment, records[0].line)
    ensures
      var r := records[0];
      var waiting' := if Stamped(stamps, r) then Some(Strip(r.timestamp)) else waiting;
      Back(comment, now, stamps, records, waiting) ==
        if Strip(r.line) == [] then Back(comment, now, stamps, records[1..], waiting')
        else [Record(Strip(r.line), Default(waiting', now))] + Back(comment, now, stamps, records[1..], None)
  {
    var r := records[0];
    var lines := Lines(Encode(stamps, records[1..]));
    var waiting' := if Stamped(stamps, r) then Some(Strip(r.timestamp)) else waiting;
    EncodedLines(comment, stamps, records);
    TextOfLine(comment, stamps, r);
    DecodeStep(comment, now, r.line, lines, waiting');
    if Stamped(stamps, r) {
      DecodeStep(comment, now, r.timestamp, [r.line] + lines, waiting);
    }
  }

  /** Everything read is a non-empty line of text. */
  lemma {:induction false} DecodeIsText(comment: char, now: string, lines: seq<string>, waiting: Option<string>, i: nat)
    requires forall k | 0 <= k < |lines| :: '\n' !in lines[k]
    requires i < |Decode(comment, now, lines, waiting)|
    ensures
      var line := Decode(comment, now, lines, waiting)[i].line;
      line != [] && '\n' !in line && !Stamp(comment, line)
    decreases |lines|
  {
    var text := Text(lines[0]);
    CutClean(Strip(lines[0]));
    if text == [] {
      DecodeIsText(comment, now, lines[1..], waiting, i);
    } else if Stamp(comment, text) {
      DecodeIsText(comment, now, lines[1..], Some(text), i);
    } else if i > 0 {
      DecodeIsText(comment, now, lines[1..], None, i - 1);
    }
  }

  lemma {:induction false} LinesAreLines(s: string)
    ensures forall k | 0 <= k < |Lines(s)| :: '\n' !in Lines(s)[k]
    decreases |s|
  {
    var n := FirstNewline(s);
    if n < |s| {
      LinesAreLines(s[n + 1..]);
    }
  }

  /** Every entry is text on one line. */
  ghost predicate OneLineEach(comment: char, stamps: bool, records: seq<Record>) {
    forall i | 0 <= i < |records| ::
      Sane(comment, stamps, records[i]) && '\n' !in records[i].line && !Stamp(comment, records[i].line)
  }

  /** What is still waiting when the first entry has been read back. */
  function Left(stamps: bool, r: Record, waiting: Option<string>): Option<string> {
    if Strip(r.line) != [] then None else if Stamped(stamps, r) then Some(Strip(r.timestamp)) else waiting
  }

  lemma {:induction false} BackAtMost(comment: char, now: string, stamps: bool, records: seq<Record>, waiting: Option<string>)
    requires OneLineEach(comment, stamps, records)
    ensures |Back(comment, now, stamps, records, waiting)| <= |records|
    decreases |records|
  {
    if records != [] {
      BackFirst(comment, now, stamps, records, waiting);
      BackAtMost(comment, now, stamps, records[1..], Left(stamps, records[0], waiting));
    }
  }

  /** What an entry comes back as: its line and its time, each without a carriage return. */
  predicate Stripped(stamps: bool, record: Record, back: Record) {
    back.line == Strip(record.line) && (Stamped(stamps, record) ==> back.timestamp == Strip(record.timestamp))
  }

  lemma FirstComesBack(comment: char, now: string, stamps: bool, records: seq<Record>, waiting: Option<string>)
    requires OneLineEach(comment, stamps, records)
    requires 0 < |records| == |Back(comment, now, stamps, records, waiting)|
    ensures Stripped(stamps, records[0], Back(comment, now, stamps, records, waiting)[0])
    ensures Back(comment, now, stamps, records, waiting)[1..] == Back(comment, now, stamps, records[1..], None)
  {
    BackFirst(comment, now, stamps, records, waiting);
    BackAtMost(comment, now, stamps, records[1..], Left(stamps, records[0], waiting));
  }

  /** If as many come back as were written, each is the entry without its carriage returns. */
  lemma {:induction false} BackIsStripped(comment: char, now: string, stamps: bool, records: seq<Record>,
      waiting: Option<string>, i: nat)
    requires OneLineEach(comment, stamps, records)
    requires i < |records| == |Back(comment, now, stamps, records, waiting)|
    ensures Stripped(stamps, records[i], Back(comment, now, stamps, records, waiting)[i])
    decreases |records|
  {
    FirstComesBack(comment, now, stamps, records, waiting);
    if i > 0 {
      BackIsStripped(comment, now, stamps, records[1..], None, i - 1);
    }
  }

  lemma {:induction false} KeptComesBack(comment: char, now: string, stamps: bool, records: seq<Record>)
    requires forall i | 0 <= i < |records| :: CStrings(records[i]) && Kept(comment, stamps, records[i])
    ensures Back(comment, now, stamps, records, None) == Restored(stamps, now, records)
    decreases |records|
  {
    if records != [] {
      BackFirst(comment, now, stamps, records, None);
      KeptComesBack(comment, now, stamps, records[1..]);
    }
  }

  /** Every time read is like the time of reading: a timestamp on one line, or nothing. */
  lemma {:induction false} DecodeIsTimed(comment: char, now: string, lines: seq<string>, waiting: Option<string>, i: nat)
    requires forall k | 0 <= k < |lines| :: '\n' !in lines[k]
    requires TimeText(comment, now) && (waiting.Some? ==> TimeText(comment, waiting.value))
    requires i < |Decode(comment, now, lines, waiting)|
    ensures TimeText(comment, Decode(comment, now, lines, waiting)[i].timestamp)
    decreases |lines|
  {
    var text := Text(lines[0]);
    CutClean(Strip(lines[0]));
    if text == [] {
      DecodeIsTimed(comment, now, lines[1..], waiting, i);
    } else if Stamp(comment, text) {
      DecodeIsTimed(comment, now, lines[1..], Some(text), i);
    } else if i > 0 {
      DecodeIsTimed(comment, now, lines[1..], None, i - 1);
    }
  }

  lemma {:induction false} RestoredTime(stamps: bool, now: string, records: seq<Record>, i: nat)
    requires i < |records| && Stamped(stamps, records[i])
    ensures Restored(stamps, now, records)[i].timestamp == records[i].timestamp
    decreases |records|
  {
    if i > 0 { RestoredTime(stamps, now, records[1..], i - 1); }
  }

  /** If everything comes back, every entry is text on one line with its time on one line. */
  lemma RestoredIsSane(comment: char, now: string, stamps: bool, records: seq<Record>)
    requires forall i | 0 <= i < |records| :: CStrings(records[i])
    requires stamps ==> TimeText(comment, now)
    requires Back(comment, now, stamps, records, None) == Restored(stamps, now, records)
    ensures OneLineEach(comment, stamps, records)
    ensures forall i | 0 <= i < |records| :: records[i].line != []
  {
    LinesAreLines(Encode(stamps, records));
    forall i | 0 <= i < |records|
      ensures records[i].line != [] && '\n' !in records[i].line && !Stamp(comment, records[i].line)
      ensures Sane(comment, stamps, records[i])
    {
      DecodeIsText(comment, now, Lines(Encode(stamps, records)), None, i);
      if Stamped(stamps, records[i]) {
        DecodeIsTimed(comment, now, Lines(Encode(stamps, records)), None, i);
        RestoredTime(stamps, now, records, i);
      }
    }
  }

  lemma RestoredIsKept(comment: char, now: string, stamps: bool, records: seq<Record>, i: nat)
    requires OneLineEach(comment, stamps, records) && i < |records| && records[i].line != []
    requires Back(comment, now, stamps, records, None) == Restored(stamps, now, records)
    ensures Kept(comment, stamps, records[i])
  {
    BackIsStripped(comment, now, stamps, records, None, i);
    if Stamped(stamps, records[i]) { RestoredTime(stamps, now, records, i); }
    StripsToItself(comment, stamps, records[i], Restored(stamps, now, records)[i]);
  }

  lemma StripsToItself(comment: char, stamps: bool, r: Record, back: Record)
    requires Sane(comment, stamps, r) && r.line != [] && '\n' !in r.line && !Stamp(comment, r.line)
    requires Stripped(stamps, r, back) && back.line == r.line
    requires Stamped(stamps, r) ==> back.timestamp == r.timestamp
    ensures Kept(comment, stamps, r)
  {
    assert Strip(r.line) == r.line;
  }

  /**
    Writing entries and reading the file gives the same lines with the same
    timestamps in the same order exactly when every line is storable and every
    timestamp that is written reads as one.
   */
  lemma RoundTripExactly(comment: char, now: string, stamps: bool, records: seq<Record>)
    requires forall i | 0 <= i < |records| :: CStrings(records[i])
    requires stamps ==> TimeText(comment, now)
    ensures Back(comment, now, stamps, records, None) == Restored(stamps, now, records)
      <==> forall i | 0 <= i < |records| :: Kept(comment, stamps, records[i])
  {
    if Back(comment, now, stamps, records, None) == Restored(stamps, now, records) {
      RestoredIsSane(comment, now, stamps, records);
      forall i | 0 <= i < |records| ensures Kept(comment, stamps, records[i]) {
        RestoredIsKept(comment, now, stamps, records, i);
      }
    } else if forall i | 0 <= i < |records| :: Kept(comment, stamps, records[i]) {
      KeptComesBack(comment, now, stamps, records);
    }
  }

  /** With the comment character the library starts with, what comes back is what has no times. */
  lemma NoCommentCharacter(stamps: bool, records: seq<Record>)
    requires forall i | 0 <= i < |records| :: CStrings(records[i])
    ensures Back(NUL, [], stamps, records, None) == Restored(stamps, [], records)
      <==> forall i | 0 <= i < |records| :: Storable(NUL, records[i].line) && !Stamped(stamps, records[i])
  {
    RoundTripExactly(NUL, [], stamps, records);
    assert forall i | 0 <= i < |records| :: !Stamp(NUL, records[i].timestamp);
  }

  /** A line that ends in a carriage return comes back without it. */
  lemma CarriageReturnLost(comment: char, now: string)
    ensures
      var records := [Record("a\r", "")];
      Back(comment, now, false, records, None) != Restored(false, now, records)
  {
    var records := [Record("a\r", "")];
    assert CStrings(records[0]) && !Storable(comment, records[0].line);
    RoundTripExactly(comment, now, false, records);
  }

  /**
    A file of entries that come back, read into a list, keeps the newest of the
    old entries and the file's together, as many as the list may hold.
   */
  lemma WrittenThenRead(comment: char, now: string, stamps: bool, records: seq<Record>, h: List)
    requires forall i | 0 <= i < |records| :: CStrings(records[i]) && Kept(comment, stamps, records[i])
    requires h.stifled ==> |h.entries| <= h.max
    ensures
      var all := h.entries + Restored(stamps, now, records);
      var drop := Dropped(h, |all|);
      AddAll(h, Back(comment, now, stamps, records, None)) ==
        if h.stifled && h.max == 0 then h else h.(entries := all[drop..], base := h.base + drop)
  {
    KeptComesBack(comment, now, stamps, records);
    LastLines(h, Restored(stamps, now, records));
  }

  // The buffer loops.

  function EncodedSize(stamps: bool, record: Record): nat {
    (if Stamped(stamps, record) then |record.timestamp| + 1 else 0) + |record.line| + 1
  }

  /** strcpy to an index, with the newline put over its NUL. */
  method PutLine(buffer: array<char>, at: nat, line: string) returns (j: nat)
    requires at + |line| < buffer.Length
    modifies buffer
    ensures j == at + |line| + 1 && buffer[..j] == old(buffer[..at]) + line + ['\n']
  {
    j := at;
    while j < at + |line|
      invariant at <= j <= at + |line|
      invariant buffer[..j] == old(buffer[..at]) + line[..j - at]
    {
      buffer[j] := line[j - at];
      j := j + 1;
    }
    buffer[j] := '\n';
    j := j + 1;
  }

  lemma {:induction false} EncodeJoin(stamps: bool, a: seq<Record>, b: seq<Record>)
    ensures Encode(stamps, a + b) == Encode(stamps, a) + Encode(stamps, b)
    decreases |a|
  {
    if a == [] {
      assert a + b == b;
    } else {
      assert (a + b)[0] == a[0] && (a + b)[1..] == a[1..] + b;
      EncodeJoin(stamps, a[1..], b);
    }
  }

  lemma EncodeNext(stamps: bool, records: seq<Record>, i: nat)
    requires i < |records|
    ensures Encode(stamps, records[..i + 1]) == Encode(stamps, records[..i]) + EncodeOne(stamps, records[i])
  {
    assert records[..i + 1] == records[..i] + [records[i]];
    EncodeJoin(stamps, records[..i], [records[i]]);
    assert Encode(stamps, [records[i]]) == EncodeOne(stamps, records[i]);
  }

  lemma EncodeFits(stamps: bool, records: seq<Record>, i: nat)
    requires i <= |records|
    ensures |Encode(stamps, records[..i])| <= |Encode(stamps, records)|
    ensures i < |records| ==>
      |Encode(stamps, records[..i])| + EncodedSize(stamps, records[i]) <= |Encode(stamps, records)|
  {
    assert records == records[..i] + records[i..];
    EncodeJoin(stamps, records[..i], records[i..]);
  }

  method PutRecord(buffer: array<char>, at: nat, stamps: bool, record: Record) returns (j: nat)
    requires at + EncodedSize(stamps, record) <= buffer.Length
    modifies buffer
    ensures j == at + EncodedSize(stamps, record)
    ensures buffer[..j] == old(buffer[..at]) + EncodeOne(stamps, record)
  {
    j := at;
    if stamps && record.timestamp != [] {
      j := PutLine(buffer, j, record.timestamp);
    }
    j := PutLine(buffer, j, record.line);
  }

  /** The two loops of history_do_write: one measures, one fills what was measured. */
  method WriteRecords(stamps: bool, records: seq<Record>) returns (buffer: array<char>)
    ensures fresh(buffer) && buffer[..] == Encode(stamps, records)
  {
    var size := 0;
    for i := 0 to |records|
      invariant size == |Encode(stamps, records[..i])|
    {
      EncodeNext(stamps, records, i);
      size := size + EncodedSize(stamps, records[i]);
    }
    assert records[..|records|] == records;
    buffer := new char[size];
    var j: nat := 0;
    for i := 0 to |records|
      invariant j <= buffer.Length && buffer[..j] == Encode(stamps, records[..i])
    {
      EncodeNext(stamps, records, i);
      EncodeFits(stamps, records, i);
      j := PutRecord(buffer, j, stamps, records[i]);
    }
    assert buffer[..j] == buffer[..];
  }

  /** A pointer to the timestamp that is waiting, at a C string within what has been read. */
  predicate Points(buffer: string, read: nat, stamp: Option<nat>, waiting: Option<string>) {
    && read <= |buffer| && (stamp.Some? <==> waiting.Some?)
    && (stamp.Some? ==>
          && stamp.value < read && NUL in buffer[stamp.value..read]
          && Cut(buffer[stamp.value..read]) == waiting.value)
  }

  lemma PointsOn(before: string, after: string, read: nat, read': nat, stamp: Option<nat>, waiting: Option<string>)
    requires Points(before, read, stamp, waiting)
    requires read <= read' <= |after| && before[..read] == after[..read]
    ensures Points(after, read', stamp, waiting)
  {
    if stamp.Some? {
      var a, b := before[stamp.value..read], after[stamp.value..read'];
      assert b == a + after[read..read'] by {
        forall k | 0 <= k < |a| ensures b[k] == a[k] {
          assert before[..read][stamp.value + k] == after[..read][stamp.value + k];
        }
      }
      CutExtends(a, after[read..read']);
    }
  }

  /** Ends the line in place; where it started there is now a C string. */
  method EndLine(buffer: array<char>, lineStart: nat, lineEnd: nat)
    requires lineStart <= lineEnd < buffer.Length
    modifies buffer
    ensures buffer[..lineStart] == old(buffer[..lineStart])
    ensures forall k | lineEnd < k < buffer.Length :: buffer[k] == old(buffer[k])
    ensures NUL in buffer[lineStart..lineEnd + 1]
    ensures Cut(buffer[lineStart..lineEnd + 1]) == Text(old(buffer[lineStart..lineEnd]))
  {
    ghost var line := buffer[lineStart..lineEnd];
    ghost var n := lineEnd - lineStart;
    if lineEnd > lineStart && buffer[lineEnd - 1] == '\r' {
      n := n - 1;
      buffer[lineEnd - 1] := NUL;
    } else {
      buffer[lineEnd] := NUL;
    }
    ghost var s := buffer[lineStart..lineEnd + 1];
    assert s[n] == NUL && s[..n] == Strip(line);
    CutAt(s, n);
  }

  /** Adds a line and gives it the time that is waiting. */
  method AddTimed(h: HistoryList, text: string, now: string, buffer: array<char>, read: nat,
                  stamp: Option<nat>, ghost waiting: Option<string>)
    requires h.Valid() && Points(buffer[..], read, stamp, waiting)
    modifies h, h.slots
    ensures h.Valid() && (h.slots == old(h.slots) || fresh(h.slots))
    ensures h.View() == Add(old(h.View()), Record(text, Default(waiting, now)))
  {
    h.AddHistory(text, now);
    if stamp.Some? {
      assert buffer[..][stamp.value..read] == buffer[stamp.value..read];
      h.AddHistoryTime(Cut(buffer[stamp.value..read]));
      AddThenTime(old(h.View()), Record(text, now), waiting.value);
    }
  }

  /** A line of text taken into the list, or kept as the time of the next one. */
  function Taken(comment: char, now: string, h: List, waiting: Option<string>, text: string): (List, Option<string>) {
    if text == [] then (h, waiting)
    else if Stamp(comment, text) then (h, Some(text))
    else (Add(h, Record(text, Default(waiting, now))), None)
  }

  lemma TakenIsDecoded(comment: char, now: string, h: List, waiting: Option<string>, line: string, lines: seq<string>)
    ensures
      var (h', waiting') := Taken(comment, now, h, waiting, Text(line));
      AddAll(h, Decode(comment, now, [line] + lines, waiting)) == AddAll(h', Decode(comment, now, lines, waiting'))
  {
    DecodeStep(comment, now, line, lines, waiting);
  }

  /** Takes the C string a line has become, and says where the waiting timestamp then is. */
  method TakeText(h: HistoryList, comment: char, now: string, buffer: array<char>, lineStart: nat, read: nat,
                  stamp: Option<nat>, ghost waiting: Option<string>)
    returns (isStamp: bool, stamp': Option<nat>, ghost waiting': Option<string>)
    requires h.Valid() && lineStart < read <= buffer.Length && NUL in buffer[lineStart..read]
    requires Points(buffer[..], lineStart, stamp, waiting)
    modifies h, h.slots
    ensures h.Valid() && (h.slots == old(h.slots) || fresh(h.slots))
    ensures isStamp <==> Stamp(comment, Cut(buffer[lineStart..read]))
    ensures (h.View(), waiting') == Taken(comment, now, old(h.View()), waiting, Cut(buffer[lineStart..read]))
    ensures Points(buffer[..], read, stamp', waiting')
  {
    assert buffer[..][lineStart..read] == buffer[lineStart..read];
    if buffer[lineStart] == NUL {
      PointsOn(buffer[..], buffer[..], lineStart, read, stamp, waiting);
      return false, stamp, waiting;
    }
    var text := Cut(buffer[lineStart..read]);
    if buffer[lineStart] == comment && '0' <= buffer[lineStart + 1] <= '9' {
      return true, Some(lineStart), Some(text);
    }
    AddTimed(h, text, now, buffer, lineStart, stamp, waiting);
    return false, None, None;
  }

  /** What is done at a newline. */
  method TakeLine(h: HistoryList, comment: char, now: string, buffer: array<char>, lineStart: nat, lineEnd: nat,
                  stamp: Option<nat>, ghost waiting: Option<string>)
    returns (isStamp: bool, stamp': Option<nat>, ghost waiting': Option<string>)
    requires h.Valid() && lineStart <= lineEnd < buffer.Length
    requires Points(buffer[..], lineStart, stamp, waiting)
    modifies h, h.slots, buffer
    ensures h.Valid() && (h.slots == old(h.slots) || fresh(h.slots))
    ensures forall k | lineEnd < k < buffer.Length :: buffer[k] == old(buffer[k])
    ensures isStamp <==> Stamp(comment, Text(old(buffer[lineStart..lineEnd])))
    ensures (h.View(), waiting') == Taken(comment, now, old(h.View()), waiting, Text(old(buffer[lineStart..lineEnd])))
    ensures Points(buffer[..], lineEnd + 1, stamp', waiting')
  {
    ghost var before := buffer[..];
    EndLine(buffer, lineStart, lineEnd);
    PointsOn(before, buffer[..], lineStart, lineStart, stamp, waiting) by {
      assert before[..lineStart] == buffer[..][..lineStart];
    }
    isStamp, stamp', waiting' := TakeText(h, comment, now, buffer, lineStart, lineEnd + 1, stamp, waiting);
  }

  /** The lines not yet taken, as seen from the line being read. */
  lemma LinesFrom(file: string, lineStart: nat, lineEnd: nat)
    requires lineStart <= lineEnd < |file| && '\n' !in file[lineStart..lineEnd] && file[lineEnd] == '\n'
    ensures Lines(file[lineStart..]) == [file[lineStart..lineEnd]] + Lines(file[lineEnd + 1..])
  {
    var line, rest := file[lineStart..lineEnd], file[lineEnd + 1..];
    assert file[lineStart..] == line + ['\n'] + rest;
    LinesStep(line, rest);
  }

  lemma LinesEnd(s: string)
    requires '\n' !in s
    ensures Lines(s) == []
  {
  }

  /** Between two places in a file there is no newline. */
  predicate SameLine(file: string, i: int, j: int) {
    0 <= i <= j <= |file| && forall k | i <= k < j :: file[k] != '\n'
  }

  /** The list once the rest of a file has been read into it. */
  function Filled(comment: char, now: string, h: List, waiting: Option<string>, rest: string): List {
    AddAll(h, Decode(comment, now, Lines(rest), waiting))
  }

  lemma FilledStep(comment: char, now: string, h: List, waiting: Option<string>, file: string, lineStart: nat, lineEnd: nat)
    requires lineEnd < |file| && SameLine(file, lineStart, lineEnd) && file[lineEnd] == '\n'
    ensures
      var (h', waiting') := Taken(comment, now, h, waiting, Text(file[lineStart..lineEnd]));
      Filled(comment, now, h, waiting, file[lineStart..]) == Filled(comment, now, h', waiting', file[lineEnd + 1..])
  {
    LinesFrom(file, lineStart, lineEnd);
    TakenIsDecoded(comment, now, h, waiting, file[lineStart..lineEnd], Lines(file[lineEnd + 1..]));
  }

  lemma FilledEnd(comment: char, now: string, h: List, waiting: Option<string>, file: string, lineStart: nat)
    requires SameLine(file, lineStart, |file|)
    ensures Filled(comment, now, h, waiting, file[lineStart..]) == h
  {
    LinesEnd(file[lineStart..]);
  }

  /** The part of the file from a line on has not been written over, and reading it still fills the list as it should. */
  ghost predicate Reading(h: HistoryList, comment: char, now: string, buffer: array<char>, file: string, filled: List,
                          lineStart: nat, stamp: Option<nat>, waiting: Option<string>)
    reads h, h.slots, buffer
  {
    && h.Valid() && lineStart <= buffer.Length == |file|
    && (forall k | lineStart <= k < |file| :: buffer[k] == file[k])
    && Points(buffer[..], lineStart, stamp, waiting)
    && filled == Filled(comment, now, h.View(), waiting, file[lineStart..])
  }

  /** Takes the line that ends here. */
  method TakeNext(h: HistoryList, comment: char, now: string, buffer: array<char>, lineStart: nat, lineEnd: nat,
                  stamp: Option<nat>, ghost waiting: Option<string>, ghost file: string, ghost filled: List)
    returns (isStamp: bool, stamp': Option<nat>, ghost waiting': Option<string>)
    requires Reading(h, comment, now, buffer, file, filled, lineStart, stamp, waiting)
    requires lineEnd < |file| && SameLine(file, lineStart, lineEnd) && file[lineEnd] == '\n'
    modifies h, h.slots, buffer
    ensures h.slots == old(h.slots) || fresh(h.slots)
    ensures isStamp <==> Stamp(comment, Text(file[lineStart..lineEnd]))
    ensures Reading(h, comment, now, buffer, file, filled, lineEnd + 1, stamp', waiting')
  {
    FilledStep(comment, now, h.View(), waiting, file, lineStart, lineEnd);
    assert buffer[lineStart..lineEnd] == file[lineStart..lineEnd];
    isStamp, stamp', waiting' := TakeLine(h, comment, now, buffer, lineStart, lineEnd, stamp, waiting);
  }

  lemma ReadingEnds(h: HistoryList, comment: char, now: string, buffer: array<char>, file: string, filled: List,
                    lineStart: nat, stamp: Option<nat>, waiting: Option<string>)
    requires Reading(h, comment, now, buffer, file, filled, lineStart, stamp, waiting)
    requires SameLine(file, lineStart, |file|)
    ensures h.Valid() && h.View() == filled
  {
    FilledEnd(comment, now, h.View(), waiting, file, lineStart);
  }

  /** One turn of the loop of read_history, at the byte `lineEnd`. */
  method ReadByte(h: HistoryList, comment: char, now: string, buffer: array<char>, lineStart: nat, lineEnd: nat,
                  currentLine: int, stamp: Option<nat>, ghost waiting: Option<string>, ghost file: string,
                  ghost filled: List)
    returns (lineStart': nat, currentLine': int, stamp': Option<nat>, ghost waiting': Option<string>)
    requires Reading(h, comment, now, buffer, file, filled, lineStart, stamp, waiting)
    requires lineEnd < |file| && SameLine(file, lineStart, lineEnd) && currentLine <= lineEnd
    modifies h, h.slots, buffer
    ensures h.slots == old(h.slots) || fresh(h.slots)
    ensures Reading(h, comment, now, buffer, file, filled, lineStart', stamp', waiting')
    ensures SameLine(file, lineStart', lineEnd + 1) && currentLine' <= lineEnd + 1
  {
    lineStart', currentLine', stamp', waiting' := lineStart, currentLine, stamp, waiting;
    if buffer[lineEnd] == '\n' {
      var isStamp;
      isStamp, stamp', waiting' := TakeNext(h, comment, now, buffer, lineStart, lineEnd, stamp, waiting, file, filled);
      currentLine' := (if isStamp then currentLine - 1 else currentLine) + 1;
      lineStart' := lineEnd + 1;
    }
  }

  /**
    The loop of read_history. It counts lines up to the number of bytes in the
    file, which stops it no sooner than the file does.
   */
  method ReadLines(h: HistoryList, comment: char, now: string, buffer: array<char>, ghost file: string,
                   ghost filled: List)
    requires Reading(h, comment, now, buffer, file, filled, 0, None, None)
    modifies h, h.slots, buffer
    ensures h.Valid() && h.View() == filled
  {
    var lineStart: nat, lineEnd: nat, currentLine := 0, 0, 0;
    var stamp: Option<nat> := None;
    ghost var waiting: Option<string> := None;
    while lineEnd < buffer.Length && currentLine < buffer.Length
      invariant h.slots == old(h.slots) || fresh(h.slots)
      invariant Reading(h, comment, now, buffer, file, filled, lineStart, stamp, waiting)
      invariant SameLine(file, lineStart, lineEnd) && currentLine <= lineEnd
      decreases buffer.Length - lineEnd
    {
      lineStart, currentLine, stamp, waiting :=
        ReadByte(h, comment, now, buffer, lineStart, lineEnd, currentLine, stamp, waiting, file, filled);
      lineEnd := lineEnd + 1;
    }
    ReadingEnds(h, comment, now, buffer, file, filled, lineStart, stamp, waiting);
  }

  /** read_history: every line of the file is added, in order and with its time. */
  method ReadRecords(h: HistoryList, comment: char, now: string, buffer: array<char>)
    requires h.Valid()
    modifies h, h.slots, buffer
    ensures h.Valid()
    ensures h.View() == AddAll(old(h.View()), Decode(comment, now, Lines(old(buffer[..])), None))
  {
    ghost var file := buffer[..];
    assert file[0..] == file;
    ReadLines(h, comment, now, buffer, file, Filled(comment, now, h.View(), None, file));
  }
}
