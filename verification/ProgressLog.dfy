/**
 The progress log: a numbered projection of the run's events that repairs its own
 file after a crash and never repeats a row.

 The file is its complete lines plus the bytes of an unfinished last line.  Only
 the first READ_LIMIT bytes are ever read back.
 */
module ProgressLog {
  import opened Common

  const MAX_EVENTS: nat := 20_000
  const READ_LIMIT: nat := MAX_EVENTS * 2048

  /** A complete line has at least its line feed. */
  type LineSize = n: nat | n > 0 witness 1

  /** A complete line: unparsable, or a JSON value with what the scan looks at. */
  datatype Line =
    | Unparsable(size: LineSize)
    | Parsed(size: LineSize, currentVersion: bool, sequence: Option<int>, sourceId: Option<string>)

  datatype LogFile = LogFile(lines: seq<Line>, tail: nat)

  function Size(lines: seq<Line>): nat {
    if lines == [] then 0 else Size(lines[..|lines| - 1]) + lines[|lines| - 1].size
  }

  lemma {:induction false} SizeOfPrefix(lines: seq<Line>, n: nat)
    requires n <= |lines|
    ensures Size(lines[..n]) <= Size(lines)
    decreases |lines|
  {
    if n < |lines| {
      SizeOfPrefix(lines[..|lines| - 1], n);
      assert lines[..|lines| - 1][..n] == lines[..n];
    } else {
      assert lines[..n] == lines;
    }
  }

  // ------------------------------------------------------------- reading back

  /** How many complete lines lie within the bytes that are read. */
  function InWindow(lines: seq<Line>): (n: nat)
    ensures n <= |lines| && Size(lines[..n]) <= READ_LIMIT
    ensures n < |lines| ==> Size(lines[..n + 1]) > READ_LIMIT
  {
    WindowOf(lines, 0)
  }

  function WindowOf(lines: seq<Line>, n: nat): (w: nat)
    requires n <= |lines| && Size(lines[..n]) <= READ_LIMIT
    ensures n <= w <= |lines| && Size(lines[..w]) <= READ_LIMIT
    ensures w < |lines| ==> Size(lines[..w + 1]) > READ_LIMIT
    decreases |lines| - n
  {
    if n == |lines| || Size(lines[..n + 1]) > READ_LIMIT then n else WindowOf(lines, n + 1)
  }

  predicate Monotone(line: Line, last: int) {
    line.Parsed? && line.currentVersion && line.sequence.Some? && line.sequence.value > last
  }

  function LastSequence(lines: seq<Line>): int {
    if lines == [] || !lines[|lines| - 1].Parsed? || lines[|lines| - 1].sequence.None? then 0
    else lines[|lines| - 1].sequence.value
  }

  /** The scan: how many lines form the valid prefix, or nothing when a foreign line forces a rebuild. */
  function Scan(lines: seq<Line>, n: nat): (kept: nat)
    requires n <= |lines|
    ensures kept == 0 || n <= kept <= |lines|
    decreases |lines| - n
  {
    if n == |lines| || lines[n].Unparsable? then n
    else if !Monotone(lines[n], LastSequence(lines[..n])) then 0
    else Scan(lines, n + 1)
  }

  function KnownIds(lines: seq<Line>): set<string> {
    set i | 0 <= i < |lines| && lines[i].Parsed? && lines[i].sourceId.Some? :: lines[i].sourceId.value
  }

  /** The bytes read differ from the bytes kept: the file is rewritten to its kept lines. */
  predicate Rewritten(file: LogFile, kept: nat)
    requires kept <= |file.lines|
  {
    var total := Size(file.lines) + file.tail;
    Size(file.lines[..kept]) != if total < READ_LIMIT then total else READ_LIMIT
  }

  // ---------------------------------------------------------------- appending

  function Unknown(projected: seq<string>, known: set<string>): seq<string> {
    if projected == [] then []
    else if projected[0] in known then Unknown(projected[1..], known)
    else [projected[0]] + Unknown(projected[1..], known)
  }

  /** The rows whose source is not known yet. */
  lemma {:induction false} UnknownHolds(projected: seq<string>, known: set<string>)
    ensures forall id :: id in Unknown(projected, known) <==> id in projected && id !in known
  {
    if projected != [] {
      UnknownHolds(projected[1..], known);
      assert projected == [projected[0]] + projected[1..];
    }
  }

  /** The newest rows that still fit under the event cap. */
  function Capped(rows: seq<string>, known: nat): seq<string> {
    if known + |rows| <= MAX_EVENTS then rows
    else
      var available := if MAX_EVENTS > known then MAX_EVENTS - known else 0;
      rows[|rows| - available..]
  }

  function Numbered(rows: seq<string>, last: int, sizeOf: (string, int) -> LineSize): seq<Line> {
    seq(|rows|, i requires 0 <= i < |rows| =>
      Parsed(sizeOf(rows[i], last + i + 1), true, Some(last + i + 1), Some(rows[i])))
  }

  /** Appending after an unfinished line glues the first row to it. */
  function Append(file: LogFile, rows: seq<Line>): LogFile {
    if rows == [] then file
    else if file.tail == 0 then LogFile(file.lines + rows, 0)
    else LogFile(file.lines + [Unparsable(file.tail + rows[0].size)] + rows[1..], 0)
  }

  /** One synchronisation of the log with the rows its sources project. */
  function Synced(file: LogFile, projected: seq<string>, sizeOf: (string, int) -> LineSize): LogFile {
    var kept := Scan(file.lines[..InWindow(file.lines)], 0);
    var prefix := file.lines[..kept];
    var known := KnownIds(prefix);
    var repaired := if Rewritten(file, kept) then LogFile(prefix, 0) else file;
    Append(repaired, Numbered(Capped(Unknown(projected, known), |known|), LastSequence(prefix), sizeOf))
  }

  class Log {
    var file: LogFile
    const sizeOf: (string, int) -> LineSize

    constructor (sizeOf: (string, int) -> LineSize)
      ensures file == LogFile([], 0) && this.sizeOf == sizeOf
    {
      file, this.sizeOf := LogFile([], 0), sizeOf;
    }

    method SyncProgress(projected: seq<string>)
      modifies this
      ensures file == Synced(old(file), projected, sizeOf)
    {
      var window := file.lines[..InWindow(file.lines)];
      var valid, last, known := ScanPrefix(window);
      assert window[..valid] == file.lines[..valid];
      if Rewritten(file, valid) {
        file := LogFile(file.lines[..valid], 0);
      }
      var rows := Unknown(projected, known);
      if |known| + |rows| > MAX_EVENTS {
        rows := Capped(rows, |known|);
      }
      var lines := NumberRows(rows, last, sizeOf);
      file := Append(file, lines);
    }
  }

  /** The reading loop: the monotone valid prefix, its last number and the sources it already holds. */
  method ScanPrefix(window: seq<Line>) returns (valid: nat, last: int, known: set<string>)
    ensures valid == Scan(window, 0) && valid <= |window|
    ensures last == LastSequence(window[..valid]) && known == KnownIds(window[..valid])
  {
    known, last, valid := {}, 0, 0;
    while valid < |window| && window[valid].Parsed?
      invariant 0 <= valid <= |window|
      invariant Scan(window, valid) == Scan(window, 0)
      invariant known == KnownIds(window[..valid]) && last == LastSequence(window[..valid])
      decreases |window| - valid
    {
      var line := window[valid];
      if !Monotone(line, last) {
        return 0, 0, {};
      }
      last := line.sequence.value;
      if line.sourceId.Some? {
        known := known + {line.sourceId.value};
      }
      valid := valid + 1;
      OneMoreKnown(window, valid);
    }
  }

  /** The writing loop: rows numbered on from `last`. */
  method NumberRows(rows: seq<string>, last: int, sizeOf: (string, int) -> LineSize) returns (lines: seq<Line>)
    ensures lines == Numbered(rows, last, sizeOf)
    ensures |lines| == |rows| && forall i :: 0 <= i < |rows| ==>
      lines[i] == Parsed(sizeOf(rows[i], last + i + 1), true, Some(last + i + 1), Some(rows[i]))
  {
    lines := [];
    while |lines| < |rows|
      invariant |lines| <= |rows| && lines == Numbered(rows, last, sizeOf)[..|lines|]
    {
      var sequence := last + |lines| + 1;
      lines := lines + [Parsed(sizeOf(rows[|lines|], sequence), true, Some(sequence), Some(rows[|lines|]))];
    }
  }

  lemma OneMoreKnown(lines: seq<Line>, n: nat)
    requires 0 < n <= |lines| && lines[n - 1].Parsed? && lines[n - 1].sequence.Some?
    ensures KnownIds(lines[..n])
      == KnownIds(lines[..n - 1]) + (if lines[n - 1].sourceId.Some? then {lines[n - 1].sourceId.value} else {})
    ensures LastSequence(lines[..n]) == lines[n - 1].sequence.value
  {
    var longer, shorter := lines[..n], lines[..n - 1];
    forall id | id in KnownIds(longer) ensures id in KnownIds(shorter) || lines[n - 1].sourceId == Some(id) {
      var i :| 0 <= i < |longer| && longer[i].Parsed? && longer[i].sourceId == Some(id);
      assert i < n - 1 ==> shorter[i] == longer[i];
    }
    forall id | id in KnownIds(shorter) ensures id in KnownIds(longer) {
      var i :| 0 <= i < |shorter| && shorter[i].Parsed? && shorter[i].sourceId == Some(id);
      assert longer[i] == shorter[i];
    }
    if lines[n - 1].sourceId.Some? {
      assert longer[n - 1] == lines[n - 1];
    }
  }

  // ------------------------------------------------------------ what is kept

  /** Line `i` of a log written only by the harness: numbered i + 1. */
  predicate OwnLine(line: Line, i: nat) {
    line.Parsed? && line.currentVersion && line.sequence == Some(i + 1) && line.sourceId.Some?
  }

  /** A log written only by the harness: numbered 1 to n, no source repeated, within the cap. */
  predicate SelfWritten(lines: seq<Line>) {
    && |lines| <= MAX_EVENTS
    && (forall i :: 0 <= i < |lines| ==> OwnLine(lines[i], i))
    && (forall i, j :: 0 <= i < j < |lines| ==> lines[i].sourceId != lines[j].sourceId)
  }

  /** A log longer than what is read back, with a line that ends exactly at the limit: the rest is overlooked. */
  predicate Overlooked(file: LogFile) {
    Size(file.lines) + file.tail > READ_LIMIT && Size(file.lines[..InWindow(file.lines)]) == READ_LIMIT
  }

  /** A cut by a crash leaves a self-written log. */
  lemma CutsAreSelfWritten(lines: seq<Line>, n: nat)
    requires SelfWritten(lines) && n <= |lines|
    ensures SelfWritten(lines[..n])
  {
  }

  /** The first `n` lines, and no more, carry the current version and rising numbers. */
  predicate LongestMonotone(lines: seq<Line>, n: nat) {
    && n <= |lines|
    && (forall i :: 0 <= i < n ==> Monotone(lines[i], LastSequence(lines[..i])))
    && (n < |lines| ==> !Monotone(lines[n], LastSequence(lines[..n])))
  }

  /**
   For any log at all, the scan keeps the longest monotone prefix, unless what stops
   it is a parsable line: then the whole file is rebuilt.
   */
  lemma {:induction false} ScanKeepsLongestPrefix(lines: seq<Line>, n: nat)
    requires n <= |lines| && forall i :: 0 <= i < n ==> Monotone(lines[i], LastSequence(lines[..i]))
    ensures exists stop :: n <= stop && LongestMonotone(lines, stop)
              && Scan(lines, n) == if stop < |lines| && lines[stop].Parsed? then 0 else stop
    decreases |lines| - n
  {
    if n < |lines| && Monotone(lines[n], LastSequence(lines[..n])) {
      ScanKeepsLongestPrefix(lines, n + 1);
    } else {
      assert LongestMonotone(lines, n);
    }
  }

  /** Lines of the current version, each numbered above the one before it, the first one above zero. */
  predicate Rising(lines: seq<Line>) {
    && (forall i :: 0 <= i < |lines| ==>
         lines[i].Parsed? && lines[i].currentVersion && lines[i].sequence.Some? && lines[i].sequence.value > 0)
    && (forall i :: 0 < i < |lines| ==> lines[i - 1].sequence.value < lines[i].sequence.value)
  }

  lemma LastOfPrefix(lines: seq<Line>, i: nat)
    requires i < |lines|
    requires forall k :: 0 <= k < i ==> lines[k].Parsed? && lines[k].sequence.Some?
    ensures LastSequence(lines[..i]) == if i == 0 then 0 else lines[i - 1].sequence.value
  {
  }

  lemma {:induction false} RisingIsPositive(lines: seq<Line>, i: nat)
    requires i < |lines| && forall k :: 0 <= k < |lines| ==> Monotone(lines[k], LastSequence(lines[..k]))
    ensures Monotone(lines[i], 0)
  {
    LastOfPrefix(lines, i);
    if i > 0 {
      RisingIsPositive(lines, i - 1);
    }
  }

  /** The line by line test of the scan accepts exactly such a prefix. */
  lemma MonotoneIsRising(lines: seq<Line>)
    ensures (forall i :: 0 <= i < |lines| ==> Monotone(lines[i], LastSequence(lines[..i]))) <==> Rising(lines)
  {
    if forall i :: 0 <= i < |lines| ==> Monotone(lines[i], LastSequence(lines[..i])) {
      forall i | 0 <= i < |lines| ensures Monotone(lines[i], 0) {
        RisingIsPositive(lines, i);
      }
      forall i | 0 < i < |lines| ensures lines[i - 1].sequence.value < lines[i].sequence.value {
        LastOfPrefix(lines, i);
      }
    }
    if Rising(lines) {
      forall i | 0 <= i < |lines| ensures Monotone(lines[i], LastSequence(lines[..i])) {
        LastOfPrefix(lines, i);
      }
    }
  }

  /** A line that parses but is not of the current version spoils everything read before it. */
  lemma {:induction false} OldLineStopsScan(lines: seq<Line>, n: nat, i: nat)
    requires n <= i < |lines| && lines[i].Parsed? && !lines[i].currentVersion
    requires forall k :: n <= k < i ==> lines[k].Parsed?
    ensures Scan(lines, n) == 0
    decreases i - n
  {
    if n < i && Monotone(lines[n], LastSequence(lines[..n])) {
      OldLineStopsScan(lines, n + 1, i);
    }
  }

  /** The log is then written anew from its sources, numbered from 1. */
  lemma OldLineRebuildsLog(file: LogFile, projected: seq<string>, sizeOf: (string, int) -> LineSize, i: nat)
    requires i < InWindow(file.lines) && file.lines[i].Parsed? && !file.lines[i].currentVersion
    requires forall k :: 0 <= k < i ==> file.lines[k].Parsed?
    requires |projected| <= MAX_EVENTS
    ensures Synced(file, projected, sizeOf) == LogFile(Numbered(projected, 0, sizeOf), 0)
  {
    var window := file.lines[..InWindow(file.lines)];
    OldLineStopsScan(window, 0, i);
    SizeGrows(file.lines, 0, |file.lines|);
    assert file.lines[..|file.lines|] == file.lines && file.lines[..0] == [];
    assert KnownIds([]) == {};
    NoneKnown(projected, {});
    assert Rewritten(file, 0);
    assert [] + Numbered(projected, 0, sizeOf) == Numbered(projected, 0, sizeOf);
  }

  /** The scan keeps every line of a self-written window. */
  lemma {:induction false} ScanKeepsAll(lines: seq<Line>, n: nat)
    requires SelfWritten(lines) && n <= |lines|
    ensures Scan(lines, n) == |lines|
    decreases |lines| - n
  {
    if n < |lines| {
      assert OwnLine(lines[n], n);
      assert n > 0 ==> OwnLine(lines[n - 1], n - 1);
      assert LastSequence(lines[..n]) == n;
      ScanKeepsAll(lines, n + 1);
    }
  }

  /** A self-written log knows one source per line. */
  lemma {:induction false} KnownCountsLines(lines: seq<Line>)
    requires SelfWritten(lines)
    ensures |KnownIds(lines)| == |lines|
    ensures forall i :: 0 <= i < |lines| ==> lines[i].sourceId.value in KnownIds(lines)
    decreases |lines|
  {
    if lines != [] {
      var n := |lines|;
      assert OwnLine(lines[n - 1], n - 1);
      assert lines[..n] == lines;
      CutsAreSelfWritten(lines, n - 1);
      KnownCountsLines(lines[..n - 1]);
      OneMoreKnown(lines, n);
      var id := lines[n - 1].sourceId.value;
      forall i | 0 <= i < n - 1 ensures lines[i].sourceId != Some(id) {
      }
      assert id !in KnownIds(lines[..n - 1]);
    }
  }

  lemma {:induction false} UnknownIsDistinct(projected: seq<string>, known: set<string>)
    requires Distinct(projected)
    ensures Distinct(Unknown(projected, known))
  {
    if projected != [] {
      UnknownIsDistinct(projected[1..], known);
      UnknownHolds(projected[1..], known);
    }
  }

  lemma KnownIdsOfConcat(a: seq<Line>, b: seq<Line>)
    ensures KnownIds(a + b) == KnownIds(a) + KnownIds(b)
  {
    forall id | id in KnownIds(a + b) ensures id in KnownIds(a) + KnownIds(b) {
      var i :| 0 <= i < |a + b| && (a + b)[i].Parsed? && (a + b)[i].sourceId == Some(id);
      if i < |a| {
        assert a[i] == (a + b)[i];
      } else {
        assert b[i - |a|] == (a + b)[i];
      }
    }
    forall id | id in KnownIds(a) ensures id in KnownIds(a + b) {
      var i :| 0 <= i < |a| && a[i].Parsed? && a[i].sourceId == Some(id);
      assert (a + b)[i] == a[i];
    }
    forall id | id in KnownIds(b) ensures id in KnownIds(a + b) {
      var i :| 0 <= i < |b| && b[i].Parsed? && b[i].sourceId == Some(id);
      assert (a + b)[|a| + i] == b[i];
    }
  }

  lemma KnownIdsOfNumbered(rows: seq<string>, last: int, sizeOf: (string, int) -> LineSize)
    ensures forall id :: id in KnownIds(Numbered(rows, last, sizeOf)) <==> id in rows
  {
    var lines := Numbered(rows, last, sizeOf);
    forall i | 0 <= i < |rows| ensures rows[i] in KnownIds(lines) {
      assert lines[i].sourceId == Some(rows[i]);
    }
  }

  /** Appending new sources keeps a self-written log self-written. */
  lemma AppendedLogIsSelfWritten(lines: seq<Line>, rows: seq<string>, sizeOf: (string, int) -> LineSize)
    requires SelfWritten(lines) && Distinct(rows) && |lines| + |rows| <= MAX_EVENTS
    requires forall i :: 0 <= i < |rows| ==> rows[i] !in KnownIds(lines)
    ensures SelfWritten(lines + Numbered(rows, |lines|, sizeOf))
  {
    var longer := lines + Numbered(rows, |lines|, sizeOf);
    forall i | 0 <= i < |longer| ensures OwnLine(longer[i], i) {
      assert i < |lines| ==> OwnLine(lines[i], i);
    }
    forall i, j | 0 <= i < j < |longer| ensures longer[i].sourceId != longer[j].sourceId {
      if i < |lines| <= j {
        KnownCountsLines(lines);
        assert longer[i] == lines[i] && OwnLine(lines[i], i) && longer[j].sourceId == Some(rows[j - |lines|]);
      }
    }
  }

  /** The rows one synchronisation appends to a self-written window. */
  function FreshRows(window: seq<Line>, projected: seq<string>): seq<string> {
    Capped(Unknown(projected, KnownIds(window)), |KnownIds(window)|)
  }

  /**
   The fresh rows are new, distinct, and fit under the cap; when it cuts, the newest ones are
   kept and the log is full.
   */
  lemma FreshRowsFit(window: seq<Line>, projected: seq<string>)
    requires SelfWritten(window) && Distinct(projected)
    ensures var rows := FreshRows(window, projected);
            && |window| + |rows| <= MAX_EVENTS && Distinct(rows)
            && (forall i :: 0 <= i < |rows| ==> rows[i] !in KnownIds(window))
            && var unknown := Unknown(projected, KnownIds(window));
               |rows| <= |unknown| && rows == unknown[|unknown| - |rows|..]
                   && (|window| + |rows| < MAX_EVENTS ==> rows == unknown)
  {
    KnownCountsLines(window);
    UnknownIsDistinct(projected, KnownIds(window));
    UnknownHolds(projected, KnownIds(window));
    var unknown := Unknown(projected, KnownIds(window));
    var rows := FreshRows(window, projected);
    forall i | 0 <= i < |rows| ensures rows[i] !in KnownIds(window) {
      assert rows[i] in unknown;
    }
  }

  /**
   On a self-written log that is not overlooked, synchronising keeps the readable prefix and
   appends the fresh rows.
   */
  lemma SyncedSelfWritten(file: LogFile, projected: seq<string>, sizeOf: (string, int) -> LineSize)
    requires SelfWritten(file.lines) && !Overlooked(file)
    ensures var window := file.lines[..InWindow(file.lines)];
            Synced(file, projected, sizeOf)
                == LogFile(window + Numbered(FreshRows(window, projected), |window|, sizeOf), 0)
  {
    var window := file.lines[..InWindow(file.lines)];
    CutsAreSelfWritten(file.lines, |window|);
    ScanKeepsAll(window, 0);
    assert window[..|window|] == window;
    assert |window| > 0 ==> OwnLine(window[|window| - 1], |window| - 1);
    if !Rewritten(file, |window|) {
      WholeFileWasRead(file);
    }
  }

  /** Bytes read and bytes kept agree only when the whole file was read, or at the overlooked boundary. */
  lemma WholeFileWasRead(file: LogFile)
    requires !Overlooked(file) && !Rewritten(file, InWindow(file.lines))
    ensures file.tail == 0 && file.lines[..InWindow(file.lines)] == file.lines
  {
    var n := InWindow(file.lines);
    SizeOfPrefix(file.lines, n);
    if n < |file.lines| {
      SizeOfPrefix(file.lines, n + 1);
    } else {
      assert file.lines[..n] == file.lines;
    }
  }

  /**
   The log stays self-written: numbered 1 to n, no source twice, never above the cap; and its
   readable prefix survives.
   */
  lemma SyncKeepsSelfWritten(file: LogFile, projected: seq<string>, sizeOf: (string, int) -> LineSize)
    requires SelfWritten(file.lines) && !Overlooked(file) && Distinct(projected)
    ensures var after := Synced(file, projected, sizeOf);
            SelfWritten(after.lines) && after.tail == 0 && file.lines[..InWindow(file.lines)] <= after.lines
  {
    var window := file.lines[..InWindow(file.lines)];
    SyncedSelfWritten(file, projected, sizeOf);
    CutsAreSelfWritten(file.lines, |window|);
    FreshRowsFit(window, projected);
    AppendedLogIsSelfWritten(window, FreshRows(window, projected), sizeOf);
  }

  /** An overlooked log keeps its unread lines, and whatever is fresh to its readable ones is appended after them. */
  lemma SyncedOverlooked(file: LogFile, projected: seq<string>, sizeOf: (string, int) -> LineSize)
    requires Overlooked(file) && SelfWritten(file.lines[..InWindow(file.lines)])
    ensures var window := file.lines[..InWindow(file.lines)];
            Synced(file, projected, sizeOf)
                == Append(file, Numbered(FreshRows(window, projected), |window|, sizeOf))
  {
    var window := file.lines[..InWindow(file.lines)];
    ScanKeepsAll(window, 0);
    assert window[..|window|] == window;
    assert |window| > 0 ==> OwnLine(window[|window| - 1], |window| - 1);
    assert !Rewritten(file, |window|);
  }

  /** The exact condition: what is appended after unread lines breaks the numbering. */
  lemma SelfWrittenExactlyWhen(file: LogFile, projected: seq<string>, sizeOf: (string, int) -> LineSize)
    requires SelfWritten(file.lines) && Distinct(projected)
    ensures SelfWritten(Synced(file, projected, sizeOf).lines)
       <==> !Overlooked(file) || FreshRows(file.lines[..InWindow(file.lines)], projected) == []
  {
    if !Overlooked(file) {
      SyncKeepsSelfWritten(file, projected, sizeOf);
    } else {
      var window := file.lines[..InWindow(file.lines)];
      SyncedOverlooked(file, projected, sizeOf);
      var rows := FreshRows(window, projected);
      var after := Synced(file, projected, sizeOf).lines;
      if rows != [] {
        if file.tail == 0 {
          assert |window| == |file.lines| ==> window == file.lines;
        }
        var at := |file.lines|;
        assert !OwnLine(after[at], at);
      }
    }
  }

  /** Every line takes at least a byte. */
  lemma {:induction false} SizeGrows(lines: seq<Line>, a: nat, b: nat)
    requires a <= b <= |lines|
    ensures Size(lines[..a]) + (b - a) <= Size(lines[..b])
    decreases b
  {
    if a < b {
      SizeGrows(lines, a, b - 1);
      assert lines[..b][..b - 1] == lines[..b - 1];
    }
  }

  /** A window that is full to the last byte stays the window, whatever is written behind it. */
  lemma FullWindowStays(lines: seq<Line>, n: nat)
    requires n <= |lines| && Size(lines[..n]) == READ_LIMIT
    ensures InWindow(lines) == n
  {
    var w := InWindow(lines);
    if w < n {
      SizeGrows(lines, w + 1, n);
    } else {
      SizeGrows(lines, n, w);
    }
  }

  /** Appending to an overlooked log leaves it overlooked, with the same window. */
  lemma AppendedStaysOverlooked(file: LogFile, rows: seq<Line>)
    requires Overlooked(file) && rows != []
    ensures var n, after := InWindow(file.lines), Append(file, rows);
            Overlooked(after) && InWindow(after.lines) == n && after.lines[..n] == file.lines[..n]
            && |after.lines| > |file.lines|
  {
    var n, after := InWindow(file.lines), Append(file, rows);
    assert after.lines[..n] == file.lines[..n];
    FullWindowStays(after.lines, n);
    if n == |file.lines| {
      assert file.lines[..n] == file.lines;
    }
    var longer := after.lines[..n + 1];
    assert longer[..n] == file.lines[..n];
    SizeOfPrefix(after.lines, n + 1);
  }

  /**
   An overlooked log is left alone exactly when its window leaves no row to append; otherwise no number
   of further synchronisations settles it, since each one appends the same rows again.
   */
  lemma OverlookedSettlesExactlyWhen(file: LogFile, projected: seq<string>, sizeOf: (string, int) -> LineSize)
    requires SelfWritten(file.lines[..InWindow(file.lines)]) && Overlooked(file)
    ensures var rows := FreshRows(file.lines[..InWindow(file.lines)], projected);
            var after := Synced(file, projected, sizeOf);
            && (after == file <==> rows == [])
            && (rows != [] ==>
                && Overlooked(after) && |after.lines| > |file.lines|
                && InWindow(after.lines) == InWindow(file.lines)
                && after.lines[..InWindow(file.lines)] == file.lines[..InWindow(file.lines)])
  {
    var window := file.lines[..InWindow(file.lines)];
    SyncedOverlooked(file, projected, sizeOf);
    var lines := Numbered(FreshRows(window, projected), |window|, sizeOf);
    if lines != [] {
      AppendedStaysOverlooked(file, lines);
    }
  }

  lemma UnknownStep(first: string, rest: seq<string>, known: set<string>)
    ensures Unknown([first] + rest, known)
         == if first in known then Unknown(rest, known) else [first] + Unknown(rest, known)
  {
    assert ([first] + rest)[1..] == rest;
  }

  lemma {:induction false} UnknownInTwo(projected: seq<string>, a: set<string>, b: set<string>)
    ensures Unknown(projected, a + b) == Unknown(Unknown(projected, a), b)
  {
    if projected != [] {
      var first, rest := projected[0], projected[1..];
      assert projected == [first] + rest;
      UnknownInTwo(rest, a, b);
      UnknownStep(first, rest, a + b);
      UnknownStep(first, rest, a);
      if first !in a {
        UnknownStep(first, Unknown(rest, a), b);
      }
    }
  }

  lemma {:induction false} UnknownOfConcat(x: seq<string>, y: seq<string>, known: set<string>)
    ensures Unknown(x + y, known) == Unknown(x, known) + Unknown(y, known)
  {
    if x == [] {
      assert x + y == y && Unknown(x, known) + Unknown(y, known) == Unknown(y, known);
    } else {
      var first, rest := x[0], x[1..];
      assert x == [first] + rest && x + y == [first] + (rest + y);
      UnknownOfConcat(rest, y, known);
      UnknownStep(first, rest, known);
      UnknownStep(first, rest + y, known);
      Grouped(first, Unknown(rest, known), Unknown(y, known));
    }
  }

  lemma Grouped(first: string, a: seq<string>, b: seq<string>)
    ensures [first] + (a + b) == ([first] + a) + b
  {
  }

  lemma {:induction false} NoneKnown(rows: seq<string>, known: set<string>)
    requires forall id :: id in rows ==> id !in known
    ensures Unknown(rows, known) == rows
  {
    if rows != [] {
      assert rows[0] in rows;
      NoneKnown(rows[1..], known);
    }
  }

  lemma {:induction false} AllKnown(projected: seq<string>, known: set<string>)
    requires forall id :: id in projected ==> id in known
    ensures Unknown(projected, known) == []
  {
    if projected != [] {
      assert projected[0] in projected;
      AllKnown(projected[1..], known);
    }
  }

  lemma PartsShareNothing(before: seq<string>, middle: seq<string>, after: seq<string>)
    requires Distinct(before + middle + after)
    ensures forall id :: id in before || id in after ==> id !in middle
  {
    var all := before + middle + after;
    forall i, j | 0 <= i < |before| && 0 <= j < |middle| ensures before[i] != middle[j] {
      assert all[i] == before[i] && all[|before| + j] == middle[j];
    }
    forall i, j | 0 <= i < |after| && 0 <= j < |middle| ensures after[i] != middle[j] {
      assert all[|before| + |middle| + i] == after[i] && all[|before| + j] == middle[j];
    }
  }

  /** Once a middle stretch of distinct rows is known, the rest of them is unknown. */
  lemma UnknownWithoutMiddle(before: seq<string>, middle: seq<string>, after: seq<string>, known: set<string>)
    requires Distinct(before + middle + after) && forall id :: id in known <==> id in middle
    ensures Unknown(before + middle + after, known) == before + after
  {
    PartsShareNothing(before, middle, after);
    UnknownOfConcat(before + middle, after, known);
    UnknownOfConcat(before, middle, known);
    AllKnown(middle, known);
    NoneKnown(before, known);
    NoneKnown(after, known);
    assert before + [] == before;
  }

  /** The cap takes the same rows whether or not the first of them are known already. */
  lemma CappedRest(dropped: seq<string>, taken: seq<string>, rest: seq<string>, known: nat)
    requires known <= MAX_EVENTS && Capped(dropped + taken + rest, known) == taken + rest
    ensures Capped(dropped + rest, known + |taken|) == rest
  {
    assert |dropped + taken + rest| == |dropped| + |taken| + |rest|;
    if known + |dropped| + |taken| + |rest| <= MAX_EVENTS {
      assert dropped == [];
      assert dropped + rest == rest;
    } else {
      assert (dropped + rest)[|dropped|..] == rest;
    }
  }

  /** With the first of the capped rows known as well, the cap takes the others. */
  lemma RemainingUnknown(projected: seq<string>, known: set<string>, more: set<string>, all: set<string>,
                         dropped: seq<string>, taken: seq<string>, rest: seq<string>)
    requires Distinct(projected) && |known| <= MAX_EVENTS && forall id :: id in more <==> id in taken
    requires all == known + more && |all| == |known| + |taken|
    requires Unknown(projected, known) == dropped + taken + rest
    requires Capped(dropped + taken + rest, |known|) == taken + rest
    ensures Capped(Unknown(projected, all), |all|) == rest
  {
    UnknownIsDistinct(projected, known);
    UnknownInTwo(projected, known, more);
    UnknownWithoutMiddle(dropped, taken, rest, more);
    CappedRest(dropped, taken, rest, |known|);
  }

  /** What the window knows once the first rows are numbered behind it. */
  lemma KnownWithRows(window: seq<Line>, rows: seq<string>, sizeOf: (string, int) -> LineSize)
    requires SelfWritten(window) && Distinct(rows) && |window| + |rows| <= MAX_EVENTS
    requires forall id :: id in rows ==> id !in KnownIds(window)
    ensures var more := Numbered(rows, |window|, sizeOf);
            && KnownIds(window + more) == KnownIds(window) + KnownIds(more)
            && (forall id :: id in KnownIds(more) <==> id in rows)
            && |KnownIds(window + more)| == |window| + |rows| && |KnownIds(window)| == |window|
  {
    KnownIdsOfConcat(window, Numbered(rows, |window|, sizeOf));
    KnownIdsOfNumbered(rows, |window|, sizeOf);
    AppendedLogIsSelfWritten(window, rows, sizeOf);
    KnownCountsLines(window);
    KnownCountsLines(window + Numbered(rows, |window|, sizeOf));
  }

  /** The first of the fresh rows are themselves new and distinct. */
  lemma FirstFreshRows(window: seq<Line>, projected: seq<string>, taken: seq<string>, rest: seq<string>)
    requires SelfWritten(window) && Distinct(projected) && FreshRows(window, projected) == taken + rest
    ensures Distinct(taken) && |window| + |taken| <= MAX_EVENTS && forall id :: id in taken ==> id !in KnownIds(window)
  {
    FreshRowsFit(window, projected);
    var rows := taken + rest;
    forall i, j | 0 <= i < j < |taken| ensures taken[i] != taken[j] {
      assert rows[i] != rows[j];
    }
    forall i | 0 <= i < |taken| ensures taken[i] !in KnownIds(window) {
      assert rows[i] !in KnownIds(window);
    }
  }

  /** When only the first of the fresh rows are read back, exactly the others are fresh again, the cap included. */
  lemma RemainingFreshRows(window: seq<Line>, projected: seq<string>, taken: seq<string>, rest: seq<string>,
                           sizeOf: (string, int) -> LineSize)
    requires SelfWritten(window) && Distinct(projected) && FreshRows(window, projected) == taken + rest
    ensures FreshRows(window + Numbered(taken, |window|, sizeOf), projected) == rest
  {
    var known := KnownIds(window);
    var unknown := Unknown(projected, known);
    FreshRowsFit(window, projected);
    FirstFreshRows(window, projected, taken, rest);
    KnownWithRows(window, taken, sizeOf);
    var dropped := unknown[..|unknown| - |taken + rest|];
    assert unknown == dropped + taken + rest;
    var more := Numbered(taken, |window|, sizeOf);
    RemainingUnknown(projected, known, KnownIds(more), KnownIds(window + more), dropped, taken, rest);
  }

  lemma PrefixOfConcat(a: seq<Line>, b: seq<Line>, n: nat)
    requires n <= |a| + |b|
    ensures (a + b)[..n] == if n <= |a| then a[..n] else a + b[..n - |a|]
  {
  }

  /** The window of a longer log keeps what was readable before. */
  lemma WindowOfLonger(window: seq<Line>, more: seq<Line>)
    requires Size(window) <= READ_LIMIT
    ensures InWindow(window + more) >= |window|
  {
    var n := InWindow(window + more);
    if n < |window| {
      PrefixOfConcat(window, more, n + 1);
      SizeOfPrefix(window, n + 1);
    }
  }

  lemma NumberedInTwo(a: seq<string>, b: seq<string>, last: int, next: int, sizeOf: (string, int) -> LineSize)
    requires next == last + |a|
    ensures Numbered(a + b, last, sizeOf) == Numbered(a, last, sizeOf) + Numbered(b, next, sizeOf)
  {
  }

  lemma AppendAssociates(a: seq<Line>, b: seq<Line>, c: seq<Line>)
    ensures a + (b + c) == (a + b) + c
  {
  }

  /** Numbering the rest behind what is readable gives the same lines. */
  lemma RowsRejoined(window: seq<Line>, taken: seq<string>, rest: seq<string>, sizeOf: (string, int) -> LineSize)
    ensures var readable := window + Numbered(taken, |window|, sizeOf);
            window + Numbered(taken + rest, |window|, sizeOf) == readable + Numbered(rest, |readable|, sizeOf)
  {
    var first := Numbered(taken, |window|, sizeOf);
    var next := |window + first|;
    NumberedInTwo(taken, rest, |window|, next, sizeOf);
    AppendAssociates(window, first, Numbered(rest, next, sizeOf));
  }

  /** `SyncedSelfWritten` for a named window and its named fresh rows. */
  lemma SyncedAs(file: LogFile, projected: seq<string>, window: seq<Line>, rows: seq<string>, lines: seq<Line>,
                 sizeOf: (string, int) -> LineSize)
    requires SelfWritten(file.lines) && !Overlooked(file)
    requires window == file.lines[..InWindow(file.lines)] && rows == FreshRows(window, projected)
    requires lines == window + Numbered(rows, |window|, sizeOf)
    ensures Synced(file, projected, sizeOf) == LogFile(lines, 0)
  {
    SyncedSelfWritten(file, projected, sizeOf);
  }

  /** A log whose window ends after the first of the fresh rows: the next synchronisation appends the others. */
  lemma SyncAfterSync(window: seq<Line>, projected: seq<string>, taken: seq<string>, rest: seq<string>, after: LogFile,
                      sizeOf: (string, int) -> LineSize)
    requires SelfWritten(window) && Distinct(projected) && FreshRows(window, projected) == taken + rest
    requires after == LogFile(window + Numbered(taken + rest, |window|, sizeOf), 0)
    requires SelfWritten(after.lines) && !Overlooked(after)
    requires after.lines[..InWindow(after.lines)] == window + Numbered(taken, |window|, sizeOf)
    ensures Synced(after, projected, sizeOf) == after
  {
    RowsRejoined(window, taken, rest, sizeOf);
    RemainingFreshRows(window, projected, taken, rest, sizeOf);
    SyncedAs(after, projected, window + Numbered(taken, |window|, sizeOf), rest, after.lines, sizeOf);
  }

  /** Behind an overlooked line, what is fresh again is appended a second time. */
  lemma OverlookedIsNotStable(window: seq<Line>, projected: seq<string>, taken: seq<string>, rest: seq<string>,
                              after: LogFile, sizeOf: (string, int) -> LineSize)
    requires SelfWritten(window) && Distinct(projected) && FreshRows(window, projected) == taken + rest
    requires after == LogFile(window + Numbered(taken + rest, |window|, sizeOf), 0)
    requires SelfWritten(after.lines) && Overlooked(after)
    requires after.lines[..InWindow(after.lines)] == window + Numbered(taken, |window|, sizeOf)
    ensures !SelfWritten(Synced(after, projected, sizeOf).lines)
  {
    RemainingFreshRows(window, projected, taken, rest, sizeOf);
    assert after.lines[..|after.lines|] == after.lines;
    SelfWrittenExactlyWhen(after, projected, sizeOf);
  }

  /** The window of a log ends after some of the rows numbered behind a readable prefix. */
  lemma ReadableRows(window: seq<Line>, rows: seq<string>, sizeOf: (string, int) -> LineSize)
    returns (taken: seq<string>, rest: seq<string>)
    requires Size(window) <= READ_LIMIT
    ensures rows == taken + rest
    ensures var lines := window + Numbered(rows, |window|, sizeOf);
            lines[..InWindow(lines)] == window + Numbered(taken, |window|, sizeOf)
  {
    var more := Numbered(rows, |window|, sizeOf);
    WindowOfLonger(window, more);
    var k := InWindow(window + more) - |window|;
    PrefixOfConcat(window, more, |window| + k);
    taken, rest := rows[..k], rows[k..];
    assert more[..k] == Numbered(taken, |window|, sizeOf);
  }

  /**
   With unchanged sources a second synchronisation of a log that was not overlooked changes nothing
   exactly when the first one left no overlooked line, however long the log is.
   */
  lemma ReadLogSettlesExactlyWhen(file: LogFile, projected: seq<string>, sizeOf: (string, int) -> LineSize)
    requires SelfWritten(file.lines) && !Overlooked(file) && Distinct(projected)
    ensures var after := Synced(file, projected, sizeOf);
            Synced(after, projected, sizeOf) == after <==> !Overlooked(after)
  {
    var window := file.lines[..InWindow(file.lines)];
    var after := Synced(file, projected, sizeOf);
    CutsAreSelfWritten(file.lines, |window|);
    SyncedSelfWritten(file, projected, sizeOf);
    SyncKeepsSelfWritten(file, projected, sizeOf);
    var taken, rest := ReadableRows(window, FreshRows(window, projected), sizeOf);
    if Overlooked(after) {
      OverlookedIsNotStable(window, projected, taken, rest, after, sizeOf);
    } else {
      SyncAfterSync(window, projected, taken, rest, after, sizeOf);
    }
  }

  /**
   The same for every self-written log: the second synchronisation changes nothing exactly when no line
   is overlooked or, in a log that was overlooked before, the readable lines leave no row to append.
   */
  lemma SyncIsIdempotentExactlyWhen(file: LogFile, projected: seq<string>, sizeOf: (string, int) -> LineSize)
    requires SelfWritten(file.lines) && Distinct(projected)
    ensures var after := Synced(file, projected, sizeOf);
            Synced(after, projected, sizeOf) == after <==>
              if Overlooked(file) then FreshRows(file.lines[..InWindow(file.lines)], projected) == []
              else !Overlooked(after)
  {
    if Overlooked(file) {
      CutsAreSelfWritten(file.lines, InWindow(file.lines));
      OverlookedSettlesExactlyWhen(file, projected, sizeOf);
      var after := Synced(file, projected, sizeOf);
      OverlookedSettlesExactlyWhen(after, projected, sizeOf);
    } else {
      ReadLogSettlesExactlyWhen(file, projected, sizeOf);
    }
  }

  /** Over any history of synchronisations and crash cuts that never overlooks a line, the log stays self-written. */
  datatype Event = Sync(projected: seq<string>) | Cut(lines: nat, tail: nat)

  function Happened(events: seq<Event>, sizeOf: (string, int) -> LineSize): LogFile {
    if events == [] then LogFile([], 0)
    else
      var before := Happened(events[..|events| - 1], sizeOf);
      match events[|events| - 1]
      case Sync(projected) => Synced(before, projected, sizeOf)
      case Cut(n, tail) => if n < |before.lines| then LogFile(before.lines[..n], tail) else before
  }

  lemma {:induction false} EveryHistoryIsSelfWritten(events: seq<Event>, sizeOf: (string, int) -> LineSize)
    requires forall i :: 0 <= i < |events| && events[i].Sync? ==>
      Distinct(events[i].projected) && !Overlooked(Happened(events[..i], sizeOf))
    ensures SelfWritten(Happened(events, sizeOf).lines)
    decreases |events|
  {
    if events != [] {
      var n := |events| - 1;
      forall i | 0 <= i < n && events[..n][i].Sync?
        ensures Distinct(events[..n][i].projected) && !Overlooked(Happened(events[..n][..i], sizeOf))
      {
        assert events[..n][i] == events[i] && events[..n][..i] == events[..i];
      }
      EveryHistoryIsSelfWritten(events[..n], sizeOf);
      var before := Happened(events[..n], sizeOf);
      if events[n].Sync? {
        SyncKeepsSelfWritten(before, events[n].projected, sizeOf);
      } else if events[n].lines < |before.lines| {
        CutsAreSelfWritten(before.lines, events[n].lines);
      }
    }
  }

  // --------------------------------------------------- when nothing is overlooked

  const LINE_LIMIT: nat := 2048

  predicate SmallLines(lines: seq<Line>) {
    forall i :: 0 <= i < |lines| ==> lines[i].size <= LINE_LIMIT
  }

  lemma {:induction false} SmallLinesAreRead(lines: seq<Line>)
    requires SmallLines(lines)
    ensures Size(lines) <= LINE_LIMIT * |lines|
    decreases |lines|
  {
    if lines != [] {
      SmallLinesAreRead(lines[..|lines| - 1]);
    }
  }

  /** A log of small lines within the cap fits in the read window, unless it is full and cut inside one more line. */
  lemma SmallLogIsNotOverlooked(file: LogFile)
    requires SmallLines(file.lines) && |file.lines| <= MAX_EVENTS && (file.tail > 0 ==> |file.lines| < MAX_EVENTS)
    ensures !Overlooked(file)
  {
    var n := InWindow(file.lines);
    SmallLinesAreRead(file.lines[..n]);
    if n == |file.lines| {
      assert file.lines[..n] == file.lines;
    }
  }

  /** One event keeps a history of small lines readable. */
  lemma SmallStep(before: LogFile, projected: seq<string>, sizeOf: (string, int) -> LineSize)
    requires SelfWritten(before.lines) && SmallLines(before.lines) && !Overlooked(before) && Distinct(projected)
    requires forall id, n :: sizeOf(id, n) <= LINE_LIMIT
    ensures var after := Synced(before, projected, sizeOf);
            SelfWritten(after.lines) && SmallLines(after.lines) && after.tail == 0
  {
    SyncKeepsSelfWritten(before, projected, sizeOf);
    SyncedSelfWritten(before, projected, sizeOf);
  }

  /**
   When no line is longer than its share of the read window, every history of
   synchronisations and crash cuts is self-written, and no line is ever overlooked.
   */
  lemma {:induction false} SmallHistoriesAreSelfWritten(events: seq<Event>, sizeOf: (string, int) -> LineSize)
    requires forall id, n :: sizeOf(id, n) <= LINE_LIMIT
    requires forall i :: 0 <= i < |events| && events[i].Sync? ==> Distinct(events[i].projected)
    ensures var h := Happened(events, sizeOf);
            && SelfWritten(h.lines) && SmallLines(h.lines) && (h.tail > 0 ==> |h.lines| < MAX_EVENTS)
            && !Overlooked(h)
    decreases |events|
  {
    if events != [] {
      var n := |events| - 1;
      SmallHistoriesAreSelfWritten(events[..n], sizeOf);
      var before := Happened(events[..n], sizeOf);
      match events[n] {
        case Sync(projected) => SmallStep(before, projected, sizeOf);
        case Cut(m, _) =>
          if m < |before.lines| {
            CutsAreSelfWritten(before.lines, m);
          }
      }
    }
    SmallLogIsNotOverlooked(Happened(events, sizeOf));
  }

  lemma HappenedTwice(projected: seq<string>, sizeOf: (string, int) -> LineSize)
    ensures Happened([Sync(projected)], sizeOf) == Synced(LogFile([], 0), projected, sizeOf)
    ensures Happened([Sync(projected), Sync(projected)], sizeOf)
         == Synced(Happened([Sync(projected)], sizeOf), projected, sizeOf)
  {
    assert [Sync(projected)][..0] == [];
    assert [Sync(projected), Sync(projected)][..1] == [Sync(projected)];
  }

  /** Lines of one size take that size each. */
  lemma {:induction false} EqualLines(lines: seq<Line>, size: nat)
    requires forall i :: 0 <= i < |lines| ==> lines[i].size == size
    ensures Size(lines) == size * |lines|
    decreases |lines|
  {
    if lines != [] {
      EqualLines(lines[..|lines| - 1], size);
    }
  }

  /** When some of the lines fill the read window exactly, the others are overlooked. */
  lemma EqualLinesAreOverlooked(lines: seq<Line>, size: nat, filled: nat)
    requires forall i :: 0 <= i < |lines| ==> lines[i].size == size
    requires size * filled == READ_LIMIT && filled < |lines|
    ensures InWindow(lines) == filled && Overlooked(LogFile(lines, 0))
  {
    EqualLines(lines[..filled], size);
    FullWindowStays(lines, filled);
    SizeOfPrefix(lines, filled + 1);
    assert lines[..filled + 1][..filled] == lines[..filled];
  }

  /** What the first synchronisation writes. */
  lemma FirstSync(ids: seq<string>, sizeOf: (string, int) -> LineSize)
    requires Distinct(ids) && |ids| <= MAX_EVENTS
    ensures FreshRows([], ids) == ids
    ensures Synced(LogFile([], 0), ids, sizeOf) == LogFile([] + Numbered(ids, 0, sizeOf), 0)
    ensures SelfWritten(Synced(LogFile([], 0), ids, sizeOf).lines)
  {
    var known := KnownIds([]);
    assert known == {};
    NoneKnown(ids, known);
    SyncedSelfWritten(LogFile([], 0), ids, sizeOf);
    SyncKeepsSelfWritten(LogFile([], 0), ids, sizeOf);
  }

  /**
   Lines of one size that fill the read window exactly, with at least one more behind them: the next
   synchronisation of the same sources repeats those that it does not read back.
   */
  lemma FullWindowRepeats(ids: seq<string>, size: nat, filled: nat, sizeOf: (string, int) -> LineSize)
    requires size * filled == READ_LIMIT && filled < |ids| <= MAX_EVENTS && Distinct(ids)
    requires forall id, n :: sizeOf(id, n) == size
    ensures SelfWritten(Happened([Sync(ids)], sizeOf).lines)
    ensures Overlooked(Happened([Sync(ids)], sizeOf))
    ensures !SelfWritten(Happened([Sync(ids), Sync(ids)], sizeOf).lines)
  {
    HappenedTwice(ids, sizeOf);
    FirstSync(ids, sizeOf);
    var after := Synced(LogFile([], 0), ids, sizeOf);
    EqualLinesAreOverlooked(after.lines, size, filled);
    var taken, rest := ReadableRows([], ids, sizeOf);
    OverlookedIsNotStable([], ids, taken, rest, after, sizeOf);
  }

  /** For example, 625 lines of 64 KiB fill the window, so the last of 626 is written twice. */
  lemma WideLinesAreRepeated(ids: seq<string>, sizeOf: (string, int) -> LineSize)
    requires Distinct(ids) && |ids| == 626 && forall id, n :: sizeOf(id, n) == 65_536
    ensures SelfWritten(Happened([Sync(ids)], sizeOf).lines)
    ensures Overlooked(Happened([Sync(ids)], sizeOf))
    ensures !SelfWritten(Happened([Sync(ids), Sync(ids)], sizeOf).lines)
  {
    FullWindowRepeats(ids, 65_536, 625, sizeOf);
  }
}
