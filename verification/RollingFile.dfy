/** RollingFileAppender: a log file that is renamed through a chain of numbered backups when it has
    reached its maximal size. */
module RolledLog {
  import opened Text

  /** Everything logged: the completed segments, oldest first, and the text of the current one. */
  datatype Log = Log(done: seq<string>, current: string)

  function Written(log: Log): string { Concat(log.done) + log.current }

  /** A message is never split; it completes the segment when that has reached the maximal size. */
  function Logged(log: Log, message: string, maxSize: nat): Log {
    var text := log.current + message;
    if |text| >= maxSize then Log(log.done + [text], "") else Log(log.done, text)
  }

  lemma LoggedWritten(log: Log, message: string, maxSize: nat)
    ensures Written(Logged(log, message, maxSize)) == Written(log) + message
  {
    var text := log.current + message;
    ConcatSnoc(log.done, text);
    assert Concat(log.done) + text == Written(log) + message;
    assert Concat(log.done) + text + "" == Concat(log.done) + text;
  }

  function AllLogged(log: Log, messages: seq<string>, maxSize: nat): Log
    decreases |messages|
  {
    if messages == [] then log else AllLogged(Logged(log, messages[0], maxSize), messages[1..], maxSize)
  }

  /** Whatever is logged, nothing is lost or reordered, every completed segment has reached the maximal
      size, and the current one has not (unless that size is 0, when it is empty). */
  lemma {:induction false} AllLoggedWritten(log: Log, messages: seq<string>, maxSize: nat)
    requires log.current == "" || |log.current| < maxSize
    requires forall i :: 0 <= i < |log.done| ==> |log.done[i]| >= maxSize
    ensures var r := AllLogged(log, messages, maxSize);
      && Written(r) == Written(log) + Concat(messages)
      && (r.current == "" || |r.current| < maxSize)
      && forall i :: 0 <= i < |r.done| ==> |r.done[i]| >= maxSize
    decreases |messages|
  {
    if messages == [] {
      assert Written(log) + "" == Written(log);
    } else {
      LoggedWritten(log, messages[0], maxSize);
      AllLoggedWritten(Logged(log, messages[0], maxSize), messages[1..], maxSize);
      assert Written(log) + (messages[0] + Concat(messages[1..])) == Written(log) + messages[0] + Concat(messages[1..]);
    }
  }

  /** The segment ends with the message, and was below the maximal size without it, if there was any of it. */
  ghost predicate CompletedBy(segment: string, message: string, maxSize: nat) {
    var n := |segment| - |message|;
    n >= 0 && segment[n..] == message && (n == 0 || n < maxSize)
  }

  ghost predicate CompletedByOne(segment: string, messages: seq<string>, maxSize: nat) {
    exists k :: 0 <= k < |messages| && CompletedBy(segment, messages[k], maxSize)
  }

  /** Every segment ends with the message that made it reach the maximal size: none is longer than that. */
  lemma {:induction false} SegmentsEndInTime(log: Log, messages: seq<string>, maxSize: nat)
    requires log.current == "" || |log.current| < maxSize
    ensures var r := AllLogged(log, messages, maxSize);
      && |log.done| <= |r.done| && r.done[..|log.done|] == log.done
      && forall i :: |log.done| <= i < |r.done| ==> CompletedByOne(r.done[i], messages, maxSize)
    decreases |messages|
  {
    if messages != [] {
      var next := Logged(log, messages[0], maxSize);
      SegmentsEndInTime(next, messages[1..], maxSize);
      var r := AllLogged(log, messages, maxSize);
      hide CompletedBy, Logged;
      LoggedSegments(log, messages[0], maxSize);
      forall i | |log.done| <= i < |r.done| ensures CompletedByOne(r.done[i], messages, maxSize) {
        if i < |next.done| {
          assert r.done[i] == r.done[..|next.done|][i];
          assert CompletedBy(r.done[i], messages[0], maxSize);
        } else {
          OneOfMore(r.done[i], messages, maxSize);
        }
      }
    }
  }

  lemma LoggedSegments(log: Log, message: string, maxSize: nat)
    requires log.current == "" || |log.current| < maxSize
    ensures var next := Logged(log, message, maxSize);
      && |log.done| <= |next.done| <= |log.done| + 1 && next.done[..|log.done|] == log.done
      && (|next.done| > |log.done| ==> CompletedBy(next.done[|log.done|], message, maxSize))
  {
    assert (log.current + message)[|log.current|..] == message;
  }

  lemma OneOfMore(segment: string, messages: seq<string>, maxSize: nat)
    requires messages != [] && CompletedByOne(segment, messages[1..], maxSize)
    ensures CompletedByOne(segment, messages, maxSize)
  {
    var k :| 0 <= k < |messages[1..]| && CompletedBy(segment, messages[1..][k], maxSize);
    assert CompletedBy(segment, messages[k + 1], maxSize);
  }

  /** The text of the n newest segments and of the current one. */
  function Kept(log: Log, n: nat): string
    requires n <= |log.done|
  {
    Concat(log.done[|log.done| - n..]) + log.current
  }

  lemma KeptStep(log: Log, n: nat)
    requires 1 <= n <= |log.done|
    ensures Kept(log, n) == log.done[|log.done| - n] + Kept(log, n - 1)
  {
    var rest := log.done[|log.done| - n..];
    assert rest[1..] == log.done[|log.done| - (n - 1)..];
    assert rest[0] + Concat(rest[1..]) + log.current == rest[0] + (Concat(rest[1..]) + log.current);
  }

  lemma KeptNone(log: Log)
    ensures Kept(log, 0) == log.current
  {
    assert log.done[|log.done|..] == [] && "" + log.current == log.current;
  }

  /** It is a suffix of everything written: the older segments make up the rest. */
  lemma KeptIsSuffix(log: Log, n: nat)
    requires n <= |log.done|
    ensures Written(log) == Concat(log.done[..|log.done| - n]) + Kept(log, n)
  {
    var a, b := log.done[..|log.done| - n], log.done[|log.done| - n..];
    assert log.done == a + b;
    ConcatAppend(a, b);
    assert Concat(a) + (Concat(b) + log.current) == Concat(a) + Concat(b) + log.current;
  }
}

module BackupNames {
  import opened Text

  /** std::setw(width) << std::setfill('0') << i. */
  function Padded(i: nat, width: nat): (s: string)
    ensures |s| >= 1 && forall k :: 0 <= k < |s| ==> IsDigit(s[k])
  {
    var d := Digits(i);
    if |d| >= width then d else Repeat('0', width - |d|) + d
  }

  /** The files of one appender. */
  datatype Chain = Chain(fileName: string, width: nat) {
    /** File 0 is the log file itself; file i > 0 is backup i. */
    function Name(i: nat): string {
      if i == 0 then fileName else fileName + "." + Padded(i, width)
    }
  }

  lemma {:induction false} LeadingZeros(k: nat, s: string)
    requires forall i :: 0 <= i < |s| ==> IsDigit(s[i])
    ensures Numeral(Repeat('0', k) + s) == Numeral(s)
    decreases k + |s|
  {
    var t := Repeat('0', k) + s;
    if s != "" {
      assert t[..|t| - 1] == Repeat('0', k) + s[..|s| - 1];
      LeadingZeros(k, s[..|s| - 1]);
    } else if k > 0 {
      assert t[..|t| - 1] == Repeat('0', k - 1) + s;
      LeadingZeros(k - 1, s);
    }
  }

  lemma PaddedNumeral(i: nat, width: nat)
    ensures Numeral(Padded(i, width)) == i
  {
    NumeralOfDigits(i);
    if |Digits(i)| < width { LeadingZeros(width - |Digits(i)|, Digits(i)); }
  }

  /** The log file has the name it was given. Backup i has that name, a dot, and the numeral of i, of at
      least the width: leading zeros only fill it up. */
  lemma NameIs(c: Chain, i: nat) returns (numeral: string)
    ensures c.Name(0) == c.fileName
    ensures i >= 1 ==> c.Name(i) == c.fileName + "." + numeral
    ensures (forall k :: 0 <= k < |numeral| ==> numeral[k] in "0123456789") && Numeral(numeral) == i
    ensures |numeral| >= c.width && (|numeral| > c.width && i >= 1 ==> numeral[0] != '0')
  {
    numeral := Padded(i, c.width);
    PaddedNumeral(i, c.width);
    FirstDigit(i);
    hide Digits, Numeral;
    forall k | 0 <= k < |numeral| ensures numeral[k] in "0123456789" { DigitListed(numeral[k]); }
  }

  lemma DigitListed(c: char)
    requires IsDigit(c)
    ensures c in "0123456789"
  {
    var d := (c - '0') as int;
    assert "0123456789"[d] == c;
  }

  /** No two files of the chain have the same name. */
  lemma NamesDiffer(c: Chain, i: nat, j: nat)
    requires i != j
    ensures c.Name(i) != c.Name(j)
  {
    if i != 0 && j != 0 {
      PaddedNumeral(i, c.width);
      PaddedNumeral(j, c.width);
      assert c.Name(i)[|c.fileName| + 1..] == Padded(i, c.width) && c.Name(j)[|c.fileName| + 1..] == Padded(j, c.width);
    }
  }
}

module RollingFileAppender {
  import opened Text
  import opened RolledLog
  import opened BackupNames

  /** A directory: the contents of its files by name. */
  type Directory = map<string, string>

  function At(d: Directory, name: string): Option<string> {
    if name in d then Some(d[name]) else None
  }

  /** ::rename, which fails when there is no such file. */
  function Renamed(d: Directory, from: string, to: string): Directory {
    if from in d then (d - {from})[to := d[from]] else d
  }

  /** ::open with O_CREAT, and O_TRUNC if truncate. */
  function Opened(d: Directory, name: string, truncate: bool): Directory {
    if truncate || name !in d then d[name := ""] else d
  }

  lemma RenamedAt(d: Directory, from: string, to: string, n: string)
    requires from != to
    ensures At(Renamed(d, from, to), n) ==
      if n == to && from in d then At(d, from) else if n == from then None else At(d, n)
  {
  }

  /** n is none of the files 0 to max. */
  ghost predicate Outside(c: Chain, max: nat, n: string) {
    forall j :: 0 <= j <= max ==> n != c.Name(j)
  }

  /** Halfway down the chain: the files above i have moved up, file i is free, and those below are
      where they were. */
  ghost predicate Shifted(c: Chain, max: nat, was: Directory, d: Directory, i: nat) {
    && (forall j {:trigger At(d, c.Name(j))} :: i < j <= max ==> At(d, c.Name(j)) == At(was, c.Name(j - 1)))
    && At(d, c.Name(i)) == None
    && (forall j {:trigger At(d, c.Name(j))} :: 0 <= j < i ==> At(d, c.Name(j)) == At(was, c.Name(j)))
    && forall n :: Outside(c, max, n) ==> At(d, n) == At(was, n)
  }

  lemma LastRemoved(c: Chain, max: nat, d: Directory)
    requires max >= 1
    ensures Shifted(c, max, d, d - {c.Name(max)}, max)
  {
    forall j | 0 <= j < max ensures c.Name(j) != c.Name(max) { NamesDiffer(c, j, max); }
  }

  lemma OutsideDiffers(c: Chain, max: nat, n: string, i: nat)
    requires Outside(c, max, n) && i <= max
    ensures n != c.Name(i)
  {
  }

  /** Renaming file i - 1 to file i leaves the other files alone. */
  lemma OthersStay(c: Chain, d: Directory, i: nat, n: string)
    requires i >= 1 && n != c.Name(i) && n != c.Name(i - 1)
    ensures At(Renamed(d, c.Name(i - 1), c.Name(i)), n) == At(d, n)
  {
    hide Chain.Name;
    NamesDiffer(c, i - 1, i);
    RenamedAt(d, c.Name(i - 1), c.Name(i), n);
  }

  lemma FileMoved(c: Chain, d: Directory, i: nat)
    requires i >= 1 && At(d, c.Name(i)) == None
    ensures var d' := Renamed(d, c.Name(i - 1), c.Name(i));
      At(d', c.Name(i)) == At(d, c.Name(i - 1)) && At(d', c.Name(i - 1)) == None
  {
    hide Chain.Name;
    NamesDiffer(c, i - 1, i);
    RenamedAt(d, c.Name(i - 1), c.Name(i), c.Name(i));
    RenamedAt(d, c.Name(i - 1), c.Name(i), c.Name(i - 1));
  }

  lemma ShiftOne(c: Chain, max: nat, was: Directory, d: Directory, i: nat)
    requires 1 <= i <= max && Shifted(c, max, was, d, i)
    ensures Shifted(c, max, was, Renamed(d, c.Name(i - 1), c.Name(i)), i - 1)
  {
    hide Chain.Name, Renamed, At, Outside;
    var d' := Renamed(d, c.Name(i - 1), c.Name(i));
    assert At(d, c.Name(i - 1)) == At(was, c.Name(i - 1));
    FileMoved(c, d, i);
    forall j | 0 <= j < i - 1 || i < j <= max ensures At(d', c.Name(j)) == At(d, c.Name(j)) {
      NamesDiffer(c, j, i);
      NamesDiffer(c, j, i - 1);
      OthersStay(c, d, i, c.Name(j));
    }
    forall n | Outside(c, max, n) ensures At(d', n) == At(was, n) {
      OutsideDiffers(c, max, n, i);
      OutsideDiffers(c, max, n, i - 1);
      OthersStay(c, d, i, n);
    }
  }

  /** What rolling over does to the directory: every file of the chain moves up one place, the last one
      is lost, the log file is new, and files outside the chain stay. */
  ghost predicate RolledOver(c: Chain, max: nat, was: Directory, d: Directory) {
    && At(d, c.Name(0)) == Some("")
    && (forall j {:trigger At(d, c.Name(j))} :: 1 <= j <= max ==> At(d, c.Name(j)) == At(was, c.Name(j - 1)))
    && forall n :: Outside(c, max, n) ==> At(d, n) == At(was, n)
  }

  lemma NewLogFile(c: Chain, max: nat, was: Directory, d: Directory, truncate: bool)
    requires Shifted(c, max, was, d, 0)
    ensures RolledOver(c, max, was, Opened(d, c.Name(0), truncate))
  {
    var d' := Opened(d, c.Name(0), truncate);
    forall j | 1 <= j <= max ensures At(d', c.Name(j)) == At(was, c.Name(j - 1)) {
      NamesDiffer(c, 0, j);
      assert At(d, c.Name(j)) == At(was, c.Name(j - 1));
    }
    forall n | Outside(c, max, n) ensures At(d', n) == At(was, n) {
      assert n != c.Name(0);
    }
  }

  /** What backup i should hold. */
  function Segment(max: nat, done: seq<string>, i: nat): Option<string>
    requires i >= 1
  {
    if i <= Min(max, |done|) then Some(done[|done| - i]) else None
  }

  /** Backup i is the i-th most recent completed segment, for as many as there are and may be kept;
      there are no others; and the log file holds the current segment. */
  ghost predicate Holds(c: Chain, max: nat, d: Directory, log: Log) {
    && At(d, c.Name(0)) == Some(log.current)
    && forall i {:trigger At(d, c.Name(i))} :: i >= 1 ==> At(d, c.Name(i)) == Segment(max, log.done, i)
  }

  /** The backups in a directory are the segments in done, as an earlier appender may have left them. */
  ghost predicate BackupsAre(c: Chain, max: nat, d: Directory, done: seq<string>) {
    forall i {:trigger At(d, c.Name(i))} :: i >= 1 ==> At(d, c.Name(i)) == Segment(max, done, i)
  }

  lemma LogFileOpened(c: Chain, max: nat, d: Directory, truncate: bool, done: seq<string>)
    requires BackupsAre(c, max, d, done)
    ensures var n := c.Name(0);
      Holds(c, max, Opened(d, n, truncate), Log(done, if !truncate && n in d then d[n] else ""))
  {
    hide Chain.Name;
    forall i | i >= 1 ensures At(Opened(d, c.Name(0), truncate), c.Name(i)) == At(d, c.Name(i)) {
      NamesDiffer(c, 0, i);
    }
  }

  /** With another backup count, the backups that are there are the right ones exactly when no segment is
      beyond either count, or the count is the same. */
  lemma NewCountExactly(c: Chain, max: nat, newMax: nat, d: Directory, log: Log)
    requires Holds(c, max, d, log)
    ensures Holds(c, newMax, d, log) <==> max == newMax || |log.done| <= Min(max, newMax)
  {
    hide Chain.Name;
    var i := if max < newMax then max + 1 else newMax + 1;
    assert At(d, c.Name(i)) == Segment(max, log.done, i);
  }

  /** Two widths name all files alike. */
  predicate SameNames(width: nat, newWidth: nat) {
    width == newWidth || (width <= 1 && newWidth <= 1)
  }

  lemma NamesKept(c: Chain, newWidth: nat, i: nat)
    requires SameNames(c.width, newWidth)
    ensures Chain(c.fileName, newWidth).Name(i) == c.Name(i)
  {
  }

  lemma NamesChanged(c: Chain, newWidth: nat, j: nat)
    requires !SameNames(c.width, newWidth)
    ensures Chain(c.fileName, newWidth).Name(1) != c.Name(j)
  {
    var e := Chain(c.fileName, newWidth);
    PaddedOne(c.width);
    PaddedOne(newWidth);
    if j > 1 {
      PaddedNumeral(1, newWidth);
      PaddedNumeral(j, c.width);
      assert e.Name(1)[|c.fileName| + 1..] == Padded(1, newWidth);
      assert c.Name(j)[|c.fileName| + 1..] == Padded(j, c.width);
    }
  }

  lemma PaddedOne(width: nat)
    ensures |Padded(1, width)| == if width <= 1 then 1 else width
  {
  }

  /** The directory has no other files. */
  ghost predicate OnlyChain(c: Chain, d: Directory) {
    forall n :: n in d ==> exists i :: n == c.Name(i)
  }

  /** With another width as well: in a directory of its own, the chain stays right exactly when it has no
      segments yet, or its files keep their names and the count allows it. */
  lemma NewWidthExactly(c: Chain, newWidth: nat, max: nat, newMax: nat, d: Directory, log: Log)
    requires max >= 1 && newMax >= 1 && Holds(c, max, d, log) && OnlyChain(c, d)
    ensures Holds(Chain(c.fileName, newWidth), newMax, d, log) <==>
      log.done == [] || (SameNames(c.width, newWidth) && (max == newMax || |log.done| <= Min(max, newMax)))
  {
    hide Chain.Name, SameNames;
    var e := Chain(c.fileName, newWidth);
    assert e.Name(0) == c.Name(0) by { LogFileName(c, newWidth); }
    if SameNames(c.width, newWidth) {
      forall i ensures e.Name(i) == c.Name(i) { NamesKept(c, newWidth, i); }
      assert Holds(e, newMax, d, log) <==> Holds(c, newMax, d, log);
      NewCountExactly(c, max, newMax, d, log);
    } else if log.done == [] {
      forall i | i >= 1 ensures At(d, e.Name(i)) == None { NoSegmentNamed(c, e, max, d, log, i); }
    } else {
      forall j ensures e.Name(1) != c.Name(j) { NamesChanged(c, newWidth, j); }
      assert At(d, e.Name(1)) == None && 1 <= Min(newMax, |log.done|);
    }
  }

  lemma LogFileName(c: Chain, newWidth: nat)
    ensures Chain(c.fileName, newWidth).Name(0) == c.Name(0)
  {
  }

  lemma NoSegmentNamed(c: Chain, e: Chain, max: nat, d: Directory, log: Log, i: nat)
    requires Holds(c, max, d, log) && OnlyChain(c, d) && log.done == [] && i >= 1 && e.Name(0) == c.Name(0)
    ensures At(d, e.Name(i)) == None
  {
    hide Chain.Name;
    forall j ensures c.Name(j) == e.Name(i) ==> c.Name(j) !in d {
      if j == 0 {
        NamesDiffer(e, 0, i);
      } else {
        assert At(d, c.Name(j)) == None;
      }
    }
  }

  lemma CurrentHeld(c: Chain, max: nat, d: Directory, log: Log)
    requires Holds(c, max, d, log)
    ensures c.Name(0) in d && d[c.Name(0)] == log.current
  {
  }

  lemma OthersUntouched(c: Chain, max: nat, d: Directory, text: string)
    ensures forall n :: Outside(c, max, n) ==> At(d[c.Name(0) := text], n) == At(d, n)
  {
    forall n | Outside(c, max, n) ensures n != c.Name(0) {
      assert 0 <= max;
    }
  }

  lemma OutsideRolledOver(c: Chain, max: nat, was: Directory, d: Directory)
    requires RolledOver(c, max, was, d)
    ensures c.Name(0) in d && forall n :: Outside(c, max, n) ==> At(d, n) == At(was, n)
  {
  }

  lemma CurrentGrows(c: Chain, max: nat, d: Directory, log: Log, text: string)
    requires Holds(c, max, d, log)
    ensures Holds(c, max, d[c.Name(0) := text], Log(log.done, text))
  {
    var d' := d[c.Name(0) := text];
    forall i | i >= 1 ensures At(d', c.Name(i)) == At(d, c.Name(i)) { NamesDiffer(c, 0, i); }
  }

  lemma SegmentCompleted(c: Chain, max: nat, was: Directory, d: Directory, log: Log)
    requires max >= 1 && Holds(c, max, was, log) && RolledOver(c, max, was, d)
    ensures Holds(c, max, d, Log(log.done + [log.current], ""))
  {
    hide Chain.Name, At, Outside, Holds, RolledOver;
    forall i | i >= 1 ensures At(d, c.Name(i)) == Segment(max, log.done + [log.current], i) {
      BackupMoved(c, max, was, d, log, i);
    }
    NewLogIsEmpty(c, max, was, d);
    HoldsIs(c, max, d, Log(log.done + [log.current], ""));
  }

  lemma HoldsIs(c: Chain, max: nat, d: Directory, log: Log)
    requires At(d, c.Name(0)) == Some(log.current)
    requires forall i {:trigger At(d, c.Name(i))} :: i >= 1 ==> At(d, c.Name(i)) == Segment(max, log.done, i)
    ensures Holds(c, max, d, log)
  {
  }

  lemma NewLogIsEmpty(c: Chain, max: nat, was: Directory, d: Directory)
    requires RolledOver(c, max, was, d)
    ensures At(d, c.Name(0)) == Some("")
  {
  }

  /** Backup i after rolling over is file i - 1 before. */
  lemma BackupMoved(c: Chain, max: nat, was: Directory, d: Directory, log: Log, i: nat)
    requires i >= 1 && Holds(c, max, was, log) && RolledOver(c, max, was, d)
    ensures At(d, c.Name(i)) == Segment(max, log.done + [log.current], i)
  {
    hide Chain.Name, At, Outside;
    if i <= max {
      assert At(d, c.Name(i)) == At(was, c.Name(i - 1));
    } else {
      BeyondChain(c, max, i);
      assert At(d, c.Name(i)) == At(was, c.Name(i));
    }
  }

  lemma BeyondChain(c: Chain, max: nat, i: nat)
    requires i > max
    ensures Outside(c, max, c.Name(i))
  {
    forall j | 0 <= j <= max ensures c.Name(i) != c.Name(j) { NamesDiffer(c, i, j); }
  }

  /** The backups from n down to 1, followed by the log file. */
  function ReadBack(c: Chain, d: Directory, n: nat): string {
    (if c.Name(n) in d then d[c.Name(n)] else "") + if n == 0 then "" else ReadBack(c, d, n - 1)
  }

  lemma ReadBackStep(c: Chain, d: Directory, n: nat, text: string)
    requires At(d, c.Name(n)) == Some(text)
    ensures ReadBack(c, d, n) == if n == 0 then text else text + ReadBack(c, d, n - 1)
  {
    hide Chain.Name;
    assert text + "" == text;
  }

  /** Read from the oldest backup to the log file, the directory gives the newest segments. */
  lemma {:induction false} ReadBackKept(c: Chain, max: nat, d: Directory, log: Log, n: nat)
    requires Holds(c, max, d, log) && n <= Min(max, |log.done|)
    ensures ReadBack(c, d, n) == Kept(log, n)
  {
    hide Chain.Name, ReadBack, Kept;
    ReadBackStep(c, d, n, if n == 0 then log.current else log.done[|log.done| - n]);
    if n == 0 {
      KeptNone(log);
    } else {
      ReadBackKept(c, max, d, log, n - 1);
      KeptStep(log, n);
    }
  }

  /** History is kept: the backups from the oldest to the newest and the log file are a suffix of
      everything that was written; only completed segments beyond the backup count are missing. */
  lemma HistoryKept(c: Chain, max: nat, d: Directory, log: Log)
    requires Holds(c, max, d, log)
    ensures var n := Min(max, |log.done|);
      Written(log) == Concat(log.done[..|log.done| - n]) + ReadBack(c, d, n)
  {
    ReadBackKept(c, max, d, log, Min(max, |log.done|));
    KeptIsSuffix(log, Min(max, |log.done|));
  }

  class RollingFileAppender {
    var chain: Chain
    var maxBackupIndex: nat
    const maxFileSize: nat
    var truncate: bool
    var directory: Directory
    ghost var log: Log

    ghost predicate Valid()
      reads this
    {
      maxBackupIndex >= 1 && Holds(chain, maxBackupIndex, directory, log)
    }

    /** Opens the log file. The backups that are there count as completed segments; with done empty, that
        is a directory without backups. */
    constructor (chain: Chain, maxFileSize: nat, maxBackupIndex: nat, append: bool, directory: Directory,
                 ghost done: seq<string>)
      ensures this.chain == chain && this.maxFileSize == maxFileSize && truncate == !append
      ensures this.maxBackupIndex == if maxBackupIndex > 0 then maxBackupIndex else 1
      ensures this.directory == Opened(directory, chain.Name(0), !append)
      ensures log == Log(done, if append && chain.Name(0) in directory then directory[chain.Name(0)] else "")
      ensures BackupsAre(chain, this.maxBackupIndex, directory, done) ==> Valid()
    {
      var name, max := chain.Name(0), if maxBackupIndex > 0 then maxBackupIndex else 1;
      this.chain, this.maxFileSize, this.maxBackupIndex := chain, maxFileSize, max;
      this.truncate := !append;
      this.directory := Opened(directory, name, !append);
      this.log := Log(done, if append && name in directory then directory[name] else "");
      if BackupsAre(chain, max, directory, done) { LogFileOpened(chain, max, directory, !append, done); }
    }

    method SetAppend(append: bool)
      modifies this`truncate
      ensures truncate == !append && Valid() == old(Valid())
    {
      truncate := !append;
    }

    /** A new backup count, and the width of its numeral. */
    method SetMaxBackupIndex(maxBackups: nat, width: nat)
      modifies this`maxBackupIndex, this`chain
      ensures maxBackupIndex == maxBackups && chain == Chain(old(chain.fileName), width)
      ensures old(Valid()) && width == old(chain.width) ==>
        (Valid() <==> maxBackups >= 1 && (maxBackups == old(maxBackupIndex)
                                          || |log.done| <= Min(old(maxBackupIndex), maxBackups)))
      ensures old(Valid()) && maxBackups >= 1 && OnlyChain(old(chain), directory) ==>
        (Valid() <==>
          log.done == []
          || (SameNames(old(chain.width), width)
              && (maxBackups == old(maxBackupIndex) || |log.done| <= Min(old(maxBackupIndex), maxBackups))))
    {
      hide Chain.Name, Holds, OnlyChain, SameNames;
      if Valid() {
        NewCountExactly(chain, maxBackupIndex, maxBackups, directory, log);
        if maxBackups >= 1 && OnlyChain(chain, directory) {
          NewWidthExactly(chain, width, maxBackupIndex, maxBackups, directory, log);
        }
      }
      maxBackupIndex := maxBackups;
      chain := Chain(chain.fileName, width);
    }

    /** The files move up one place. With maxBackupIndex 0, which setMaxBackupIndex allows, nothing moves:
        the log file is only opened again, and keeps its text unless it is truncated. */
    method RollOver()
      modifies this`directory
      ensures maxBackupIndex >= 1 ==> RolledOver(chain, maxBackupIndex, old(directory), directory)
      ensures maxBackupIndex == 0 ==> directory == Opened(old(directory), chain.Name(0), truncate)
    {
      hide Shifted, RolledOver, Chain.Name, Renamed;
      if maxBackupIndex > 0 {
        var last := chain.Name(maxBackupIndex);
        LastRemoved(chain, maxBackupIndex, directory);
        directory := directory - {last};
        var i := maxBackupIndex;
        while i > 1
          invariant 1 <= i <= maxBackupIndex && last == chain.Name(i)
          invariant Shifted(chain, maxBackupIndex, old(directory), directory, i)
        {
          var name := chain.Name(i - 1);
          ShiftOne(chain, maxBackupIndex, old(directory), directory, i);
          directory := Renamed(directory, name, last);
          last := name;
          i := i - 1;
        }
        ShiftOne(chain, maxBackupIndex, old(directory), directory, 1);
        directory := Renamed(directory, chain.Name(0), last);
        NewLogFile(chain, maxBackupIndex, old(directory), directory, truncate);
      }
      directory := Opened(directory, chain.Name(0), truncate);
    }

    /** Writes a message, then rolls over when the file has reached the maximal size. With maxBackupIndex 0
        the message either stays, whatever the size, or is truncated away with the rest. */
    method Append(message: string)
      requires chain.Name(0) in directory
      modifies this`directory, this`log
      ensures chain.Name(0) in directory
      ensures old(Valid()) ==> Valid() && log == Logged(old(log), message, maxFileSize)
      ensures maxBackupIndex == 0 ==> log == old(log)
      ensures maxBackupIndex == 0 ==> directory == old(directory)[
        chain.Name(0) := Unrolled(old(directory[chain.Name(0)]), message, maxFileSize, truncate)]
      ensures forall n :: Outside(chain, maxBackupIndex, n) ==> At(directory, n) == At(old(directory), n)
    {
      hide Holds, Chain.Name, Outside, Unrolled;
      var text := directory[chain.Name(0)] + message;
      OthersUntouched(chain, maxBackupIndex, directory, text);
      if maxBackupIndex == 0 {
        AppendUnrolled(text);
        UnrolledIs(old(directory[chain.Name(0)]), message, maxFileSize, truncate);
        OthersUntouched(chain, maxBackupIndex, old(directory), directory[chain.Name(0)]);
        return;
      }
      if Valid() { CurrentHeld(chain, maxBackupIndex, directory, log); }
      AppendRolled(text);
    }

    /** The body of Append, for a backup count of at least 1. */
    method AppendRolled(text: string)
      requires maxBackupIndex >= 1 && chain.Name(0) in directory
      modifies this`directory, this`log
      ensures chain.Name(0) in directory
      ensures old(Valid()) ==> Valid()
      ensures log == if |text| >= maxFileSize then Log(old(log.done) + [text], "") else Log(old(log.done), text)
      ensures forall n :: Outside(chain, maxBackupIndex, n) ==> At(directory, n) == At(old(directory), n)
    {
      hide Holds, RolledOver, Chain.Name, Outside;
      OthersUntouched(chain, maxBackupIndex, directory, text);
      if Valid() { CurrentGrows(chain, maxBackupIndex, directory, log, text); }
      directory := directory[chain.Name(0) := text];
      log := Log(log.done, text);
      if |text| >= maxFileSize {
        RollOver();
        OutsideRolledOver(chain, maxBackupIndex, old(directory)[chain.Name(0) := text], directory);
        if old(Valid()) {
          SegmentCompleted(chain, maxBackupIndex, old(directory)[chain.Name(0) := text], directory, log);
        }
        log := Log(log.done + [text], "");
      }
    }

    /** The same for a backup count of 0. */
    method AppendUnrolled(text: string)
      requires maxBackupIndex == 0
      modifies this`directory
      ensures directory == old(directory)[chain.Name(0) := if |text| >= maxFileSize && truncate then "" else text]
    {
      hide Chain.Name;
      directory := directory[chain.Name(0) := text];
      if |text| >= maxFileSize {
        RollOver();
      }
    }
  }

  /** The log file after a message, with maxBackupIndex 0. */
  function Unrolled(text: string, message: string, maxSize: nat, truncate: bool): string {
    if truncate && |text + message| >= maxSize then "" else text + message
  }

  lemma UnrolledIs(text: string, message: string, maxSize: nat, truncate: bool)
    ensures Unrolled(text, message, maxSize, truncate) ==
      if |text + message| >= maxSize && truncate then "" else text + message
  {
  }

  function AllUnrolled(text: string, messages: seq<string>, maxSize: nat, truncate: bool): string
    decreases |messages|
  {
    if messages == [] then text
    else AllUnrolled(Unrolled(text, messages[0], maxSize, truncate), messages[1..], maxSize, truncate)
  }

  /** With maxBackupIndex 0 and no truncation, the log file is never cut: over any run it holds all that was
      written, however large the file. */
  lemma {:induction false} GrowsWithoutLimit(text: string, messages: seq<string>, maxSize: nat)
    ensures AllUnrolled(text, messages, maxSize, false) == text + Concat(messages)
    decreases |messages|
  {
    if messages == [] {
      assert text + "" == text;
    } else {
      GrowsWithoutLimit(text + messages[0], messages[1..], maxSize);
      Associates(text, messages[0], Concat(messages[1..]));
    }
  }

  /** One message more keeps the file below the maximal size, of at least 1, exactly when the file is
      truncated or the message does not reach that size. */
  lemma BelowLimitExactly(text: string, message: string, maxSize: nat, truncate: bool)
    requires maxSize >= 1
    ensures |Unrolled(text, message, maxSize, truncate)| < maxSize <==> truncate || |text + message| < maxSize
  {
  }

  /** A log file of twice its maximal size. */
  method GrownExample() returns (a: RollingFileAppender)
    ensures a.maxFileSize == 1 && a.maxBackupIndex == 0 && !a.truncate
    ensures At(a.directory, a.chain.Name(0)) == Some("ab")
  {
    a := new RollingFileAppender(Chain("log", 1), 1, 1, false, map[], []);
    a.SetAppend(true);
    a.SetMaxBackupIndex(0, 1);
    a.Append("a");
    assert "" + "a" == "a" && a.directory[a.chain.Name(0)] == "a";
    a.Append("b");
    assert "a" + "b" == "ab";
  }
}
