/**
 The integrity check of one transcript (src/main.rs, `check`).

 The program walks the bytes forward.  At every newline offset `i` that
 leaves room for a 21-byte window, it decodes `log[i..i + 21]` as UTF-8
 (a failure aborts the check) and matches it against the bare-timestamp
 pattern; a match is reported as an unexpected format at offset `i`.

 The window starts with the newline byte itself while the pattern must
 start with a digit, so no window can ever match: as written, the check
 reports nothing but decoding failures (`CheckLog`).  The pattern, a
 timestamp and a tab anchored at both ends, can only be meant to catch a
 record that is a timestamp and a tab and nothing else; `CheckLogFixed`
 is that check, reporting such a record at the newline that ends it and
 keeping the program's decoding failure.  (The window is also one byte
 longer than the pattern, so moving it past the newline would not help.)
 */
module Check {
  import opened Utf8
  import opened Errors
  import opened Records

  /** Width of the window taken at each newline. */
  const Window: nat := 21

  /** The first offset in `[lo, hi)` satisfying `p`, if any. */
  function First(p: nat -> bool, lo: nat, hi: nat): (r: Option<nat>)
    requires lo <= hi
    ensures r.Some? ==> lo <= r.value < hi && p(r.value)
    ensures r.Some? ==> forall j :: lo <= j < r.value ==> !p(j)
    ensures r.None? ==> forall j :: lo <= j < hi ==> !p(j)
    decreases hi - lo
  {
    if lo == hi then None
    else if p(lo) then Some(lo)
    else First(p, lo + 1, hi)
  }

  /** The check looks at offset `i`: a newline with a full window after it. */
  predicate Tested(log: seq<Byte>, i: nat) {
    i < |log| && log[i] == NL && i + Window <= |log|
  }

  function WindowAt(log: seq<Byte>, i: nat): seq<Byte>
    requires i + Window <= |log|
  {
    log[i..i + Window]
  }

  /** The scan ends at offset `i`: its window does not decode, or it
      matches the pattern `matches`. */
  predicate Stops(log: seq<Byte>, i: nat, matches: seq<Byte> -> bool) {
    Tested(log, i) && (!Valid(WindowAt(log, i)) || matches(WindowAt(log, i)))
  }

  /** What the scan reports when it ends at offset `i`. */
  function StopReport(log: seq<Byte>, fileName: string, i: nat): Result<()>
    requires i + Window <= |log|
  {
    if !Valid(WindowAt(log, i)) then Err(InvalidUtf8)
    else Err(UnexpectedFormat(fileName, i, WindowAt(log, i)))
  }

  /** The outcome of the forward scan with window pattern `matches`: success
      when no tested window ends the scan, otherwise the report for the
      first offset that does. */
  function CheckWith(log: seq<Byte>, fileName: string, matches: seq<Byte> -> bool): (r: Result<()>)
    ensures r.Ok? <==> forall i: nat :: i < |log| ==> !Stops(log, i, matches)
    ensures forall i: nat ::
      i < |log| && Stops(log, i, matches) && (forall j: nat :: j < i ==> !Stops(log, j, matches))
      ==> r == StopReport(log, fileName, i)
  {
    var p := (i: nat) => Stops(log, i, matches);
    assert forall i: nat :: p(i) == Stops(log, i, matches);
    match First(p, 0, |log|)
    case None => Ok(())
    case Some(i) => StopReport(log, fileName, i)
  }

  /** The forward scan; it computes `CheckWith`. */
  method ScanLog(log: seq<Byte>, fileName: string, matches: seq<Byte> -> bool) returns (r: Result<()>)
    ensures r == CheckWith(log, fileName, matches)
  {
    for i: nat := 0 to |log|
      invariant forall j: nat :: j < i ==> !Stops(log, j, matches)
    {
      if log[i] != NL {
        continue;
      }
      var end := i + Window;
      if end > |log| {
        continue;
      }
      var line := log[i..end];
      assert line == WindowAt(log, i);
      if !Valid(line) {
        assert Stops(log, i, matches);
        return Err(InvalidUtf8);
      }
      if !matches(line) {
        continue;
      }
      assert Stops(log, i, matches);
      return Err(UnexpectedFormat(fileName, i, line));
    }
    return Ok(());
  }

  /** Bytes that start with a newline do not start with a header, whose
      first byte is a digit. */
  lemma NewlineNeverHeader(w: seq<Byte>)
    requires |w| > 0 && w[0] == NL
    ensures !HasHeader(w)
  {
    if HasHeader(w) {
      HeaderFacts(w);
    }
  }

  /** A window is one byte longer than a bare timestamp, so it could not
      match the pattern even if it started after the newline. */
  lemma WindowTooLong(w: seq<Byte>)
    requires |w| == Window
    ensures !BareTimestamp(w)
  {
  }

  /** No window the check tests can match the bare-timestamp pattern.  Two
      reasons hold independently: the window starts with the newline byte,
      so it does not even begin with a header; and it is 21 bytes long,
      one more than the pattern allows. */
  lemma WindowNeverBare(log: seq<Byte>)
    ensures forall i: nat :: Tested(log, i) ==> !HasHeader(WindowAt(log, i))
    ensures forall i: nat :: Tested(log, i) ==> !BareTimestamp(WindowAt(log, i))
  {
    forall i: nat | Tested(log, i)
      ensures !HasHeader(WindowAt(log, i)) && !BareTimestamp(WindowAt(log, i))
    {
      NewlineNeverHeader(WindowAt(log, i));
      WindowTooLong(WindowAt(log, i));
    }
  }

  /** The program's check of one transcript.  It fails only when a tested
      window does not decode, and then with a decoding error: it never
      reports an unexpected format. */
  function CheckLog(log: seq<Byte>, fileName: string): (r: Result<()>)
    ensures r.Ok? <==> forall i: nat :: Tested(log, i) ==> Valid(WindowAt(log, i))
    ensures r.Err? ==> r.error == InvalidUtf8
  {
    WindowNeverBare(log);
    assert forall i: nat :: Stops(log, i, BareTimestamp) <==> Tested(log, i) && !Valid(WindowAt(log, i));
    var r := CheckWith(log, fileName, BareTimestamp);
    assert r.Err? ==> exists i: nat :: i < |log| && Stops(log, i, BareTimestamp)
                                     && (forall j: nat :: j < i ==> !Stops(log, j, BareTimestamp)) by {
      if r.Err? {
        var q := (i: nat) => Stops(log, i, BareTimestamp);
        assert forall i: nat :: q(i) == Stops(log, i, BareTimestamp);
        var first := First(q, 0, |log|);
        assert first.Some?;
      }
    }
    r
  }

  /** The record that ends at newline `i` is a timestamp, a tab and nothing
      else: it starts 20 bytes back, right after another newline or at the
      start of the transcript. */
  predicate BareRecordEndsAt(log: seq<Byte>, i: nat) {
    Window - 1 <= i < |log| && log[i] == NL
    && (i == Window - 1 || log[i - Window] == NL)
    && BareTimestamp(log[i - Window + 1..i])
  }

  /** The window at tested offset `i` does not decode. */
  predicate Undecodable(log: seq<Byte>, i: nat) {
    Tested(log, i) && !Valid(WindowAt(log, i))
  }

  /** The corrected scan ends at offset `i`: the window there does not
      decode, as in the program, or the record ending there is bare. */
  predicate FixedStops(log: seq<Byte>, i: nat) {
    Undecodable(log, i) || BareRecordEndsAt(log, i)
  }

  /** What the corrected scan reports when it ends at offset `i`; the
      window is decoded first, as the program does. */
  function FixedReport(log: seq<Byte>, fileName: string, i: nat): Result<()>
    requires i < |log|
  {
    if Undecodable(log, i) then Err(InvalidUtf8)
    else if BareRecordEndsAt(log, i) then Err(UnexpectedFormat(fileName, i, log[i - Window + 1..i]))
    else Ok(())
  }

  /** The corrected check: the program's forward scan, keeping its decoding
      failure, with the match replaced by a test of the record that ends at
      the newline.  It passes exactly when every tested window decodes and
      no record is only a timestamp and a tab; otherwise it reports the
      first offset where either happens. */
  function CheckLogFixed(log: seq<Byte>, fileName: string): (r: Result<()>)
    ensures r.Ok? <==> forall i: nat :: i < |log| ==> !Undecodable(log, i) && !BareRecordEndsAt(log, i)
    ensures forall i: nat ::
      i < |log| && FixedStops(log, i) && (forall j: nat :: j < i ==> !FixedStops(log, j))
      ==> r == FixedReport(log, fileName, i)
    ensures r.Err? && r.error == InvalidUtf8 ==> exists i: nat :: i < |log| && Undecodable(log, i)
    ensures r.Err? && r.error != InvalidUtf8 ==>
      && r.error.UnexpectedFormat? && r.error.fileName == fileName
      && BareRecordEndsAt(log, r.error.position)
      && r.error.line == log[r.error.position - Window + 1..r.error.position]
      && !Undecodable(log, r.error.position)
      && forall j: nat :: j < r.error.position ==> !FixedStops(log, j)
  {
    var p := (i: nat) => FixedStops(log, i);
    assert forall i: nat :: p(i) == FixedStops(log, i);
    match First(p, 0, |log|)
    case None =>
      assert forall i: nat :: i < |log| ==> !Undecodable(log, i) && !BareRecordEndsAt(log, i) by {
        forall i: nat | i < |log| ensures !Undecodable(log, i) && !BareRecordEndsAt(log, i) {
          assert !p(i);
        }
      }
      Ok(())
    case Some(i) => FixedReport(log, fileName, i)
  }

  /** Without bare records the corrected check is the program's check: the
      correction adds the bare-record report and changes nothing else. */
  lemma FixedAgreesWithoutBareRecords(log: seq<Byte>, fileName: string)
    requires forall i: nat :: i < |log| ==> !BareRecordEndsAt(log, i)
    ensures CheckLogFixed(log, fileName) == CheckLog(log, fileName)
  {
    var r := CheckLogFixed(log, fileName);
    if r.Err? {
      assert r.error == InvalidUtf8;
      var i: nat :| i < |log| && Undecodable(log, i);
      assert !CheckLog(log, fileName).Ok?;
    } else {
      forall i: nat | Tested(log, i) ensures Valid(WindowAt(log, i)) {
        assert !Undecodable(log, i);
      }
    }
  }

  /** The corrected check rejects every transcript the program rejects. */
  lemma FixedCheckStricter(log: seq<Byte>, fileName: string)
    ensures CheckLog(log, fileName).Err? ==> CheckLogFixed(log, fileName).Err?
  {
    if CheckLog(log, fileName).Err? {
      var i: nat :| Tested(log, i) && !Valid(WindowAt(log, i));
      assert Undecodable(log, i);
    }
  }

  /** A record that starts the transcript or follows a newline, ends at
      newline `b` and is a bare timestamp is exactly what
      `BareRecordEndsAt(log, b)` describes, so the corrected check fails,
      at `b` or at an earlier offset where it stops. */
  lemma FixedCheckFindsBareRecord(log: seq<Byte>, fileName: string, start: nat, b: nat)
    requires start <= b < |log| && log[b] == NL
    requires start == 0 || log[start - 1] == NL
    requires BareTimestamp(log[start..b])
    ensures BareRecordEndsAt(log, b)
    ensures CheckLogFixed(log, fileName).Err?
    ensures exists i: nat :: i <= b && FixedStops(log, i) && CheckLogFixed(log, fileName) == FixedReport(log, fileName, i)
  {
    assert start == b - Window + 1;
    assert BareRecordEndsAt(log, b);
    var i := FirstFixedStop(log, b);
  }

  /** The first offset where the corrected scan stops, given one where it
      does. */
  lemma FirstFixedStop(log: seq<Byte>, b: nat) returns (i: nat)
    requires b < |log| && FixedStops(log, b)
    ensures i <= b && FixedStops(log, i)
    ensures forall j: nat :: j < i ==> !FixedStops(log, j)
  {
    var q := (j: nat) => FixedStops(log, j);
    assert forall j: nat :: q(j) == FixedStops(log, j);
    assert q(b);
    i := First(q, 0, b + 1).value;
  }

  /** The input that shows the difference: a newline, a bare timestamp and
      the newline that ends it.  The check as written passes it; the fixed
      check reports it at offset 21. */
  lemma BareRecordMissed(fileName: string)
    ensures var log: seq<Byte> := [NL] + BareExample + [NL];
      && CheckLog(log, fileName) == Ok(())
      && CheckLogFixed(log, fileName) == Err(UnexpectedFormat(fileName, 21, BareExample))
  {
    var log: seq<Byte> := [NL] + BareExample + [NL];
    BareLogPasses(log, fileName);
    BareLogReported(log, fileName);
  }

  lemma BareLogPasses(log: seq<Byte>, fileName: string)
    requires log == [NL] + BareExample + [NL]
    ensures CheckLog(log, fileName) == Ok(())
  {
    forall i: nat | Tested(log, i) ensures Valid(WindowAt(log, i)) {
      OnlyFirstNewlineTested(log, i);
      BareWindowValid(log);
    }
  }

  lemma OnlyFirstNewlineTested(log: seq<Byte>, i: nat)
    requires log == [NL] + BareExample + [NL] && Tested(log, i)
    ensures i == 0
  {
    assert log[1] == BareExample[0];
  }

  lemma BareWindowValid(log: seq<Byte>)
    requires log == [NL] + BareExample + [NL]
    ensures Valid(WindowAt(log, 0))
  {
    var w := WindowAt(log, 0);
    assert w == [NL] + BareExample;
    assert IsAscii(w);
    AsciiValid(w);
  }

  lemma BareLogReported(log: seq<Byte>, fileName: string)
    requires log == [NL] + BareExample + [NL]
    ensures CheckLogFixed(log, fileName) == Err(UnexpectedFormat(fileName, 21, BareExample))
  {
    assert log[1..21] == BareExample;
    BareExampleIsBare();
    assert BareRecordEndsAt(log, 21);
    var i := FirstFixedStop(log, 21);
    BareLogStopsAtEnd(log, i);
  }

  /** In that transcript the corrected scan can only stop at offset 21. */
  lemma BareLogStopsAtEnd(log: seq<Byte>, i: nat)
    requires log == [NL] + BareExample + [NL]
    requires i <= 21 && FixedStops(log, i)
    ensures i == 21 && !Undecodable(log, 21)
  {
    if Undecodable(log, i) {
      OnlyFirstNewlineTested(log, i);
      BareWindowValid(log);
      assert false;
    }
    assert log[20] == TAB;
  }

  /** A bare timestamp on the first line, ended by a newline, is reported
      at that newline, offset 20. */
  lemma BareFirstLineReported(fileName: string)
    ensures CheckLogFixed(BareExample + [NL], fileName) == Err(UnexpectedFormat(fileName, 20, BareExample))
  {
    var log := BareExample + [NL];
    assert log[0..20] == BareExample;
    BareExampleIsBare();
    FixedCheckFindsBareRecord(log, fileName, 0, 20);
    assert BareRecordEndsAt(log, 20);
    var i := FirstFixedStop(log, 20);
    FirstLineStopsAtEnd(log, i);
  }

  /** In that transcript the corrected scan can only stop at offset 20. */
  lemma FirstLineStopsAtEnd(log: seq<Byte>, i: nat)
    requires log == BareExample + [NL]
    requires i <= 20 && FixedStops(log, i)
    ensures i == 20 && !Undecodable(log, 20)
  {
    if Undecodable(log, i) {
      assert false;
    }
  }

  /** A transcript in which every newline but a final one opens a record
      with a full header passes the check as written: each tested window is
      the newline and twenty header bytes, all ASCII, so it decodes. */
  lemma WellFormedLogPasses(log: seq<Byte>, fileName: string)
    requires forall i :: 0 <= i < |log| - 1 && log[i] == NL ==> HasHeader(log[i + 1..])
    ensures CheckLog(log, fileName) == Ok(())
  {
    forall i: nat | Tested(log, i) ensures Valid(WindowAt(log, i)) {
      WindowOfHeaderValid(log, i);
    }
  }

  lemma WindowOfHeaderValid(log: seq<Byte>, i: nat)
    requires Tested(log, i) && HasHeader(log[i + 1..])
    ensures Valid(WindowAt(log, i))
  {
    var w := WindowAt(log, i);
    var rest := log[i + 1..];
    HeaderFacts(rest);
    assert IsAscii(w) by {
      forall k | 0 <= k < |w| ensures w[k] < 0x80 {
        if k > 0 {
          assert w[k] == rest[..HeaderLength][k - 1];
        }
      }
    }
    AsciiValid(w);
  }
}
