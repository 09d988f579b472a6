/**
 The activity count of one transcript (src/main.rs, `sort`, the per-file
 closure).

 The program walks the bytes backwards, remembering the last newline it
 saw.  Each time it finds another newline, the bytes strictly between the
 two form one record: it is decoded (failure aborts), parsed by the
 ranking pattern (failure aborts with an unexpected format at the offset of
 the newline before the record), and, once a record dated before the
 cutoff is met, the walk stops.  Every other record whose author is one of
 the aliases adds one to the count.  Bytes before the first newline and
 after the last one belong to no record.
 */
module Rank {
  import opened Utf8
  import opened Errors
  import opened Records

  /** A record as a byte range: `start` is the offset of the newline before
      it, `end` the offset of the newline after it. */
  datatype Span = Span(start: nat, end: nat)

  /** The newline offsets at or after `i`, in the order a backward walk
      meets them (decreasing). */
  function NewlinesFrom(log: seq<Byte>, i: nat): seq<nat>
    requires i <= |log|
    decreases |log| - i
  {
    if i == |log| then []
    else NewlinesFrom(log, i + 1) + (if log[i] == NL then [i] else [])
  }

  /** The list holds every newline offset from `i` on, each once, in
      decreasing order. */
  lemma {:induction false} NewlinesFromFacts(log: seq<Byte>, i: nat)
    requires i <= |log|
    ensures var r := NewlinesFrom(log, i);
      && (forall k :: 0 <= k < |r| ==> i <= r[k] < |log| && log[r[k]] == NL)
      && (forall p :: i <= p < |log| && log[p] == NL ==> p in r)
      && (forall k, l :: 0 <= k < l < |r| ==> r[k] > r[l])
    decreases |log| - i
  {
    if i < |log| {
      NewlinesFromFacts(log, i + 1);
      var rest := NewlinesFrom(log, i + 1);
      var r := NewlinesFrom(log, i);
      assert r == rest + (if log[i] == NL then [i] else []);
      forall k | 0 <= k < |r| ensures i <= r[k] < |log| && log[r[k]] == NL {
        if k < |rest| {
          assert r[k] == rest[k];
          assert i + 1 <= rest[k] < |log| && log[rest[k]] == NL;
        } else {
          assert log[i] == NL && r[k] == i;
        }
      }
    }
  }

  /** The records between consecutive entries of a decreasing list of
      newline offsets, in the same order. */
  function SpansOf(ds: seq<nat>): (r: seq<Span>)
    ensures |r| == if |ds| == 0 then 0 else |ds| - 1
    ensures forall j :: 0 <= j < |r| ==> r[j] == Span(ds[j + 1], ds[j])
  {
    if |ds| <= 1 then []
    else seq(|ds| - 1, j requires 0 <= j < |ds| - 1 => Span(ds[j + 1], ds[j]))
  }

  /** Every record between two newlines, most recent first: the order in
      which the backward walk meets them.  The walk reads them until it
      stops or aborts; `RankLogCountsRead` bounds the count by the records
      actually read. */
  function Visited(log: seq<Byte>): seq<Span> {
    SpansOf(NewlinesFrom(log, 0))
  }

  /** A span lies inside the transcript, its end being a byte of it. */
  predicate InLog(log: seq<Byte>, s: Span) {
    s.start < s.end < |log|
  }

  predicate AllInLog(log: seq<Byte>, spans: seq<Span>) {
    forall j :: 0 <= j < |spans| ==> InLog(log, spans[j])
  }

  function RecordAt(log: seq<Byte>, s: Span): seq<Byte>
    requires InLog(log, s)
  {
    log[s.start + 1..s.end]
  }

  /** `ds` lists every newline offset of `log`, in decreasing order. */
  predicate NewlineList(log: seq<Byte>, ds: seq<nat>) {
    && (forall k :: 0 <= k < |ds| ==> ds[k] < |log| && log[ds[k]] == NL)
    && (forall p :: 0 <= p < |log| && log[p] == NL ==> p in ds)
    && (forall k, l :: 0 <= k < l < |ds| ==> ds[k] > ds[l])
  }

  lemma VisitedNewlines(log: seq<Byte>)
    ensures NewlineList(log, NewlinesFrom(log, 0))
  {
    NewlinesFromFacts(log, 0);
  }

  /** Each span of a newline list lies between two newlines with none in
      between. */
  lemma SpanBetweenNewlines(log: seq<Byte>, ds: seq<nat>, j: nat)
    requires NewlineList(log, ds) && j < |SpansOf(ds)|
    ensures InLog(log, SpansOf(ds)[j])
    ensures log[SpansOf(ds)[j].start] == NL && log[SpansOf(ds)[j].end] == NL
    ensures forall k :: SpansOf(ds)[j].start < k < SpansOf(ds)[j].end ==> log[k] != NL
  {
    assert SpansOf(ds)[j] == Span(ds[j + 1], ds[j]);
    forall k | ds[j + 1] < k < ds[j] ensures log[k] != NL {
      if log[k] == NL {
        assert k in ds;
        var m :| 0 <= m < |ds| && ds[m] == k;
        NotBetweenNeighbours(ds, j, m);
      }
    }
  }

  /** No entry of a decreasing list lies strictly between two neighbours. */
  lemma NotBetweenNeighbours(ds: seq<nat>, j: nat, m: nat)
    requires forall k, l :: 0 <= k < l < |ds| ==> ds[k] > ds[l]
    requires j + 1 < |ds| && m < |ds|
    ensures !(ds[j + 1] < ds[m] < ds[j])
  {
    if m <= j {
      if m < j { assert ds[m] > ds[j]; }
    } else {
      if m > j + 1 { assert ds[j + 1] > ds[m]; }
    }
  }

  /** Two consecutive newlines always form a span of a newline list. */
  lemma ConsecutiveNewlinesSpan(log: seq<Byte>, ds: seq<nat>, a: nat, b: nat)
    requires NewlineList(log, ds)
    requires a < b < |log| && log[a] == NL && log[b] == NL
    requires forall k :: a < k < b ==> log[k] != NL
    ensures Span(a, b) in SpansOf(ds)
  {
    assert a in ds && b in ds;
    var ia :| 0 <= ia < |ds| && ds[ia] == a;
    var ib :| 0 <= ib < |ds| && ds[ib] == b;
    assert ib < ia;
    assert ib + 1 < |ds|;
    assert log[ds[ib + 1]] == NL;
    assert ds[ib + 1] == a;
    assert SpansOf(ds)[ib] == Span(a, b);
  }

  /** The visited spans are exactly the ranges strictly between two
      consecutive newlines, met in decreasing order. */
  lemma VisitedAreRecords(log: seq<Byte>)
    ensures AllInLog(log, Visited(log))
    ensures forall j :: 0 <= j < |Visited(log)| ==>
      var s := Visited(log)[j];
      log[s.start] == NL && log[s.end] == NL &&
      forall k :: s.start < k < s.end ==> log[k] != NL
    ensures forall a, b :: 0 <= a < b < |log| && log[a] == NL && log[b] == NL
                           && (forall k :: a < k < b ==> log[k] != NL)
                           ==> Span(a, b) in Visited(log)
    ensures forall j, l :: 0 <= j < l < |Visited(log)| ==> Visited(log)[j].end > Visited(log)[l].end
  {
    var ds := NewlinesFrom(log, 0);
    VisitedNewlines(log);
    forall j | 0 <= j < |Visited(log)|
      ensures InLog(log, Visited(log)[j])
      ensures var s := Visited(log)[j];
        log[s.start] == NL && log[s.end] == NL &&
        forall k :: s.start < k < s.end ==> log[k] != NL
    {
      SpanBetweenNewlines(log, ds, j);
    }
    forall a, b | 0 <= a < b < |log| && log[a] == NL && log[b] == NL
                  && (forall k :: a < k < b ==> log[k] != NL)
      ensures Span(a, b) in Visited(log)
    {
      ConsecutiveNewlinesSpan(log, ds, a, b);
    }
  }

  /** No byte before the first newline or after the last one is part of a
      visited record. */
  lemma EdgesNeverExamined(log: seq<Byte>, k: nat)
    requires k < |log|
    requires (forall p :: 0 <= p < k ==> log[p] != NL) || (forall p :: k < p < |log| ==> log[p] != NL)
    ensures forall j :: 0 <= j < |Visited(log)| ==> !(Visited(log)[j].start < k < Visited(log)[j].end)
  {
    VisitedAreRecords(log);
  }

  /** The state of the walk: still counting, stopped at the cutoff, or
      aborted by a record it could not read. */
  datatype Tally = Counting(count: nat) | Stopped(count: nat) | Aborted(error: Error)

  /** What the walk makes of one record. */
  datatype Verdict =
    | Unreadable              // not well-formed UTF-8
    | Malformed               // the ranking pattern does not match
    | Old                     // dated before the cutoff
    | Recent(byAlias: bool)   // taken into account; written by an alias or not

  function Classify(log: seq<Byte>, s: Span): Verdict
    requires InLog(log, s)
  {
    var line := RecordAt(log, s);
    if !Valid(line) then Unreadable
    else match ParseRecord(line)
      case None => Malformed
      case Some(entry) =>
        if LexLess(entry.date, Cutoff) then Old
        else Recent(entry.name in Aliases)
  }

  /** The effect of visiting one record. */
  function Visit(log: seq<Byte>, fileName: string, t: Tally, s: Span): Tally
    requires InLog(log, s)
  {
    if !t.Counting? then t
    else match Classify(log, s)
      case Unreadable => Aborted(InvalidUtf8)
      case Malformed => Aborted(UnexpectedFormat(fileName, s.start, RecordAt(log, s)))
      case Old => Stopped(t.count)
      case Recent(byAlias) => Counting(if byAlias then t.count + 1 else t.count)
  }

  /** The state after visiting `spans` in order. */
  function TallyOf(log: seq<Byte>, fileName: string, spans: seq<Span>): (t: Tally)
    requires AllInLog(log, spans)
    ensures !t.Aborted? ==> t.count <= |spans|
  {
    if |spans| == 0 then Counting(0)
    else Visit(log, fileName, TallyOf(log, fileName, spans[..|spans| - 1]), spans[|spans| - 1])
  }

  /** The count of one transcript: the number of records by an alias that
      the walk counted, or the error that aborted it. */
  function RankLog(log: seq<Byte>, fileName: string): (r: Result<nat>)
    ensures r.Ok? ==> r.value <= |Visited(log)|
  {
    VisitedAreRecords(log);
    Outcome(TallyOf(log, fileName, Visited(log)))
  }

  /** The result a final walk state stands for. */
  function Outcome(t: Tally): Result<nat> {
    match t
    case Counting(c) => Ok(c)
    case Stopped(c) => Ok(c)
    case Aborted(e) => Err(e)
  }

  /** A record is taken into account: it decodes, parses, and is not dated
      before the cutoff. */
  predicate Considered(log: seq<Byte>, s: Span)
    requires InLog(log, s)
  {
    Classify(log, s).Recent?
  }

  /** Number of records in `spans` written by an alias. */
  function AliasCount(log: seq<Byte>, spans: seq<Span>): nat
    requires AllInLog(log, spans)
  {
    if |spans| == 0 then 0
    else
      var last := spans[|spans| - 1];
      AliasCount(log, spans[..|spans| - 1])
        + (if Classify(log, last).Recent? && Classify(log, last).byAlias then 1 else 0)
  }

  /** How the walk ends at a record that is not taken into account, after
      counting `count`. */
  function EndAt(log: seq<Byte>, fileName: string, s: Span, count: nat): Tally
    requires InLog(log, s)
  {
    match Classify(log, s)
    case Unreadable => Aborted(InvalidUtf8)
    case Malformed => Aborted(UnexpectedFormat(fileName, s.start, RecordAt(log, s)))
    case _ => Stopped(count)
  }

  /** When every record is taken into account, the walk counts the records
      by an alias. */
  lemma {:induction false} TallyAllConsidered(log: seq<Byte>, fileName: string, spans: seq<Span>)
    requires AllInLog(log, spans)
    requires forall j :: 0 <= j < |spans| ==> Considered(log, spans[j])
    ensures TallyOf(log, fileName, spans) == Counting(AliasCount(log, spans))
    decreases |spans|
  {
    if |spans| > 0 {
      var init := spans[..|spans| - 1];
      assert forall j :: 0 <= j < |init| ==> init[j] == spans[j];
      TallyAllConsidered(log, fileName, init);
    }
  }

  /** Otherwise the first record not taken into account ends the walk: it
      is not counted, and the records after it are never read. */
  lemma {:induction false} TallyEndsAtFirst(log: seq<Byte>, fileName: string, spans: seq<Span>, k: nat)
    requires AllInLog(log, spans) && k < |spans|
    requires forall j :: 0 <= j < k ==> Considered(log, spans[j])
    requires !Considered(log, spans[k])
    ensures TallyOf(log, fileName, spans) == EndAt(log, fileName, spans[k], AliasCount(log, spans[..k]))
  {
    var before := spans[..k];
    assert forall j :: 0 <= j < |before| ==> before[j] == spans[j];
    TallyAllConsidered(log, fileName, before);
    assert spans[..k + 1][..k] == before;
    assert TallyOf(log, fileName, spans[..k + 1]) == EndAt(log, fileName, spans[k], AliasCount(log, before));
    TallyAbsorbs(log, fileName, spans, k + 1);
  }

  /** A record dated on the cutoff day itself is taken into account. */
  lemma CutoffDayCounts(log: seq<Byte>, s: Span)
    requires InLog(log, s) && Valid(RecordAt(log, s))
    requires ParseRecord(RecordAt(log, s)).Some?
    requires ParseRecord(RecordAt(log, s)).value.date == Cutoff
    ensures Considered(log, s)
    ensures Classify(log, s).byAlias <==> ParseRecord(RecordAt(log, s)).value.name in Aliases
  {
    LexLessStrictTotal(Cutoff, Cutoff, Cutoff);
  }

  /** Once the walk has stopped or aborted, later records change nothing. */
  lemma {:induction false} TallyAbsorbs(log: seq<Byte>, fileName: string, spans: seq<Span>, k: nat)
    requires AllInLog(log, spans) && k <= |spans|
    requires !TallyOf(log, fileName, spans[..k]).Counting?
    ensures TallyOf(log, fileName, spans) == TallyOf(log, fileName, spans[..k])
    decreases |spans| - k
  {
    if k < |spans| {
      var init := spans[..|spans| - 1];
      assert init[..k] == spans[..k];
      TallyAbsorbs(log, fileName, init, k);
    } else {
      assert spans[..k] == spans;
    }
  }

  /** The newlines found from `i` on are the first ones found from any
      earlier offset. */
  lemma {:induction false} NewlinesPrefix(log: seq<Byte>, j: nat, i: nat)
    requires j <= i <= |log|
    ensures |NewlinesFrom(log, i)| <= |NewlinesFrom(log, j)|
    ensures NewlinesFrom(log, j)[..|NewlinesFrom(log, i)|] == NewlinesFrom(log, i)
    decreases i - j
  {
    if j < i {
      NewlinesPrefix(log, j + 1, i);
    }
  }

  /** The spans of a prefix of the newline list are a prefix of the spans. */
  lemma SpansOfPrefix(ds: seq<nat>, m: nat)
    requires 1 <= m <= |ds|
    ensures SpansOf(ds[..m]) == SpansOf(ds)[..m - 1]
  {
  }

  /** Finding one more newline adds one span at the end. */
  lemma SpansOfSnoc(ds: seq<nat>, i: nat)
    requires |ds| > 0
    ensures SpansOf(ds + [i]) == SpansOf(ds) + [Span(i, ds[|ds| - 1])]
  {
  }

  /** One visited record (src/main.rs, the body of the backward loop once
      two newlines are known): decode, parse, compare with the cutoff, and
      count an alias. */
  method VisitRecord(log: seq<Byte>, fileName: string, start: nat, end: nat, count: nat)
    returns (t: Tally)
    requires start < end < |log|
    ensures t == Visit(log, fileName, Counting(count), Span(start, end))
  {
    var line := log[start + 1..end];
    assert line == RecordAt(log, Span(start, end));
    if !Valid(line) {
      return Aborted(InvalidUtf8);
    }
    var entry := ParseRecord(line);
    if entry.None? {
      return Aborted(UnexpectedFormat(fileName, start, line));
    }
    if LexLess(entry.value.date, Cutoff) {
      return Stopped(count);
    }
    if entry.value.name in Aliases {
      return Counting(count + 1);
    }
    return Counting(count);
  }

  /** After the walk has ended early at the newline `i`, the rest of the
      transcript does not change the outcome. */
  lemma EarlyEnd(log: seq<Byte>, fileName: string, i: nat)
    requires i <= |log|
    requires AllInLog(log, SpansOf(NewlinesFrom(log, i)))
    requires !TallyOf(log, fileName, SpansOf(NewlinesFrom(log, i))).Counting?
    ensures AllInLog(log, Visited(log))
    ensures TallyOf(log, fileName, Visited(log)) == TallyOf(log, fileName, SpansOf(NewlinesFrom(log, i)))
    ensures RankLog(log, fileName) == Outcome(TallyOf(log, fileName, SpansOf(NewlinesFrom(log, i))))
  {
    var all := NewlinesFrom(log, 0);
    var ds := NewlinesFrom(log, i);
    NewlinesPrefix(log, 0, i);
    VisitedAreRecords(log);
    if |ds| > 0 {
      SpansOfPrefix(all, |ds|);
      TallyAbsorbs(log, fileName, Visited(log), |SpansOf(ds)|);
    }
  }

  /** The state of the backward walk after it has looked at the bytes from
      `i` on: `ds` are the newlines met, and the records between them have
      been counted to `count` without ending the walk. */
  predicate Walked(log: seq<Byte>, fileName: string, i: nat, ds: seq<nat>, count: nat) {
    && i <= |log|
    && ds == NewlinesFrom(log, i)
    && AllInLog(log, SpansOf(ds))
    && TallyOf(log, fileName, SpansOf(ds)) == Counting(count)
  }

  /** The program's backward walk; it computes `RankLog`. */
  method RankScan(log: seq<Byte>, fileName: string) returns (r: Result<nat>)
    ensures r == RankLog(log, fileName)
  {
    var lastNewline: Option<nat> := None;
    var count: nat := 0;
    ghost var ds: seq<nat> := [];
    var i: nat := |log|;
    WalkInit(log, fileName);
    while i > 0
      invariant Walked(log, fileName, i, ds, count)
      invariant LastNewline(ds, lastNewline)
    {
      i := i - 1;
      var outcome: Option<Result<nat>>;
      lastNewline, count, ds, outcome := WalkByte(log, fileName, i, lastNewline, count, ds);
      if outcome.Some? {
        return outcome.value;
      }
    }
    WalkDone(log, fileName, ds, count);
    return Ok(count);
  }

  /** `last` is the most recent newline met, if any. */
  predicate LastNewline(ds: seq<nat>, last: Option<nat>) {
    (last.None? <==> |ds| == 0) && (last.Some? ==> last.value == ds[|ds| - 1])
  }

  /** One byte of the backward walk, at offset `i`: a newline after an
      earlier one completes a record, which is visited.  The result is the
      transcript's outcome when that visit ends the walk. */
  method WalkByte(log: seq<Byte>, fileName: string, i: nat, last: Option<nat>, count: nat, ghost ds: seq<nat>)
    returns (last': Option<nat>, count': nat, ghost ds': seq<nat>, outcome: Option<Result<nat>>)
    requires i < |log| && Walked(log, fileName, i + 1, ds, count) && LastNewline(ds, last)
    ensures outcome.Some? ==> outcome.value == RankLog(log, fileName)
    ensures outcome.None? ==> Walked(log, fileName, i, ds', count') && LastNewline(ds', last')
  {
    last', count', ds', outcome := last, count, ds, None;
    if log[i] != NL {
      WalkSkip(log, fileName, i, ds, count);
      return;
    }
    match last {
      case Some(end) =>
        WalkStep(log, fileName, ds, i, count);
        var t := VisitRecord(log, fileName, i, end, count);
        if !t.Counting? {
          outcome := Some(Outcome(t));
          return;
        }
        count' := t.count;
      case None =>
        WalkStart(log, fileName, i, ds, count);
    }
    last' := Some(i);
    ds' := ds + [i];
  }

  /** Before the walk: no newline met, nothing counted. */
  lemma WalkInit(log: seq<Byte>, fileName: string)
    ensures Walked(log, fileName, |log|, [], 0)
  {
  }

  /** A byte that is not a newline changes nothing. */
  lemma WalkSkip(log: seq<Byte>, fileName: string, i: nat, ds: seq<nat>, count: nat)
    requires i < |log| && log[i] != NL && Walked(log, fileName, i + 1, ds, count)
    ensures Walked(log, fileName, i, ds, count)
  {
    NewlineStep(log, i);
  }

  /** The walk reaches the start of the transcript still counting. */
  lemma WalkDone(log: seq<Byte>, fileName: string, ds: seq<nat>, count: nat)
    requires Walked(log, fileName, 0, ds, count)
    ensures RankLog(log, fileName) == Ok(count)
  {
  }

  /** The walk meets its first newline: no record is complete yet. */
  lemma WalkStart(log: seq<Byte>, fileName: string, i: nat, ds: seq<nat>, count: nat)
    requires i < |log| && log[i] == NL && |ds| == 0 && Walked(log, fileName, i + 1, ds, count)
    ensures Walked(log, fileName, i, ds + [i], count)
  {
    NewlineStep(log, i);
    assert ds + [i] == [i];
  }

  /** The walk meets a further newline: the record before the previous one
      is visited; the walk goes on if it still counts, and otherwise its
      outcome is final. */
  lemma WalkStep(log: seq<Byte>, fileName: string, ds: seq<nat>, i: nat, count: nat)
    requires i < |log| && log[i] == NL && |ds| > 0 && Walked(log, fileName, i + 1, ds, count)
    ensures i < ds[|ds| - 1] < |log|
    ensures var v := Visit(log, fileName, Counting(count), Span(i, ds[|ds| - 1]));
      && (v.Counting? ==> Walked(log, fileName, i, ds + [i], v.count))
      && (!v.Counting? ==> RankLog(log, fileName) == Outcome(v))
  {
    NewlinesFromFacts(log, i + 1);
    NewlineStep(log, i);
    TallyStep(log, fileName, ds, i, count);
    if !Visit(log, fileName, Counting(count), Span(i, ds[|ds| - 1])).Counting? {
      EarlyEnd(log, fileName, i);
    }
  }

  /** One step of the backward walk over the newline offsets. */
  lemma NewlineStep(log: seq<Byte>, i: nat)
    requires i < |log|
    ensures log[i] == NL ==> NewlinesFrom(log, i) == NewlinesFrom(log, i + 1) + [i]
    ensures log[i] != NL ==> NewlinesFrom(log, i) == NewlinesFrom(log, i + 1)
  {
  }

  /** Visiting the record that ends at the last newline found so far is one
      step of `TallyOf`. */
  lemma TallyStep(log: seq<Byte>, fileName: string, ds: seq<nat>, i: nat, count: nat)
    requires |ds| > 0 && i < ds[|ds| - 1] < |log|
    requires AllInLog(log, SpansOf(ds))
    requires TallyOf(log, fileName, SpansOf(ds)) == Counting(count)
    ensures AllInLog(log, SpansOf(ds + [i]))
    ensures TallyOf(log, fileName, SpansOf(ds + [i]))
         == Visit(log, fileName, Counting(count), Span(i, ds[|ds| - 1]))
  {
    var s := Span(i, ds[|ds| - 1]);
    SpansOfSnoc(ds, i);
    var sp := SpansOf(ds + [i]);
    assert sp == SpansOf(ds) + [s];
    assert sp[..|sp| - 1] == SpansOf(ds);
  }

  /** The count of a transcript in terms of its records: when the first `k`
      visited records are taken into account and the next one (if any) is
      not, the result is the number of those `k` written by an alias, or
      the way the walk ends at record `k`. */
  lemma RankLogMeaning(log: seq<Byte>, fileName: string, k: nat)
    requires AllInLog(log, Visited(log)) && k <= |Visited(log)|
    requires forall j :: 0 <= j < k ==> Considered(log, Visited(log)[j])
    requires k < |Visited(log)| ==> !Considered(log, Visited(log)[k])
    ensures k == |Visited(log)| ==> RankLog(log, fileName) == Ok(AliasCount(log, Visited(log)))
    ensures k < |Visited(log)| ==>
      RankLog(log, fileName) == Outcome(EndAt(log, fileName, Visited(log)[k], AliasCount(log, Visited(log)[..k])))
  {
    var v := Visited(log);
    if k == |v| {
      TallyAllConsidered(log, fileName, v);
    } else {
      TallyEndsAtFirst(log, fileName, v, k);
    }
  }

  /** No more records are counted than there are records. */
  lemma {:induction false} AliasCountBound(log: seq<Byte>, spans: seq<Span>)
    requires AllInLog(log, spans)
    ensures AliasCount(log, spans) <= |spans|
    decreases |spans|
  {
    if |spans| > 0 {
      var init := spans[..|spans| - 1];
      assert forall j :: 0 <= j < |init| ==> init[j] == spans[j];
      AliasCountBound(log, init);
    }
  }

  /** A successful count is the alias count of the records the walk read
      before it ended, so it never exceeds their number `k`. */
  lemma RankLogCountsRead(log: seq<Byte>, fileName: string, k: nat)
    requires AllInLog(log, Visited(log)) && k <= |Visited(log)|
    requires forall j :: 0 <= j < k ==> Considered(log, Visited(log)[j])
    requires k < |Visited(log)| ==> !Considered(log, Visited(log)[k])
    ensures RankLog(log, fileName).Ok? ==>
      RankLog(log, fileName).value == AliasCount(log, Visited(log)[..k]) <= k
  {
    var v := Visited(log);
    RankLogMeaning(log, fileName, k);
    assert AllInLog(log, v[..k]) by {
      forall j | 0 <= j < k ensures InLog(log, v[..k][j]) {
        assert v[..k][j] == v[j];
      }
    }
    AliasCountBound(log, v[..k]);
    if k == |v| {
      assert v[..k] == v;
    }
  }

  /** The records of `spans` (met most recent first) put back in file order,
      each preceded by a newline, with the final newline after them. */
  function Rejoin(log: seq<Byte>, spans: seq<Span>): (r: seq<Byte>)
    requires AllInLog(log, spans)
  {
    if |spans| == 0 then [NL]
    else [NL] + RecordAt(log, spans[|spans| - 1]) + Rejoin(log, spans[..|spans| - 1])
  }

  /** `ds` is a list of newline offsets, each below the one before. */
  predicate DescendingNewlines(log: seq<Byte>, ds: seq<nat>) {
    && (forall k :: 0 <= k < |ds| ==> ds[k] < |log| && log[ds[k]] == NL)
    && (forall k, l :: 0 <= k < l < |ds| ==> ds[k] > ds[l])
  }

  /** The backward walk loses nothing between the first and the last
      newline: its records, put back in file order and joined by newlines,
      are exactly those bytes. */
  lemma VisitedRejoin(log: seq<Byte>)
    requires NL in log
    ensures NewlineList(log, NewlinesFrom(log, 0))
    ensures AllInLog(log, Visited(log))
    ensures var ds := NewlinesFrom(log, 0);
      |ds| > 0 && log[ds[|ds| - 1]..ds[0] + 1] == Rejoin(log, Visited(log))
  {
    var ds := NewlinesFrom(log, 0);
    VisitedNewlines(log);
    assert |ds| > 0 by {
      var p :| 0 <= p < |log| && log[p] == NL;
      assert p in ds;
    }
    RejoinList(log, ds);
  }

  lemma {:induction false} RejoinList(log: seq<Byte>, ds: seq<nat>)
    requires DescendingNewlines(log, ds) && |ds| > 0
    ensures AllInLog(log, SpansOf(ds))
    ensures log[ds[|ds| - 1]..ds[0] + 1] == Rejoin(log, SpansOf(ds))
    decreases |ds|
  {
    if |ds| == 1 {
      assert log[ds[0]..ds[0] + 1] == [log[ds[0]]];
    } else {
      var init := ds[..|ds| - 1];
      var a, b, c := ds[|ds| - 1], ds[|ds| - 2], ds[0] + 1;
      DescendingInit(log, ds);
      RejoinList(log, init);
      assert init[0] == ds[0] && init[|init| - 1] == b;
      assert init + [a] == ds;
      SpansOfSnoc(init, a);
      RejoinSnoc(log, SpansOf(init), a, b, c);
    }
  }

  /** One more record in front: the bytes from its opening newline on are
      that newline, the record, and the rest as rejoined before. */
  lemma RejoinSnoc(log: seq<Byte>, front: seq<Span>, a: nat, b: nat, c: nat)
    requires a < b < c <= |log| && log[a] == NL
    requires AllInLog(log, front) && log[b..c] == Rejoin(log, front)
    ensures AllInLog(log, front + [Span(a, b)])
    ensures log[a..c] == Rejoin(log, front + [Span(a, b)])
  {
    var sp := front + [Span(a, b)];
    assert sp[..|sp| - 1] == front;
    assert AllInLog(log, sp) by {
      forall j | 0 <= j < |sp| ensures InLog(log, sp[j]) {
        if j < |front| {
          assert sp[j] == front[j];
        }
      }
    }
    SliceSplit(log, a, b, c);
  }

  lemma DescendingInit(log: seq<Byte>, ds: seq<nat>)
    requires DescendingNewlines(log, ds) && |ds| > 1
    ensures DescendingNewlines(log, ds[..|ds| - 1])
    ensures ds[|ds| - 1] < ds[|ds| - 2] < |log| && log[ds[|ds| - 1]] == NL
  {
  }

  lemma SliceSplit(log: seq<Byte>, a: nat, b: nat, c: nat)
    requires a < b < c <= |log|
    ensures log[a..c] == [log[a]] + log[a + 1..b] + log[b..c]
  {
  }

  /** A transcript that opens and closes with a newline and has none in
      between holds exactly one record. */
  lemma SingleRecord(log: seq<Byte>)
    requires |log| >= 2 && log[0] == NL && log[|log| - 1] == NL
    requires forall p :: 0 < p < |log| - 1 ==> log[p] != NL
    ensures Visited(log) == [Span(0, |log| - 1)]
  {
    var last := |log| - 1;
    NewlinesSkip(log, 1, last);
    assert NewlinesFrom(log, last) == [last];
    assert NewlinesFrom(log, 0) == [last, 0];
  }

  /** A stretch without newlines adds nothing to the newline list. */
  lemma {:induction false} NewlinesSkip(log: seq<Byte>, i: nat, j: nat)
    requires i <= j <= |log|
    requires forall p :: i <= p < j ==> log[p] != NL
    ensures NewlinesFrom(log, i) == NewlinesFrom(log, j)
    decreases j - i
  {
    if i < j {
      NewlinesSkip(log, i + 1, j);
    }
  }

  /** A transcript holding one complete record that is only a timestamp and
      a tab ranks without error and with a count of zero: the ranking
      pattern accepts the record with an empty name, and its date, the
      cutoff day itself, keeps it in consideration. */
  lemma BareRecordRanks(fileName: string)
    ensures RankLog([NL] + BareExample + [NL], fileName) == Ok(0)
  {
    var log: seq<Byte> := [NL] + BareExample + [NL];
    var s := Span(0, 21);
    SingleRecord(log);
    assert RecordAt(log, s) == BareExample;
    BareExampleFacts();
    CutoffDayCounts(log, s);
    RankLogMeaning(log, fileName, 1);
    assert Visited(log)[..0] == [];
  }

  lemma BareExampleFacts()
    ensures Valid(BareExample)
    ensures ParseRecord(BareExample) == Some(Entry(Cutoff, []))
    ensures [] !in Aliases
  {
    BareExampleValid();
    BareExampleIsBare();
    BareHeaderParses(BareExample);
    BareExampleDate();
  }

  lemma BareExampleValid()
    ensures Valid(BareExample)
  {
    assert IsAscii(BareExample);
    AsciiValid(BareExample);
  }

  lemma BareExampleDate()
    ensures BareExample[..DateLength] == Cutoff
  {
  }
}
