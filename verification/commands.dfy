/**
 The two commands of the program (src/main.rs, `check` and `sort`), over
 a given configuration and a given set of transcripts.

 The configuration is the list of lines of the client's configuration
 file; the transcripts are a map from file name to bytes, a missing name
 standing for a file that cannot be opened or mapped.  The program maps
 the channels in parallel; here they are visited in configuration order,
 and when several channels fail the contracts only promise the error of
 one of them.
 */
module Commands {
  import opened Utf8
  import opened Errors
  import opened Text
  import opened Config
  import opened Records
  import opened Check
  import opened Rank
  import opened Order

  /** The transcripts by file name. */
  type Logs = map<string, seq<Byte>>

  /** The transcript file name of a configured channel. */
  function LogName(ch: Channel): string {
    FileName(ch.server, ch.channel)
  }

  /** The bytes of a channel's transcript, or the failure to open it. */
  function OpenLog(logs: Logs, ch: Channel): (r: Result<seq<Byte>>)
    ensures r.Ok? <==> LogName(ch) in logs
    ensures r.Ok? ==> r.value == logs[LogName(ch)]
    ensures r.Err? ==> r.error == FileUnavailable(LogName(ch))
  {
    if LogName(ch) in logs then Ok(logs[LogName(ch)]) else Err(FileUnavailable(LogName(ch)))
  }

  // ---------------------------------------------------------------- check

  /** The check of one channel's transcript, as written or (`fixed`)
      corrected to report a record that is only a timestamp and a tab. */
  function CheckChannel(logs: Logs, ch: Channel, fixed: bool): Result<()> {
    var log :- OpenLog(logs, ch);
    if fixed then CheckLogFixed(log, LogName(ch)) else CheckLog(log, LogName(ch))
  }

  /** The checks of all channels: success when each succeeds, otherwise the
      error of a failing one. */
  function CheckAll(logs: Logs, chans: seq<Channel>, fixed: bool): (r: Result<()>)
    ensures r.Ok? <==> forall i :: 0 <= i < |chans| ==> CheckChannel(logs, chans[i], fixed).Ok?
    ensures r.Err? ==> exists i :: 0 <= i < |chans| && CheckChannel(logs, chans[i], fixed) == Err(r.error)
  {
    if |chans| == 0 then Ok(())
    else
      match CheckChannel(logs, chans[0], fixed)
      case Err(e) => Err(e)
      case Ok(_) =>
        var r := CheckAll(logs, chans[1..], fixed);
        assert forall i :: 1 <= i < |chans| ==> chans[i] == chans[1..][i - 1];
        r
  }

  /** The `check` command: the number of channels checked, or an error.  As
      written the check never reports an unexpected format: a failure is a
      missing transcript or a window that does not decode. */
  function CheckCommand(config: seq<string>, logs: Logs): (r: Result<nat>)
    ensures r.Ok? <==> forall ch :: ch in ParseConfig(config) ==> CheckChannel(logs, ch, false).Ok?
    ensures r.Ok? ==> r.value == |ParseConfig(config)|
    ensures r.Err? ==> exists ch :: ch in ParseConfig(config) && CheckChannel(logs, ch, false) == Err(r.error)
    ensures r.Err? ==> r.error.FileUnavailable? || r.error == InvalidUtf8
  {
    var chans := ParseConfig(config);
    match CheckAll(logs, chans, false)
    case Err(e) => Err(e)
    case Ok(_) => Ok(|chans|)
  }

  /** The `check` command with the corrected per-file check: it passes when
      every transcript opens, every tested window decodes and no record is
      only a timestamp, and a reported format error names such a record of
      some channel's transcript. */
  function CheckCommandFixed(config: seq<string>, logs: Logs): (r: Result<nat>)
    ensures r.Ok? <==> forall ch :: ch in ParseConfig(config) ==>
      (LogName(ch) in logs && forall i: nat :: i < |logs[LogName(ch)]| ==>
         !Undecodable(logs[LogName(ch)], i) && !BareRecordEndsAt(logs[LogName(ch)], i))
    ensures r.Ok? ==> r.value == |ParseConfig(config)|
    ensures r.Err? && r.error.UnexpectedFormat? ==>
      exists ch :: ch in ParseConfig(config) && r.error.fileName == LogName(ch) && LogName(ch) in logs
                   && BareRecordEndsAt(logs[LogName(ch)], r.error.position)
    ensures r.Err? ==> exists ch :: ch in ParseConfig(config) && CheckChannel(logs, ch, true) == Err(r.error)
  {
    var chans := ParseConfig(config);
    match CheckAll(logs, chans, true)
    case Err(e) => Err(e)
    case Ok(_) => Ok(|chans|)
  }

  /** The `check` command as the program runs it: each transcript scanned by
      the forward loop, in configuration order. */
  method RunCheck(config: seq<string>, logs: Logs) returns (r: Result<nat>)
    ensures r == CheckCommand(config, logs)
  {
    var chans := ParseConfig(config);
    for i := 0 to |chans|
      invariant CheckAll(logs, chans, false) == CheckAll(logs, chans[i..], false)
    {
      CheckAllStep(logs, chans, i);
      var name := LogName(chans[i]);
      if name !in logs {
        return Err(FileUnavailable(name));
      }
      var outcome := ScanLog(logs[name], name, BareTimestamp);
      if outcome.Err? {
        return Err(outcome.error);
      }
    }
    return Ok(|chans|);
  }

  /** `CheckAll` consumes the channels one at a time. */
  lemma CheckAllStep(logs: Logs, chans: seq<Channel>, i: nat)
    requires i < |chans|
    ensures CheckAll(logs, chans[i..], false) ==
      (if CheckChannel(logs, chans[i], false).Err? then CheckChannel(logs, chans[i], false)
       else CheckAll(logs, chans[i + 1..], false))
  {
    assert chans[i..][1..] == chans[i + 1..];
  }

  // ----------------------------------------------------------------- sort

  /** The ranking of one channel: its configured names and index with the
      activity count of its transcript. */
  function RankChannel(logs: Logs, ch: Channel): (r: Result<Ranked>)
    ensures r.Ok? ==> r.value.server == ch.server && r.value.channel == ch.channel
                      && r.value.index == ch.index
  {
    var log :- OpenLog(logs, ch);
    var count :- RankLog(log, LogName(ch));
    Ok(Ranked(ch.server, ch.channel, count, ch.index))
  }

  /** The rankings of all channels, in configuration order, or the error of
      a failing one. */
  function RankAll(logs: Logs, chans: seq<Channel>): (r: Result<seq<Ranked>>)
    ensures r.Ok? <==> forall i :: 0 <= i < |chans| ==> RankChannel(logs, chans[i]).Ok?
    ensures r.Ok? ==> |r.value| == |chans|
    ensures r.Ok? ==> forall i :: 0 <= i < |chans| ==> r.value[i] == RankChannel(logs, chans[i]).value
    ensures r.Err? ==> exists i :: 0 <= i < |chans| && RankChannel(logs, chans[i]) == Err(r.error)
  {
    if |chans| == 0 then Ok([])
    else
      var init := chans[..|chans| - 1];
      assert forall i :: 0 <= i < |init| ==> init[i] == chans[i];
      match RankAll(logs, init)
      case Err(e) => Err(e)
      case Ok(done) =>
        match RankChannel(logs, chans[|chans| - 1])
        case Err(e) => Err(e)
        case Ok(last) => Ok(done + [last])
  }

  /** Once a prefix of the channels has failed, the rest changes nothing. */
  lemma {:induction false} RankAllFailed(logs: Logs, chans: seq<Channel>, i: nat)
    requires i <= |chans| && RankAll(logs, chans[..i]).Err?
    ensures RankAll(logs, chans) == RankAll(logs, chans[..i])
    decreases |chans| - i
  {
    if i < |chans| {
      var init := chans[..|chans| - 1];
      assert init[..i] == chans[..i];
      RankAllFailed(logs, init, i);
    } else {
      assert chans[..i] == chans;
    }
  }

  /** The `sort` command: the directive lines for the channels in order of
      activity, or an error.  The lines are the emission of a sorted
      arrangement of exactly the channels' rankings. */
  function SortCommand(config: seq<string>, logs: Logs): (r: Result<seq<string>>)
    ensures r.Ok? <==> forall ch :: ch in ParseConfig(config) ==> RankChannel(logs, ch).Ok?
    ensures r.Err? ==> exists ch :: ch in ParseConfig(config) && RankChannel(logs, ch) == Err(r.error)
    ensures r.Ok? ==> |r.value| == 2 * |ParseConfig(config)|
    ensures r.Ok? ==> exists rs :: Sorted(rs) && multiset(rs) == multiset(RankAll(logs, ParseConfig(config)).value)
                                   && r.value == Emit(rs)
  {
    var ranked :- RankAll(logs, ParseConfig(config));
    var rs := SortRanked(ranked);
    Ok(Emit(rs))
  }

  /** The `sort` command as the program runs it: each transcript walked by
      the backward loop, then the rankings sorted and emitted. */
  method RunSort(config: seq<string>, logs: Logs) returns (r: Result<seq<string>>)
    ensures r == SortCommand(config, logs)
  {
    var chans := ParseConfig(config);
    var ranked: seq<Ranked> := [];
    for i := 0 to |chans|
      invariant RankAll(logs, chans[..i]) == Ok(ranked)
    {
      var one := RankOne(logs, chans[i]);
      RankAllExtend(logs, chans, i, ranked);
      if one.Err? {
        return Err(one.error);
      }
      ranked := ranked + [one.value];
    }
    assert chans[..|chans|] == chans;
    return Ok(Emit(SortRanked(ranked)));
  }

  /** One channel of the `sort` command: open its transcript and walk it. */
  method RankOne(logs: Logs, ch: Channel) returns (r: Result<Ranked>)
    ensures r == RankChannel(logs, ch)
  {
    var name := LogName(ch);
    if name !in logs {
      return Err(FileUnavailable(name));
    }
    var count := RankScan(logs[name], name);
    if count.Err? {
      return Err(count.error);
    }
    return Ok(Ranked(ch.server, ch.channel, count.value, ch.index));
  }

  /** Ranking one more channel extends the rankings, or fails them all. */
  lemma RankAllExtend(logs: Logs, chans: seq<Channel>, i: nat, ranked: seq<Ranked>)
    requires i < |chans| && RankAll(logs, chans[..i]) == Ok(ranked)
    ensures RankChannel(logs, chans[i]).Ok? ==>
      RankAll(logs, chans[..i + 1]) == Ok(ranked + [RankChannel(logs, chans[i]).value])
    ensures RankChannel(logs, chans[i]).Err? ==>
      RankAll(logs, chans) == Err(RankChannel(logs, chans[i]).error)
  {
    assert chans[..i + 1][..i] == chans[..i];
    if RankChannel(logs, chans[i]).Err? {
      RankAllFailed(logs, chans, i + 1);
    }
  }

  /** Every ranking carries names a configuration line yielded. */
  lemma RankedNamesReadable(logs: Logs, config: seq<string>)
    requires RankAll(logs, ParseConfig(config)).Ok?
    ensures ReadableNames(RankAll(logs, ParseConfig(config)).value)
    ensures ReadableNames(SortRanked(RankAll(logs, ParseConfig(config)).value))
  {
    var chans := ParseConfig(config);
    var ranked := RankAll(logs, chans).value;
    assert forall i :: 0 <= i < |chans| ==> WellFormed(chans[i]) by {
      forall i | 0 <= i < |chans| ensures WellFormed(chans[i]) {
        assert chans[i] in chans;
      }
    }
    var sorted := SortRanked(ranked);
    forall k | 0 <= k < |sorted| ensures Readable(SelectBuffer(sorted[k].server, sorted[k].channel)) {
      assert sorted[k] in multiset(ranked);
      var j :| 0 <= j < |ranked| && ranked[j] == sorted[k];
    }
  }

  /** What the `sort` command prints, read back line by line: the k-th pair
      selects a configured channel by its names as configured and moves it
      to position k + 2; every configured channel is selected exactly once;
      and the selected channels' counts never increase, equal counts
      coming in order of index. */
  lemma SortOutput(config: seq<string>, logs: Logs)
    requires SortCommand(config, logs).Ok?
    ensures var lines := SortCommand(config, logs).value;
      var rs := SortRanked(RankAll(logs, ParseConfig(config)).value);
      && |lines| == 2 * |rs|
      && Sorted(rs)
      && multiset(rs) == multiset(RankAll(logs, ParseConfig(config)).value)
      && (forall k :: 0 <= k < |rs| ==>
            ParseDirective(lines[2 * k]) == Some(SelectBuffer(rs[k].server, rs[k].channel)))
      && (forall k :: 0 <= k < |rs| ==>
            ParseDirective(lines[2 * k + 1]) == Some(MoveBuffer(FirstTarget + k)))
  {
    RankedNamesReadable(logs, config);
    EmitReadsBack(SortRanked(RankAll(logs, ParseConfig(config)).value));
  }

  /** When no two channels share both count and index, the printed lines do
      not depend on how the sort breaks ties: any sorted arrangement of the
      rankings prints the same. */
  lemma SortOutputDetermined(config: seq<string>, logs: Logs, rs: seq<Ranked>)
    requires SortCommand(config, logs).Ok?
    requires Sorted(rs) && DistinctKeys(rs)
    requires multiset(rs) == multiset(RankAll(logs, ParseConfig(config)).value)
    ensures SortCommand(config, logs).value == Emit(rs)
  {
    SortedUnique(rs, SortRanked(RankAll(logs, ParseConfig(config)).value));
  }
}

