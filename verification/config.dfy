/**
 The channel list and the transcript file naming (src/main.rs,
 `logs_into_par_iter`).

 Each configuration line of the form
   default.buffer = "irc;<server>.#<channel>;<index>"
 names one channel; every other line is skipped, and so is a line whose
 index does not fit an unsigned 32-bit integer.  A channel's transcript
 is the file `irc.<server>.#<channel>.weechatlog`, both names lower-cased.
 */
module Config {
  import opened Text
  import opened Errors

  /** One channel as the configuration lists it. */
  datatype Channel = Channel(server: string, channel: string, index: nat)

  const LinePrefix: string := "default.buffer = \"irc;"

  /** One more than the largest `u32`. */
  const U32Limit: nat := 0x1_0000_0000

  /** What a line can yield: a non-empty `\w+` server, a non-empty `[-\w]+`
      channel and an index that fits a `u32`. */
  predicate WellFormed(ch: Channel) {
    && |ch.server| > 0 && AllWordChars(ch.server)
    && |ch.channel| > 0 && AllChannelChars(ch.channel)
    && ch.index < U32Limit
  }

  /** `s` with the prefix `p` removed, when `s` starts with `p`. */
  function StripPrefix(p: string, s: string): (r: Option<string>)
    ensures r.Some? <==> |p| <= |s| && s[..|p|] == p
    ensures r.Some? ==> s == p + r.value
  {
    if |p| <= |s| && s[..|p|] == p then Some(s[|p|..]) else None
  }

  lemma StripPrefixOf(p: string, t: string)
    ensures StripPrefix(p, p + t) == Some(t)
  {
    assert (p + t)[..|p|] == p;
    assert (p + t)[|p|..] == t;
  }

  /** Splits `s` into its longest prefix whose characters satisfy `inClass`
      and the rest. */
  function SplitRun(s: string, inClass: char -> bool): (r: (string, string))
    ensures s == r.0 + r.1
    ensures forall k :: 0 <= k < |r.0| ==> inClass(r.0[k])
    ensures |r.1| == 0 || !inClass(r.1[0])
  {
    if |s| == 0 || !inClass(s[0]) then ([], s)
    else
      var (run, rest) := SplitRun(s[1..], inClass);
      RunCons(s, run, rest, inClass);
      ([s[0]] + run, rest)
  }

  /** A run extended by the class character in front of it. */
  lemma RunCons(s: string, run: string, rest: string, inClass: char -> bool)
    requires |s| > 0 && inClass(s[0]) && s[1..] == run + rest
    requires forall k :: 0 <= k < |run| ==> inClass(run[k])
    ensures s == ([s[0]] + run) + rest
    ensures forall k :: 0 <= k < |[s[0]] + run| ==> inClass(([s[0]] + run)[k])
  {
    assert s == [s[0]] + s[1..];
    forall k | 0 <= k < |[s[0]] + run| ensures inClass(([s[0]] + run)[k]) {
      if k > 0 {
        assert ([s[0]] + run)[k] == run[k - 1];
      }
    }
  }

  /** A run stops exactly where the class ends, whatever follows. */
  lemma {:induction false} SplitRunOf(a: string, b: string, inClass: char -> bool)
    requires forall k :: 0 <= k < |a| ==> inClass(a[k])
    requires |b| == 0 || !inClass(b[0])
    ensures SplitRun(a + b, inClass) == (a, b)
  {
    if |a| > 0 {
      assert (a + b)[1..] == a[1..] + b;
      assert (a + b)[0] == a[0];
      SplitRunOf(a[1..], b, inClass);
      assert [a[0]] + a[1..] == a;
    } else {
      assert a + b == b;
    }
  }

  /** A server name runs up to the first non-word character after it. */
  lemma WordRunOf(a: string, b: string)
    requires AllWordChars(a)
    requires |b| == 0 || !IsWordChar(b[0])
    ensures SplitRun(a + b, IsWordChar) == (a, b)
  {
    SplitRunOf(a, b, IsWordChar);
  }

  /** A channel name runs up to the first non-channel character after it. */
  lemma ChannelRunOf(a: string, b: string)
    requires AllChannelChars(a)
    requires |b| == 0 || !IsChannelChar(b[0])
    ensures SplitRun(a + b, IsChannelChar) == (a, b)
  {
    SplitRunOf(a, b, IsChannelChar);
  }

  lemma WordRunBeforeDot(a: string, t: string)
    requires AllWordChars(a)
    ensures SplitRun(a + (".#" + t), IsWordChar) == (a, ".#" + t)
  {
    assert (".#" + t)[0] == '.';
    WordRunOf(a, ".#" + t);
  }

  lemma ChannelRunBeforeSemicolon(a: string, t: string)
    requires AllChannelChars(a)
    ensures SplitRun(a + (";" + t), IsChannelChar) == (a, ";" + t)
  {
    assert (";" + t)[0] == ';';
    ChannelRunOf(a, ";" + t);
  }

  /** The line shape the configuration pattern accepts, for a given server,
      channel and index text. */
  function ConfigShape(server: string, channel: string, digits: string): string {
    LinePrefix + (server + (".#" + (channel + (";" + (digits + "\"")))))
  }

  /** The configuration line that describes `ch`. */
  function ConfigLine(ch: Channel): string {
    ConfigShape(ch.server, ch.channel, NatToString(ch.index))
  }

  /** The index text and closing quote that end a configuration line. */
  function ParseIndex(s: string): (r: Option<nat>)
    ensures r.Some? ==> exists d :: s == d + "\"" && |d| > 0 && AllDigits(d)
                                    && ParseDecimal(d) == r.value && r.value < U32Limit
  {
    if |s| < 2 || s[|s| - 1] != '"' then None
    else
      var digits := s[..|s| - 1];
      assert s == digits + "\"";
      if !AllDigits(digits) || ParseDecimal(digits) >= U32Limit then None
      else Some(ParseDecimal(digits))
  }

  lemma ParseIndexOf(d: string)
    requires |d| > 0 && AllDigits(d)
    ensures ParseIndex(d + "\"") == if ParseDecimal(d) < U32Limit then Some(ParseDecimal(d)) else None
  {
    assert (d + "\"")[..|d|] == d;
  }

  /** The configuration pattern
       ^default\.buffer = "irc;(\w+?)\.#([-\w]+?);(\d+)"$
      followed by the `u32` parse of the third group.  Each lazy group is
      followed by a character outside its class, so it matches the longest
      run of that class. */
  function ParseConfigLine(line: string): (r: Option<Channel>)
    ensures r.Some? ==> WellFormed(r.value)
  {
    match StripPrefix(LinePrefix, line)
    case None => None
    case Some(rest) =>
      var (server, rest1) := SplitRun(rest, IsWordChar);
      match StripPrefix(".#", rest1)
      case None => None
      case Some(rest2) =>
        var (channel, rest3) := SplitRun(rest2, IsChannelChar);
        match StripPrefix(";", rest3)
        case None => None
        case Some(rest4) =>
          match ParseIndex(rest4)
          case None => None
          case Some(index) =>
            if |server| == 0 || |channel| == 0 then None
            else Some(Channel(server, channel, index))
  }

  /** A line yields a channel only if it is exactly the configured shape
      around that channel's names and a digit string whose value is its
      index. */
  lemma ParseConfigLineSound(line: string)
    ensures var r := ParseConfigLine(line);
      r.Some? ==> exists d :: line == ConfigShape(r.value.server, r.value.channel, d)
                              && AllDigits(d) && ParseDecimal(d) == r.value.index
  {
    var r := ParseConfigLine(line);
    if r.Some? {
      var rest := StripPrefix(LinePrefix, line).value;
      var (server, rest1) := SplitRun(rest, IsWordChar);
      var rest2 := StripPrefix(".#", rest1).value;
      var (channel, rest3) := SplitRun(rest2, IsChannelChar);
      var rest4 := StripPrefix(";", rest3).value;
      var d :| rest4 == d + "\"" && |d| > 0 && AllDigits(d) && ParseDecimal(d) == r.value.index;
      assert line == ConfigShape(server, channel, d);
    }
  }

  /** A line of the configured shape yields its channel exactly when the
      index fits a `u32`; leading zeros in the index are accepted. */
  lemma ParseConfigLineShape(server: string, channel: string, digits: string)
    requires |server| > 0 && AllWordChars(server)
    requires |channel| > 0 && AllChannelChars(channel)
    requires |digits| > 0 && AllDigits(digits)
    ensures ParseConfigLine(ConfigShape(server, channel, digits))
         == (if ParseDecimal(digits) < U32Limit
             then Some(Channel(server, channel, ParseDecimal(digits)))
             else None)
  {
    var tail := digits + "\"";
    var line := ConfigShape(server, channel, digits);
    var rest1 := ".#" + (channel + (";" + tail));
    var rest3 := ";" + tail;
    assert line == LinePrefix + (server + rest1);
    StripPrefixOf(LinePrefix, server + rest1);
    WordRunBeforeDot(server, channel + rest3);
    StripPrefixOf(".#", channel + rest3);
    ChannelRunBeforeSemicolon(channel, tail);
    StripPrefixOf(";", tail);
    ParseIndexOf(digits);
    ParseConfigLineSteps(line, server, channel, rest1, rest3, tail);
  }

  /** `ParseConfigLine` read off from the results of its steps. */
  lemma ParseConfigLineSteps(line: string, server: string, channel: string,
                             rest1: string, rest3: string, tail: string)
    requires |server| > 0 && |channel| > 0
    requires StripPrefix(LinePrefix, line) == Some(server + rest1)
    requires SplitRun(server + rest1, IsWordChar) == (server, rest1)
    requires StripPrefix(".#", rest1) == Some(channel + rest3)
    requires SplitRun(channel + rest3, IsChannelChar) == (channel, rest3)
    requires StripPrefix(";", rest3) == Some(tail)
    ensures ParseConfigLine(line)
         == (if ParseIndex(tail).Some? then Some(Channel(server, channel, ParseIndex(tail).value)) else None)
  {
  }

  /** Reading back the line written for a well-formed channel gives the
      channel. */
  lemma ConfigLineRoundTrip(ch: Channel)
    requires WellFormed(ch)
    ensures ParseConfigLine(ConfigLine(ch)) == Some(ch)
  {
    ParseFormatted(ch.index);
    ParseConfigLineShape(ch.server, ch.channel, NatToString(ch.index));
  }

  /** The channels the configuration lists, in line order; lines that do not
      match, or whose index does not parse, are dropped. */
  function ParseConfig(lines: seq<string>): (r: seq<Channel>)
    ensures |r| <= |lines|
    ensures forall ch :: ch in r ==> WellFormed(ch)
  {
    if |lines| == 0 then []
    else
      var rest := ParseConfig(lines[1..]);
      match ParseConfigLine(lines[0])
      case Some(ch) => [ch] + rest
      case None => rest
  }

  /** A channel is listed exactly when some line yields it. */
  lemma {:induction false} ParseConfigMembers(lines: seq<string>)
    ensures forall ch :: ch in ParseConfig(lines) ==> exists l :: l in lines && ParseConfigLine(l) == Some(ch)
    ensures forall l :: l in lines && ParseConfigLine(l).Some? ==> ParseConfigLine(l).value in ParseConfig(lines)
  {
    if |lines| > 0 {
      ParseConfigMembers(lines[1..]);
      assert forall l :: l in lines ==> l == lines[0] || l in lines[1..];
    }
  }

  /** One line contributes its channel, or nothing. */
  lemma ParseConfigOne(l: string)
    ensures ParseConfig([l]) == if ParseConfigLine(l).Some? then [ParseConfigLine(l).value] else []
  {
    assert [l][1..] == [];
  }

  /** The channels of consecutive blocks of lines are those of each block,
      in order: every matching line contributes one entry, where it stands,
      duplicates included. */
  lemma {:induction false} ParseConfigAppend(a: seq<string>, b: seq<string>)
    ensures ParseConfig(a + b) == ParseConfig(a) + ParseConfig(b)
    decreases |a|
  {
    if |a| == 0 {
      assert a + b == b;
    } else {
      assert (a + b)[0] == a[0];
      assert (a + b)[1..] == a[1..] + b;
      ParseConfigAppend(a[1..], b);
    }
  }

  /** `chans` holds, in order, the channel `parse` gives for each of
      `lines`. */
  predicate LinesYield(parse: string -> Option<Channel>, lines: seq<string>, chans: seq<Channel>) {
    |chans| == |lines| && forall k :: 0 <= k < |lines| ==> parse(lines[k]) == Some(chans[k])
  }

  /** When every line matches, the k-th channel is that of the k-th line. */
  lemma ParseConfigEach(lines: seq<string>)
    requires forall k :: 0 <= k < |lines| ==> ParseConfigLine(lines[k]).Some?
    ensures |ParseConfig(lines)| == |lines|
    ensures forall k :: 0 <= k < |lines| ==> ParseConfig(lines)[k] == ParseConfigLine(lines[k]).value
  {
    ParseConfigYields(lines);
  }

  lemma {:induction false} ParseConfigYields(lines: seq<string>)
    requires forall k :: 0 <= k < |lines| ==> ParseConfigLine(lines[k]).Some?
    ensures LinesYield(ParseConfigLine, lines, ParseConfig(lines))
  {
    if |lines| > 0 {
      var tail := lines[1..];
      assert forall k :: 0 <= k < |tail| ==> tail[k] == lines[k + 1];
      ParseConfigYields(tail);
      var c := ParseConfigLine(lines[0]).value;
      YieldCons(ParseConfigLine, lines, c, ParseConfig(tail));
    }
  }

  lemma YieldCons(parse: string -> Option<Channel>, lines: seq<string>, c: Channel, chans: seq<Channel>)
    requires |lines| > 0 && parse(lines[0]) == Some(c)
    requires LinesYield(parse, lines[1..], chans)
    ensures LinesYield(parse, lines, [c] + chans)
  {
    forall k | 1 <= k < |lines| ensures parse(lines[k]) == Some(([c] + chans)[k]) {
      assert lines[k] == lines[1..][k - 1];
    }
  }

  const LogSuffix: string := ".weechatlog"

  /** The transcript file of a channel: `irc.<server>.#<channel>.weechatlog`
      with both names lower-cased. */
  function FileName(server: string, channel: string): string {
    "irc." + (Lower(server) + (".#" + (Lower(channel) + LogSuffix)))
  }

  /** Recovers the (lower-cased) server and channel from a transcript file
      name. */
  function ParseFileName(name: string): (r: Option<(string, string)>)
    ensures r.Some? ==> name == "irc." + (r.value.0 + (".#" + (r.value.1 + LogSuffix)))
  {
    match StripPrefix("irc.", name)
    case None => None
    case Some(rest) =>
      var (server, rest1) := SplitRun(rest, IsWordChar);
      match StripPrefix(".#", rest1)
      case None => None
      case Some(rest2) =>
        var (channel, rest3) := SplitRun(rest2, IsChannelChar);
        if |server| == 0 || |channel| == 0 || rest3 != LogSuffix then None
        else Some((server, channel))
  }

  /** The file name of a channel whose names are in the configured classes
      gives back the lower-cased names. */
  lemma FileNameRoundTrip(server: string, channel: string)
    requires |server| > 0 && AllWordChars(server)
    requires |channel| > 0 && AllChannelChars(channel)
    ensures ParseFileName(FileName(server, channel)) == Some((Lower(server), Lower(channel)))
  {
    var s := Lower(server);
    var c := Lower(channel);
    LowerKeepsClasses(server);
    LowerKeepsClasses(channel);
    StripPrefixOf("irc.", s + (".#" + (c + LogSuffix)));
    WordRunBeforeDot(s, c + LogSuffix);
    StripPrefixOf(".#", c + LogSuffix);
    ChannelRunBeforeSuffix(c);
  }

  lemma ChannelRunBeforeSuffix(a: string)
    requires AllChannelChars(a)
    ensures SplitRun(a + LogSuffix, IsChannelChar) == (a, LogSuffix)
  {
    assert LogSuffix[0] == '.';
    ChannelRunOf(a, LogSuffix);
  }

  /** Two channels share a transcript file exactly when their names agree
      up to ASCII case. */
  lemma FileNameIdentifies(s1: string, c1: string, s2: string, c2: string)
    requires |s1| > 0 && AllWordChars(s1) && |c1| > 0 && AllChannelChars(c1)
    requires |s2| > 0 && AllWordChars(s2) && |c2| > 0 && AllChannelChars(c2)
    ensures FileName(s1, c1) == FileName(s2, c2) <==> Lower(s1) == Lower(s2) && Lower(c1) == Lower(c2)
  {
    if FileName(s1, c1) == FileName(s2, c2) {
      SameFileName(s1, c1, s2, c2);
    }
  }

  lemma SameFileName(s1: string, c1: string, s2: string, c2: string)
    requires |s1| > 0 && AllWordChars(s1) && |c1| > 0 && AllChannelChars(c1)
    requires |s2| > 0 && AllWordChars(s2) && |c2| > 0 && AllChannelChars(c2)
    requires FileName(s1, c1) == FileName(s2, c2)
    ensures Lower(s1) == Lower(s2) && Lower(c1) == Lower(c2)
  {
    FileNameRoundTrip(s1, c1);
    FileNameRoundTrip(s2, c2);
  }
}
