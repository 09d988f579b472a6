# irc-log-manager in Dafny

A model of the core of `irc-log-manager`, a small command-line tool that
works on the chat transcripts a WeeChat client writes, one file per IRC
channel. Each transcript record is one line:
`YYYY-MM-DD HH:MM:SS<TAB>[@]name<TAB>message`. The tool has two commands.

- `check` walks each transcript forward. At every newline that leaves room
  for it, it takes a 21-byte window, decodes it as UTF-8 and matches it
  against a "bare timestamp" pattern. A decoding failure or a match aborts
  the run. On success it reports how many channel files it checked.
- `sort` walks each transcript backwards, record by record. Each record is
  decoded and parsed into a date and an author name. The walk stops at the
  first record dated before `2019-02-18`, and it counts the records written
  under one of four aliases. The channels are then ordered by
  (most messages first, then smaller configured index). For each channel
  the tool prints `/buffer <server>.#<channel>` and `/buffer move <k+2>`.

The channel list comes from the client's configuration file. Each line
`default.buffer = "irc;<server>.#<channel>;<index>"` names one channel.
Its transcript file is `irc.<server>.#<channel>.weechatlog`, with both
names lower-cased.

The model treats the inputs as values:

- a transcript is a `seq<Byte>`;
- the configuration is a `seq<string>` of lines;
- the transcripts are a `map` from file name to bytes, and a missing name
  stands for a file that cannot be opened or mapped.

Modules, leaf first:

- `Utf8` (`utf8.dfy`): bytes, UTF-8 well-formedness after Table 3-7 of the
  Unicode Standard (what Rust's `from_utf8` accepts), and an encoder.
- `Errors` (`errors.dfy`): the three failures and `Option`/`Result`.
- `Text` (`text.dfy`): ASCII character classes, lower-casing, and decimal
  formatting and parsing.
- `Config` (`config.dfy`): the configuration-line parser, the `u32` index
  parse, and the transcript file name.
- `Records` (`records.dfy`): the record header, the two record patterns,
  byte-wise string order, and the cutoff and alias constants.
- `Check` (`check.dfy`): the forward scan, as written and corrected.
- `Rank` (`rank.dfy`): the backward walk and its count.
- `Order` (`order.dfy`): the sort on (-count, index) and the directive
  lines.
- `Commands` (`commands.dfy`): both commands over all channels, as
  functions and as loops.

Three consequences of the code are worth stating up front:

- **The sort order.** The key `(-count, index)` at src/main.rs:228 puts
  the most active channel first and breaks ties by the smaller index.
  Channels A (count 3, index 5), B (5, 1) and C (3, 2) therefore print
  as B, C, A (`Order.ThreeChannels`).
- **A bare-timestamp record in ranking.** The ranking pattern at
  src/main.rs:159-160 ends its name group at a tab or at the end of the
  record, so a record that is only `2020-01-01 00:00:01<TAB>` parses
  with an empty name (`Records.BareHeaderParses`). The walk goes on past
  it instead of reporting an unexpected format (`Rank.BareRecordRanks`).
- **The check.** The pattern at src/main.rs:99, a timestamp and a tab
  anchored at both ends, can only be meant to match a record that is a
  timestamp and a tab and nothing else. The window it is matched against
  starts at the newline, so it never matches; see "Findings". The model
  keeps the check as written and adds the corrected one next to it.

## Model

| member | source | states |
|---|---|---|
| Utf8.CutCharacterInvalid | src/main.rs:114-119 | well-formed bytes followed by a proper, non-empty prefix of a multi-byte character's encoding do not decode, so a window that ends inside a character fails the check |
| Utf8.AsciiValid | src/main.rs:119 | ASCII text always decodes, so a window of ASCII bytes never fails the check |
| Text.LowerKeepsClasses | src/main.rs:71-72 | lower-casing keeps server and channel names in their character classes and is idempotent |
| Text.ParseFormatted | src/main.rs:233 | reading back the printed decimal move target gives the number |
| Text.CanonicalDigits | src/main.rs:233 | a numeral with no superfluous leading zero is exactly how its value prints |
| Config.ParseIndex | src/main.rs:51 | the index text yields a value only if it is a non-empty run of digits, followed by the closing quote, whose value is below 2^32 |
| Config.ParseConfigLineSound | src/main.rs:42-55 | a line yields a channel only if it is exactly the configured shape around a `\w+` server, a `[-\w]+` channel and a digit string whose value is the index, below 2^32 |
| Config.ParseConfigLineShape | src/main.rs:42-51 | a line of the configured shape yields its channel exactly when the index fits `u32` (leading zeros accepted), and is dropped otherwise |
| Config.ConfigLineRoundTrip | src/main.rs:42-55 | the configuration line written for any channel the parser can yield parses back to that channel |
| Config.ParseConfig | src/main.rs:44-59 | the channel list is never longer than the configuration and holds only well-formed channels |
| Config.ParseConfigMembers | src/main.rs:44-59 | every listed channel comes from a matching line, and every matching line's channel is listed |
| Config.ParseConfigOne | src/main.rs:44-59 | a single line contributes its channel when it matches and nothing otherwise |
| Config.ParseConfigAppend | src/main.rs:44-59 | the channels of two runs of lines are those of the first run followed by those of the second, so order and repetitions follow the file |
| Config.ParseConfigEach | src/main.rs:44-59 | when every line matches, the k-th channel is the k-th line's channel |
| Config.FileNameRoundTrip | src/main.rs:68-73 | a transcript file name gives back the lower-cased server and channel |
| Config.FileNameIdentifies | src/main.rs:68-73 | two channels share a transcript file exactly when their names agree up to ASCII case |
| Records.HeaderFacts | src/main.rs:99 | a header opens with a digit, never with a newline, and is plain ASCII |
| Records.ParseRecord | src/main.rs:159-160 | a record parses exactly when it opens with a header; the date is its first ten bytes; the name follows one dropped `@` and runs up to the first tab or the end |
| Records.ParseRecordOf | src/main.rs:159-160 | header, optional `@`, a tab-free name and a tab-led remainder parse back to that date and name |
| Records.BareHeaderParses | src/main.rs:159-160 | a record that is only a header parses, with an empty name |
| Records.LexLessStrictTotal | src/main.rs:195 | the byte-wise string order used for the cutoff is a strict total order |
| Records.ConstantsAreEncodings | src/main.rs:195-200 | the cutoff and the four aliases, as bytes, are the UTF-8 encodings of the program's literals |
| Check.CheckWith | src/main.rs:109-139 | the forward scan passes exactly when no tested newline's window fails to decode or matches; otherwise it reports the first such offset, as a decoding error or an unexpected format carrying the offset and the window |
| Check.ScanLog | src/main.rs:109-149 | the forward loop computes exactly the scan's outcome |
| Check.WindowNeverBare | src/main.rs:99-120 | no tested window even begins with a record header, because the window begins with the newline and a header with a digit; the window is also one byte longer than the 20-byte bare pattern, which alone rules out a match |
| Check.CheckLog | src/main.rs:98-150 | a transcript passes the check exactly when every window at a newline with 21 bytes of room decodes, and a failure is always a decoding error |
| Check.BareRecordMissed | src/main.rs:109-120 | the transcript newline, bare timestamp, newline passes the check as written but is reported at offset 21 by the corrected check |
| Check.CheckLogFixed | src/main.rs:98-139 | corrected check: it passes exactly when every tested window decodes and no record, the first one included, is only a timestamp and a tab; otherwise it reports the first offset where either happens, the decoding error first when both happen at one newline |
| Check.FixedAgreesWithoutBareRecords | src/main.rs:109-139 | on a transcript with no bare-timestamp record the corrected check gives exactly the program's result |
| Check.FixedCheckStricter | src/main.rs:109-139 | the corrected check rejects every transcript the program rejects |
| Check.FixedCheckFindsBareRecord | src/main.rs:109-139 | any bare-timestamp record that starts the transcript or follows a newline, and ends at a newline, makes the corrected check fail, at that newline or at an earlier offset where it stops |
| Check.BareFirstLineReported | src/main.rs:109-139 | a transcript whose first line is a bare timestamp is reported by the corrected check at offset 20, the newline ending that line |
| Check.WellFormedLogPasses | src/main.rs:98-120 | a transcript in which every newline but a final one is followed by a record header passes the check |
| Rank.NewlinesFromFacts | src/main.rs:176-180 | the backward walk meets every newline exactly once, in decreasing order |
| Rank.VisitedAreRecords | src/main.rs:173-206 | the walk visits exactly the ranges strictly between two consecutive newlines, in order of decreasing end |
| Rank.EdgesNeverExamined | src/main.rs:173-206 | no byte before the first newline or after the last one belongs to a visited record |
| Rank.VisitedRejoin | src/main.rs:176-206 | the visited records, put back in file order and joined by newlines, are exactly the bytes from the first to the last newline |
| Rank.SingleRecord | src/main.rs:176-206 | a transcript with a newline at each end and none between holds exactly one record |
| Rank.TallyOf | src/main.rs:176-207 | the count never exceeds the number of records visited |
| Rank.RankLog | src/main.rs:173-220 | a transcript's count is at most the number of records between its newlines |
| Rank.RankLogCountsRead | src/main.rs:176-207 | a successful count is the alias count of the records the walk read before it ended, and at most their number |
| Rank.TallyAllConsidered | src/main.rs:195-202 | when every record decodes, parses and is recent, the count is the number written by an alias |
| Rank.TallyEndsAtFirst | src/main.rs:183-202 | otherwise the first record that is not considered ends the walk; it is not counted and later records are never read |
| Rank.TallyAbsorbs | src/main.rs:183-197 | once the walk has stopped or aborted, further records change nothing |
| Rank.CutoffDayCounts | src/main.rs:195-202 | a record dated on the cutoff day is still considered and counts exactly when its name is an alias |
| Rank.RankLogMeaning | src/main.rs:173-220 | a transcript's result is the alias count of the records before the first unconsidered one, or how the walk ends there: a decoding error, an unexpected format at the newline before the record, or a stop |
| Rank.BareRecordRanks | src/main.rs:183-202 | a transcript whose one record is a bare timestamp on the cutoff day ranks with count 0 and no error |
| Rank.EarlyEnd | src/main.rs:195-197 | after the walk ends early, the rest of the transcript does not change the result |
| Rank.RankScan | src/main.rs:173-220 | the backward loop computes exactly the transcript's result |
| Order.BeforeOrder | src/main.rs:228 | the key (-count, index) is a strict order, total up to equal keys |
| Order.Insert | src/main.rs:228 | inserting into a sorted list keeps it sorted and adds exactly that entry |
| Order.SortRanked | src/main.rs:228 | the sorted list is a permutation of the rankings, most active first and equal counts by ascending index |
| Order.SortedUnique | src/main.rs:228 | with distinct keys there is only one sorted arrangement, so the unstable sort's choice does not matter |
| Order.Plan | src/main.rs:229-234 | for the k-th channel, a selection by its names and then a move to position k + 2 |
| Order.RenderRoundTrip | src/main.rs:232-233 | a printed directive reads back as the directive |
| Order.EmitReadsBack | src/main.rs:229-234 | read back, the output selects each channel in order and moves it to 2, 3, 4, ... without gaps |
| Order.ThreeChannels | src/main.rs:228-234 | channels A (3, 5), B (5, 1) and C (3, 2) print in the order B, C, A with targets 2, 3, 4 |
| Commands.CheckAll | src/main.rs:103-151 | all channels pass exactly when each passes; otherwise the error is that of a failing channel |
| Commands.CheckCommand | src/main.rs:98-155 | `check` succeeds exactly when every configured channel passes, then with the number of channels; a failure is a missing file or a decoding error, never an unexpected format |
| Commands.CheckCommandFixed | src/main.rs:98-155 | corrected `check`: it succeeds exactly when every transcript opens, every tested window decodes and no record is a bare timestamp, then with the number of channels; a failure is that of some configured channel, and a format error names such a record in that channel's file |
| Commands.RunCheck | src/main.rs:101-153 | the loop over channels computes exactly the `check` result |
| Commands.RankChannel | src/main.rs:162-221 | a ranking keeps the configured server, channel and index as written |
| Commands.RankAll | src/main.rs:162-222 | the rankings cover every channel in order, or fail with the error of a failing channel |
| Commands.SortCommand | src/main.rs:158-236 | `sort` succeeds exactly when every channel ranks; it prints two lines per channel, the emission of a sorted permutation of the rankings |
| Commands.RunSort | src/main.rs:162-234 | the loop over channels, then sort and emission, computes exactly the `sort` result |
| Commands.SortOutput | src/main.rs:228-234 | `sort`'s k-th line pair selects the k-th channel of a sorted permutation of the rankings and moves it to k + 2 |
| Commands.SortOutputDetermined | src/main.rs:228 | when no two channels share count and index, any sorted arrangement prints the same lines |

## Left out

- Command-line parsing and subcommand dispatch (src/main.rs:12-34): argument plumbing.
- Reading `$HOME`, opening the configuration file and mapping transcripts (src/main.rs:39-44, 74-78): I/O. The configuration is a list of lines and the transcripts are a map. An I/O error while reading configuration lines (src/main.rs:57) is not modelled.
- Parallel execution (src/main.rs:66, 103, 163): the channels are visited in order. The functions pick the first failing channel, but the contracts promise only the error of some failing channel, since the parallel collect does not fix which one.
- Verbose diagnostics on standard error, including `last_newline.unwrap()` (src/main.rs:217), which panics on a transcript without a newline only in verbose mode.
- The summary line `Checked N files, no issue was found` and the text of error messages (src/main.rs:87-90, 153): only the count and the error values are modelled.
- Unicode classes: `\d` and `\w` are ASCII digits and ASCII letters, digits and `_`, and `to_lowercase` is ASCII lower-casing. The regex crate's Unicode classes and full case mapping are wider.
- Commands.RankChannel: the count is an unbounded natural number. In the program it is an `i32`, and only `count += 1` past 2^31 - 1 records could overflow: a panic in a debug build, a wrap-around in a release build. Negating a non-negative count for the sort key cannot overflow.
- Commands.SortCommand: ties on (count, index) are broken by a stable insertion sort, while `sort_unstable_by_key` may order them either way. `Order.SortedUnique` and `Commands.SortOutputDetermined` show that the output is the same when keys are distinct.
- Empty transcripts: the memory-mapping crate may refuse to map a zero-length file, which would surface as an I/O error. The crate is not part of this model; a transcript is a byte sequence, so `CheckLog([], name)` passes and `RankLog([], name)` ranks with count 0.
- Check.CheckLogFixed: a bare-timestamp last line with no newline after it is not reported. The corrected check, like the original loop, looks only at newline positions, and such a line ends at the end of the file instead.
- The claim that byte-wise date order is chronological order is not proved; the cutoff is modelled as the byte-wise comparison the code performs.

## Findings

| source | as written | input that shows it | evidently intended | confidence | as-written member | corrected member |
|---|---|---|---|---|---|---|
| src/main.rs:109-120 | the window `mmap[i..i + 21]` starts at the newline byte and is matched against a pattern anchored to start with a digit, so no window can ever match; the window is also 21 bytes long while the pattern spans 20, so it could not match even if it started after the newline. The check reports nothing but decoding failures | the transcript `\n2019-02-18 12:00:00\t\n`, whose one record is a bare timestamp, passes | report a record that is a timestamp and a tab and nothing else, at the newline that ends it, keeping the decoding failure | high, not executed | Check.BareRecordMissed | Check.CheckLogFixed |
