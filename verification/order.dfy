/**
 Ordering the channels by activity and emitting the buffer directives
 (src/main.rs, the end of `sort`).

 Each channel carries its activity count and its configured index.  The
 channels are sorted on the key (-count, index): most active first, ties
 broken by the smaller index.  Then, for the channel at 0-based position
 k, two directive lines are written: one that selects the buffer by its
 server and channel as configured, one that moves it to position k + 2.
 */
module Order {
  import opened Text
  import opened Errors
  import opened Config

  /** One channel with the outcome of its ranking walk. */
  datatype Ranked = Ranked(server: string, channel: string, count: nat, index: nat)

  /** `a` has a strictly smaller key (-count, index) than `b`. */
  predicate Before(a: Ranked, b: Ranked) {
    a.count > b.count || (a.count == b.count && a.index < b.index)
  }

  /** Two entries with the same key: `sort_unstable` may put either first. */
  predicate SameKey(a: Ranked, b: Ranked) {
    a.count == b.count && a.index == b.index
  }

  /** Keys never decrease along `rs`. */
  predicate Sorted(rs: seq<Ranked>) {
    forall i, j :: 0 <= i < j < |rs| ==> !Before(rs[j], rs[i])
  }

  /** No two entries of `rs` share a key. */
  predicate DistinctKeys(rs: seq<Ranked>) {
    forall i, j :: 0 <= i < j < |rs| ==> !SameKey(rs[i], rs[j])
  }

  /** `Before` is a strict total order up to equal keys. */
  lemma BeforeOrder(a: Ranked, b: Ranked, c: Ranked)
    ensures !Before(a, a)
    ensures Before(a, b) ==> !Before(b, a)
    ensures !Before(a, b) && !Before(b, a) <==> SameKey(a, b)
    ensures Before(a, b) && Before(b, c) ==> Before(a, c)
  {
  }

  /** Places `x` in front of the first entry of a sorted `rs` that it comes
      before. */
  function Insert(x: Ranked, rs: seq<Ranked>): (r: seq<Ranked>)
    requires Sorted(rs)
    ensures Sorted(r)
    ensures multiset(r) == multiset(rs) + multiset{x}
    ensures |r| == |rs| + 1
    ensures r[0] == x || (|rs| > 0 && r[0] == rs[0])
  {
    if |rs| == 0 then [x]
    else if !Before(rs[0], x) then [x] + rs
    else
      var tail := Insert(x, rs[1..]);
      assert rs == [rs[0]] + rs[1..];
      assert !Before(tail[0], rs[0]);
      [rs[0]] + tail
  }

  /** The sorted order of `rs` (a stable insertion sort, one of the orders
      `sort_unstable_by_key` may produce). */
  function SortRanked(rs: seq<Ranked>): (r: seq<Ranked>)
    ensures Sorted(r)
    ensures multiset(r) == multiset(rs)
    ensures |r| == |rs|
  {
    if |rs| == 0 then []
    else
      assert rs == [rs[0]] + rs[1..];
      Insert(rs[0], SortRanked(rs[1..]))
  }

  /** When the keys are distinct, the sorted order is unique: any two sorted
      arrangements of the same entries are equal.  So `SortRanked` is the
      only order the program can print, whichever sort it uses. */
  lemma {:induction false} SortedUnique(a: seq<Ranked>, b: seq<Ranked>)
    requires Sorted(a) && Sorted(b) && multiset(a) == multiset(b)
    requires DistinctKeys(a)
    ensures a == b
    decreases |a|
  {
    assert |a| == |multiset(a)| == |b|;
    if |a| > 0 {
      assert b[0] in multiset(a);
      var m :| 0 <= m < |a| && a[m] == b[0];
      assert a[0] in multiset(b);
      var k :| 0 <= k < |b| && b[k] == a[0];
      assert !Before(a[m], a[0]);
      assert !Before(b[k], b[0]);
      assert SameKey(a[0], a[m]);
      assert m == 0;
      SameHeadTails(a, b);
      SortedUnique(a[1..], b[1..]);
    }
  }

  /** Removing the same first entry from two arrangements of the same
      entries leaves arrangements of the same entries, still sorted. */
  lemma SameHeadTails(a: seq<Ranked>, b: seq<Ranked>)
    requires |a| > 0 && |b| > 0 && a[0] == b[0] && multiset(a) == multiset(b)
    requires Sorted(a) && Sorted(b) && DistinctKeys(a)
    ensures multiset(a[1..]) == multiset(b[1..])
    ensures Sorted(a[1..]) && Sorted(b[1..]) && DistinctKeys(a[1..])
  {
    assert a == [a[0]] + a[1..];
    assert b == [b[0]] + b[1..];
    assert multiset(a[1..]) == multiset(a) - multiset{a[0]};
    assert multiset(b[1..]) == multiset(b) - multiset{b[0]};
  }

  /** One output line's meaning. */
  datatype Directive =
    | SelectBuffer(server: string, channel: string)   // `/buffer <server>.#<channel>`
    | MoveBuffer(target: nat)                        // `/buffer move <target>`

  /** The position the first ranked channel is moved to. */
  const FirstTarget: nat := 2

  /** The directives for `rs` in order: for the channel at position `k`, a
      selection of its buffer and a move to `k + 2`. */
  function Plan(rs: seq<Ranked>): (r: seq<Directive>)
    ensures |r| == 2 * |rs|
    ensures forall k :: 0 <= k < |rs| ==>
      r[2 * k] == SelectBuffer(rs[k].server, rs[k].channel) && r[2 * k + 1] == MoveBuffer(FirstTarget + k)
  {
    if |rs| == 0 then []
    else
      var last := |rs| - 1;
      var init := Plan(rs[..last]);
      init + [SelectBuffer(rs[last].server, rs[last].channel), MoveBuffer(FirstTarget + last)]
  }

  const SelectPrefix: string := "/buffer "
  const MovePrefix: string := "/buffer move "

  /** The text of one directive line. */
  function Render(d: Directive): string {
    match d
    case SelectBuffer(server, channel) => SelectPrefix + (server + (".#" + channel))
    case MoveBuffer(target) => MovePrefix + NatToString(target)
  }

  /** The lines the program prints for channels ranked as `rs`. */
  function Emit(rs: seq<Ranked>): (lines: seq<string>)
    ensures |lines| == 2 * |rs|
    ensures forall i :: 0 <= i < |lines| ==> lines[i] == Render(Plan(rs)[i])
  {
    var plan := Plan(rs);
    seq(|plan|, i requires 0 <= i < |plan| => Render(plan[i]))
  }

  /** A directive whose names a configuration line can yield. */
  predicate Readable(d: Directive) {
    d.SelectBuffer? ==> |d.server| > 0 && AllWordChars(d.server)
                        && |d.channel| > 0 && AllChannelChars(d.channel)
  }

  /** The meaning of one printed line, when it is a directive. */
  function ParseDirective(line: string): (r: Option<Directive>)
    ensures r.Some? ==> Render(r.value) == line
  {
    if |line| >= |MovePrefix| && line[..|MovePrefix|] == MovePrefix then
      var digits := line[|MovePrefix|..];
      assert line == MovePrefix + digits;
      if |digits| > 0 && AllDigits(digits) && (|digits| == 1 || digits[0] != '0')
      then
        CanonicalDigits(digits);
        Some(MoveBuffer(ParseDecimal(digits)))
      else None
    else if |line| >= |SelectPrefix| && line[..|SelectPrefix|] == SelectPrefix then
      var rest := line[|SelectPrefix|..];
      var (server, rest1) := SplitRun(rest, IsWordChar);
      if |server| > 0 && |rest1| >= 2 && rest1[..2] == ".#" then
        var channel := rest1[2..];
        assert rest1 == ".#" + channel;
        assert line == SelectPrefix + (server + (".#" + channel));
        Some(SelectBuffer(server, channel))
      else None
    else None
  }

  /** Reading a rendered directive back gives the directive. */
  lemma RenderRoundTrip(d: Directive)
    requires Readable(d)
    ensures ParseDirective(Render(d)) == Some(d)
  {
    match d
    case MoveBuffer(target) => MoveRoundTrip(target);
    case SelectBuffer(server, channel) => SelectRoundTrip(server, channel);
  }

  lemma MoveRoundTrip(target: nat)
    ensures ParseDirective(Render(MoveBuffer(target))) == Some(MoveBuffer(target))
  {
    var line := Render(MoveBuffer(target));
    var digits := NatToString(target);
    assert line[..|MovePrefix|] == MovePrefix;
    assert line[|MovePrefix|..] == digits;
    ParseFormatted(target);
  }

  lemma SelectRoundTrip(server: string, channel: string)
    requires Readable(SelectBuffer(server, channel))
    ensures ParseDirective(Render(SelectBuffer(server, channel))) == Some(SelectBuffer(server, channel))
  {
    var line := Render(SelectBuffer(server, channel));
    assert line[..|SelectPrefix|] == SelectPrefix;
    assert line[|SelectPrefix|..] == server + (".#" + channel);
    SelectIsNotMove(server, channel);
    WordRunBeforeDot(server, channel);
  }

  /** A selection line never reads as a move: after `/buffer ` come the
      server's word characters, never the `move ` of a move line. */
  lemma SelectIsNotMove(server: string, channel: string)
    requires Readable(SelectBuffer(server, channel))
    ensures var line := Render(SelectBuffer(server, channel));
      !(|line| >= |MovePrefix| && line[..|MovePrefix|] == MovePrefix)
  {
    var line := Render(SelectBuffer(server, channel));
    var names := server + (".#" + channel);
    assert line == SelectPrefix + names;
    if |names| > 4 {
      assert line[12] == names[4];
      if 4 < |server| {
        assert names[4] == server[4];
      } else if 4 >= |server| + 2 {
        assert names[4] == channel[4 - |server| - 2];
      }
    }
  }

  /** Every name in `rs` is one a configuration line can yield. */
  predicate ReadableNames(rs: seq<Ranked>) {
    forall k :: 0 <= k < |rs| ==> Readable(SelectBuffer(rs[k].server, rs[k].channel))
  }

  /** Reading the printed lines back recovers the plan: the k-th channel is
      selected by its configured names and moved to position k + 2, so the
      move targets run 2, 3, 4, ... without gaps. */
  lemma EmitReadsBack(rs: seq<Ranked>)
    requires ReadableNames(rs)
    ensures forall k :: 0 <= k < |rs| ==>
      ParseDirective(Emit(rs)[2 * k]) == Some(SelectBuffer(rs[k].server, rs[k].channel))
    ensures forall k :: 0 <= k < |rs| ==>
      ParseDirective(Emit(rs)[2 * k + 1]) == Some(MoveBuffer(FirstTarget + k))
  {
    forall k | 0 <= k < |rs|
      ensures ParseDirective(Emit(rs)[2 * k]) == Some(SelectBuffer(rs[k].server, rs[k].channel))
      ensures ParseDirective(Emit(rs)[2 * k + 1]) == Some(MoveBuffer(FirstTarget + k))
    {
      RenderRoundTrip(SelectBuffer(rs[k].server, rs[k].channel));
      RenderRoundTrip(MoveBuffer(FirstTarget + k));
    }
  }

  /** Three channels: A with count 3 and index 5, B with count 5 and index 1,
      C with count 3 and index 2.  Whatever sort is used, the order is B, C, A
      (B is the most active; C wins the tie with A on its smaller index), and
      they are moved to positions 2, 3 and 4. */
  lemma ThreeChannels(rs: seq<Ranked>)
    requires Sorted(rs)
    requires multiset(rs) == multiset([Ranked("s", "a", 3, 5), Ranked("s", "b", 5, 1), Ranked("s", "c", 3, 2)])
    ensures rs == [Ranked("s", "b", 5, 1), Ranked("s", "c", 3, 2), Ranked("s", "a", 3, 5)]
    ensures Plan(rs) == [SelectBuffer("s", "b"), MoveBuffer(2), SelectBuffer("s", "c"), MoveBuffer(3),
                         SelectBuffer("s", "a"), MoveBuffer(4)]
  {
    var expected := [Ranked("s", "b", 5, 1), Ranked("s", "c", 3, 2), Ranked("s", "a", 3, 5)];
    assert multiset(expected) == multiset([Ranked("s", "a", 3, 5), Ranked("s", "b", 5, 1), Ranked("s", "c", 3, 2)]);
    SortedUnique(expected, rs);
    ThreeChannelsPlan(expected);
  }

  lemma ThreeChannelsPlan(rs: seq<Ranked>)
    requires rs == [Ranked("s", "b", 5, 1), Ranked("s", "c", 3, 2), Ranked("s", "a", 3, 5)]
    ensures Plan(rs) == [SelectBuffer("s", "b"), MoveBuffer(2), SelectBuffer("s", "c"), MoveBuffer(3),
                         SelectBuffer("s", "a"), MoveBuffer(4)]
  {
    PlanAt(rs, 0);
    PlanAt(rs, 1);
    PlanAt(rs, 2);
  }

  /** The two directives of the channel at position `k`. */
  lemma PlanAt(rs: seq<Ranked>, k: nat)
    requires k < |rs|
    ensures Plan(rs)[2 * k] == SelectBuffer(rs[k].server, rs[k].channel)
    ensures Plan(rs)[2 * k + 1] == MoveBuffer(FirstTarget + k)
  {
  }
}
