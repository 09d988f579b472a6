/**
 The shape of one transcript record and the two patterns the program
 matches records against (src/main.rs).

 A record starts with a 20-byte header `YYYY-MM-DD HH:MM:SS<TAB>`,
 followed by an optional `@` operator marker, the author's name, a tab and
 the message.  The integrity pattern accepts a text that is a header and
 nothing else; the ranking pattern captures the date and the author's
 name.  Both patterns are stated over bytes: every byte they test is
 ASCII, so testing the UTF-8 bytes is the same as testing the decoded
 text, once the bytes are known to decode.
 */
module Records {
  import opened Utf8
  import opened Errors

  const NL: Byte := 0x0A
  const TAB: Byte := 0x09
  const AT: Byte := 0x40

  /** One position of the header: any ASCII digit, or one fixed byte. */
  datatype Slot = AnyDigit | Exact(b: Byte)

  predicate IsDigitByte(b: Byte) {
    0x30 <= b <= 0x39
  }

  predicate Fits(slot: Slot, b: Byte) {
    match slot
    case AnyDigit => IsDigitByte(b)
    case Exact(x) => b == x
  }

  /** `\d{4}-\d{2}-\d{2} \d{2}:\d{2}:\d{2}\t`, one slot per byte. */
  const HeaderShape: seq<Slot> := [
    AnyDigit, AnyDigit, AnyDigit, AnyDigit, Exact(0x2D),
    AnyDigit, AnyDigit, Exact(0x2D), AnyDigit, AnyDigit,
    Exact(0x20),
    AnyDigit, AnyDigit, Exact(0x3A), AnyDigit, AnyDigit, Exact(0x3A),
    AnyDigit, AnyDigit, Exact(TAB)]

  const HeaderLength: nat := 20

  /** Length of the `YYYY-MM-DD` date that opens the header. */
  const DateLength: nat := 10

  /** `s` starts with a record header. */
  predicate HasHeader(s: seq<Byte>) {
    |s| >= HeaderLength && forall k :: 0 <= k < HeaderLength ==> Fits(HeaderShape[k], s[k])
  }

  /** The integrity pattern `^\d{4}-\d{2}-\d{2} \d{2}:\d{2}:\d{2}\t$`: the
      text is a header and nothing more. */
  predicate BareTimestamp(w: seq<Byte>) {
    |w| == HeaderLength && HasHeader(w)
  }

  /** A header opens with a digit, so it never opens with a newline, and it
      is plain ASCII. */
  lemma HeaderFacts(s: seq<Byte>)
    requires HasHeader(s)
    ensures IsDigitByte(s[0]) && s[0] != NL
    ensures IsAscii(s[..HeaderLength])
    ensures forall k :: 0 <= k < HeaderLength ==> s[k] != NL
  {
    assert Fits(HeaderShape[0], s[0]);
    forall k | 0 <= k < HeaderLength ensures s[k] < 0x80 && s[k] != NL {
      assert Fits(HeaderShape[k], s[k]);
    }
  }

  /** What the ranking pattern captures from a record. */
  datatype Entry = Entry(date: seq<Byte>, name: seq<Byte>)

  /** The longest prefix of `s` without a tab. */
  function UpToTab(s: seq<Byte>): (r: seq<Byte>)
    ensures |r| <= |s| && r == s[..|r|]
    ensures TAB !in r
    ensures |r| < |s| ==> s[|r|] == TAB
  {
    if |s| == 0 || s[0] == TAB then [] else [s[0]] + UpToTab(s[1..])
  }

  /** The name field after the header: one leading `@` is dropped (the
      pattern's greedy `@?`), and the lazy `.*?` stops at the first tab or
      at the end of the record. */
  function NameField(rest: seq<Byte>): (r: seq<Byte>)
  {
    if |rest| > 0 && rest[0] == AT then UpToTab(rest[1..]) else UpToTab(rest)
  }

  /** The ranking pattern
        ^(?P<date>\d{4}-\d{2}-\d{2}) \d{2}:\d{2}:\d{2}\t@?(?P<name>.*?)(?:$|\t)
      applied to one record (which contains no newline, so `.` matches
      every byte of it). */
  function ParseRecord(line: seq<Byte>): (r: Option<Entry>)
    ensures r.Some? <==> HasHeader(line)
    ensures r.Some? ==> r.value.date == line[..DateLength]
    ensures r.Some? ==>
      var off := if |line| > HeaderLength && line[HeaderLength] == AT then HeaderLength + 1 else HeaderLength;
      && off + |r.value.name| <= |line|
      && line[off..off + |r.value.name|] == r.value.name
      && TAB !in r.value.name
      && (off + |r.value.name| == |line| || line[off + |r.value.name|] == TAB)
  {
    if HasHeader(line) then
      var rest := line[HeaderLength..];
      var name := NameField(rest);
      assert |rest| > 0 && rest[0] == AT ==> rest[1..] == line[HeaderLength + 1..];
      Some(Entry(line[..DateLength], name))
    else None
  }

  /** A record built from a header, an optional marker, a name without
      tabs and a tab-led (or empty) remainder parses to that date and name.
      Without the marker the name must not itself start with `@`, which the
      pattern would drop. */
  lemma {:induction false} ParseRecordOf(header: seq<Byte>, marked: bool, name: seq<Byte>, tail: seq<Byte>)
    requires BareTimestamp(header)
    requires TAB !in name
    requires !marked ==> |name| == 0 || name[0] != AT
    requires |tail| == 0 || tail[0] == TAB
    ensures ParseRecord(header + (if marked then [AT] else []) + name + tail)
         == Some(Entry(header[..DateLength], name))
  {
    var m: seq<Byte> := if marked then [AT] else [];
    var line := header + m + name + tail;
    assert line[..HeaderLength] == header;
    assert HasHeader(line) by {
      forall k | 0 <= k < HeaderLength ensures Fits(HeaderShape[k], line[k]) {
        assert line[k] == header[k];
      }
    }
    assert line[..DateLength] == header[..DateLength];
    var rest := line[HeaderLength..];
    assert rest == m + name + tail;
    if marked {
      assert rest[1..] == name + tail;
      UpToTabOf(name, tail);
    } else {
      assert rest == name + tail;
      UpToTabOf(name, tail);
    }
  }

  lemma {:induction false} UpToTabOf(name: seq<Byte>, tail: seq<Byte>)
    requires TAB !in name
    requires |tail| == 0 || tail[0] == TAB
    ensures UpToTab(name + tail) == name
  {
    if |name| > 0 {
      assert (name + tail)[1..] == name[1..] + tail;
      assert name[0] != TAB;
      UpToTabOf(name[1..], tail);
      assert [name[0]] + name[1..] == name;
    } else {
      assert name + tail == tail;
    }
  }

  /** Rust's `<` on `str`: byte-wise lexicographic order, a proper prefix
      coming first. */
  predicate LexLess(a: seq<Byte>, b: seq<Byte>)
  {
    if |a| == 0 then |b| > 0
    else |b| > 0 && (a[0] < b[0] || (a[0] == b[0] && LexLess(a[1..], b[1..])))
  }

  /** `LexLess` is a strict total order. */
  lemma {:induction false} LexLessStrictTotal(a: seq<Byte>, b: seq<Byte>, c: seq<Byte>)
    ensures !LexLess(a, a)
    ensures LexLess(a, b) ==> !LexLess(b, a)
    ensures a != b ==> LexLess(a, b) || LexLess(b, a)
    ensures LexLess(a, b) && LexLess(b, c) ==> LexLess(a, c)
    decreases |a|
  {
    if |a| > 0 && |b| > 0 && |c| > 0 {
      LexLessStrictTotal(a[1..], b[1..], c[1..]);
      if a != b && a[0] == b[0] {
        assert a == [a[0]] + a[1..] && b == [b[0]] + b[1..];
      }
    } else if |a| > 0 && |b| > 0 {
      LexLessStrictTotal(a[1..], b[1..], a[1..]);
      if a != b && a[0] == b[0] {
        assert a == [a[0]] + a[1..] && b == [b[0]] + b[1..];
      }
    } else if |a| > 0 {
      LexLessStrictTotal(a[1..], a[1..], a[1..]);
    }
  }

  /** The ranking cutoff date, `"2019-02-18"`. */
  const Cutoff: seq<Byte> := [0x32, 0x30, 0x31, 0x39, 0x2D, 0x30, 0x32, 0x2D, 0x31, 0x38]

  /** The four author names whose messages count, as UTF-8 bytes:
      "김젼", "김지현", "지현" and "지현_". */
  const Aliases: seq<seq<Byte>> := [
    [0xEA, 0xB9, 0x80, 0xEC, 0xA0, 0xBC],
    [0xEA, 0xB9, 0x80, 0xEC, 0xA7, 0x80, 0xED, 0x98, 0x84],
    [0xEC, 0xA7, 0x80, 0xED, 0x98, 0x84],
    [0xEC, 0xA7, 0x80, 0xED, 0x98, 0x84, 0x5F]]

  /** A record that is a header and nothing else: `2019-02-18 12:00:00<TAB>`. */
  const BareExample: seq<Byte> :=
    [0x32, 0x30, 0x31, 0x39, 0x2D, 0x30, 0x32, 0x2D, 0x31, 0x38,
     0x20, 0x31, 0x32, 0x3A, 0x30, 0x30, 0x3A, 0x30, 0x30, TAB]

  lemma BareExampleIsBare()
    ensures BareTimestamp(BareExample)
  {
    forall k | 0 <= k < HeaderLength ensures Fits(HeaderShape[k], BareExample[k]) {
    }
  }

  /** A bare header is not malformed for the ranking pattern: it parses,
      with an empty name. */
  lemma BareHeaderParses(w: seq<Byte>)
    requires BareTimestamp(w)
    ensures ParseRecord(w) == Some(Entry(w[..DateLength], []))
  {
    ParseRecordOf(w, false, [], []);
    assert w + [] + [] + [] == w;
  }

  /** The byte constants are the UTF-8 encodings of the program's text. */
  lemma ConstantsAreEncodings()
    ensures Cutoff == Encode("2019-02-18")
    ensures Aliases == [Encode("김젼"), Encode("김지현"), Encode("지현"), Encode("지현_")]
  {
    EncodesCutoff();
    EncodesKimJyeon();
    EncodesKimJihyeon();
    EncodesJihyeon();
    EncodesJihyeonUnderscore();
    assert Aliases == [Aliases[0], Aliases[1], Aliases[2], Aliases[3]];
  }

  lemma EncodesCutoff()
    ensures Encode("2019-02-18") == Cutoff
  {
    EncodeConcat("2019-", "02-18");
    assert "2019-" + "02-18" == "2019-02-18";
    EncodesCutoffYear();
    EncodesCutoffDay();
    assert Cutoff[..5] + Cutoff[5..] == Cutoff;
  }

  lemma EncodesCutoffYear()
    ensures Encode("2019-") == Cutoff[..5]
  {
  }

  lemma EncodesCutoffDay()
    ensures Encode("02-18") == Cutoff[5..]
  {
  }

  lemma EncodesKimJyeon()
    ensures Encode("김젼") == Aliases[0]
  {
  }

  lemma EncodesKimJihyeon()
    ensures Encode("김지현") == Aliases[1]
  {
  }

  lemma EncodesJihyeon()
    ensures Encode("지현") == Aliases[2]
  {
  }

  lemma EncodesJihyeonUnderscore()
    ensures Encode("지현_") == Aliases[3]
  {
  }
}
