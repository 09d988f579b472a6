/**
 Bytes and UTF-8 well-formedness.

 A transcript is a sequence of bytes; the program decodes a byte range as
 text (Rust's `from_utf8`) before matching it.  Decoding succeeds exactly
 when the range is well-formed UTF-8 in the sense of Table 3-7 of the
 Unicode Standard (no overlong forms, no surrogates, nothing above
 U+10FFFF), which is what `Valid` states.  `Encode` turns a Dafny string
 (a sequence of Unicode scalar values) into its UTF-8 bytes; it is used to
 write the program's text constants as bytes.
 */
module Utf8 {

  type Byte = b: int | 0 <= b < 0x100

  /** A continuation byte 10xxxxxx. */
  predicate Cont(b: Byte) {
    0x80 <= b <= 0xBF
  }

  /** Length of the well-formed UTF-8 sequence that starts `s`, or 0 when
      `s` does not start with one (Unicode Table 3-7). */
  function LeadLength(s: seq<Byte>): (n: nat)
    ensures n <= 4 && n <= |s|
    ensures n > 0 ==> |s| > 0
    ensures 0 < |s| && s[0] < 0x80 ==> n == 1
  {
    if |s| == 0 then 0
    else
      var b := s[0];
      if b <= 0x7F then 1
      else if 0xC2 <= b <= 0xDF then
        (if |s| >= 2 && Cont(s[1]) then 2 else 0)
      else if b == 0xE0 then
        (if |s| >= 3 && 0xA0 <= s[1] <= 0xBF && Cont(s[2]) then 3 else 0)
      else if 0xE1 <= b <= 0xEC || 0xEE <= b <= 0xEF then
        (if |s| >= 3 && Cont(s[1]) && Cont(s[2]) then 3 else 0)
      else if b == 0xED then
        (if |s| >= 3 && 0x80 <= s[1] <= 0x9F && Cont(s[2]) then 3 else 0)
      else if b == 0xF0 then
        (if |s| >= 4 && 0x90 <= s[1] <= 0xBF && Cont(s[2]) && Cont(s[3]) then 4 else 0)
      else if 0xF1 <= b <= 0xF3 then
        (if |s| >= 4 && Cont(s[1]) && Cont(s[2]) && Cont(s[3]) then 4 else 0)
      else if b == 0xF4 then
        (if |s| >= 4 && 0x80 <= s[1] <= 0x8F && Cont(s[2]) && Cont(s[3]) then 4 else 0)
      else 0
  }

  /** `s` is a concatenation of well-formed UTF-8 sequences. */
  predicate Valid(s: seq<Byte>)
    decreases |s|
  {
    |s| == 0 || (LeadLength(s) > 0 && Valid(s[LeadLength(s)..]))
  }

  /** Every byte is below 0x80. */
  predicate IsAscii(s: seq<Byte>) {
    forall k :: 0 <= k < |s| ==> s[k] < 0x80
  }

  /** The UTF-8 bytes of one Unicode scalar value. */
  function EncodeChar(c: char): (r: seq<Byte>)
    ensures 1 <= |r| <= 4
    ensures (c as int < 0x80) <==> |r| == 1
  {
    var cp := c as int;
    if cp < 0x80 then [cp]
    else if cp < 0x800 then [0xC0 + cp / 0x40, 0x80 + cp % 0x40]
    else if cp < 0x10000 then
      [0xE0 + cp / 0x1000, 0x80 + (cp / 0x40) % 0x40, 0x80 + cp % 0x40]
    else
      [0xF0 + cp / 0x40000, 0x80 + (cp / 0x1000) % 0x40,
       0x80 + (cp / 0x40) % 0x40, 0x80 + cp % 0x40]
  }

  /** The UTF-8 bytes of a string. */
  function Encode(s: string): (r: seq<Byte>)
    ensures |s| <= |r| <= 4 * |s|
  {
    if |s| == 0 then [] else EncodeChar(s[0]) + Encode(s[1..])
  }

  /** Encoding distributes over concatenation. */
  lemma {:induction false} EncodeConcat(a: string, b: string)
    ensures Encode(a + b) == Encode(a) + Encode(b)
  {
    if |a| > 0 {
      assert (a + b)[1..] == a[1..] + b;
      EncodeConcat(a[1..], b);
    } else {
      assert a + b == b;
    }
  }

  /** The first well-formed sequence depends only on the bytes it covers. */
  lemma LeadLengthPrefix(a: seq<Byte>, c: seq<Byte>)
    requires LeadLength(a) > 0
    requires |c| >= LeadLength(a) && c[..LeadLength(a)] == a[..LeadLength(a)]
    ensures LeadLength(c) == LeadLength(a)
  {
    var n := LeadLength(a);
    assert c[0] == a[0];
    if n >= 2 { assert c[1] == a[1]; }
    if n >= 3 { assert c[2] == a[2]; }
    if n >= 4 { assert c[3] == a[3]; }
  }

  /** ASCII bytes are well-formed UTF-8 on their own. */
  lemma {:induction false} AsciiValid(s: seq<Byte>)
    requires IsAscii(s)
    ensures Valid(s)
    decreases |s|
  {
    if |s| > 0 {
      assert s[0] < 0x80;
      assert IsAscii(s[1..]) by {
        forall k | 0 <= k < |s| - 1 ensures s[1..][k] < 0x80 {
          assert s[1..][k] == s[k + 1];
        }
      }
      AsciiValid(s[1..]);
    }
  }

  /** What follows a well-formed prefix is well-formed on its own. */
  lemma {:induction false} ValidSuffix(p: seq<Byte>, q: seq<Byte>)
    requires Valid(p) && Valid(p + q)
    ensures Valid(q)
    decreases |p|
  {
    if |p| > 0 {
      var n := LeadLength(p);
      assert (p + q)[..n] == p[..n];
      LeadLengthPrefix(p, p + q);
      assert (p + q)[n..] == p[n..] + q;
      ValidSuffix(p[n..], q);
    } else {
      assert p + q == q;
    }
  }

  /** A proper, non-empty prefix of a character's encoding does not start
      with a well-formed sequence: its lead byte asks for more bytes than
      are there. */
  lemma CutLeadLength(c: char, k: nat)
    requires 0 < k < |EncodeChar(c)|
    ensures LeadLength(EncodeChar(c)[..k]) == 0
  {
    var e := EncodeChar(c);
    assert e[..k][0] == e[0];
  }

  /** Cutting a multi-byte character after a well-formed prefix leaves
      bytes that do not decode: a window that ends inside a character
      fails `from_utf8`. */
  lemma CutCharacterInvalid(p: seq<Byte>, c: char, k: nat)
    requires Valid(p) && 0 < k < |EncodeChar(c)|
    ensures !Valid(p + EncodeChar(c)[..k])
  {
    CutLeadLength(c, k);
    if Valid(p + EncodeChar(c)[..k]) {
      ValidSuffix(p, EncodeChar(c)[..k]);
    }
  }
}
