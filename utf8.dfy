/**
 * `calculate_size`: the number of bytes of a string's UTF-8 encoding, with
 * the encoding as section 3 of RFC 3629 lays it out. A code point below
 * 0x80 takes one byte `0xxxxxxx`, below 0x800 two bytes `110xxxxx 10xxxxxx`,
 * below 0x10000 three bytes `1110xxxx 10xxxxxx 10xxxxxx`, and any other
 * four bytes `11110xxx 10xxxxxx 10xxxxxx 10xxxxxx`. A Dafny `char` is a
 * Unicode scalar value, so the lone surrogates that make Python's encoder
 * fail cannot occur.
 */
module Utf8 {

  newtype byte = b: int | 0 <= b < 0x100

  /** A continuation byte `10xxxxxx`. */
  predicate Continuation(b: byte) {
    0x80 <= b < 0xC0
  }

  /** The sequence length that a leading byte announces; 0 for a byte that cannot lead. */
  function LeadLength(b: byte): nat {
    if b < 0x80 then 1
    else if 0xC0 <= b < 0xE0 then 2
    else if 0xE0 <= b < 0xF0 then 3
    else if 0xF0 <= b < 0xF8 then 4
    else 0
  }

  /** The continuation byte holding the six bits of `v` at `shift`. */
  function Tail(v: nat, shift: nat): (b: byte)
    requires shift > 0
    ensures Continuation(b)
  {
    (0x80 + (v / shift) % 0x40) as byte
  }

  /** The bytes of one code point. */
  function EncodeChar(c: char): (bs: seq<byte>)
    ensures 1 <= |bs| <= 4 && LeadLength(bs[0]) == |bs|
    ensures forall k :: 1 <= k < |bs| ==> Continuation(bs[k])
    ensures |bs| == 1 <==> c as int < 0x80
    ensures |bs| == 2 <==> 0x80 <= c as int < 0x800
    ensures |bs| == 3 <==> 0x800 <= c as int < 0x10000
    ensures |bs| == 4 <==> 0x10000 <= c as int
  {
    var v := c as int;
    if v < 0x80 then [v as byte]
    else if v < 0x800 then [(0xC0 + v / 0x40) as byte, Tail(v, 1)]
    else if v < 0x10000 then [(0xE0 + v / 0x1000) as byte, Tail(v, 0x40), Tail(v, 1)]
    else [(0xF0 + v / 0x40000) as byte, Tail(v, 0x1000), Tail(v, 0x40), Tail(v, 1)]
  }

  /** The code point that a well-formed sequence of one to four bytes spells. */
  function DecodeChar(bs: seq<byte>): int
    requires 1 <= |bs| <= 4
  {
    var v := bs[0] as int;
    if |bs| == 1 then v
    else if |bs| == 2 then (v - 0xC0) * 0x40 + (bs[1] as int - 0x80)
    else if |bs| == 3 then (v - 0xE0) * 0x1000 + (bs[1] as int - 0x80) * 0x40 + (bs[2] as int - 0x80)
    else (v - 0xF0) * 0x40000 + (bs[1] as int - 0x80) * 0x1000 + (bs[2] as int - 0x80) * 0x40 + (bs[3] as int - 0x80)
  }

  /** A code point split into a leading group and two six-bit groups. */
  lemma ThreeGroups(v: nat)
    ensures v == (v / 0x1000) * 0x1000 + ((v / 0x40) % 0x40) * 0x40 + v % 0x40
  {
    var w := v / 0x40;
    assert v == w * 0x40 + v % 0x40;
    assert w == (w / 0x40) * 0x40 + w % 0x40;
    assert w / 0x40 == v / 0x1000;
  }

  /** A code point split into a leading group and three six-bit groups. */
  lemma FourGroups(v: nat)
    ensures v == (v / 0x40000) * 0x40000 + ((v / 0x1000) % 0x40) * 0x1000
                + ((v / 0x40) % 0x40) * 0x40 + v % 0x40
  {
    var w := v / 0x40;
    ThreeGroups(w);
    assert v == w * 0x40 + v % 0x40;
    assert w / 0x1000 == v / 0x40000 && w / 0x40 == v / 0x1000;
  }

  /** Decoding the bytes of a code point gives the code point back. */
  lemma DecodeEncodeChar(c: char)
    ensures DecodeChar(EncodeChar(c)) == c as int
  {
    var v := c as int;
    if 0x800 <= v < 0x10000 {
      ThreeGroups(v);
    } else if 0x10000 <= v {
      FourGroups(v);
    }
  }

  /** `s.encode('utf-8')` */
  function Encode(s: string): (bs: seq<byte>)
    ensures |s| <= |bs| <= 4 * |s|
  {
    if s == [] then [] else EncodeChar(s[0]) + Encode(s[1..])
  }

  /** `calculate_size(s)`: `len(s.encode('utf-8'))`. */
  function CalculateSize(s: string): (size: nat)
    ensures |s| <= size <= 4 * |s|
  {
    |Encode(s)|
  }

  /** Encoding a concatenation concatenates the encodings. */
  lemma {:induction false} EncodeAppend(a: string, b: string)
    ensures Encode(a + b) == Encode(a) + Encode(b)
    decreases |a|
  {
    if a != [] {
      var ab := a + b;
      assert ab[0] == a[0] && ab[1..] == a[1..] + b;
      assert Encode(ab) == EncodeChar(a[0]) + Encode(a[1..] + b);
      EncodeAppend(a[1..], b);
    } else {
      assert a + b == b;
    }
  }

  /** `calculate_size` adds up over concatenation. */
  lemma SizeAppend(a: string, b: string)
    ensures CalculateSize(a + b) == CalculateSize(a) + CalculateSize(b)
  {
    EncodeAppend(a, b);
  }

  /** Each character counts 1, 2, 3 or 4 bytes by its code point. */
  function Width(c: char): nat {
    if c as int < 0x80 then 1 else if c as int < 0x800 then 2 else if c as int < 0x10000 then 3 else 4
  }

  function SumWidths(s: string): nat {
    if s == [] then 0 else Width(s[0]) + SumWidths(s[1..])
  }

  /** `calculate_size` counts 1, 2, 3 or 4 bytes per character as RFC 3629 prescribes. */
  lemma {:induction false} SizeIsSumOfWidths(s: string)
    ensures CalculateSize(s) == SumWidths(s)
  {
    if s != [] {
      SizeIsSumOfWidths(s[1..]);
    }
  }

  /** For ASCII text the byte count is the character count. */
  lemma {:induction false} AsciiSize(s: string)
    requires forall i :: 0 <= i < |s| ==> s[i] as int < 0x80
    ensures CalculateSize(s) == |s|
  {
    if s != [] {
      AsciiSize(s[1..]);
    }
  }

  /** A string holding a character at or above 0x80 takes more bytes than characters. */
  lemma {:induction false} NonAsciiSize(s: string, i: nat)
    requires i < |s| && s[i] as int >= 0x80
    ensures CalculateSize(s) > |s|
  {
    if i > 0 {
      NonAsciiSize(s[1..], i - 1);
    }
  }

  /** Distinct strings have distinct encodings: the leading bytes tell where each character ends. */
  lemma {:induction false} EncodeInjective(a: string, b: string)
    requires Encode(a) == Encode(b)
    ensures a == b
    decreases |a|
  {
    if a != [] && b != [] {
      var ea, eb := EncodeChar(a[0]), EncodeChar(b[0]);
      assert Encode(a) == ea + Encode(a[1..]) && Encode(b) == eb + Encode(b[1..]);
      assert ea[0] == Encode(a)[0] == eb[0];
      assert |ea| == |eb|;
      assert ea == Encode(a)[..|ea|] && eb == Encode(b)[..|eb|];
      DecodeEncodeChar(a[0]);
      DecodeEncodeChar(b[0]);
      assert Encode(a[1..]) == Encode(a)[|ea|..] && Encode(b[1..]) == Encode(b)[|eb|..];
      EncodeInjective(a[1..], b[1..]);
      assert a == [a[0]] + a[1..] && b == [b[0]] + b[1..];
    }
  }
}
