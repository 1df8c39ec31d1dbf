// UTF-8 encoding of Unicode scalar values, as defined in section 3 of
// RFC 3629. Python's `str.encode("utf-8")` produces exactly these bytes for
// every string made of scalar values, which is what a Dafny `string` holds.

module Utf8 {

  newtype byte = x: int | 0 <= x < 256

  /** Number of bytes RFC 3629 uses for one character. */
  function CharLength(c: char): (n: nat)
    ensures 1 <= n <= 4
  {
    var cp := c as int;
    if cp < 0x80 then 1
    else if cp < 0x800 then 2
    else if cp < 0x1_0000 then 3
    else 4
  }

  /** A continuation byte has the bit pattern 10xxxxxx. */
  predicate IsContinuation(b: byte) {
    0x80 <= b < 0xC0
  }

  /** The sequence length announced by a lead byte, per the table in section 3
      of RFC 3629 (0 for a byte that cannot start a character). */
  function LeadLength(b: byte): nat {
    if b < 0x80 then 1
    else if 0xC0 <= b < 0xE0 then 2
    else if 0xE0 <= b < 0xF0 then 3
    else if 0xF0 <= b < 0xF8 then 4
    else 0
  }

  /** The bytes of one character: the code point's bits spread over a lead
      byte and 6-bit continuation bytes. */
  function EncodeChar(c: char): (bs: seq<byte>)
    ensures |bs| == CharLength(c)
    ensures LeadLength(bs[0]) == |bs|
    ensures forall k :: 1 <= k < |bs| ==> IsContinuation(bs[k])
  {
    var cp := c as int;
    if cp < 0x80 then
      [cp as byte]
    else if cp < 0x800 then
      [(0xC0 + cp / 64) as byte, (0x80 + cp % 64) as byte]
    else if cp < 0x1_0000 then
      [(0xE0 + cp / 4096) as byte, (0x80 + (cp / 64) % 64) as byte, (0x80 + cp % 64) as byte]
    else
      [(0xF0 + cp / 262144) as byte, (0x80 + (cp / 4096) % 64) as byte,
       (0x80 + (cp / 64) % 64) as byte, (0x80 + cp % 64) as byte]
  }

  /** The code point a well-formed encoding of one character stands for. */
  function DecodeScalar(bs: seq<byte>): int
    requires 1 <= |bs| <= 4
  {
    if |bs| == 1 then bs[0] as int
    else if |bs| == 2 then (bs[0] as int - 0xC0) * 64 + (bs[1] as int - 0x80)
    else if |bs| == 3 then
      (bs[0] as int - 0xE0) * 4096 + (bs[1] as int - 0x80) * 64 + (bs[2] as int - 0x80)
    else
      (bs[0] as int - 0xF0) * 262144 + (bs[1] as int - 0x80) * 4096
        + (bs[2] as int - 0x80) * 64 + (bs[3] as int - 0x80)
  }

  /** Decoding the bytes of a character gives its code point back, so the
      encoding of one character is injective. */
  lemma EncodeCharDecodes(c: char)
    ensures DecodeScalar(EncodeChar(c)) == c as int
  {
    var cp := c as int;
    if cp < 0x80 {
    } else if cp < 0x800 {
      assert cp == (cp / 64) * 64 + cp % 64;
    } else if cp < 0x1_0000 {
      assert cp / 64 == (cp / 4096) * 64 + (cp / 64) % 64;
      assert cp == (cp / 64) * 64 + cp % 64;
    } else {
      assert cp / 4096 == (cp / 262144) * 64 + (cp / 4096) % 64;
      assert cp / 64 == (cp / 4096) * 64 + (cp / 64) % 64;
      assert cp == (cp / 64) * 64 + cp % 64;
    }
  }

  /** `s.encode("utf-8")` */
  function Encode(s: string): (bs: seq<byte>)
  {
    if s == [] then [] else Encode(s[..|s| - 1]) + EncodeChar(s[|s| - 1])
  }

  /** `len(s.encode("utf-8"))`, computed character by character. */
  function Length(s: string): nat
  {
    if s == [] then 0 else Length(s[..|s| - 1]) + CharLength(s[|s| - 1])
  }

  lemma {:induction false} EncodeLength(s: string)
    ensures |Encode(s)| == Length(s)
  {
    if s != [] {
      EncodeLength(s[..|s| - 1]);
    }
  }

  /** Encoding distributes over concatenation: a cut between two characters
      of a string is a cut between two byte sequences of its encoding, and
      never falls inside the bytes of one character. */
  lemma {:induction false} EncodeAppend(a: string, b: string)
    ensures Encode(a + b) == Encode(a) + Encode(b)
  {
    if b == [] {
      assert a + b == a;
    } else {
      assert (a + b)[..|a + b| - 1] == a + b[..|b| - 1];
      EncodeAppend(a, b[..|b| - 1]);
    }
  }

  lemma {:induction false} LengthAppend(a: string, b: string)
    ensures Length(a + b) == Length(a) + Length(b)
  {
    EncodeAppend(a, b);
    EncodeLength(a);
    EncodeLength(b);
    EncodeLength(a + b);
  }

  /** Every character takes at least one byte; an ASCII-only string takes
      exactly one per character. */
  lemma {:induction false} LengthAtLeastSize(s: string)
    ensures Length(s) >= |s|
    ensures (forall k :: 0 <= k < |s| ==> s[k] as int < 0x80) ==> Length(s) == |s|
  {
    if s != [] {
      LengthAtLeastSize(s[..|s| - 1]);
    }
  }

  /** A prefix never takes more bytes than the whole string. */
  lemma PrefixLength(s: string, k: nat)
    requires k <= |s|
    ensures Length(s[..k]) <= Length(s)
  {
    assert s == s[..k] + s[k..];
    LengthAppend(s[..k], s[k..]);
  }

  lemma SingleLength(c: char)
    ensures Length([c]) == CharLength(c)
  {
    assert [c][..0] == [];
  }
}
