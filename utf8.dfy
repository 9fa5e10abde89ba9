/** UTF-8 (RFC 3629): the octets of one Unicode scalar value, and the strict decoder that
    accepts exactly those octet sequences. Dafny's `char` is a Unicode scalar value, so a
    lone surrogate, which JavaScript would reject with a URIError when encoding, cannot
    occur here. */
module Utf8 {
  import opened Wrappers

  type byte = x: int | 0 <= x < 256

  predicate IsContinuation(b: byte) { 0x80 <= b < 0xC0 }

  /** How many octets the sequence that starts with `lead` has; 0 when no sequence can
      start with it (a continuation octet, or F8 and above). */
  function SequenceLength(lead: byte): (n: nat)
    ensures n <= 4
    ensures n == 1 <==> lead < 0x80
  {
    if lead < 0x80 then 1
    else if lead < 0xC0 then 0
    else if lead < 0xE0 then 2
    else if lead < 0xF0 then 3
    else if lead < 0xF8 then 4
    else 0
  }

  /** The UTF-8 octets of `c`, in the shortest form. */
  function EncodeChar(c: char): (bs: seq<byte>)
    ensures 1 <= |bs| <= 4 && SequenceLength(bs[0]) == |bs|
    ensures forall i :: 1 <= i < |bs| ==> IsContinuation(bs[i])
    ensures |bs| == 1 <==> c as int < 0x80
    ensures |bs| == 1 ==> bs[0] == c as int
  {
    var n := c as int;
    if n < 0x80 then
      [n]
    else if n < 0x800 then
      [0xC0 + n / 64, 0x80 + n % 64]
    else if n < 0x10000 then
      [0xE0 + n / 4096, 0x80 + (n / 64) % 64, 0x80 + n % 64]
    else
      [0xF0 + n / 262144, 0x80 + (n / 4096) % 64, 0x80 + (n / 64) % 64, 0x80 + n % 64]
  }

  /** The code point a well-formed lead octet and its continuation octets spell. */
  function CodePoint(bs: seq<byte>): int
    requires 2 <= |bs| <= 4 && SequenceLength(bs[0]) == |bs|
  {
    var b: seq<int> := bs;
    if |b| == 2 then
      (b[0] - 0xC0) * 64 + (b[1] - 0x80)
    else if |b| == 3 then
      (b[0] - 0xE0) * 4096 + (b[1] - 0x80) * 64 + (b[2] - 0x80)
    else
      (b[0] - 0xF0) * 262144 + (b[1] - 0x80) * 4096 + (b[2] - 0x80) * 64 + (b[3] - 0x80)
  }

  /** The scalar value `bs` encodes, or None when `bs` is not the shortest UTF-8 form of
      a scalar value (a bad continuation octet, an overlong form, a surrogate, or a code
      point above U+10FFFF). */
  function DecodeChar(bs: seq<byte>): (r: Option<char>)
    requires 1 <= |bs| <= 4 && SequenceLength(bs[0]) == |bs|
    ensures r.Some? ==> EncodeChar(r.value) == bs
  {
    if |bs| == 1 then
      Some(bs[0] as char)
    else if !(forall i :: 1 <= i < |bs| ==> IsContinuation(bs[i])) then
      None
    else
      var n := CodePoint(bs);
      var least := if |bs| == 2 then 0x80 else if |bs| == 3 then 0x800 else 0x10000;
      if n < least || 0x10FFFF < n || (0xD800 <= n < 0xE000) then
        None
      else
        ReencodeCodePoint(bs);
        Some(n as char)
  }

  lemma DivMod64(q: int, r: int)
    requires 0 <= r < 64
    ensures (q * 64 + r) / 64 == q && (q * 64 + r) % 64 == r
  {
  }

  /** Re-encoding the code point of a well-formed sequence that passed the range checks
      gives back the same octets. */
  lemma ReencodeCodePoint(bs: seq<byte>)
    requires 2 <= |bs| <= 4 && SequenceLength(bs[0]) == |bs|
    requires forall i :: 1 <= i < |bs| ==> IsContinuation(bs[i])
    requires var n := CodePoint(bs);
      (if |bs| == 2 then 0x80 else if |bs| == 3 then 0x800 else 0x10000) <= n <= 0x10FFFF
      && !(0xD800 <= n < 0xE000)
    ensures EncodeChar(CodePoint(bs) as char) == bs
  {
    if |bs| == 2 {
      DivMod64(bs[0] - 0xC0, bs[1] - 0x80);
    } else if |bs| == 3 {
      ReencodeThree(bs[0], bs[1], bs[2]);
      assert bs == [bs[0], bs[1], bs[2]];
    } else {
      ReencodeFour(bs[0], bs[1], bs[2], bs[3]);
      assert bs == [bs[0], bs[1], bs[2], bs[3]];
    }
  }

  lemma ReencodeThree(b0: int, b1: int, b2: int)
    requires 0xE0 <= b0 < 0xF0 && 0x80 <= b1 < 0xC0 && 0x80 <= b2 < 0xC0
    ensures var n := (b0 - 0xE0) * 4096 + (b1 - 0x80) * 64 + (b2 - 0x80);
      n / 4096 == b0 - 0xE0 && (n / 64) % 64 == b1 - 0x80 && n % 64 == b2 - 0x80
  {
    var n := (b0 - 0xE0) * 4096 + (b1 - 0x80) * 64 + (b2 - 0x80);
    var q1 := (b0 - 0xE0) * 64 + (b1 - 0x80);
    assert n == q1 * 64 + (b2 - 0x80);
    DivMod64(q1, b2 - 0x80);
    DivMod64(b0 - 0xE0, b1 - 0x80);
    assert n / 4096 == (n / 64) / 64;
  }

  lemma ReencodeFour(b0: int, b1: int, b2: int, b3: int)
    requires 0xF0 <= b0 < 0xF8 && 0x80 <= b1 < 0xC0 && 0x80 <= b2 < 0xC0 && 0x80 <= b3 < 0xC0
    ensures var n := (b0 - 0xF0) * 262144 + (b1 - 0x80) * 4096 + (b2 - 0x80) * 64 + (b3 - 0x80);
      && n / 262144 == b0 - 0xF0 && (n / 4096) % 64 == b1 - 0x80
      && (n / 64) % 64 == b2 - 0x80 && n % 64 == b3 - 0x80
  {
    var n := (b0 - 0xF0) * 262144 + (b1 - 0x80) * 4096 + (b2 - 0x80) * 64 + (b3 - 0x80);
    var q2 := (b0 - 0xF0) * 64 + (b1 - 0x80);
    var q1 := q2 * 64 + (b2 - 0x80);
    assert n == q1 * 64 + (b3 - 0x80);
    DivMod64(q1, b3 - 0x80);
    DivMod64(q2, b2 - 0x80);
    DivMod64(b0 - 0xF0, b1 - 0x80);
    assert n / 4096 == (n / 64) / 64;
    assert n / 262144 == ((n / 64) / 64) / 64;
  }

  /** Decoding the octets of any scalar value gives it back. */
  lemma DecodeEncodeChar(c: char)
    ensures DecodeChar(EncodeChar(c)) == Some(c)
  {
    var n := c as int;
    if 0x80 <= n < 0x800 {
      CodePointOfTwo(n);
    } else if 0x800 <= n < 0x10000 {
      CodePointOfThree(n);
    } else if 0x10000 <= n {
      CodePointOfFour(n);
    }
  }

  lemma CodePointOfTwo(n: int)
    requires 0x80 <= n < 0x800
    ensures CodePoint([0xC0 + n / 64, 0x80 + n % 64]) == n
  {
  }

  lemma CodePointOfThree(n: int)
    requires 0x800 <= n < 0x10000
    ensures CodePoint([0xE0 + n / 4096, 0x80 + (n / 64) % 64, 0x80 + n % 64]) == n
  {
    var q := n / 64;
    assert n == q * 64 + n % 64;
    assert q == (q / 64) * 64 + q % 64;
    assert n / 4096 == q / 64;
  }

  lemma CodePointOfFour(n: int)
    requires 0x10000 <= n < 0x110000
    ensures CodePoint([0xF0 + n / 262144, 0x80 + (n / 4096) % 64, 0x80 + (n / 64) % 64, 0x80 + n % 64]) == n
  {
    var q := n / 64;
    var q2 := q / 64;
    assert n == q * 64 + n % 64;
    assert q == q2 * 64 + q % 64;
    assert q2 == (q2 / 64) * 64 + q2 % 64;
    assert n / 4096 == q2;
    assert n / 262144 == q2 / 64;
  }
}
