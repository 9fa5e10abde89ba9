/** Percent-encoding over UTF-8 octets, parameterised by the set of characters left as
    they are, and the decoder of ECMA-262's `decodeURIComponent` (section 19.2.6.2 of
    ECMA-262 5.1), which both RFC 3986 decoding and the legacy signer rely on. */
module Percent {
  import opened Wrappers
  import Utf8

  predicate IsHexDigit(c: char) { '0' <= c <= '9' || 'A' <= c <= 'F' || 'a' <= c <= 'f' }

  predicate IsUpperHexDigit(c: char) { '0' <= c <= '9' || 'A' <= c <= 'F' }

  /** The value of a hex digit of either case, as `decodeURIComponent` reads it. */
  function HexValue(c: char): (d: nat)
    requires IsHexDigit(c)
    ensures d < 16
  {
    if '0' <= c <= '9' then c as int - '0' as int
    else if 'A' <= c <= 'F' then c as int - 'A' as int + 10
    else c as int - 'a' as int + 10
  }

  /** The upper-case hex digit of `d`. */
  function HexDigit(d: nat): (c: char)
    requires d < 16
    ensures IsUpperHexDigit(c) && HexValue(c) == d
  {
    if d < 10 then ('0' as int + d) as char else ('A' as int + d - 10) as char
  }

  /** `%XX` for one octet. */
  function Escape(b: Utf8.byte): (r: string)
    ensures |r| == 3 && r[0] == '%'
  {
    ['%', HexDigit(b / 16), HexDigit(b % 16)]
  }

  function EscapeBytes(bs: seq<Utf8.byte>): (r: string)
    ensures |r| == 3 * |bs|
    ensures forall i :: 0 <= i < |r| ==> r[i] == '%' || IsUpperHexDigit(r[i])
  {
    if |bs| == 0 then "" else Escape(bs[0]) + EscapeBytes(bs[1..])
  }

  /** One character: itself when `keep` admits it, else its UTF-8 octets escaped. */
  function EncodeChar(keep: char -> bool, c: char): (r: string)
    ensures keep(c) ==> r == [c]
    ensures !keep(c) ==> 3 <= |r| <= 12 && r[0] == '%'
  {
    if keep(c) then [c] else EscapeBytes(Utf8.EncodeChar(c))
  }

  /** Percent-encodes every character of `s` that `keep` does not admit, octet by
      octet of its UTF-8 form, with upper-case hex digits. */
  function Encode(keep: char -> bool, s: string): (r: string)
    ensures forall i :: 0 <= i < |r| ==> keep(r[i]) || r[i] == '%' || IsUpperHexDigit(r[i])
  {
    if |s| == 0 then "" else EncodeChar(keep, s[0]) + Encode(keep, s[1..])
  }

  /** Encoding never shortens the text; it keeps the length exactly when `keep` admits
      every character, and then it changes nothing. */
  lemma {:induction false} EncodeLength(keep: char -> bool, s: string)
    ensures |Encode(keep, s)| >= |s|
    ensures |Encode(keep, s)| == |s| <==> forall i :: 0 <= i < |s| ==> keep(s[i])
    ensures (forall i :: 0 <= i < |s| ==> keep(s[i])) ==> Encode(keep, s) == s
  {
    if |s| > 0 {
      var tail := s[1..];
      EncodeLength(keep, tail);
      assert Encode(keep, s) == EncodeChar(keep, s[0]) + Encode(keep, tail);
      assert (forall i :: 0 <= i < |s| ==> keep(s[i])) <==>
        keep(s[0]) && forall i :: 0 <= i < |tail| ==> keep(tail[i])
      by {
        if keep(s[0]) && forall i :: 0 <= i < |tail| ==> keep(tail[i]) {
          forall i | 0 < i < |s|
            ensures keep(s[i])
          {
            assert s[i] == tail[i - 1];
          }
        }
      }
      assert s == [s[0]] + tail;
    }
  }

  /** Encoding works character by character, so it distributes over concatenation. */
  lemma {:induction false} EncodeAppend(keep: char -> bool, a: string, b: string)
    ensures Encode(keep, a + b) == Encode(keep, a) + Encode(keep, b)
  {
    if |a| > 0 {
      assert (a + b)[0] == a[0] && (a + b)[1..] == a[1..] + b;
      EncodeAppend(keep, a[1..], b);
      assert Encode(keep, a + b) == EncodeChar(keep, a[0]) + Encode(keep, a[1..] + b);
      assert Encode(keep, a) == EncodeChar(keep, a[0]) + Encode(keep, a[1..]);
    } else {
      assert a + b == b;
    }
  }

  /** A character `keep` rejects never survives encoding. */
  lemma {:induction false} EncodeDropsRejected(keep: char -> bool, s: string, x: char)
    requires !keep(x) && x != '%' && !IsUpperHexDigit(x)
    ensures x !in Encode(keep, s)
  {
  }

  /** A character `keep` admits is in the encoding exactly when it is in the input,
      provided it is neither `%` nor an upper-case hex digit. */
  lemma {:induction false} EncodeKeepsAdmitted(keep: char -> bool, s: string, x: char)
    requires keep(x) && x != '%' && !IsUpperHexDigit(x)
    ensures x in Encode(keep, s) <==> x in s
  {
    if |s| > 0 {
      EncodeKeepsAdmitted(keep, s[1..], x);
      assert s == [s[0]] + s[1..];
    }
  }

  /** Two character classes that agree on every character of `s` encode it alike. */
  lemma {:induction false} EncodeAgree(keep1: char -> bool, keep2: char -> bool, s: string)
    requires forall i :: 0 <= i < |s| ==> keep1(s[i]) == keep2(s[i])
    ensures Encode(keep1, s) == Encode(keep2, s)
  {
    if |s| > 0 {
      EncodeAgree(keep1, keep2, s[1..]);
    }
  }

  // ---------------------------------------------------------------------------
  // decodeURIComponent

  /** The URIError `decodeURIComponent` throws. */
  datatype DecodeError = UriError

  /** The octet spelled by a `%XX` at the start of `s` (hex digits of either case). */
  function LeadingEscape(s: string): (r: Option<Utf8.byte>)
    ensures r.Some? ==> |s| >= 3
  {
    if |s| >= 3 && s[0] == '%' && IsHexDigit(s[1]) && IsHexDigit(s[2]) then
      Some(HexValue(s[1]) * 16 + HexValue(s[2]))
    else
      None
  }

  /** The octets of `k` consecutive escapes at the start of `s`. */
  function LeadingEscapes(s: string, k: nat): (r: Option<seq<Utf8.byte>>)
    ensures r.Some? ==> |r.value| == k && 3 * k <= |s|
    ensures r.Some? && k > 0 ==> LeadingEscape(s) == Some(r.value[0])
    decreases k
  {
    if k == 0 then Some([])
    else
      match LeadingEscape(s)
      case None => None
      case Some(b) =>
        match LeadingEscapes(s[3..], k - 1)
        case None => None
        case Some(bs) => Some([b] + bs)
  }

  /** The character spelled by the escapes at the start of `s`, with how many
      characters of `s` they take: a lead octet, then as many continuation octets as
      it announces, together one well-formed UTF-8 sequence. */
  function DecodeEscapedChar(s: string): (r: Option<(char, nat)>)
    ensures r.Some? ==> 3 <= r.value.1 <= |s|
  {
    match LeadingEscape(s)
    case None => None
    case Some(lead) =>
      var n := Utf8.SequenceLength(lead);
      if n == 0 then None
      else
        match LeadingEscapes(s, n)
        case None => None
        case Some(bs) =>
          match Utf8.DecodeChar(bs)
          case None => None
          case Some(c) => Some((c, 3 * n))
  }

  /** `decodeURIComponent`: every escape sequence becomes the character its UTF-8
      octets spell, every other character is kept; a malformed escape or an octet
      sequence that is not UTF-8 is a URIError. */
  function Decode(s: string): (r: Result<string, DecodeError>)
    ensures '%' !in s ==> r == Ok(s)
    decreases |s|
  {
    if |s| == 0 then Ok("")
    else if s[0] != '%' then
      assert s == [s[0]] + s[1..];
      match Decode(s[1..])
      case Ok(t) => Ok([s[0]] + t)
      case Err(e) => Err(e)
    else
      match DecodeEscapedChar(s)
      case None => Err(UriError)
      case Some((c, n)) =>
        match Decode(s[n..])
        case Ok(t) => Ok([c] + t)
        case Err(e) => Err(e)
  }

  lemma LeadingEscapeOf(b: Utf8.byte, rest: string)
    ensures LeadingEscape(Escape(b) + rest) == Some(b)
    ensures (Escape(b) + rest)[3..] == rest
  {
    var s := Escape(b) + rest;
    assert s[1] == HexDigit(b / 16) && s[2] == HexDigit(b % 16);
  }

  lemma {:induction false} LeadingEscapesOf(bs: seq<Utf8.byte>, rest: string)
    ensures LeadingEscapes(EscapeBytes(bs) + rest, |bs|) == Some(bs)
  {
    if |bs| > 0 {
      var s := EscapeBytes(bs) + rest;
      assert s == Escape(bs[0]) + (EscapeBytes(bs[1..]) + rest);
      LeadingEscapeOf(bs[0], EscapeBytes(bs[1..]) + rest);
      LeadingEscapesOf(bs[1..], rest);
      assert bs == [bs[0]] + bs[1..];
    }
  }

  lemma DecodeEscapedCharOf(c: char, rest: string)
    ensures var bs := Utf8.EncodeChar(c);
      DecodeEscapedChar(EscapeBytes(bs) + rest) == Some((c, 3 * |bs|))
  {
    var bs := Utf8.EncodeChar(c);
    var s := EscapeBytes(bs) + rest;
    LeadingEscapesOf(bs, rest);
    Utf8.DecodeEncodeChar(c);
  }

  /** Decoding undoes encoding whenever `%` itself is always escaped. */
  lemma {:induction false} DecodeEncode(keep: char -> bool, s: string)
    requires !keep('%')
    ensures Decode(Encode(keep, s)) == Ok(s)
    decreases |s|
  {
    if |s| > 0 {
      var c := s[0];
      var rest := Encode(keep, s[1..]);
      var e := Encode(keep, s);
      DecodeEncode(keep, s[1..]);
      if keep(c) {
        assert e == [c] + rest;
        assert e[1..] == rest;
      } else {
        var bs := Utf8.EncodeChar(c);
        assert e == EscapeBytes(bs) + rest;
        DecodeEscapedCharOf(c, rest);
        assert e[3 * |bs|..] == rest;
      }
      assert s == [c] + s[1..];
    }
  }
}

/** The percent-encoding of section 2.1 of RFC 3986 restricted, as section 3.6 of RFC
    5849 requires, to leaving exactly the unreserved characters of section 2.3 of RFC
    3986 as they are. */
module Rfc3986 {
  import opened Wrappers
  import Utf8
  import Percent

  /** ALPHA, DIGIT, `-`, `.`, `_` and `~`. */
  predicate IsUnreserved(c: char) {
    'A' <= c <= 'Z' || 'a' <= c <= 'z' || '0' <= c <= '9' || c == '-' || c == '.' || c == '_' || c == '~'
  }

  /** Every character outside the unreserved set becomes `%XX` escapes of its UTF-8
      octets. */
  function Encode(s: string): string {
    Percent.Encode(IsUnreserved, s)
  }

  /** The encoding consists of unreserved characters and `%` only, and it is the input
      itself exactly when the input is all unreserved. */
  lemma EncodeAlphabet(s: string)
    ensures forall i :: 0 <= i < |Encode(s)| ==> IsUnreserved(Encode(s)[i]) || Encode(s)[i] == '%'
    ensures Encode(s) == s <==> forall i :: 0 <= i < |s| ==> IsUnreserved(s[i])
  {
    Percent.EncodeLength(IsUnreserved, s);
  }

  /** Percent-decoding with `decodeURIComponent`; text without `%` comes back as it is. */
  function Decode(s: string): (r: Result<string, Percent.DecodeError>)
    ensures '%' !in s ==> r == Ok(s)
  {
    Percent.Decode(s)
  }

  /** Decoding undoes encoding, for all text. */
  lemma DecodeEncode(s: string)
    ensures Decode(Encode(s)) == Ok(s)
  {
    Percent.DecodeEncode(IsUnreserved, s);
  }

  /** Encoded text never holds a separator of the later stages. */
  lemma EncodeHasNoDelimiters(s: string)
    ensures '&' !in Encode(s) && '=' !in Encode(s)
  {
  }

  /** Distinct texts have distinct encodings. */
  lemma EncodeInjective(a: string, b: string)
    requires Encode(a) == Encode(b)
    ensures a == b
  {
    DecodeEncode(a);
    DecodeEncode(b);
  }

  lemma EncodeAppend(a: string, b: string)
    ensures Encode(a + b) == Encode(a) + Encode(b)
  {
    Percent.EncodeAppend(IsUnreserved, a, b);
  }

  lemma EncodeSingle(c: char)
    ensures Encode([c]) == Percent.EncodeChar(IsUnreserved, c)
  {
    assert Percent.Encode(IsUnreserved, [c]) == Percent.EncodeChar(IsUnreserved, c) + Percent.Encode(IsUnreserved, []);
  }

  /** An ASCII character outside the unreserved set becomes exactly one `%XX`, with
      upper-case hex digits. */
  lemma EncodeAsciiReserved(c: char)
    requires c as int < 0x80 && !IsUnreserved(c)
    ensures Encode([c]) == Percent.Escape(c as int)
  {
    EncodeSingle(c);
    assert Percent.EscapeBytes([c as int]) == Percent.Escape(c as int) + Percent.EscapeBytes([]);
  }

  /** The reserved characters of the RFC 3986 vectors, the first half. */
  lemma EncodeReservedVectors()
    ensures Encode("!") == "%21" && Encode("#") == "%23" && Encode("$") == "%24"
    ensures Encode("&") == "%26" && Encode("'") == "%27" && Encode("(") == "%28"
    ensures Encode(")") == "%29" && Encode("*") == "%2A" && Encode("+") == "%2B"
  {
    EncodeAsciiReserved('!');
    EncodeAsciiReserved('#');
    EncodeAsciiReserved('$');
    EncodeAsciiReserved('&');
    EncodeAsciiReserved('\'');
    EncodeAsciiReserved('(');
    EncodeAsciiReserved(')');
    EncodeAsciiReserved('*');
    EncodeAsciiReserved('+');
  }

  /** The reserved characters of the RFC 3986 vectors, the second half, and `%`
      itself. */
  lemma EncodeReservedVectorsRest()
    ensures Encode(",") == "%2C" && Encode("/") == "%2F" && Encode(":") == "%3A"
    ensures Encode(";") == "%3B" && Encode("=") == "%3D" && Encode("?") == "%3F"
    ensures Encode("@") == "%40" && Encode("[") == "%5B" && Encode("]") == "%5D"
    ensures Encode("%") == "%25"
  {
    EncodeAsciiReserved(',');
    EncodeAsciiReserved('/');
    EncodeAsciiReserved(':');
    EncodeAsciiReserved(';');
    EncodeAsciiReserved('=');
    EncodeAsciiReserved('?');
    EncodeAsciiReserved('@');
    EncodeAsciiReserved('[');
    EncodeAsciiReserved(']');
    EncodeAsciiReserved('%');
  }

  /** Each escape of the reserved vectors decodes to its character. */
  lemma DecodeReservedVectors()
    ensures Decode("%21") == Ok("!") && Decode("%23") == Ok("#") && Decode("%24") == Ok("$")
    ensures Decode("%26") == Ok("&") && Decode("%27") == Ok("'") && Decode("%28") == Ok("(")
    ensures Decode("%29") == Ok(")") && Decode("%2A") == Ok("*") && Decode("%2B") == Ok("+")
    ensures Decode("%2C") == Ok(",") && Decode("%2F") == Ok("/") && Decode("%3A") == Ok(":")
    ensures Decode("%3B") == Ok(";") && Decode("%3D") == Ok("=") && Decode("%3F") == Ok("?")
    ensures Decode("%40") == Ok("@") && Decode("%5B") == Ok("[") && Decode("%5D") == Ok("]")
  {
    EncodeReservedVectors();
    EncodeReservedVectorsRest();
    DecodeEncode("!"); DecodeEncode("#"); DecodeEncode("$");
    DecodeEncode("&"); DecodeEncode("'"); DecodeEncode("(");
    DecodeEncode(")"); DecodeEncode("*"); DecodeEncode("+");
    DecodeEncode(","); DecodeEncode("/"); DecodeEncode(":");
    DecodeEncode(";"); DecodeEncode("="); DecodeEncode("?");
    DecodeEncode("@"); DecodeEncode("["); DecodeEncode("]");
  }

  /** A character from U+0080 to U+07FF becomes the escapes of its two octets. */
  lemma EncodeTwoOctets(c: char)
    requires 0x80 <= c as int < 0x800
    ensures Encode([c]) == Percent.Escape(0xC0 + c as int / 64) + Percent.Escape(0x80 + c as int % 64)
  {
    EncodeSingle(c);
    var bs := Utf8.EncodeChar(c);
    assert bs == [0xC0 + c as int / 64, 0x80 + c as int % 64];
    assert bs[1..][1..] == [];
    assert Percent.EscapeBytes(bs[1..]) == Percent.Escape(bs[1]) + Percent.EscapeBytes([]);
  }

  lemma EncodeAring()
    ensures Encode("å") == "%C3%A5"
  {
    EncodeTwoOctets('å');
    assert 'å' as int == 0xE5;
    assert Percent.Escape(0xC3) == "%C3%A5"[..3];
    assert Percent.Escape(0xA5) == "%C3%A5"[3..];
  }

  lemma EncodeCcedil()
    ensures Encode("ç") == "%C3%A7"
  {
    EncodeTwoOctets('ç');
    assert 'ç' as int == 0xE7;
    assert Percent.Escape(0xC3) == "%C3%A7"[..3];
    assert Percent.Escape(0xA7) == "%C3%A7"[3..];
  }

  lemma EncodeNtilde()
    ensures Encode("ñ") == "%C3%B1"
  {
    EncodeTwoOctets('ñ');
    assert 'ñ' as int == 0xF1;
    assert Percent.Escape(0xC3) == "%C3%B1"[..3];
    assert Percent.Escape(0xB1) == "%C3%B1"[3..];
  }

  /** Two-octet characters: `åçñ`. */
  lemma EncodeTwoOctetVector()
    ensures Encode("åçñ") == "%C3%A5%C3%A7%C3%B1"
  {
    EncodeAring();
    EncodeCcedil();
    EncodeNtilde();
    EncodeAppend("å", "ç");
    EncodeAppend("åç", "ñ");
    assert "å" + "ç" == "åç" && "åç" + "ñ" == "åçñ";
    assert "%C3%A5" + "%C3%A7" + "%C3%B1" == "%C3%A5%C3%A7%C3%B1";
  }

  lemma EscapeThree(bs: seq<Utf8.byte>)
    requires |bs| == 3
    ensures Percent.EscapeBytes(bs) == Percent.Escape(bs[0]) + Percent.Escape(bs[1]) + Percent.Escape(bs[2])
  {
    var t := bs[1..];
    var u := t[1..];
    assert t[0] == bs[1] && u[0] == bs[2] && u[1..] == [];
    assert Percent.EscapeBytes(u) == Percent.Escape(bs[2]) + Percent.EscapeBytes([]);
  }

  lemma EncodeNi()
    ensures Encode("你") == "%E4%BD%A0"
  {
    EncodeSingle('你');
    OctetsOfNi();
  }

  lemma OctetsOfNi()
    ensures Percent.EscapeBytes(Utf8.EncodeChar('你')) == "%E4%BD%A0"
  {
    var n := '你' as int;
    assert n == 0x4F60;
    assert n / 4096 == 4 && (n / 64) % 64 == 0x3D && n % 64 == 0x20;
    assert Utf8.EncodeChar('你') == [0xE4, 0xBD, 0xA0];
    EscapeThree([0xE4, 0xBD, 0xA0]);
    assert Percent.Escape(0xE4) == "%E4%BD%A0"[..3];
    assert Percent.Escape(0xBD) == "%E4%BD%A0"[3..6];
    assert Percent.Escape(0xA0) == "%E4%BD%A0"[6..];
  }

  lemma EncodeHao()
    ensures Encode("好") == "%E5%A5%BD"
  {
    EncodeSingle('好');
    OctetsOfHao();
  }

  lemma OctetsOfHao()
    ensures Percent.EscapeBytes(Utf8.EncodeChar('好')) == "%E5%A5%BD"
  {
    var n := '好' as int;
    assert n == 0x597D;
    assert n / 4096 == 5 && (n / 64) % 64 == 0x25 && n % 64 == 0x3D;
    assert Utf8.EncodeChar('好') == [0xE5, 0xA5, 0xBD];
    EscapeThree([0xE5, 0xA5, 0xBD]);
    assert Percent.Escape(0xE5) == "%E5%A5%BD"[..3];
    assert Percent.Escape(0xA5) == "%E5%A5%BD"[3..6];
    assert Percent.Escape(0xBD) == "%E5%A5%BD"[6..];
  }

  /** Each UTF-8 octet of a multi-octet character is escaped on its own. */
  lemma EncodeUtf8Vector()
    ensures Encode("你好") == "%E4%BD%A0%E5%A5%BD"
  {
    EncodeNi();
    EncodeHao();
    EncodeAppend("你", "好");
    assert "你" + "好" == "你好";
  }

  lemma DecodeVectors()
    ensures Decode("%25") == Ok("%")
    ensures Decode("%E4%BD%A0%E5%A5%BD") == Ok("你好")
    ensures Decode("%C3%A5%C3%A7%C3%B1") == Ok("åçñ")
  {
    EncodeReservedVectorsRest();
    DecodeEncode("%");
    EncodeUtf8Vector();
    DecodeEncode("你好");
    EncodeTwoOctetVector();
    DecodeEncode("åçñ");
  }

  /** `encode` of an absent value: undefined and null are read as "". */
  function EncodeValue(s: Option<string>): (r: string)
    ensures DecodeValue(Some(r)) == Ok(OrEmpty(s))
  {
    DecodeEncode(OrEmpty(s));
    Encode(OrEmpty(s))
  }

  /** `decode` of an absent value: undefined and null are read as "". */
  function DecodeValue(s: Option<string>): Result<string, Percent.DecodeError> {
    Decode(OrEmpty(s))
  }

  /** Undefined, null and "" encode and decode to "". */
  lemma NonValues()
    ensures EncodeValue(None) == "" && EncodeValue(Some("")) == ""
    ensures DecodeValue(None) == Ok("") && DecodeValue(Some("")) == Ok("")
  {
    assert Encode("") == "";
  }

  /** Admits no character: encoding with it escapes every octet. */
  predicate KeepNone(c: char) { false }

  /** Decoding also accepts escapes of characters that encoding would have kept: the
      fully escaped form of any text decodes to it. */
  lemma DecodeFullyEscaped(s: string)
    ensures Decode(Percent.Encode(KeepNone, s)) == Ok(s)
  {
    Percent.DecodeEncode(KeepNone, s);
  }
}
