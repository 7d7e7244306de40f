/**
 * Percent-encoding of URI data (RFC 3986 section 2.1), standing in for
 * .NET's `Uri.EscapeDataString`: the text is encoded as UTF-8 and every byte
 * that is not an unreserved character (RFC 3986 section 2.3) is written as
 * '%' followed by two upper-case hexadecimal digits.
 */
module PercentEncoding {
  import opened Wrappers
  import Utf8

  type Byte = Utf8.Byte

  /** ALPHA / DIGIT / "-" / "." / "_" / "~" (RFC 3986 section 2.3). */
  predicate IsUnreserved(c: char) {
    ('A' <= c <= 'Z') || ('a' <= c <= 'z') || ('0' <= c <= '9')
    || c == '-' || c == '.' || c == '_' || c == '~'
  }

  function HexDigit(d: nat): (c: char)
    requires d < 16
    ensures IsUnreserved(c)
  {
    "0123456789ABCDEF"[d]
  }

  /** The value of a hexadecimal digit of either case (RFC 3986 section 2.1). */
  function HexValue(c: char): (r: Option<nat>)
    ensures r.Some? ==> r.value < 16 && IsUnreserved(c)
  {
    if '0' <= c <= '9' then Some(c as int - '0' as int)
    else if 'A' <= c <= 'F' then Some(c as int - 'A' as int + 10)
    else if 'a' <= c <= 'f' then Some(c as int - 'a' as int + 10)
    else None
  }

  predicate IsHexDigit(c: char) {
    HexValue(c).Some?
  }

  function EscapeByte(b: Byte): string {
    if IsUnreserved(b as char) then [b as char] else ['%', HexDigit(b / 16), HexDigit(b % 16)]
  }

  function EscapeBytes(bs: seq<Byte>): string {
    if bs == [] then [] else EscapeByte(bs[0]) + EscapeBytes(bs[1..])
  }

  /** The model of `Uri.EscapeDataString`. */
  function EscapeDataString(s: string): string {
    EscapeBytes(Utf8.Encode(s))
  }

  /**
   * The grammar of an escaped value: unreserved characters and "%" HEXDIG
   * HEXDIG triples, and nothing else.
   */
  predicate IsPercentEncoded(s: string)
    decreases |s|
  {
    s == []
    || (IsUnreserved(s[0]) && IsPercentEncoded(s[1..]))
    || (|s| >= 3 && s[0] == '%' && IsHexDigit(s[1]) && IsHexDigit(s[2]) && IsPercentEncoded(s[3..]))
  }

  /** Percent-decoding to bytes; `None` for any string outside the grammar. */
  function UnescapeBytes(s: string): Option<seq<Byte>>
    decreases |s|
  {
    if s == [] then Some([])
    else if s[0] == '%' then
      if |s| >= 3 && IsHexDigit(s[1]) && IsHexDigit(s[2]) then
        var rest :- UnescapeBytes(s[3..]);
        Some([16 * HexValue(s[1]).value + HexValue(s[2]).value] + rest)
      else None
    else if IsUnreserved(s[0]) then
      var rest :- UnescapeBytes(s[1..]);
      Some([s[0] as int] + rest)
    else None
  }

  /** Percent-decoding followed by UTF-8 decoding: the inverse of `EscapeDataString`. */
  function UnescapeDataString(s: string): Option<string> {
    var bs :- UnescapeBytes(s);
    Utf8.Decode(bs)
  }

  lemma {:induction false} EscapeBytesIsPercentEncoded(bs: seq<Byte>)
    ensures IsPercentEncoded(EscapeBytes(bs))
  {
    if bs != [] {
      var e := EscapeBytes(bs);
      var rest := EscapeBytes(bs[1..]);
      EscapeBytesIsPercentEncoded(bs[1..]);
      if IsUnreserved(bs[0] as char) {
        assert e[1..] == rest;
      } else {
        assert HexValue(HexDigit(bs[0] / 16)).Some?;
        assert HexValue(HexDigit(bs[0] % 16)).Some?;
        assert e[3..] == rest;
      }
    }
  }

  /** A value in the grammar holds only unreserved characters and '%'. */
  lemma {:induction false} PercentEncodedAlphabet(s: string)
    requires IsPercentEncoded(s)
    ensures forall i :: 0 <= i < |s| ==> IsUnreserved(s[i]) || s[i] == '%'
    decreases |s|
  {
    if s == [] {
    } else if IsUnreserved(s[0]) && IsPercentEncoded(s[1..]) {
      PercentEncodedAlphabet(s[1..]);
      assert forall i :: 1 <= i < |s| ==> s[i] == s[1..][i - 1];
    } else {
      PercentEncodedAlphabet(s[3..]);
      assert forall i :: 3 <= i < |s| ==> s[i] == s[3..][i - 3];
    }
  }

  /** The grammar describes exactly the strings that percent-decode. */
  lemma {:induction false} PercentEncodedIffDecodable(s: string)
    ensures IsPercentEncoded(s) <==> UnescapeBytes(s).Some?
    decreases |s|
  {
    if s != [] {
      if s[0] == '%' {
        if |s| >= 3 {
          PercentEncodedIffDecodable(s[3..]);
        }
      } else {
        PercentEncodedIffDecodable(s[1..]);
      }
    }
  }

  lemma EscapeByteDecodes(b: Byte, rest: string)
    ensures UnescapeBytes(EscapeByte(b) + rest).Some? <==> UnescapeBytes(rest).Some?
    ensures UnescapeBytes(rest).Some? ==>
              UnescapeBytes(EscapeByte(b) + rest) == Some([b] + UnescapeBytes(rest).value)
  {
    var e := EscapeByte(b) + rest;
    if IsUnreserved(b as char) {
      assert e[1..] == rest;
    } else {
      assert e[3..] == rest;
      assert HexValue(HexDigit(b / 16)) == Some(b / 16);
      assert HexValue(HexDigit(b % 16)) == Some(b % 16);
    }
  }

  /** Percent-decoding recovers the bytes that were escaped. */
  lemma {:induction false} UnescapeOfEscapeBytes(bs: seq<Byte>)
    ensures UnescapeBytes(EscapeBytes(bs)) == Some(bs)
  {
    if bs != [] {
      UnescapeOfEscapeBytes(bs[1..]);
      EscapeByteDecodes(bs[0], EscapeBytes(bs[1..]));
      assert [bs[0]] + bs[1..] == bs;
    }
  }

  /**
   * What `EscapeDataString` produces: a value in the grammar, so free of the
   * query delimiters '&', '=', '?', '#' and of '+', that decodes back to the
   * original text.
   */
  lemma EscapeDataStringProperties(s: string)
    ensures IsPercentEncoded(EscapeDataString(s))
    ensures forall i :: 0 <= i < |EscapeDataString(s)| ==>
              IsUnreserved(EscapeDataString(s)[i]) || EscapeDataString(s)[i] == '%'
    ensures '&' !in EscapeDataString(s) && '=' !in EscapeDataString(s)
    ensures '?' !in EscapeDataString(s) && '#' !in EscapeDataString(s) && '+' !in EscapeDataString(s)
    ensures UnescapeDataString(EscapeDataString(s)) == Some(s)
  {
    var bs := Utf8.Encode(s);
    EscapeBytesIsPercentEncoded(bs);
    PercentEncodedAlphabet(EscapeBytes(bs));
    UnescapeOfEscapeBytes(bs);
    Utf8.DecodeOfEncode(s);
  }

  /** Unreserved characters are left as they are (RFC 3986 section 2.3). */
  lemma {:induction false} EscapeUnreservedIsIdentity(s: string)
    requires forall i :: 0 <= i < |s| ==> IsUnreserved(s[i])
    ensures EscapeDataString(s) == s
  {
    Utf8.EncodeAscii(s);
    EscapeBytesOfAscii(s, Utf8.Encode(s));
  }

  lemma {:induction false} EscapeBytesOfAscii(s: string, bs: seq<Byte>)
    requires forall i :: 0 <= i < |s| ==> IsUnreserved(s[i])
    requires |bs| == |s| && forall i :: 0 <= i < |s| ==> bs[i] == s[i] as int
    ensures EscapeBytes(bs) == s
  {
    if s != [] {
      EscapeBytesOfAscii(s[1..], bs[1..]);
      assert [s[0]] + s[1..] == s;
    }
  }

  lemma {:induction false} EscapeBytesSplit(xs: seq<Byte>, ys: seq<Byte>)
    ensures EscapeBytes(xs + ys) == EscapeBytes(xs) + EscapeBytes(ys)
  {
    if xs == [] {
      assert xs + ys == ys;
    } else {
      assert (xs + ys)[0] == xs[0];
      assert (xs + ys)[1..] == xs[1..] + ys;
      EscapeBytesSplit(xs[1..], ys);
    }
  }

  /** Escaping works character by character: it distributes over concatenation. */
  lemma EscapeDataStringSplit(s: string, t: string)
    ensures EscapeDataString(s + t) == EscapeDataString(s) + EscapeDataString(t)
  {
    Utf8.EncodeSplit(s, t);
    EscapeBytesSplit(Utf8.Encode(s), Utf8.Encode(t));
  }

  /** Two words joined by a space: the space becomes %20, the words stay. */
  lemma EscapeSpacedWords(a: string, b: string)
    requires forall i :: 0 <= i < |a| ==> IsUnreserved(a[i])
    requires forall i :: 0 <= i < |b| ==> IsUnreserved(b[i])
    ensures EscapeDataString(a + " " + b) == a + "%20" + b
  {
    var sp, pct := " ", "%20";
    var tail := sp + b;
    assert a + sp + b == a + tail;
    EscapeDataStringSplit(a, tail);
    EscapeDataStringSplit(sp, b);
    EscapeUnreservedIsIdentity(a);
    EscapeUnreservedIsIdentity(b);
    EscapeSpace();
    assert a + (pct + b) == a + pct + b;
  }

  lemma EscapeSpace()
    ensures EscapeDataString(" ") == "%20"
  {
    var sp := " ";
    assert sp[1..] == [];
    assert Utf8.Encode(sp) == [32];
    var bs: seq<Byte> := [32];
    assert bs[1..] == [];
    assert EscapeBytes(bs) == EscapeByte(32) == "%20";
  }

  lemma EscapeHelloWorld(text: string)
    requires text == "Hello World"
    ensures EscapeDataString(text) == "Hello%20World"
  {
    var hello, world := "Hello", "World";
    assert text == hello + " " + world;
    EscapeSpacedWords(hello, world);
  }
}
