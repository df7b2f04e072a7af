/** `decodeURIComponent`, as ECMAScript defines it: every `%XX` escape is a
    byte, multi-byte UTF-8 sequences become one character, and a malformed
    escape or an invalid UTF-8 sequence throws a URIError (here `None`). */
module Uri {
  import opened JsText

  /** The byte written by the two hexadecimal digits after `s[k]`, if both are hexadecimal. */
  function EscapedByte(s: string, k: nat): (b: Option<nat>)
    ensures b.Some? ==> b.value < 256
  {
    if k + 2 < |s| && HexDigitValue(s[k + 1]).Some? && HexDigitValue(s[k + 2]).Some? then
      Some(HexDigitValue(s[k + 1]).value * 16 + HexDigitValue(s[k + 2]).value)
    else None
  }

  /** The number of leading one bits of a byte, as far as UTF-8 cares (5 for "more than 4"). */
  function LeadingOnes(b: nat): nat
    requires b < 256
  {
    if b < 0x80 then 0 else if b < 0xC0 then 1 else if b < 0xE0 then 2 else if b < 0xF0 then 3
    else if b < 0xF8 then 4 else 5
  }

  predicate IsContinuation(b: nat) { 0x80 <= b < 0xC0 }

  /** The `n - 1` continuation bytes escaped from `s[k..]` on, if all are well formed. */
  function ContinuationBytes(s: string, k: nat, count: nat): (r: Option<seq<nat>>)
    ensures r.Some? ==> |r.value| == count && forall i :: 0 <= i < count ==> IsContinuation(r.value[i])
    decreases count
  {
    if count == 0 then Some([])
    else if k < |s| && s[k] == '%' then
      match EscapedByte(s, k)
      case None => None
      case Some(b) =>
        if !IsContinuation(b) then None
        else match ContinuationBytes(s, k + 3, count - 1)
          case None => None
          case Some(rest) => Some([b] + rest)
    else None
  }

  /** The code point a lead byte and its continuation bytes encode, if that
      encoding is the shortest one and the value is a Unicode scalar value. */
  function CodePoint(lead: nat, cont: seq<nat>): (c: Option<char>)
    requires lead < 256 && 2 <= LeadingOnes(lead) <= 4 && |cont| == LeadingOnes(lead) - 1
    requires forall i :: 0 <= i < |cont| ==> IsContinuation(cont[i])
  {
    if |cont| == 1 then
      var v := (lead % 32) * 64 + cont[0] % 64;
      if v < 0x80 then None else Some(v as char)
    else if |cont| == 2 then
      var v := (lead % 16) * 4096 + (cont[0] % 64) * 64 + cont[1] % 64;
      if v < 0x800 || (0xD800 <= v < 0xE000) then None else Some(v as char)
    else
      var v := (lead % 8) * 262144 + (cont[0] % 64) * 4096 + (cont[1] % 64) * 64 + cont[2] % 64;
      if v < 0x10000 || v > 0x10FFFF then None else Some(v as char)
  }

  /** `decodeURIComponent(s)`; `None` where it throws a URIError. */
  function Decode(s: string): (r: Option<string>)
    ensures r.Some? ==> |r.value| <= |s|
    ensures '%' !in s ==> r == Some(s)
    decreases |s|
  {
    if s == [] then Some([])
    else if s[0] != '%' then
      assert s == [s[0]] + s[1..];
      match Decode(s[1..])
      case None => None
      case Some(t) => Some([s[0]] + t)
    else
      match EscapedByte(s, 0)
      case None => None
      case Some(b) =>
        var n := LeadingOnes(b);
        if n == 0 then
          match Decode(s[3..])
          case None => None
          case Some(t) => Some([b as char] + t)
        else if n == 1 || n > 4 || |s| < 3 * n then None
        else
          match ContinuationBytes(s, 3, n - 1)
          case None => None
          case Some(cont) =>
            match CodePoint(b, cont)
            case None => None
            case Some(c) =>
              match Decode(s[3 * n..])
              case None => None
              case Some(t) => Some([c] + t)
  }

  /** A two-byte escape decodes to the character it encodes: `%C3%A9` is `é`. */
  lemma DecodeAccentedE(rest: string)
    requires '%' !in rest
    ensures Decode("%C3%A9" + rest) == Some("é" + rest)
  {
    var s := "%C3%A9" + rest;
    assert s[0] == '%' && s[1] == 'C' && s[2] == '3' && s[3] == '%' && s[4] == 'A' && s[5] == '9';
    assert EscapedByte(s, 0) == Some(0xC3);
    assert EscapedByte(s, 3) == Some(0xA9);
    assert ContinuationBytes(s, 6, 0) == Some([]);
    assert s[3] == '%' && IsContinuation(0xA9);
    var cont: seq<nat> := [0xA9];
    assert cont == [0xA9] + [];
    assert ContinuationBytes(s, 3, 1) == Some(cont);
    assert CodePoint(0xC3, [0xA9]) == Some('é');
    assert s[6..] == rest;
  }

  /** A `%` that is not followed by two hexadecimal digits makes decoding throw. */
  lemma DecodeMalformedEscape(t: string)
    requires |t| < 2 || HexDigitValue(t[0]).None? || HexDigitValue(t[1]).None?
    ensures Decode("%" + t) == None
  {
    var s := "%" + t;
    assert EscapedByte(s, 0) == None by {
      if 2 < |s| { assert s[1] == t[0] && s[2] == t[1]; }
    }
  }

  /** A lone continuation byte (`%80`..`%BF`) makes decoding throw. */
  lemma DecodeLoneContinuation(t: string)
    requires |t| == 2 && t[0] in "89AB" && HexDigitValue(t[1]).Some?
    ensures Decode("%" + t) == None
  {
    var s := "%" + t;
    assert s[1] == t[0] && s[2] == t[1];
    assert LeadingOnes(EscapedByte(s, 0).value) == 1;
  }

  // ---------------------------------------------------------------------------
  // Percent-encoding every UTF-8 byte: the inverse of decoding

  /** An upper-case hexadecimal digit. */
  function HexDigitChar(n: nat): (c: char)
    requires n < 16
    ensures HexDigitValue(c) == Some(n)
  {
    if n < 10 then ('0' as int + n) as char else ('A' as int + n - 10) as char
  }

  /** The UTF-8 encoding of a character: one to four bytes. */
  function Utf8(c: char): (bytes: seq<nat>)
    ensures 1 <= |bytes| <= 4
    ensures forall i :: 0 <= i < |bytes| ==> bytes[i] < 256
    ensures forall i :: 1 <= i < |bytes| ==> IsContinuation(bytes[i])
  {
    var v := c as int;
    if v < 0x80 then [v]
    else if v < 0x800 then [0xC0 + v / 64, 0x80 + v % 64]
    else if v < 0x10000 then [0xE0 + v / 4096, 0x80 + (v / 64) % 64, 0x80 + v % 64]
    else [0xF0 + v / 262144, 0x80 + (v / 4096) % 64, 0x80 + (v / 64) % 64, 0x80 + v % 64]
  }

  /** `%XX` for each byte, in order. */
  function EscapeBytes(bytes: seq<nat>): (e: string)
    requires forall i :: 0 <= i < |bytes| ==> bytes[i] < 256
    ensures |e| == 3 * |bytes|
    ensures forall k :: 0 <= k < |bytes| ==>
      e[3 * k] == '%' && e[3 * k + 1] == HexDigitChar(bytes[k] / 16) && e[3 * k + 2] == HexDigitChar(bytes[k] % 16)
  {
    if bytes == [] then []
    else
      var e := ['%', HexDigitChar(bytes[0] / 16), HexDigitChar(bytes[0] % 16)] + EscapeBytes(bytes[1..]);
      forall k | 1 <= k < |bytes|
        ensures e[3 * k] == '%' && e[3 * k + 1] == HexDigitChar(bytes[k] / 16) && e[3 * k + 2] == HexDigitChar(bytes[k] % 16)
      {
        assert bytes[1..][k - 1] == bytes[k];
        assert e[3 * k] == EscapeBytes(bytes[1..])[3 * (k - 1)];
        assert e[3 * k + 1] == EscapeBytes(bytes[1..])[3 * (k - 1) + 1];
        assert e[3 * k + 2] == EscapeBytes(bytes[1..])[3 * (k - 1) + 2];
      }
      e
  }

  /** Every character written as the percent escapes of its UTF-8 bytes
      (what `encodeURIComponent` does to the characters it escapes). */
  function Encode(s: string): (e: string)
    ensures |e| >= 3 * |s|
  {
    if s == [] then [] else EscapeBytes(Utf8(s[0])) + Encode(s[1..])
  }

  /** Decoding undoes the encoding, for every text. */
  lemma {:induction false} DecodeEncode(s: string)
    ensures Decode(Encode(s)) == Some(s)
  {
    if s != [] {
      DecodeEncode(s[1..]);
      DecodeEscapedChar(s[0], Encode(s[1..]), s[1..]);
      assert [s[0]] + s[1..] == s;
    }
  }

  /** The escapes of one character, followed by text that decodes to `t`,
      decode to the character followed by `t`. */
  lemma DecodeEscapedChar(c: char, rest: string, t: string)
    requires Decode(rest) == Some(t)
    ensures Decode(EscapeBytes(Utf8(c)) + rest) == Some([c] + t)
  {
    if |Utf8(c)| == 1 {
      var s := EscapeBytes(Utf8(c)) + rest;
      EscapesRead(Utf8(c), rest, 0);
      assert s[3..] == rest;
      DecodeSingle(s, Utf8(c)[0], t);
    } else {
      DecodeWideChar(c, rest, t);
    }
  }

  /** The escapes of a character of two to four UTF-8 bytes decode to it. */
  lemma DecodeWideChar(c: char, rest: string, t: string)
    requires Decode(rest) == Some(t) && |Utf8(c)| >= 2
    ensures Decode(EscapeBytes(Utf8(c)) + rest) == Some([c] + t)
  {
    var bytes := Utf8(c);
    var n := |bytes|;
    var s := EscapeBytes(bytes) + rest;
    forall i | 0 <= i < n
      ensures 3 * i < |s| && s[3 * i] == '%' && EscapedByte(s, 3 * i) == Some(bytes[i])
    {
      EscapesRead(bytes, rest, i);
    }
    ContinuationsRead(s, bytes, 1);
    assert s[3 * n..] == rest;
    Utf8CodePoint(c);
    DecodeSequence(s, bytes, c, t);
  }

  /** An escaped ASCII byte decodes to its character. */
  lemma DecodeSingle(s: string, b: nat, t: string)
    requires b < 0x80 && |s| >= 3 && s[0] == '%' && EscapedByte(s, 0) == Some(b)
    requires Decode(s[3..]) == Some(t)
    ensures Decode(s) == Some([b as char] + t)
  {
  }

  /** A well-formed escaped multi-byte sequence decodes to its character. */
  lemma DecodeSequence(s: string, bytes: seq<nat>, c: char, t: string)
    requires 2 <= |bytes| <= 4 && bytes[0] < 256 && LeadingOnes(bytes[0]) == |bytes| && |s| >= 3 * |bytes|
    requires s[0] == '%' && EscapedByte(s, 0) == Some(bytes[0])
    requires ContinuationBytes(s, 3, |bytes| - 1) == Some(bytes[1..])
    requires CodePoint(bytes[0], bytes[1..]) == Some(c)
    requires Decode(s[3 * |bytes|..]) == Some(t)
    ensures Decode(s) == Some([c] + t)
  {
  }

  /** The `k`-th escape reads back as the `k`-th byte. */
  lemma EscapesRead(bytes: seq<nat>, rest: string, k: nat)
    requires forall i :: 0 <= i < |bytes| ==> bytes[i] < 256
    requires k < |bytes|
    ensures var s := EscapeBytes(bytes) + rest;
      s[3 * k] == '%' && EscapedByte(s, 3 * k) == Some(bytes[k])
  {
    var e := EscapeBytes(bytes);
    assert e[3 * k] == '%';
    assert e[3 * k + 1] == HexDigitChar(bytes[k] / 16);
    assert e[3 * k + 2] == HexDigitChar(bytes[k] % 16);
    ReadEscape(e + rest, 3 * k, bytes[k]);
  }

  /** Two upper-case digits of a byte after `s[j]` read back as that byte. */
  lemma ReadEscape(s: string, j: nat, b: nat)
    requires b < 256 && j + 2 < |s|
    requires s[j + 1] == HexDigitChar(b / 16) && s[j + 2] == HexDigitChar(b % 16)
    ensures EscapedByte(s, j) == Some(b)
  {
    assert (b / 16) * 16 + b % 16 == b;
  }

  /** Escapes of continuation bytes, three characters apart from `s[3 * k]` on,
      read back as those bytes. */
  lemma {:induction false} ContinuationsRead(s: string, bytes: seq<nat>, k: nat)
    requires 1 <= k <= |bytes|
    requires forall i :: k <= i < |bytes| ==>
      IsContinuation(bytes[i]) && 3 * i < |s| && s[3 * i] == '%' && EscapedByte(s, 3 * i) == Some(bytes[i])
    ensures ContinuationBytes(s, 3 * k, |bytes| - k) == Some(bytes[k..])
    decreases |bytes| - k
  {
    if k < |bytes| {
      ContinuationsRead(s, bytes, k + 1);
      assert bytes[k..] == [bytes[k]] + bytes[k + 1..];
    }
  }

  /** The lead byte announces the length of the encoding. */
  lemma Utf8Lead(c: char)
    ensures |Utf8(c)| >= 2 ==> LeadingOnes(Utf8(c)[0]) == |Utf8(c)|
    ensures |Utf8(c)| == 1 ==> LeadingOnes(Utf8(c)[0]) == 0
  {
  }

  /** The lead and continuation bytes give back the character. */
  lemma Utf8CodePoint(c: char)
    requires |Utf8(c)| >= 2
    ensures LeadingOnes(Utf8(c)[0]) == |Utf8(c)|
    ensures CodePoint(Utf8(c)[0], Utf8(c)[1..]) == Some(c)
  {
    Utf8Lead(c);
    var v := c as int;
    if v < 0x800 {
      TwoBytes(v);
    } else if v < 0x10000 {
      ThreeBytes(v);
    } else {
      FourBytes(v);
    }
  }

  lemma TwoBytes(v: int)
    requires 0x80 <= v < 0x800
    ensures CodePoint(0xC0 + v / 64, [0x80 + v % 64]) == Some(v as char)
  {
    var q, r := v / 64, v % 64;
    assert v == q * 64 + r;
    assert (0xC0 + q) % 32 == q;
    assert (0x80 + r) % 64 == r;
  }

  lemma ThreeBytes(v: int)
    requires 0x800 <= v < 0x10000 && !(0xD800 <= v < 0xE000)
    ensures CodePoint(0xE0 + v / 4096, [0x80 + (v / 64) % 64, 0x80 + v % 64]) == Some(v as char)
  {
    var hi, mid, lo := v / 4096, (v / 64) % 64, v % 64;
    DivSplit(v);
    assert (0xE0 + hi) % 16 == hi;
    assert (0x80 + mid) % 64 == mid;
    assert (0x80 + lo) % 64 == lo;
  }

  lemma FourBytes(v: int)
    requires 0x10000 <= v <= 0x10FFFF
    ensures CodePoint(0xF0 + v / 262144, [0x80 + (v / 4096) % 64, 0x80 + (v / 64) % 64, 0x80 + v % 64]) == Some(v as char)
  {
    DivSplitFour(v);
    FourDigits(v / 262144, (v / 4096) % 64, (v / 64) % 64, v % 64);
  }

  /** Four base-64 digits of a supplementary code point read back as it. */
  lemma FourDigits(top: int, hi: int, mid: int, lo: int)
    requires 0 <= top < 8 && 0 <= hi < 64 && 0 <= mid < 64 && 0 <= lo < 64
    requires 0x10000 <= top * 262144 + hi * 4096 + mid * 64 + lo <= 0x10FFFF
    ensures CodePoint(0xF0 + top, [0x80 + hi, 0x80 + mid, 0x80 + lo])
      == Some((top * 262144 + hi * 4096 + mid * 64 + lo) as char)
  {
    assert (0xF0 + top) % 8 == top;
    assert (0x80 + hi) % 64 == hi;
    assert (0x80 + mid) % 64 == mid;
    assert (0x80 + lo) % 64 == lo;
  }

  /** `v` in base 64, to the fourth digit. */
  lemma DivSplitFour(v: int)
    requires 0 <= v
    ensures v == (v / 262144) * 262144 + ((v / 4096) % 64) * 4096 + ((v / 64) % 64) * 64 + v % 64
  {
    var top, r := v / 262144, v % 262144;
    var hi, r2 := r / 4096, r % 4096;
    var mid, lo := r2 / 64, r2 % 64;
    DivMod4096(v, top * 64 + hi, r2);
    DivMod64(v / 4096, top, hi);
    DivMod64(v, top * 4096 + hi * 64 + mid, lo);
    DivMod64(v / 64, top * 64 + hi, mid);
  }

  /** `v` in base 64, to the third digit. */
  lemma DivSplit(v: int)
    requires 0 <= v
    ensures v == (v / 4096) * 4096 + ((v / 64) % 64) * 64 + v % 64
  {
    var hi, r := v / 4096, v % 4096;
    var mid, lo := r / 64, r % 64;
    DivMod64(v, hi * 64 + mid, lo);
    DivMod64(v / 64, hi, mid);
  }

  /** Quotient and remainder by 64 are the only ones. */
  lemma DivMod64(v: int, q: int, r: int)
    requires 0 <= r < 64 && v == q * 64 + r
    ensures v / 64 == q && v % 64 == r
  {
  }

  /** Quotient and remainder by 4096 are the only ones. */
  lemma DivMod4096(v: int, q: int, r: int)
    requires 0 <= r < 4096 && v == q * 4096 + r
    ensures v / 4096 == q && v % 4096 == r
  {
  }
}
