/** UTF-8, as `TextEncoder`, `TextDecoder`, `encodeURIComponent` and
    `decodeURIComponent` use it: the encoding of section 3 of RFC 3629 and
    the well-formed byte sequences of its Table 3-7. Characters are Unicode
    scalar values. */
module Utf8 {
  import opened Wrappers

  predicate IsContinuation(b: byte) {
    0x80 <= b < 0xC0
  }

  /** The UTF-8 bytes of one character. */
  function EncodeChar(c: char): (b: seq<byte>)
    ensures 1 <= |b| <= 4
  {
    var n := c as int;
    if n < 0x80 then [n]
    else if n < 0x800 then [0xC0 + n / 64, 0x80 + n % 64]
    else if n < 0x10000 then [0xE0 + n / 4096, 0x80 + (n / 64) % 64, 0x80 + n % 64]
    else [0xF0 + n / 262144, 0x80 + (n / 4096) % 64, 0x80 + (n / 64) % 64, 0x80 + n % 64]
  }

  /** The UTF-8 bytes of a string (`TextEncoder.encode`). */
  function Encode(s: string): seq<byte>
    decreases |s|
  {
    if |s| == 0 then [] else EncodeChar(s[0]) + Encode(s[1..])
  }

  /** The length of the well-formed sequence at the front of `b`, or 0 when
      `b` does not start with one. */
  function WellFormedLength(b: seq<byte>): (n: nat)
    ensures n <= |b| && n <= 4 && (|b| > 0 && b[0] < 0x80 ==> n == 1)
  {
    if |b| == 0 then 0
    else if b[0] < 0x80 then 1
    else if 0xC2 <= b[0] <= 0xDF then
      if |b| >= 2 && IsContinuation(b[1]) then 2 else 0
    else if 0xE0 <= b[0] <= 0xEF then
      var lo, hi := if b[0] == 0xE0 then 0xA0 else 0x80, if b[0] == 0xED then 0xA0 else 0xC0;
      if |b| >= 3 && lo <= b[1] < hi && IsContinuation(b[2]) then 3 else 0
    else if 0xF0 <= b[0] <= 0xF4 then
      var lo, hi := if b[0] == 0xF0 then 0x90 else 0x80, if b[0] == 0xF4 then 0x90 else 0xC0;
      if |b| >= 4 && lo <= b[1] < hi && IsContinuation(b[2]) && IsContinuation(b[3]) then 4 else 0
    else 0
  }

  /** The character a well-formed sequence at the front of `b` stands for. */
  function DecodeChar(b: seq<byte>): char
    requires WellFormedLength(b) > 0
  {
    var n := WellFormedLength(b);
    var b0, b1 := b[0] as int, if n > 1 then b[1] as int else 0;
    var b2, b3 := if n > 2 then b[2] as int else 0, if n > 3 then b[3] as int else 0;
    if n == 1 then b0 as char
    else if n == 2 then ((b0 - 0xC0) * 64 + (b1 - 0x80)) as char
    else if n == 3 then ((b0 - 0xE0) * 4096 + (b1 - 0x80) * 64 + (b2 - 0x80)) as char
    else ((b0 - 0xF0) * 262144 + (b1 - 0x80) * 4096 + (b2 - 0x80) * 64 + (b3 - 0x80)) as char
  }

  /** Strict decoding: `None` when the bytes are not well-formed UTF-8. */
  function Decode(b: seq<byte>): Option<string>
    decreases |b|
  {
    if |b| == 0 then Some([])
    else if WellFormedLength(b) == 0 then None
    else match Decode(b[WellFormedLength(b)..])
      case None => None
      case Some(s) => Some([DecodeChar(b)] + s)
  }

  /** The replacing UTF-8 decode ("UTF-8 decode without BOM" of the WHATWG
      Encoding standard): well-formed sequences become their characters,
      and a byte that starts none becomes U+FFFD. */
  function DecodeReplacing(b: seq<byte>): string
    decreases |b|
  {
    if |b| == 0 then []
    else if WellFormedLength(b) == 0 then [0xFFFD as char] + DecodeReplacing(b[1..])
    else [DecodeChar(b)] + DecodeReplacing(b[WellFormedLength(b)..])
  }

  lemma EncodeChar2(n: int)
    requires 0x80 <= n < 0x800
    ensures var b0, b1 := 0xC0 + n / 64, 0x80 + n % 64;
            0xC2 <= b0 <= 0xDF && 0x80 <= b1 < 0xC0 && (b0 - 0xC0) * 64 + (b1 - 0x80) == n
  {
  }

  lemma EncodeChar3(n: int)
    requires 0x800 <= n < 0x10000 && !(0xD800 <= n < 0xE000)
    ensures var b0, b1, b2 := 0xE0 + n / 4096, 0x80 + (n / 64) % 64, 0x80 + n % 64;
            0xE0 <= b0 <= 0xEF && 0x80 <= b1 < 0xC0 && 0x80 <= b2 < 0xC0 &&
            (b0 == 0xE0 ==> b1 >= 0xA0) && (b0 == 0xED ==> b1 < 0xA0) &&
            (b0 - 0xE0) * 4096 + (b1 - 0x80) * 64 + (b2 - 0x80) == n
  {
    var q, r := n / 64, n % 64;
    assert n == q * 64 + r;
    assert q / 64 == n / 4096;
  }

  lemma EncodeChar4(n: int)
    requires 0x10000 <= n < 0x110000
    ensures var b0, b1, b2, b3 := 0xF0 + n / 262144, 0x80 + (n / 4096) % 64, 0x80 + (n / 64) % 64, 0x80 + n % 64;
            0xF0 <= b0 <= 0xF4 && 0x80 <= b1 < 0xC0 && 0x80 <= b2 < 0xC0 && 0x80 <= b3 < 0xC0 &&
            (b0 == 0xF0 ==> b1 >= 0x90) && (b0 == 0xF4 ==> b1 < 0x90) &&
            (b0 - 0xF0) * 262144 + (b1 - 0x80) * 4096 + (b2 - 0x80) * 64 + (b3 - 0x80) == n
  {
    var q, r := n / 64, n % 64;
    var q2, r2 := q / 64, q % 64;
    assert n == q * 64 + r && q == q2 * 64 + r2;
    assert q2 / 64 == n / 262144 && q2 == n / 4096;
  }

  /** The bytes of a character are one well-formed sequence that decodes
      back to it, whatever follows. */
  lemma DecodeEncodeChar(c: char, rest: seq<byte>)
    ensures var b := EncodeChar(c) + rest;
            WellFormedLength(b) == |EncodeChar(c)| && DecodeChar(b) == c
  {
    var n := c as int;
    if n < 0x80 {
    } else if n < 0x800 {
      EncodeChar2(n);
    } else if n < 0x10000 {
      EncodeChar3(n);
    } else {
      EncodeChar4(n);
    }
  }

  /** Decoding the encoding of a string gives the string back. */
  lemma {:induction false} DecodeEncode(s: string)
    ensures Decode(Encode(s)) == Some(s)
    decreases |s|
  {
    if |s| > 0 {
      var rest := Encode(s[1..]);
      DecodeEncodeChar(s[0], rest);
      DecodeEncode(s[1..]);
      var b := Encode(s);
      assert b[|EncodeChar(s[0])|..] == rest;
      assert [s[0]] + s[1..] == s;
    }
  }

  /** On well-formed input the replacing decoder is the strict one. */
  lemma {:induction false} DecodeReplacingWellFormed(b: seq<byte>)
    requires Decode(b).Some?
    ensures DecodeReplacing(b) == Decode(b).value
    decreases |b|
  {
    if |b| > 0 {
      DecodeReplacingWellFormed(b[WellFormedLength(b)..]);
    }
  }

  /** U+FEFF, the byte order mark, and its three UTF-8 bytes. */
  const Bom: char := '\U{FEFF}'
  const BomBytes: seq<byte> := [0xEF, 0xBB, 0xBF]

  predicate StartsWithBom(b: seq<byte>) {
    |b| >= 3 && b[..3] == BomBytes
  }

  /** `new TextDecoder().decode(b)` with its default options: the "UTF-8
      decode" of the WHATWG Encoding standard, which skips the bytes of a
      leading byte order mark (`ignoreBOM` is false) and decodes the rest
      with replacement. */
  function TextDecode(b: seq<byte>): (t: string)
    ensures StartsWithBom(b) ==> [Bom] + t == DecodeReplacing(b)
    ensures !StartsWithBom(b) ==> t == DecodeReplacing(b)
  {
    if StartsWithBom(b) then
      assert WellFormedLength(b) == 3 && DecodeChar(b) == Bom;
      DecodeReplacing(b[3..])
    else DecodeReplacing(b)
  }

  /** The replacing decoder undoes the encoder for every string. */
  lemma ReplacingRoundTrip(s: string)
    ensures DecodeReplacing(Encode(s)) == s
  {
    DecodeEncode(s);
    DecodeReplacingWellFormed(Encode(s));
  }

  /** A character whose bytes start with 0xEF has three of them. */
  lemma EncodeCharLeadEF(c: char)
    ensures EncodeChar(c)[0] == 0xEF ==> |EncodeChar(c)| == 3
  {
  }

  /** The bytes of a byte order mark encode U+FEFF and nothing else. */
  lemma EncodeCharIsBom(c: char)
    ensures EncodeChar(c) == BomBytes <==> c == Bom
  {
    DecodeEncodeChar(c, []);
    assert EncodeChar(c) + [] == EncodeChar(c);
    assert WellFormedLength(BomBytes) == 3 && DecodeChar(BomBytes) == Bom;
  }

  /** Bytes that start with the bytes of one character start with a byte
      order mark exactly when that character's bytes are one. */
  lemma StartsWithBomAfter(e: seq<byte>, rest: seq<byte>)
    requires 1 <= |e| <= 4 && (e[0] == 0xEF ==> |e| == 3)
    ensures StartsWithBom(e + rest) <==> e == BomBytes
  {
    var b := e + rest;
    if |e| == 3 {
      assert b[..3] == e;
    } else {
      assert b[0] == e[0];
    }
  }

  /** Only a string that starts with U+FEFF encodes to bytes that start with
      a byte order mark. */
  lemma EncodeStartsWithBom(s: string)
    ensures StartsWithBom(Encode(s)) <==> |s| > 0 && s[0] == Bom
  {
    if |s| > 0 {
      EncodeCharLeadEF(s[0]);
      EncodeCharIsBom(s[0]);
      StartsWithBomAfter(EncodeChar(s[0]), Encode(s[1..]));
    }
  }

  /** `new TextDecoder().decode(new TextEncoder().encode(s))` is `s`, except
      that a leading U+FEFF is taken for a byte order mark and dropped. */
  lemma TextRoundTrip(s: string)
    ensures (|s| == 0 || s[0] != Bom) ==> TextDecode(Encode(s)) == s
    ensures |s| > 0 && s[0] == Bom ==> TextDecode(Encode(s)) == s[1..]
  {
    EncodeStartsWithBom(s);
    ReplacingRoundTrip(s);
  }
}
