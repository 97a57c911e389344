/** Base64 as the browser's `btoa` and `atob` apply it: the encoding of
    section 4 of RFC 4648 (alphabet of Table 1, `=` padding) on the way out,
    and the forgiving decode of the WHATWG HTML standard on the way in
    (ASCII white space ignored, padding optional, stray bits discarded).
    Both functions take and give "binary strings": one code unit per byte. */
module Base64 {
  import opened Wrappers

  type sextet = x: int | 0 <= x < 64

  /** The character that stands for a 6-bit value (RFC 4648, Table 1). */
  function EncodeSextet(v: sextet): char {
    if v < 26 then ('A' as int + v) as char
    else if v < 52 then ('a' as int + (v - 26)) as char
    else if v < 62 then ('0' as int + (v - 52)) as char
    else if v == 62 then '+'
    else '/'
  }

  predicate IsBase64Char(c: char) {
    ('A' <= c <= 'Z') || ('a' <= c <= 'z') || ('0' <= c <= '9') || c == '+' || c == '/'
  }

  /** The 6-bit value an alphabet character stands for. */
  function DecodeChar(c: char): (v: sextet)
    requires IsBase64Char(c)
    ensures EncodeSextet(v) == c
  {
    if 'A' <= c <= 'Z' then c as int - 'A' as int
    else if 'a' <= c <= 'z' then c as int - 'a' as int + 26
    else if '0' <= c <= '9' then c as int - '0' as int + 52
    else if c == '+' then 62
    else 63
  }

  /** Every 6-bit value is written with an alphabet character, and reading
      that character back gives the value. */
  lemma DecodeEncodeSextet(v: sextet)
    ensures IsBase64Char(EncodeSextet(v)) && DecodeChar(EncodeSextet(v)) == v
  {
  }

  /** The 6-bit groups of a byte string, three bytes to four groups; a final
      group of one or two bytes gives two or three groups, zero-filled. */
  function Sextets(b: seq<byte>): (v: seq<sextet>)
    ensures |v| == SextetCount(|b|)
    decreases |b|
  {
    if |b| == 0 then []
    else if |b| == 1 then Quantum(b[0], 0, 0)[..2]
    else if |b| == 2 then Quantum(b[0], b[1], 0)[..3]
    else Quantum(b[0], b[1], b[2]) + Sextets(b[3..])
  }

  /** The four 6-bit groups of one full three-byte quantum. */
  function Quantum(b0: byte, b1: byte, b2: byte): (q: seq<sextet>)
    ensures |q| == 4
  {
    [b0 / 4, (b0 % 4) * 16 + b1 / 16, (b1 % 16) * 4 + b2 / 64, b2 % 64]
  }

  /** How many 6-bit groups `n` bytes make: four per full quantum, and two
      or three for a final one or two bytes. */
  function SextetCount(n: nat): nat
    decreases n
  {
    if n == 0 then 0 else if n == 1 then 2 else if n == 2 then 3 else 4 + SextetCount(n - 3)
  }

  /** The groups never leave a lone group in the last quantum, and with the
      padding they fill whole quanta of four characters. */
  lemma {:induction false} SextetCountFills(n: nat)
    ensures SextetCount(n) % 4 != 1 && (SextetCount(n) + |Padding(n)|) % 4 == 0
    ensures SextetCount(n) == 0 <==> n == 0
    decreases n
  {
    if n >= 3 {
      SextetCountFills(n - 3);
      assert Padding(n) == Padding(n - 3);
    }
  }

  /** The bytes that a run of 6-bit groups packs into; the inverse of `Sextets`. */
  function Bytes(v: seq<sextet>): seq<byte>
    requires |v| % 4 != 1
    decreases |v|
  {
    if |v| == 0 then []
    else
      if |v| == 2 then Unpack(v[0], v[1], 0, 0)[..1]
      else if |v| == 3 then Unpack(v[0], v[1], v[2], 0)[..2]
      else Unpack(v[0], v[1], v[2], v[3]) + Bytes(v[4..])
  }

  /** The three bytes that four 6-bit groups pack into. */
  function Unpack(v0: sextet, v1: sextet, v2: sextet, v3: sextet): (r: seq<byte>)
    ensures |r| == 3
  {
    [v0 * 4 + v1 / 16, (v1 % 16) * 16 + v2 / 4, (v2 % 4) * 64 + v3]
  }

  function EncodeSextets(v: seq<sextet>): (s: string)
    ensures |s| == |v|
  {
    seq(|v|, i requires 0 <= i < |v| => EncodeSextet(v[i]))
  }

  /** The `=` padding that completes the last quantum of `n` bytes. */
  function Padding(n: nat): string {
    if n % 3 == 1 then "==" else if n % 3 == 2 then "=" else ""
  }

  /** Base64 encoding of a byte string (RFC 4648, section 4). */
  function Encode(b: seq<byte>): (s: string)
    ensures |s| % 4 == 0 && (|s| == 0 <==> |b| == 0)
    ensures forall i :: 0 <= i < |s| ==> IsBase64Char(s[i]) || s[i] == '='
  {
    SextetCountFills(|b|);
    EncodeSextets(Sextets(b)) + Padding(|b|)
  }

  /** TAB, LF, FF, CR and SPACE, the white space `atob` ignores. */
  predicate IsAsciiWhitespace(c: char) {
    c as int == 0x09 || c as int == 0x0A || c as int == 0x0C || c as int == 0x0D || c == ' '
  }

  function RemoveAsciiWhitespace(s: string): (r: string)
    ensures forall i :: 0 <= i < |r| ==> !IsAsciiWhitespace(r[i])
    ensures (forall i :: 0 <= i < |s| ==> !IsAsciiWhitespace(s[i])) ==> r == s
    decreases |s|
  {
    if |s| == 0 then []
    else if IsAsciiWhitespace(s[0]) then RemoveAsciiWhitespace(s[1..])
    else [s[0]] + RemoveAsciiWhitespace(s[1..])
  }

  /** A length that is a multiple of four may end in one or two `=`, which go. */
  function RemovePadding(s: string): string {
    if |s| % 4 == 0 && |s| >= 2 && s[|s| - 2] == '=' && s[|s| - 1] == '=' then s[..|s| - 2]
    else if |s| % 4 == 0 && |s| >= 1 && s[|s| - 1] == '=' then s[..|s| - 1]
    else s
  }

  /** The forgiving base64 decode that `atob` performs: `None` where `atob`
      throws. */
  function ForgivingDecode(s: string): Option<seq<byte>> {
    var d := RemovePadding(RemoveAsciiWhitespace(s));
    if |d| % 4 == 1 then None
    else if exists i :: 0 <= i < |d| && !IsBase64Char(d[i]) then None
    else Some(Bytes(seq(|d|, i requires 0 <= i < |d| => DecodeChar(d[i]))))
  }

  /** The three bytes of one full quantum come back from its four groups. */
  lemma QuantumRoundTrip(b0: byte, b1: byte, b2: byte)
    ensures var q := Quantum(b0, b1, b2); Unpack(q[0], q[1], q[2], q[3]) == [b0, b1, b2]
  {
  }

  /** Packing the groups of a byte string gives the byte string back. */
  lemma {:induction false} BytesOfSextets(b: seq<byte>)
    ensures |Sextets(b)| % 4 != 1 && Bytes(Sextets(b)) == b
    decreases |b|
  {
    SextetCountFills(|b|);
    if |b| >= 3 {
      BytesOfSextets(b[3..]);
      QuantumRoundTrip(b[0], b[1], b[2]);
      var v := Sextets(b);
      assert v[4..] == Sextets(b[3..]);
      assert b == [b[0], b[1], b[2]] + b[3..];
    } else if |b| == 2 {
      QuantumRoundTrip(b[0], b[1], 0);
    } else if |b| == 1 {
      QuantumRoundTrip(b[0], 0, 0);
    }
  }

  /** An encoding holds no white space, so `atob` keeps all of it. */
  lemma EncodingHasNoWhitespace(b: seq<byte>)
    ensures RemoveAsciiWhitespace(Encode(b)) == Encode(b)
  {
    var s := Encode(b);
    forall i | 0 <= i < |s| ensures !IsAsciiWhitespace(s[i]) {
      assert IsBase64Char(s[i]) || s[i] == '=';
    }
  }

  /** Removing the padding of an encoding leaves exactly its alphabet characters. */
  lemma PaddingOfEncoding(b: seq<byte>)
    ensures RemovePadding(Encode(b)) == EncodeSextets(Sextets(b))
  {
    var v := Sextets(b);
    var body := EncodeSextets(v);
    if |b| > 0 {
      DecodeEncodeSextet(v[|v| - 1]);
      assert body[|body| - 1] != '=';
    }
    SextetCountFills(|b|);
    RemovePaddingOf(body, Padding(|b|));
  }

  /** A body that does not end in `=`, followed by at most two `=` that
      complete a multiple of four, loses exactly the `=`. */
  lemma RemovePaddingOf(body: string, pad: string)
    requires pad == "" || pad == "=" || pad == "=="
    requires |body + pad| % 4 == 0 && (pad != "" ==> |body| > 0)
    requires |body| > 0 ==> body[|body| - 1] != '='
    ensures RemovePadding(body + pad) == body
  {
    var s := body + pad;
    if pad == "==" {
      assert s[..|s| - 2] == body;
    } else if pad == "=" {
      assert s[|s| - 2] == body[|body| - 1];
      assert s[..|s| - 1] == body;
    } else {
      assert s == body;
    }
  }

  /** Reading the characters of `EncodeSextets(v)` back gives `v`. */
  lemma DecodeEncodedSextets(v: seq<sextet>)
    ensures var body := EncodeSextets(v);
            (forall i :: 0 <= i < |body| ==> IsBase64Char(body[i])) &&
            seq(|body|, i requires 0 <= i < |body| && IsBase64Char(body[i]) => DecodeChar(body[i])) == v
  {
    var body := EncodeSextets(v);
    forall i | 0 <= i < |body| ensures IsBase64Char(body[i]) && DecodeChar(body[i]) == v[i] {
      DecodeEncodeSextet(v[i]);
    }
  }

  /** Decoding an encoding gives back the bytes (RFC 4648 round trip, with
      the decode that `atob` performs). */
  lemma DecodeEncode(b: seq<byte>)
    ensures ForgivingDecode(Encode(b)) == Some(b)
  {
    var v := Sextets(b);
    var body := EncodeSextets(v);
    EncodingHasNoWhitespace(b);
    PaddingOfEncoding(b);
    DecodeEncodedSextets(v);
    BytesOfSextets(b);
    var d := RemovePadding(RemoveAsciiWhitespace(Encode(b)));
    assert d == body;
    assert seq(|d|, i requires 0 <= i < |d| => DecodeChar(d[i])) == v;
  }

  /** Whether a string can be a binary string: every code unit below 256. */
  predicate IsBinaryString(s: string) {
    forall i :: 0 <= i < |s| ==> (s[i] as int) < 256
  }

  /** The binary string with one code unit per byte, equal to the byte. */
  function BinaryString(b: seq<byte>): (s: string)
    ensures |s| == |b| && IsBinaryString(s)
    ensures forall i :: 0 <= i < |b| ==> s[i] as int == b[i]
  {
    seq(|b|, i requires 0 <= i < |b| => b[i] as char)
  }

  /** The bytes of a binary string. */
  function BinaryBytes(s: string): (b: seq<byte>)
    requires IsBinaryString(s)
    ensures BinaryString(b) == s
  {
    seq(|s|, i requires 0 <= i < |s| => s[i] as int)
  }

  /** `btoa(s)`: throws (`None`) on a code unit above 255. */
  function Btoa(s: string): Option<string> {
    if IsBinaryString(s) then Some(Encode(BinaryBytes(s))) else None
  }

  /** `atob(s)`: the decoded bytes as a binary string, `None` where it throws. */
  function Atob(s: string): (r: Option<string>)
    ensures r.Some? <==> ForgivingDecode(s).Some?
    ensures r.Some? ==> IsBinaryString(r.value) && BinaryBytes(r.value) == ForgivingDecode(s).value
  {
    match ForgivingDecode(s)
    case None => None
    case Some(b) => Some(BinaryString(b))
  }

  /** `atob(btoa(s)) == s` for every binary string. */
  lemma AtobBtoa(s: string)
    requires IsBinaryString(s)
    ensures Btoa(s).Some? && Atob(Btoa(s).value) == Some(s)
  {
    DecodeEncode(BinaryBytes(s));
  }
}
