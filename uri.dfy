/** The URI handling around a shared key link: `encodeURIComponent` and
    `decodeURIComponent` (sections 19.2.6.4 and 19.2.6.2 of ECMA-262), and
    the way `URLSearchParams.get` reads one parameter of a query string
    (the application/x-www-form-urlencoded parser of the WHATWG URL
    standard). */
module Uri {
  import opened Wrappers
  import Utf8

  /** The characters `encodeURIComponent` leaves as they are. */
  predicate IsUnreserved(c: char) {
    ('A' <= c <= 'Z') || ('a' <= c <= 'z') || ('0' <= c <= '9') ||
    c == '-' || c == '_' || c == '.' || c == '!' || c == '~' || c == '*' || c == '\'' || c == '(' || c == ')'
  }

  predicate IsHexDigit(c: char) {
    ('0' <= c <= '9') || ('A' <= c <= 'F') || ('a' <= c <= 'f')
  }

  /** The upper-case hex digit of a value below 16. */
  function HexDigit(v: int): (c: char)
    requires 0 <= v < 16
    ensures IsHexDigit(c)
  {
    if v < 10 then ('0' as int + v) as char else ('A' as int + v - 10) as char
  }

  function HexValue(c: char): (v: int)
    requires IsHexDigit(c)
    ensures 0 <= v < 16
  {
    if '0' <= c <= '9' then c as int - '0' as int
    else if 'A' <= c <= 'F' then c as int - 'A' as int + 10
    else c as int - 'a' as int + 10
  }

  /** `%XY` with the upper-case hex digits of `b`. */
  function Escape(b: byte): string {
    ['%', HexDigit(b / 16), HexDigit(b % 16)]
  }

  function EscapeAll(bs: seq<byte>): string
    decreases |bs|
  {
    if |bs| == 0 then [] else Escape(bs[0]) + EscapeAll(bs[1..])
  }

  function EncodeChar(c: char): string {
    if IsUnreserved(c) then [c] else EscapeAll(Utf8.EncodeChar(c))
  }

  /** `encodeURIComponent(s)`: unreserved characters stay, every other
      character becomes the escapes of its UTF-8 bytes. */
  function EncodeUriComponent(s: string): (r: string)
    ensures '&' !in r && '=' !in r && '+' !in r && '?' !in r && '#' !in r
    decreases |s|
  {
    if |s| == 0 then [] else
      var head, tail := EncodeChar(s[0]), EncodeUriComponent(s[1..]);
      EscapesHaveNoDelimiters(Utf8.EncodeChar(s[0]));
      head + tail
  }

  lemma {:induction false} EscapesHaveNoDelimiters(bs: seq<byte>)
    ensures var e := EscapeAll(bs);
            '&' !in e && '=' !in e && '+' !in e && '?' !in e && '#' !in e
    decreases |bs|
  {
    if |bs| > 0 {
      EscapesHaveNoDelimiters(bs[1..]);
    }
  }

  /** `s` starts with `%` and two hex digits. */
  predicate StartsWithEscape(s: string) {
    |s| >= 3 && s[0] == '%' && IsHexDigit(s[1]) && IsHexDigit(s[2])
  }

  function EscapedByte(s: string): byte
    requires StartsWithEscape(s)
  {
    HexValue(s[1]) * 16 + HexValue(s[2])
  }

  /** The bytes of the escapes at the front of `s`, as many as there are. */
  function EscapeRun(s: string): (bs: seq<byte>)
    ensures 3 * |bs| <= |s|
    decreases |s|
  {
    if StartsWithEscape(s) then [EscapedByte(s)] + EscapeRun(s[3..]) else []
  }

  /** `decodeURIComponent(s)`: every run of escapes must spell well-formed
      UTF-8 and becomes its characters, and other characters stay. `None`
      where it throws a `URIError`. */
  function DecodeUriComponent(s: string): Option<string>
    decreases |s|
  {
    if |s| == 0 then Some([])
    else if s[0] != '%' then
      match DecodeUriComponent(s[1..])
      case None => None
      case Some(t) => Some([s[0]] + t)
    else
      var run := EscapeRun(s);
      if |run| == 0 then None
      else match Utf8.Decode(run)
        case None => None
        case Some(chars) =>
          match DecodeUriComponent(s[3 * |run|..])
          case None => None
          case Some(t) => Some(chars + t)
  }

  /** A string with no `%` is its own `decodeURIComponent`. */
  lemma {:induction false} DecodeWithoutPercent(s: string)
    requires '%' !in s
    ensures DecodeUriComponent(s) == Some(s)
    decreases |s|
  {
    if |s| > 0 {
      DecodeWithoutPercent(s[1..]);
      assert [s[0]] + s[1..] == s;
    }
  }

  /** The bytes the form-urlencoded parser reads from a name or value: `+`
      is a space, `%XY` is the byte `XY`, and any other character, a stray
      `%` included, is its UTF-8 bytes. */
  function FormBytes(s: string): seq<byte>
    decreases |s|
  {
    if |s| == 0 then []
    else if StartsWithEscape(s) then [EscapedByte(s)] + FormBytes(s[3..])
    else if s[0] == '+' then [0x20] + FormBytes(s[1..])
    else Utf8.EncodeChar(s[0]) + FormBytes(s[1..])
  }

  /** A raw name or value as the parser decodes it. */
  function FormDecode(s: string): string {
    Utf8.DecodeReplacing(FormBytes(s))
  }

  /** The text before the first `sep`, and after it if there is one. */
  function SplitAt(s: string, sep: char): (r: (string, Option<string>))
    ensures sep !in r.0
    ensures r.1.None? ==> r.0 == s
    ensures r.1.Some? ==> s == r.0 + [sep] + r.1.value
    decreases |s|
  {
    if |s| == 0 then ([], None)
    else if s[0] == sep then ([], Some(s[1..]))
    else
      var (a, b) := SplitAt(s[1..], sep);
      ([s[0]] + a, b)
  }

  /** `new URLSearchParams(search).get(name)`: a leading `?` is dropped,
      the rest is split on `&`, each non-empty piece on its first `=`, and
      the value of the first piece whose decoded name is `name` is returned
      decoded. */
  function SearchParam(search: string, name: string): Option<string> {
    var query := if |search| > 0 && search[0] == '?' then search[1..] else search;
    FirstValue(query, name)
  }

  function FirstValue(query: string, name: string): Option<string>
    decreases |query|
  {
    var (piece, rest) := SplitAt(query, '&');
    var (rawName, rawValue) := SplitAt(piece, '=');
    if |piece| > 0 && FormDecode(rawName) == name then Some(FormDecode(rawValue.GetOr([])))
    else match rest
      case None => None
      case Some(r) => FirstValue(r, name)
  }

  lemma HexRoundTrip(v: int)
    requires 0 <= v < 16
    ensures HexValue(HexDigit(v)) == v
  {
  }

  /** The form parser reads one escape back as its byte. */
  lemma FormBytesOfEscape(b: byte, tail: string)
    ensures FormBytes(Escape(b) + tail) == [b] + FormBytes(tail)
  {
    HexRoundTrip(b / 16);
    HexRoundTrip(b % 16);
    var s := Escape(b) + tail;
    assert s[0] == '%' && s[1] == HexDigit(b / 16) && s[2] == HexDigit(b % 16);
    assert EscapedByte(s) == b;
    assert s[3..] == tail;
  }

  /** The form parser reads a run of escapes back as its bytes. */
  lemma {:induction false} FormBytesOfEscapes(bs: seq<byte>, rest: string)
    ensures FormBytes(EscapeAll(bs) + rest) == bs + FormBytes(rest)
    decreases |bs|
  {
    if |bs| == 0 {
      assert EscapeAll(bs) + rest == rest;
    } else {
      var tail := EscapeAll(bs[1..]) + rest;
      calc {
        FormBytes(EscapeAll(bs) + rest);
        { assert EscapeAll(bs) + rest == Escape(bs[0]) + tail; }
        FormBytes(Escape(bs[0]) + tail);
        { FormBytesOfEscape(bs[0], tail); }
        [bs[0]] + FormBytes(tail);
        { FormBytesOfEscapes(bs[1..], rest); }
        [bs[0]] + (bs[1..] + FormBytes(rest));
        { assert [bs[0]] + bs[1..] == bs; }
        bs + FormBytes(rest);
      }
    }
  }

  /** The form parser reads an encoded string back as its UTF-8 bytes. */
  lemma {:induction false} FormBytesOfEncoding(s: string)
    ensures FormBytes(EncodeUriComponent(s)) == Utf8.Encode(s)
    decreases |s|
  {
    if |s| > 0 {
      var c := s[0];
      var tail := EncodeUriComponent(s[1..]);
      FormBytesOfEncoding(s[1..]);
      assert EncodeUriComponent(s) == EncodeChar(c) + tail;
      if IsUnreserved(c) {
        assert !StartsWithEscape(EncodeChar(c) + tail);
        assert (EncodeChar(c) + tail)[1..] == tail;
      } else {
        FormBytesOfEscapes(Utf8.EncodeChar(c), tail);
      }
    }
  }

  /** `encodeURIComponent` followed by the form parser's decoding gives the
      string back. */
  lemma FormDecodeOfEncoding(s: string)
    ensures FormDecode(EncodeUriComponent(s)) == s
  {
    FormBytesOfEncoding(s);
    Utf8.ReplacingRoundTrip(s);
  }

  lemma {:induction false} SplitAtAbsent(s: string, sep: char)
    requires sep !in s
    ensures SplitAt(s, sep) == (s, None)
    decreases |s|
  {
    if |s| > 0 {
      SplitAtAbsent(s[1..], sep);
      assert [s[0]] + s[1..] == s;
    }
  }

  lemma {:induction false} SplitAtFirst(a: string, sep: char, b: string)
    requires sep !in a
    ensures SplitAt(a + [sep] + b, sep) == (a, Some(b))
    decreases |a|
  {
    if |a| > 0 {
      SplitAtFirst(a[1..], sep, b);
      assert (a + [sep] + b)[1..] == a[1..] + [sep] + b;
      assert [a[0]] + a[1..] == a;
    } else {
      assert (a + [sep] + b)[1..] == b;
    }
  }

  /** A query string of one `name=value` piece gives that piece's decoded
      value for its decoded name. */
  lemma SearchParamOfSingle(rawName: string, rawValue: string, name: string)
    requires |rawName| > 0 && '&' !in rawName && '=' !in rawName && '&' !in rawValue
    requires FormDecode(rawName) == name
    ensures SearchParam("?" + rawName + "=" + rawValue, name) == Some(FormDecode(rawValue))
  {
    var query := rawName + "=" + rawValue;
    assert ("?" + rawName + "=" + rawValue)[1..] == query;
    assert '&' !in query;
    SplitAtAbsent(query, '&');
    SplitAtFirst(rawName, '=', rawValue);
  }

  /** A query string made of one parameter whose value went through
      `encodeURIComponent` gives that value back, exactly. */
  lemma SearchParamOfEncoded(name: string, value: string)
    requires |name| > 0 && EncodeUriComponent(name) == name
    ensures SearchParam("?" + name + "=" + EncodeUriComponent(value), name) == Some(value)
  {
    FormDecodeOfEncoding(name);
    FormDecodeOfEncoding(value);
    SearchParamOfSingle(name, EncodeUriComponent(value), name);
  }
}
