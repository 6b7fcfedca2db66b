/** The ECMAScript global `encodeURI` (ECMA-262 6th edition, section 18.2.6.4) and the
    percent-decoding a server applies to query-string components. A `char` here is a
    Unicode scalar value, so the lone surrogates on which `encodeURI` throws cannot occur. */
module Uri {
  import opened Wrappers
  import opened Sequences

  /** A byte value. */
  type Byte = b: int | 0 <= b < 256

  /** uriReserved of ECMA-262: `; / ? : @ & = + $ ,` */
  predicate IsUriReserved(ch: char) {
    ch == ';' || ch == '/' || ch == '?' || ch == ':' || ch == '@'
    || ch == '&' || ch == '=' || ch == '+' || ch == '$' || ch == ','
  }

  /** uriUnescaped of ECMA-262: ASCII letters, decimal digits and the marks
      `- _ . ! ~ * ' ( )`. */
  predicate IsUriUnescaped(ch: char) {
    ('a' <= ch <= 'z') || ('A' <= ch <= 'Z') || ('0' <= ch <= '9')
    || ch == '-' || ch == '_' || ch == '.' || ch == '!' || ch == '~'
    || ch == '*' || ch == '\'' || ch == '(' || ch == ')'
  }

  /** The characters `encodeURI` copies unchanged: the reserved ones, the unescaped ones
      and `#`. Everything else, `%` and the space included, is percent-encoded. */
  predicate KeptByEncodeURI(ch: char) {
    IsUriReserved(ch) || IsUriUnescaped(ch) || ch == '#'
  }

  /** The UTF-8 encoding of one scalar value. */
  function Utf8(ch: char): (bytes: seq<Byte>)
    ensures 1 <= |bytes| <= 4
  {
    var v := ch as int;
    if v < 0x80 then [v]
    else if v < 0x800 then [0xC0 + v / 0x40, 0x80 + v % 0x40]
    else if v < 0x10000 then [0xE0 + v / 0x1000, 0x80 + v / 0x40 % 0x40, 0x80 + v % 0x40]
    else [0xF0 + v / 0x40000, 0x80 + v / 0x1000 % 0x40, 0x80 + v / 0x40 % 0x40, 0x80 + v % 0x40]
  }

  /** An upper-case hexadecimal digit, as `encodeURI` writes them. */
  function HexDigit(d: int): (ch: char)
    requires 0 <= d < 16
    ensures ('0' <= ch <= '9') || ('A' <= ch <= 'F')
  {
    if d < 10 then ('0' as int + d) as char else ('A' as int + d - 10) as char
  }

  /** `%XY` for one byte. */
  function PercentByte(b: Byte): (s: string)
    ensures |s| == 3
  {
    ['%', HexDigit(b / 16), HexDigit(b % 16)]
  }

  function PercentBytes(bytes: seq<Byte>): (s: string)
    ensures |s| == 3 * |bytes|
  {
    if bytes == [] then "" else PercentByte(bytes[0]) + PercentBytes(bytes[1..])
  }

  /** What `encodeURI` writes for one character. */
  function EncodeChar(ch: char): string {
    if KeptByEncodeURI(ch) then [ch] else PercentBytes(Utf8(ch))
  }

  /** `encodeURI`: each character is copied or replaced by the `%XY` escapes of its UTF-8
      bytes. */
  function EncodeURI(s: string): (r: string)
    ensures |s| <= |r| <= 12 * |s|
  {
    if s == [] then "" else EncodeChar(s[0]) + EncodeURI(s[1..])
  }

  /** The value of a hexadecimal digit of either case. */
  function HexValue(ch: char): (r: Option<int>)
    ensures r.Some? ==> 0 <= r.value < 16
  {
    if '0' <= ch <= '9' then Some(ch as int - '0' as int)
    else if 'A' <= ch <= 'F' then Some(ch as int - 'A' as int + 10)
    else if 'a' <= ch <= 'f' then Some(ch as int - 'a' as int + 10)
    else None
  }

  /** The byte of a `%XY` escape at the start of `s`, if there is one. */
  function ReadByte(s: string): (r: Option<Byte>)
    ensures r.Some? ==> 3 <= |s| && s[0] == '%'
  {
    if 3 <= |s| && s[0] == '%' && HexValue(s[1]).Some? && HexValue(s[2]).Some? then
      Some(HexValue(s[1]).value * 16 + HexValue(s[2]).value)
    else None
  }

  /** Reads `count` escaped UTF-8 continuation bytes (0x80..0xBF) and appends their six
      payload bits each to `acc`. */
  function ReadContinuations(s: string, count: nat, acc: int): (r: Option<int>)
    ensures r.Some? ==> 3 * count <= |s|
    decreases count
  {
    if count == 0 then Some(acc)
    else match ReadByte(s)
      case None => None
      case Some(b) =>
        if 0x80 <= b < 0xC0 then ReadContinuations(s[3..], count - 1, acc * 0x40 + (b - 0x80))
        else None
  }

  /** Decodes one percent-escaped UTF-8 character at the start of `s`: the character and
      the number of text characters its escapes take, or `None` when `s` does not start
      with a well-formed escape sequence. */
  function DecodeEscaped(s: string): (r: Option<(char, nat)>)
    ensures r.Some? ==> 0 < r.value.1 <= |s|
  {
    match ReadByte(s)
    case None => None
    case Some(lead) =>
      var (count, bits) :=
        if lead < 0x80 then (0, lead)
        else if 0xC0 <= lead < 0xE0 then (1, lead - 0xC0)
        else if 0xE0 <= lead < 0xF0 then (2, lead - 0xE0)
        else if 0xF0 <= lead < 0xF8 then (3, lead - 0xF0)
        else (4, -1);
      if count == 4 then None
      else match ReadContinuations(s[3..], count, bits)
        case None => None
        case Some(v) =>
          if 0 <= v < 0xD800 || 0xE000 <= v < 0x11_0000 then Some((v as char, 3 * (count + 1)))
          else None
  }

  /** Percent-decoding: each well-formed escape sequence becomes its character; any other
      character, a stray `%` included, is kept. */
  function Decode(s: string): (r: string)
    ensures |r| <= |s|
    decreases |s|
  {
    if s == [] then ""
    else match DecodeEscaped(s)
      case Some((ch, n)) => [ch] + Decode(s[n..])
      case None => [s[0]] + Decode(s[1..])
  }

  lemma HexRoundTrip(d: int)
    requires 0 <= d < 16
    ensures HexValue(HexDigit(d)) == Some(d)
  {
  }

  lemma {:induction false} ReadPercentByte(b: Byte, rest: string)
    ensures ReadByte(PercentByte(b) + rest) == Some(b)
  {
    HexRoundTrip(b / 16);
    HexRoundTrip(b % 16);
  }

  /** Six payload bits per continuation byte, most significant first. */
  function AppendPayload(acc: int, continuations: seq<Byte>): int
    decreases |continuations|
  {
    if continuations == [] then acc
    else AppendPayload(acc * 0x40 + (continuations[0] as int - 0x80), continuations[1..])
  }

  lemma {:induction false} ReadEscapedContinuations(continuations: seq<Byte>, rest: string, acc: int)
    requires forall i :: 0 <= i < |continuations| ==> 0x80 <= continuations[i] < 0xC0
    ensures ReadContinuations(PercentBytes(continuations) + rest, |continuations|, acc)
            == Some(AppendPayload(acc, continuations))
  {
    if continuations != [] {
      var b := continuations[0];
      var s := PercentBytes(continuations) + rest;
      assert s == PercentByte(b) + (PercentBytes(continuations[1..]) + rest);
      ReadPercentByte(b, PercentBytes(continuations[1..]) + rest);
      assert s[3..] == PercentBytes(continuations[1..]) + rest;
      ReadEscapedContinuations(continuations[1..], rest, acc * 0x40 + (b - 0x80));
    }
  }

  /** Splitting a scalar value into 6-bit groups and joining them again gives it back. */
  lemma Utf8Payload(ch: char)
    requires 0x80 <= ch as int
    ensures var bytes := Utf8(ch);
            var lead := bytes[0];
            var bits := if lead < 0xE0 then lead - 0xC0 else if lead < 0xF0 then lead - 0xE0 else lead - 0xF0;
            && (|bytes| == 2 <==> 0xC0 <= lead < 0xE0)
            && (|bytes| == 3 <==> 0xE0 <= lead < 0xF0)
            && (|bytes| == 4 <==> 0xF0 <= lead < 0xF8)
            && (forall i :: 1 <= i < |bytes| ==> 0x80 <= bytes[i] < 0xC0)
            && AppendPayload(bits, bytes[1..]) == ch as int
  {
    var v := ch as int;
    var bytes := Utf8(ch);
    if v < 0x800 {
      assert bytes[1..] == [0x80 + v % 0x40];
      SixBits(v);
    } else if v < 0x10000 {
      assert bytes[1..] == [0x80 + v / 0x40 % 0x40, 0x80 + v % 0x40];
      TwelveBits(v);
    } else {
      assert bytes[1..] == [0x80 + v / 0x1000 % 0x40, 0x80 + v / 0x40 % 0x40, 0x80 + v % 0x40];
      EighteenBits(v);
    }
  }

  /** One continuation byte holds the low six bits. */
  lemma SixBits(v: nat)
    ensures AppendPayload(v / 0x40, [0x80 + v % 0x40]) == v
  {
    assert [0x80 + v % 0x40][1..] == [];
  }

  /** Two continuation bytes hold the low twelve bits. */
  lemma TwelveBits(v: nat)
    ensures AppendPayload(v / 0x1000, [0x80 + v / 0x40 % 0x40, 0x80 + v % 0x40]) == v
  {
    var w := v / 0x40;
    assert v / 0x1000 == w / 0x40;
    assert (w / 0x40) * 0x40 + w % 0x40 == w;
    assert [0x80 + w % 0x40, 0x80 + v % 0x40][1..] == [0x80 + v % 0x40];
    SixBits(v);
  }

  /** Three continuation bytes hold the low eighteen bits. */
  lemma EighteenBits(v: nat)
    ensures AppendPayload(v / 0x40000, [0x80 + v / 0x1000 % 0x40, 0x80 + v / 0x40 % 0x40, 0x80 + v % 0x40]) == v
  {
    var w := v / 0x40;
    assert v / 0x40000 == w / 0x1000;
    assert v / 0x1000 == w / 0x40;
    var tail := [0x80 + w % 0x40, 0x80 + v % 0x40];
    assert [0x80 + w / 0x40 % 0x40] + tail == [0x80 + v / 0x1000 % 0x40, 0x80 + v / 0x40 % 0x40, 0x80 + v % 0x40];
    assert (w / 0x1000) * 0x40 + w / 0x40 % 0x40 == w / 0x40;
    TwelveBits(v);
  }

  /** The escapes `encodeURI` writes for a character decode to that character. */
  lemma {:induction false} DecodeEscapedChar(ch: char, rest: string)
    requires !KeptByEncodeURI(ch)
    ensures DecodeEscaped(EncodeChar(ch) + rest) == Some((ch, |EncodeChar(ch)|))
  {
    var bytes := Utf8(ch);
    var s := EncodeChar(ch) + rest;
    assert s == PercentByte(bytes[0]) + (PercentBytes(bytes[1..]) + rest);
    ReadPercentByte(bytes[0], PercentBytes(bytes[1..]) + rest);
    assert s[3..] == PercentBytes(bytes[1..]) + rest;
    ContinuationsRead(ch, rest);
  }

  /** The escaped continuation bytes of a character, read after its lead byte, complete
      its scalar value. */
  lemma ContinuationsRead(ch: char, rest: string)
    ensures var bytes := Utf8(ch);
            var lead := bytes[0];
            && (lead < 0x80 || 0xC0 <= lead < 0xF8)
            && (lead < 0x80 <==> |bytes| == 1)
            && (0xC0 <= lead < 0xE0 <==> |bytes| == 2)
            && (0xE0 <= lead < 0xF0 <==> |bytes| == 3)
            && (0xF0 <= lead < 0xF8 <==> |bytes| == 4)
            && var bits := if lead < 0x80 then lead else if lead < 0xE0 then lead - 0xC0 else if lead < 0xF0 then lead - 0xE0 else lead - 0xF0;
               ReadContinuations(PercentBytes(bytes[1..]) + rest, |bytes| - 1, bits) == Some(ch as int)
  {
    var bytes := Utf8(ch);
    if ch as int < 0x80 {
      assert bytes[1..] == [];
    } else {
      Utf8Payload(ch);
      var lead := bytes[0];
      var bits := if lead < 0xE0 then lead - 0xC0 else if lead < 0xF0 then lead - 0xE0 else lead - 0xF0;
      ReadEscapedContinuations(bytes[1..], rest, bits);
    }
  }

  /** Decoding consumes exactly the text `encodeURI` wrote for one character. */
  lemma {:induction false} DecodeEncodedChar(ch: char, rest: string)
    ensures Decode(EncodeChar(ch) + rest) == [ch] + Decode(rest)
  {
    var s := EncodeChar(ch) + rest;
    if KeptByEncodeURI(ch) {
      assert s[0] == ch && ch != '%';
      assert s[1..] == rest;
    } else {
      DecodeEscapedChar(ch, rest);
      assert s[|EncodeChar(ch)|..] == rest;
    }
  }

  /** Percent-decoding undoes `encodeURI`, whatever text follows. */
  lemma {:induction false} DecodeEncodedPrefix(s: string, rest: string)
    ensures Decode(EncodeURI(s) + rest) == s + Decode(rest)
  {
    if s == [] {
      assert EncodeURI(s) + rest == rest;
    } else {
      var tail := EncodeURI(s[1..]) + rest;
      assert EncodeURI(s) + rest == EncodeChar(s[0]) + tail;
      DecodeEncodedPrefix(s[1..], rest);
      DecodeAfterEncodedChar(s, tail, EncodeURI(s) + rest, Decode(rest));
    }
  }

  /** One step of `DecodeEncodedPrefix`: the first character's escapes, then the rest. */
  lemma DecodeAfterEncodedChar(s: string, tail: string, text: string, decodedRest: string)
    requires s != [] && text == EncodeChar(s[0]) + tail
    requires Decode(tail) == s[1..] + decodedRest
    ensures Decode(text) == s + decodedRest
  {
    DecodeEncodedChar(s[0], tail);
    ConsAppend(s, decodedRest);
  }

  /** Percent-decoding undoes `encodeURI`. */
  lemma DecodeEncodeURI(s: string)
    ensures Decode(EncodeURI(s)) == s
  {
    DecodeEncodedPrefix(s, "");
    assert EncodeURI(s) + "" == EncodeURI(s);
  }

  /** A character other than `%` decodes as itself. */
  lemma DecodePlainChar(ch: char, rest: string)
    requires ch != '%'
    ensures Decode([ch] + rest) == [ch] + Decode(rest)
  {
    assert ([ch] + rest)[1..] == rest;
  }

  /** `encodeURI` works character by character, so it distributes over concatenation. */
  lemma {:induction false} EncodeURIConcat(a: string, b: string)
    ensures EncodeURI(a + b) == EncodeURI(a) + EncodeURI(b)
  {
    if a != [] {
      assert (a + b)[0] == a[0] && (a + b)[1..] == a[1..] + b;
      EncodeURIConcat(a[1..], b);
    } else {
      assert a + b == b;
    }
  }

  /** Text made only of kept characters comes out unchanged. */
  lemma {:induction false} EncodeURIKeeps(s: string)
    requires forall i :: 0 <= i < |s| ==> KeptByEncodeURI(s[i])
    ensures EncodeURI(s) == s
  {
    if s != [] {
      EncodeURIKeeps(s[1..]);
    }
  }

  /** Fixed text made of kept characters passes through; only the values spliced between
      it are encoded. */
  lemma EncodeURISplice(prefix: string, first: string, infix: string, second: string)
    requires forall i :: 0 <= i < |prefix| ==> KeptByEncodeURI(prefix[i])
    requires forall i :: 0 <= i < |infix| ==> KeptByEncodeURI(infix[i])
    ensures EncodeURI(prefix + first + infix + second) == prefix + EncodeURI(first) + infix + EncodeURI(second)
  {
    EncodeURIKeeps(prefix);
    EncodeURIKeeps(infix);
    EncodeURIConcat(prefix + first + infix, second);
    EncodeURIConcat(prefix + first, infix);
    EncodeURIConcat(prefix, first);
  }

  /** A kept character between two encoded pieces stays as it is. */
  lemma EncodeURIAround(before: string, ch: char, after: string)
    requires KeptByEncodeURI(ch)
    ensures EncodeURI(before + [ch] + after) == EncodeURI(before) + [ch] + EncodeURI(after)
  {
    EncodeURIConcat(before + [ch], after);
    EncodeURIConcat(before, [ch]);
    EncodeURIKeeps([ch]);
  }

  /** A space is escaped as `%20`. */
  lemma SpaceEscaped()
    ensures EncodeURI(" ") == "%20"
  {
  }

  /** The reserved characters `; / ? : @ & = + $ ,` and `#` are not escaped. */
  lemma ReservedNotEscaped(ch: char)
    requires IsUriReserved(ch) || ch == '#'
    ensures EncodeURI([ch]) == [ch]
  {
    EncodeURIKeeps([ch]);
  }

  /** The output holds only kept characters and the `%` of escapes. */
  lemma {:induction false} EncodeURIAlphabet(s: string)
    ensures forall i :: 0 <= i < |EncodeURI(s)| ==> KeptByEncodeURI(EncodeURI(s)[i]) || EncodeURI(s)[i] == '%'
  {
    if s != [] {
      EncodeURIAlphabet(s[1..]);
      PercentBytesAlphabet(Utf8(s[0]));
    }
  }

  lemma {:induction false} PercentBytesAlphabet(bytes: seq<Byte>)
    ensures forall i :: 0 <= i < |PercentBytes(bytes)| ==> KeptByEncodeURI(PercentBytes(bytes)[i]) || PercentBytes(bytes)[i] == '%'
  {
    if bytes != [] {
      PercentBytesAlphabet(bytes[1..]);
    }
  }

  /** A kept character that is neither `%` nor a hexadecimal digit appears in the output
      only where it appears in the input; in particular `&`, `#` and `+` do. */
  lemma {:induction false} EncodeURIIntroducesNo(s: string, ch: char)
    requires KeptByEncodeURI(ch) && ch != '%' && HexValue(ch).None? && ch !in s
    ensures ch !in EncodeURI(s)
  {
    if s != [] {
      EncodeURIIntroducesNo(s[1..], ch);
      PercentBytesLack(Utf8(s[0]), ch);
    }
  }

  lemma {:induction false} PercentBytesLack(bytes: seq<Byte>, ch: char)
    requires ch != '%' && HexValue(ch).None?
    ensures ch !in PercentBytes(bytes)
  {
    if bytes != [] {
      PercentBytesLack(bytes[1..], ch);
    }
  }
}
