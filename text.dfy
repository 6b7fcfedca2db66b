/** The string operations the catalog code relies on: .NET's `string.IsNullOrWhiteSpace`,
    `ToLower`, `Contains` and ordinal case-insensitive equality, and the decimal text
    JavaScript gives an integer in a template literal. Case mapping is modelled on ASCII
    letters only. */
module Text {
  import opened Wrappers
  import opened Sequences

  /** `Char.IsWhiteSpace`: the Unicode space, line and paragraph separators (categories
      Zs, Zl and Zp) together with U+0009..U+000D and U+0085. */
  predicate IsWhiteSpace(ch: char) {
    ch == ' ' || ('\t' <= ch <= '\r') || ch == '\U{85}' || ch == '\U{A0}' || ch == '\U{1680}'
    || ('\U{2000}' <= ch <= '\U{200A}') || ch == '\U{2028}' || ch == '\U{2029}'
    || ch == '\U{202F}' || ch == '\U{205F}' || ch == '\U{3000}'
  }

  /** Every character of `s` is white space (vacuously so for the empty string). */
  predicate IsBlank(s: string) {
    forall i :: 0 <= i < |s| ==> IsWhiteSpace(s[i])
  }

  /** `string.IsNullOrWhiteSpace`. */
  predicate IsNullOrWhiteSpace(s: Option<string>): (b: bool)
    ensures s == None || s == Some("") ==> b
    ensures s.Some? && |s.value| > 0 && !IsWhiteSpace(s.value[0]) ==> !b
  {
    s.None? || IsBlank(s.value)
  }

  predicate IsAsciiUpper(ch: char) {
    'A' <= ch <= 'Z'
  }

  /** `Char.ToLower` restricted to ASCII: upper-case letters map to lower case. */
  function LowerChar(ch: char): (r: char)
    ensures IsAsciiUpper(ch) ==> r as int == ch as int + 32
    ensures !IsAsciiUpper(ch) ==> r == ch
    ensures !IsAsciiUpper(r)
  {
    if IsAsciiUpper(ch) then (ch as int + 32) as char else ch
  }

  /** `string.ToLower`: every character lowered, position by position. */
  function Lower(s: string): (r: string)
    ensures |r| == |s|
    ensures forall i :: 0 <= i < |s| ==> r[i] == LowerChar(s[i])
    ensures forall i :: 0 <= i < |r| ==> !IsAsciiUpper(r[i])
    ensures forall i :: 0 <= i < |s| && !IsAsciiUpper(s[i]) ==> r[i] == s[i]
  {
    seq(|s|, i requires 0 <= i < |s| => LowerChar(s[i]))
  }

  /** Lowering a lowered string changes nothing. */
  lemma LowerIdempotent(s: string)
    ensures Lower(Lower(s)) == Lower(s)
  {
  }

  /** Lowering neither creates nor removes white space. */
  lemma LowerKeepsBlank(s: string)
    ensures IsBlank(Lower(s)) <==> IsBlank(s)
  {
    assert forall i :: 0 <= i < |s| ==> (IsWhiteSpace(Lower(s)[i]) <==> IsWhiteSpace(s[i]));
  }

  /** A lower-case letter appears in a lowered string only where the original has it in
      one case or the other. */
  lemma LowerLacks(s: string, ch: char)
    requires 'a' <= ch <= 'z' && ch !in s && (ch as int - 32) as char !in s
    ensures ch !in Lower(s)
  {
    forall i | 0 <= i < |s|
      ensures Lower(s)[i] != ch
    {
      assert s[i] != ch && s[i] != (ch as int - 32) as char;
    }
  }

  /** Ordinal case-insensitive equality (`StringComparison.OrdinalIgnoreCase`). */
  predicate EqualsIgnoreCase(a: string, b: string): (r: bool)
    ensures a == b ==> r
    ensures r ==> |a| == |b|
  {
    Lower(a) == Lower(b)
  }

  predicate StartsWith(s: string, prefix: string) {
    |prefix| <= |s| && s[..|prefix|] == prefix
  }

  /** `string.Contains`: `needle` occurs in `s` as a contiguous run of characters. */
  predicate Contains(s: string, needle: string): (b: bool)
    ensures needle == [] ==> b
    ensures b ==> |needle| <= |s|
    decreases |s|
  {
    StartsWith(s, needle) || (|s| > 0 && Contains(s[1..], needle))
  }

  /** `needle` sits in `s` starting at offset `i`. */
  predicate OccursAt(s: string, needle: string, i: int) {
    0 <= i <= |s| - |needle| && s[i..i + |needle|] == needle
  }

  /** `Contains` holds exactly when `needle` sits at some offset of `s`. */
  lemma {:induction false} ContainsIff(s: string, needle: string)
    ensures Contains(s, needle) <==> exists i :: OccursAt(s, needle, i)
    decreases |s|
  {
    if Contains(s, needle) {
      if StartsWith(s, needle) {
        assert OccursAt(s, needle, 0);
      } else {
        ContainsIff(s[1..], needle);
        var j :| OccursAt(s[1..], needle, j);
        assert s[j + 1..j + 1 + |needle|] == s[1..][j..j + |needle|];
        assert OccursAt(s, needle, j + 1);
      }
    }
    if exists i :: OccursAt(s, needle, i) {
      var i :| OccursAt(s, needle, i);
      if i > 0 {
        assert s[1..][i - 1..i - 1 + |needle|] == s[i..i + |needle|];
        assert OccursAt(s[1..], needle, i - 1);
        ContainsIff(s[1..], needle);
      }
    }
  }

  /** A string contains whatever is spliced into it. */
  lemma ContainsInfix(before: string, needle: string, after: string)
    ensures Contains(before + needle + after, needle)
  {
    var s := before + needle + after;
    assert s[|before|..|before| + |needle|] == needle;
    assert OccursAt(s, needle, |before|);
    ContainsIff(s, needle);
  }

  /** A string cannot contain a needle whose first character it lacks. */
  lemma {:induction false} AbsentFirstChar(s: string, needle: string)
    requires needle != [] && needle[0] !in s
    ensures !Contains(s, needle)
    decreases |s|
  {
    if |needle| <= |s| {
      assert s[..|needle|][0] == s[0];
    }
    if s != [] {
      AbsentFirstChar(s[1..], needle);
    }
  }

  function DigitChar(d: nat): (r: char)
    requires d < 10
    ensures '0' <= r <= '9'
  {
    ('0' as int + d) as char
  }

  /** Decimal digits of a natural number, most significant first, no leading zero. */
  function NatToString(n: nat): (r: string)
    ensures 0 < |r|
    ensures forall i :: 0 <= i < |r| ==> '0' <= r[i] <= '9'
    ensures |r| > 1 ==> r[0] != '0'
  {
    if n < 10 then [DigitChar(n)] else NatToString(n / 10) + [DigitChar(n % 10)]
  }

  /** The value a string of decimal digits denotes. */
  function DecimalValue(s: string): int {
    if s == [] then 0 else 10 * DecimalValue(s[..|s| - 1]) + (s[|s| - 1] as int - '0' as int)
  }

  /** Reading back the digits gives the number. */
  lemma {:induction false} DecimalRoundTrip(n: nat)
    ensures DecimalValue(NatToString(n)) == n
  {
    var r := NatToString(n);
    if n >= 10 {
      DecimalRoundTrip(n / 10);
      assert r[..|r| - 1] == NatToString(n / 10);
    }
  }

  /** Different natural numbers have different digits. */
  lemma NatToStringInjective(m: nat, n: nat)
    requires NatToString(m) == NatToString(n)
    ensures m == n
  {
    DecimalRoundTrip(m);
    DecimalRoundTrip(n);
  }

  /** The text JavaScript gives an integer-valued number: a minus sign for negatives,
      then the decimal digits. */
  function IntToString(n: int): (r: string)
    ensures 0 < |r|
  {
    if n < 0 then "-" + NatToString(-n) else NatToString(n)
  }

  /** The text starts with a minus sign exactly for negative numbers, and the digits
      after it are those of the magnitude. */
  lemma SignOfText(n: int)
    ensures IntToString(n)[0] == '-' <==> n < 0
    ensures n < 0 ==> IntToString(n)[1..] == NatToString(-n)
  {
    if n >= 0 {
      assert IntToString(n)[0] == NatToString(n)[0];
    } else {
      var digits := NatToString(-n);
      assert ("-" + digits)[1..] == digits;
    }
  }

  /** Different integers are written differently, so a card's image name identifies the
      album id. */
  lemma IntToStringInjective(m: int, n: int)
    requires IntToString(m) == IntToString(n)
    ensures m == n
  {
    SignOfText(m);
    SignOfText(n);
    assert m < 0 <==> n < 0;
    if m < 0 {
      NatToStringInjective(-m, -n);
    } else {
      NatToStringInjective(m, n);
    }
  }

  /** The position of the first occurrence of `ch` in `s`. */
  function IndexOf(s: string, ch: char): (i: nat)
    requires ch in s
    ensures i < |s| && s[i] == ch
    ensures forall j :: 0 <= j < i ==> s[j] != ch
  {
    if s[0] == ch then 0 else IndexOf(s[1..], ch) + 1
  }

  /** The first occurrence of a separator lies just after a prefix that lacks it. */
  lemma IndexOfAfter(prefix: string, ch: char, rest: string)
    requires ch !in prefix
    ensures IndexOf(prefix + [ch] + rest, ch) == |prefix|
  {
    var s := prefix + [ch] + rest;
    assert forall j :: 0 <= j < |prefix| ==> s[j] == prefix[j];
    assert s[|prefix|] == ch;
  }

  /** JavaScript's and .NET's `split` on one character: the pieces between separators,
      at least one. */
  function Split(s: string, sep: char): (parts: seq<string>)
    ensures |parts| >= 1
    decreases |s|
  {
    if sep !in s then [s]
    else
      var i := IndexOf(s, sep);
      [s[..i]] + Split(s[i + 1..], sep)
  }

  /** The inverse of `Split`: the pieces with one separator between each two. */
  function JoinWith(parts: seq<string>, sep: char): string
    requires |parts| >= 1
  {
    if |parts| == 1 then parts[0] else parts[0] + [sep] + JoinWith(parts[1..], sep)
  }

  /** Splitting loses nothing and leaves no separator in a piece. */
  lemma {:induction false} JoinSplit(s: string, sep: char)
    ensures JoinWith(Split(s, sep), sep) == s
    ensures forall k :: 0 <= k < |Split(s, sep)| ==> sep !in Split(s, sep)[k]
    decreases |s|
  {
    if sep in s {
      var i := IndexOf(s, sep);
      JoinSplit(s[i + 1..], sep);
      assert s == s[..i] + [sep] + s[i + 1..];
      var parts := Split(s, sep);
      assert parts[1..] == Split(s[i + 1..], sep);
    }
  }

  /** Pieces free of the separator are recovered by splitting their join. */
  lemma {:induction false} SplitJoin(parts: seq<string>, sep: char)
    requires |parts| >= 1
    requires forall k :: 0 <= k < |parts| ==> sep !in parts[k]
    ensures Split(JoinWith(parts, sep), sep) == parts
  {
    if |parts| > 1 {
      var rest := JoinWith(parts[1..], sep);
      var s := parts[0] + [sep] + rest;
      assert JoinWith(parts, sep) == s;
      var i := |parts[0]|;
      assert s[i] == sep;
      IndexOfAfter(parts[0], sep, rest);
      assert s[..i] == parts[0];
      assert s[i + 1..] == rest;
      assert Split(s, sep) == [parts[0]] + Split(rest, sep);
      SplitJoin(parts[1..], sep);
      assert parts == [parts[0]] + parts[1..];
    }
  }

  /** Three pieces free of the separator, joined by it, split back into those pieces. */
  lemma SplitThree(first: string, second: string, third: string, sep: char)
    requires sep !in first && sep !in second && sep !in third
    ensures Split(first + [sep] + (second + [sep] + third), sep) == [first] + [second, third]
  {
    var fields := [first, second, third];
    assert fields[1..][1..] == [third];
    assert JoinWith(fields[1..], sep) == second + [sep] + third;
    assert JoinWith(fields, sep) == first + [sep] + (second + [sep] + third);
    SplitJoin(fields, sep);
    HeadAndRest(first, second, third);
  }
}
