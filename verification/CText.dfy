/** The C library text routines that the HTTP code relies on: character classes,
    bounded search, number scanning and number printing. */
module CText {

  datatype Option<+T> = None | Some(value: T) {
    function GetOr(default: T): T {
      if Some? then value else default
    }
  }

  /** The largest `unsigned long` and `size_t` of the 32-bit target. */
  const ULONG_MAX: nat := 0xFFFF_FFFF

  type Size = n: nat | n <= ULONG_MAX

  function Min(a: nat, b: nat): nat {
    if a < b then a else b
  }

  /** isspace in the C locale: space, \t, \n, \v, \f, \r. */
  predicate IsSpace(c: char) {
    c == ' ' || '\t' <= c <= '\r'
  }

  function Lower(c: char): char {
    if 'A' <= c <= 'Z' then (c as int + 32) as char else c
  }

  /** Equal lengths and equal characters up to ASCII case. */
  predicate EqualsNoCase(s: string, t: string) {
    |s| == |t| && forall i | 0 <= i < |s| :: Lower(s[i]) == Lower(t[i])
  }

  /** Every character is the one of `lower` or the one of `upper` in its place. */
  predicate Spelled(s: string, lower: string, upper: string) {
    |s| == |lower| == |upper| && forall i | 0 <= i < |s| :: s[i] == lower[i] || s[i] == upper[i]
  }

  /** `lower` and `upper` are the two spellings of `t` in the ASCII alphabet. */
  predicate SpellingsOf(t: string, lower: string, upper: string) {
    |t| == |lower| == |upper| && forall i | 0 <= i < |t| ::
      (t[i] == lower[i] || t[i] == upper[i])
      && if 'a' <= lower[i] <= 'z' then upper[i] as int == lower[i] as int - 32
         else upper[i] == lower[i] && !('A' <= lower[i] <= 'Z')
  }

  /** Comparing without case accepts every mixture of the two spellings and nothing else. */
  lemma {:induction false} EqualsNoCaseIff(s: string, t: string, lower: string, upper: string)
    requires SpellingsOf(t, lower, upper)
    ensures EqualsNoCase(s, t) <==> Spelled(s, lower, upper)
  {
    if |s| == |t| {
      forall i | 0 <= i < |s| ensures Lower(s[i]) == Lower(t[i]) <==> s[i] == lower[i] || s[i] == upper[i] {
        assert t[i] == lower[i] || t[i] == upper[i];
      }
    }
  }

  /** The text that a `%.*s` conversion prints: everything before the first NUL. */
  function CStr(s: string): (r: string)
    ensures r <= s && '\0' !in r
    ensures '\0' !in s ==> r == s
  {
    if s == [] || s[0] == '\0' then []
    else
      assert s == [s[0]] + s[1..];
      [s[0]] + CStr(s[1..])
  }

  /** strchrn: the first `ch` in `s`, not looking past a NUL. */
  function StrChrN(s: string, ch: char): (r: Option<nat>)
    ensures r.Some? ==> r.value < |s| && s[r.value] == ch && ch !in s[..r.value]
    ensures r.None? && '\0' !in s ==> ch !in s
  {
    if s == [] || s[0] == '\0' then None
    else if s[0] == ch then Some(0)
    else
      match StrChrN(s[1..], ch)
      case None => assert s == [s[0]] + s[1..]; None
      case Some(i) => assert s[..i + 1] == [s[0]] + s[1..][..i]; Some(i + 1)
  }

  lemma {:induction false} StrChrNStops(s: string, ch: char)
    requires ch != '\0' && StrChrN(s, ch).Some?
    ensures '\0' !in s[..StrChrN(s, ch).value]
  {
    if s[0] != ch {
      StrChrNStops(s[1..], ch);
      var i := StrChrN(s[1..], ch).value;
      assert s[..i + 1] == [s[0]] + s[1..][..i];
    }
  }

  lemma {:induction false} StrChrNMisses(s: string, ch: char)
    requires ch != '\0'
    ensures StrChrN(s, ch).None? <==> ch !in CStr(s)
  {
    if s != [] && s[0] != '\0' {
      StrChrNMisses(s[1..], ch);
    }
  }

  /** strchrn looks at the C string. */
  lemma {:induction false} StrChrNMeans(s: string, ch: char)
    requires ch != '\0'
    ensures StrChrN(s, ch).None? <==> ch !in CStr(s)
    ensures StrChrN(s, ch).Some? ==> '\0' !in s[..StrChrN(s, ch).value]
  {
    hide StrChrN, CStr;
    StrChrNMisses(s, ch);
    if StrChrN(s, ch).Some? {
      StrChrNStops(s, ch);
    }
  }

  lemma {:induction false} CStrConcat(s: string, t: string)
    ensures CStr(s + t) == if '\0' in s then CStr(s) else s + CStr(t)
  {
    if s == "" {
      assert s + t == t;
    } else {
      assert (s + t)[1..] == s[1..] + t && s == [s[0]] + s[1..];
      CStrConcat(s[1..], t);
    }
  }

  lemma {:induction false} StrChrNFinds(s: string, ch: char, rest: string)
    requires ch !in s && '\0' !in s && ch != '\0'
    ensures StrChrN(s + [ch] + rest, ch) == Some(|s|)
  {
    var t := s + [ch] + rest;
    if s != [] {
      assert t[1..] == s[1..] + [ch] + rest;
      StrChrNFinds(s[1..], ch, rest);
    }
  }

  /** `s` without the white space at its end. */
  function TrimEnd(s: string): (r: string)
    ensures r <= s
    ensures r != [] ==> !IsSpace(r[|r| - 1])
    ensures forall i | |r| <= i < |s| :: IsSpace(s[i])
  {
    if s == [] || !IsSpace(s[|s| - 1]) then s else TrimEnd(s[..|s| - 1])
  }

  /** The length of the white space at the start of `s`. */
  function SpaceRun(s: string): (n: nat)
    ensures n <= |s|
    ensures forall i | 0 <= i < n :: IsSpace(s[i])
    ensures n < |s| ==> !IsSpace(s[n])
  {
    if s == [] || !IsSpace(s[0]) then 0 else 1 + SpaceRun(s[1..])
  }

  /** Nothing to trim at either end. */
  predicate Trimmed(s: string) {
    s != [] ==> !IsSpace(s[0]) && !IsSpace(s[|s| - 1])
  }

  // Number scanning

  function DigitValue(c: char): nat {
    if '0' <= c <= '9' then c as int - '0' as int
    else if 'a' <= c <= 'f' then c as int - 'a' as int + 10
    else if 'A' <= c <= 'F' then c as int - 'A' as int + 10
    else 99
  }

  predicate IsDigit(c: char, base: nat) {
    DigitValue(c) < base
  }

  /** The length of the longest digit prefix of `s`. */
  function DigitRun(s: string, base: nat): (n: nat)
    ensures n <= |s|
    ensures forall i | 0 <= i < n :: IsDigit(s[i], base)
    ensures n < |s| ==> !IsDigit(s[n], base)
  {
    if s == [] || !IsDigit(s[0], base) then 0 else 1 + DigitRun(s[1..], base)
  }

  function Value(s: string, base: nat): nat {
    if s == [] then 0
    else Value(s[..|s| - 1], base) * base + DigitValue(s[|s| - 1])
  }

  /** What strtoul reports: the value, and how many characters it used (0 when it converted nothing). */
  datatype Number = Number(value: Size, end: nat)

  predicate IsSign(c: char) {
    c == '-' || c == '+'
  }

  /** Where the digits start: after white space, one sign, and a "0x" that a hexadecimal digit follows. */
  function DigitsStart(s: string, base: nat): (k: nat)
    ensures k <= |s|
  {
    var i := SpaceRun(s);
    var j := if i < |s| && IsSign(s[i]) then i + 1 else i;
    if base == 16 && j + 2 < |s| && s[j] == '0' && Lower(s[j + 1]) == 'x' && IsDigit(s[j + 2], 16) then j + 2
    else j
  }

  /** strtoul for bases 10 and 16 with a 32-bit `unsigned long`. `sscanf("%u")` scans the same text as base 10. */
  function StrToUL(s: string, base: nat): (r: Number)
    ensures r.end <= |s|
  {
    var i, k := SpaceRun(s), DigitsStart(s, base);
    var n := DigitRun(s[k..], base);
    var v := Value(s[k..k + n], base);
    if n == 0 then Number(0, 0)
    else if v > ULONG_MAX then Number(ULONG_MAX, k + n)
    else if i < |s| && s[i] == '-' && v != 0 then Number(ULONG_MAX + 1 - v, k + n)
    else Number(v, k + n)
  }

  /** Positional notation: each further digit makes those in front of it count `base` times as much. */
  lemma {:induction false} ValueOfMore(s: string, c: char, base: nat)
    ensures Value(s + [c], base) == Value(s, base) * base + DigitValue(c) && Value("", base) == 0
  {
    assert (s + [c])[..|s + [c]| - 1] == s;
  }

  lemma {:induction false} DigitRunAll(s: string, base: nat)
    requires forall i | 0 <= i < |s| :: IsDigit(s[i], base)
    ensures DigitRun(s, base) == |s|
  {
    if s != [] { DigitRunAll(s[1..], base); }
  }

  /** A text of digits only is scanned whole, and means its positional value. */
  lemma {:induction false} StrToULDigits(s: string, base: nat)
    requires base == 10 || base == 16
    requires s != [] && forall i | 0 <= i < |s| :: IsDigit(s[i], base)
    requires Value(s, base) <= ULONG_MAX
    ensures StrToUL(s, base) == Number(Value(s, base), |s|)
  {
    hide SpaceRun, DigitRun, Value;
    assert IsDigit(s[0], base);
    assert SpaceRun(s) == 0;
    assert DigitsStart(s, base) == 0 by {
      assert 1 < |s| ==> IsDigit(s[1], base);
    }
    DigitRunAll(s, base);
    assert s[0..] == s && s[0..0 + |s|] == s;
  }

  lemma {:induction false} SpaceRunStops(spaces: string, rest: string)
    requires (forall c | c in spaces :: IsSpace(c)) && (rest == "" || !IsSpace(rest[0]))
    ensures SpaceRun(spaces + rest) == |spaces|
  {
    if spaces == "" {
      assert spaces + rest == rest;
    } else {
      assert spaces[0] in spaces && (spaces + rest)[1..] == spaces[1..] + rest;
      SpaceRunStops(spaces[1..], rest);
    }
  }

  lemma {:induction false} DigitRunStops(d: string, rest: string, base: nat)
    requires (forall i | 0 <= i < |d| :: IsDigit(d[i], base)) && (rest == "" || !IsDigit(rest[0], base))
    ensures DigitRun(d + rest, base) == |d|
  {
    if d == "" {
      assert d + rest == rest;
    } else {
      assert (d + rest)[1..] == d[1..] + rest;
      DigitRunStops(d[1..], rest, base);
    }
  }

  /** strtoul takes one sign and all the digits and stops there. Too large a number becomes the largest one, and a
      negative one wraps. */
  lemma {:induction false} StrToULText(sign: string, d: string, rest: string, base: nat)
    requires base == 10 || base == 16
    requires sign == "" || sign == "+" || sign == "-"
    requires d != "" && (forall i | 0 <= i < |d| :: IsDigit(d[i], base)) && (rest == "" || !IsDigit(rest[0], base))
    requires base == 16 && d == "0" && rest != "" ==> rest[0] != 'x' && rest[0] != 'X'
    ensures var v := Value(d, base);
            StrToUL(sign + d + rest, base)
            == Number(if v > 0xFFFF_FFFF then 0xFFFF_FFFF
                      else if sign == "-" && v != 0 then 0x1_0000_0000 - v
                      else v, |sign| + |d|)
  {
    hide *;
    var s := sign + d + rest;
    DigitsBehindSign(sign, d, rest, base);
    assert s[|sign|..] == d + rest;
    DigitRunStops(d, rest, base);
    assert s[|sign|..|sign| + |d|] == d;
    assert IsSign('-') && !IsDigit('-', base) by { SignsAreNoDigits(base); }
    assert sign == "" ==> s[0] == d[0];
    ScannedAt(s, base);
  }

  lemma {:induction false} SignsAreNoDigits(base: nat)
    requires base <= 16
    ensures IsSign('-') && !IsDigit('-', base)
  {
  }

  /** strtoul on a text that starts with its sign or its digits. */
  lemma {:induction false} ScannedAt(s: string, base: nat)
    requires SpaceRun(s) == 0
    ensures var k := DigitsStart(s, base);
            var n := DigitRun(s[k..], base);
            var v := Value(s[k..k + n], base);
            StrToUL(s, base) == (if n == 0 then Number(0, 0)
                                 else Number(if v > 0xFFFF_FFFF then 0xFFFF_FFFF
                                             else if s != "" && s[0] == '-' && v != 0 then 0x1_0000_0000 - v
                                             else v, k + n))
  {
    hide DigitsStart, DigitRun, Value;
  }

  lemma {:induction false} DigitsBehindSign(sign: string, d: string, rest: string, base: nat)
    requires base == 10 || base == 16
    requires sign == "" || sign == "+" || sign == "-"
    requires d != "" && (forall i | 0 <= i < |d| :: IsDigit(d[i], base))
    requires base == 16 && d == "0" && rest != "" ==> rest[0] != 'x' && rest[0] != 'X'
    ensures SpaceRun(sign + d + rest) == 0 && DigitsStart(sign + d + rest, base) == |sign|
  {
    var s := sign + d + rest;
    assert IsDigit(d[0], base) && s[|sign|] == d[0];
    assert |d| > 1 ==> IsDigit(d[1], base) && s[|sign| + 1] == d[1];
    assert |d| == 1 && rest != "" ==> s[|sign| + 1] == rest[0];
  }

  /** Without a digit in its place there is no number. */
  lemma {:induction false} StrToULNothing(sign: string, rest: string)
    requires sign == "" || sign == "+" || sign == "-"
    requires rest == "" || (!IsDigit(rest[0], 10) && !IsSpace(rest[0]) && (sign == "" ==> !IsSign(rest[0])))
    ensures StrToUL(sign + rest, 10) == Number(0, 0)
  {
    hide Value, DigitRun, SpaceRun;
    var s := sign + rest;
    SpaceRunStops("", s);
    assert "" + s == s && SpaceRun(s) == 0;
    assert s[|sign|..] == rest;
    DigitRunStops("", rest, 10);
    assert "" + rest == rest;
  }

  /** What strtoul takes consists of white space, signs, digits and an "x". */
  lemma {:induction false} NumberChars(s: string, i: nat)
    requires i < StrToUL(s, 16).end
    ensures IsSpace(s[i]) || IsSign(s[i]) || IsDigit(s[i], 16) || s[i] == 'x' || s[i] == 'X'
  {
    hide Value;
    var k := DigitsStart(s, 16);
    if k <= i {
      assert s[i] == s[k..][i - k];
    }
  }

  // Number printing

  function HexDigit(d: nat): (c: char)
    requires d < 16
    ensures DigitValue(c) == d && c == "0123456789abcdef"[d]
    ensures !IsSpace(c) && c != '\0' && c != ':'
  {
    if d < 10 then ('0' as int + d) as char else ('a' as int + d - 10) as char
  }

  function Pow16(k: nat): nat {
    if k == 0 then 1 else 16 * Pow16(k - 1)
  }

  /** `%.*x` for a number of at most `k` hexadecimal digits. */
  function HexText(n: nat, k: nat): (s: string)
    ensures |s| == k
    ensures forall i | 0 <= i < |s| :: IsDigit(s[i], 16)
  {
    if k == 0 then [] else HexText(n / 16, k - 1) + [HexDigit(n % 16)]
  }

  lemma {:induction false} HexTextValue(n: nat, k: nat)
    requires n < Pow16(k)
    ensures Value(HexText(n, k), 16) == n
  {
    if k != 0 {
      HexTextValue(n / 16, k - 1);
      var s := HexText(n, k);
      assert s[..|s| - 1] == HexText(n / 16, k - 1);
    }
  }

  /** `%d` / `%u` for a non-negative number. */
  function DecimalText(n: nat): (s: string)
    ensures s != []
    ensures forall i | 0 <= i < |s| :: IsDigit(s[i], 10)
  {
    if n < 10 then [HexDigit(n)] else DecimalText(n / 10) + [HexDigit(n % 10)]
  }

  lemma {:induction false} DecimalTextValue(n: nat)
    ensures Value(DecimalText(n), 10) == n
  {
    if n >= 10 {
      DecimalTextValue(n / 10);
      var s := DecimalText(n);
      assert s[..|s| - 1] == DecimalText(n / 10);
    }
  }

  /** What the printer writes, the scanner reads back. */
  lemma {:induction false} HexRoundTrip(n: nat, k: nat)
    requires 0 < k && n < Pow16(k) && n <= ULONG_MAX
    ensures StrToUL(HexText(n, k), 16) == Number(n, k)
  {
    HexTextValue(n, k);
    StrToULDigits(HexText(n, k), 16);
  }

  lemma {:induction false} DecimalRoundTrip(n: nat)
    requires n <= ULONG_MAX
    ensures StrToUL(DecimalText(n), 10) == Number(n, |DecimalText(n)|)
  {
    DecimalTextValue(n);
    StrToULDigits(DecimalText(n), 10);
  }
}
