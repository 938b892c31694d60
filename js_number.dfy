/** Number.parseInt(string, radix), as the byte encoders use it: ECMAScript's
    parseInt (section 19.2.5 of ECMA-262) on exact integers. */
module JsNumber {
  import opened Positional
  import opened Alphabet

  /** StrWhiteSpaceChar of ECMA-262: the WhiteSpace code points (tab, vertical
      tab, form feed, the byte order mark and the space separators) and the line
      terminators. */
  predicate IsWhitespace(c: char) {
    c in WhiteSpace || '\U{2000}' <= c <= '\U{200A}'
  }

  /** The white space code points outside the run U+2000 to U+200A. */
  const WhiteSpace: set<char> := {'\t', '\n', '\U{000B}', '\U{000C}', '\r', ' ', '\U{00A0}', '\U{1680}',
    '\U{2028}', '\U{2029}', '\U{202F}', '\U{205F}', '\U{3000}', '\U{FEFF}'}

  /** s without its leading white space. */
  function TrimStart(s: string): string {
    if s != [] && IsWhitespace(s[0]) then TrimStart(s[1..]) else s
  }

  /** What TrimStart removes is white space, and what it keeps is a suffix that
      does not start with white space. */
  lemma {:induction false} TrimStartFacts(s: string)
    ensures var r := TrimStart(s);
      |r| <= |s| && r == s[|s| - |r|..] &&
      (forall i :: 0 <= i < |s| - |r| ==> IsWhitespace(s[i])) &&
      (r == [] || !IsWhitespace(r[0]))
  {
    if s != [] && IsWhitespace(s[0]) {
      TrimStartFacts(s[1..]);
    }
  }

  /** ToInt32 on an integral number: the value modulo 2^32, read as a signed
      32-bit integer. */
  function ToInt32(x: int): (r: int)
    ensures -0x8000_0000 <= r < 0x8000_0000
    ensures (x - r) % 0x1_0000_0000 == 0
    ensures -0x8000_0000 <= x < 0x8000_0000 ==> r == x
  {
    var m := x % 0x1_0000_0000;
    if m >= 0x8000_0000 then m - 0x1_0000_0000 else m
  }

  /** A radix-R digit for parseInt: 0-9 and the first R - 10 letters, in either
      case. */
  predicate IsRadixDigit(c: char, radix: nat)
  {
    ('0' <= c <= '9' && c as int - '0' as int < radix)
    || ('a' <= c <= 'z' && c as int - 'a' as int + 10 < radix)
    || ('A' <= c <= 'Z' && c as int - 'A' as int + 10 < radix)
  }

  /** The value of a digit, in either case. */
  function DigitValue(c: char): int
  {
    if c <= '9' then c as int - '0' as int
    else if c <= 'Z' then c as int - 'A' as int + 10
    else c as int - 'a' as int + 10
  }

  /** A string made of radix digits only. */
  predicate IsRadixRun(s: string, radix: nat)
  {
    forall i :: 0 <= i < |s| ==> IsRadixDigit(s[i], radix)
  }

  /** The length of the longest prefix of s made of radix digits. */
  function DigitRun(s: string, radix: nat): (k: nat)
    requires 2 <= radix <= 36
    ensures k <= |s|
    ensures forall i :: 0 <= i < k ==> IsRadixDigit(s[i], radix)
    ensures k == |s| || !IsRadixDigit(s[k], radix)
  {
    if s != [] && IsRadixDigit(s[0], radix) then 1 + DigitRun(s[1..], radix) else 0
  }

  /** The value of a run of radix digits, read case-insensitively, most
      significant first. */
  function RunValue(z: string, radix: nat): nat
    requires 2 <= radix <= 36
    requires forall i :: 0 <= i < |z| ==> IsRadixDigit(z[i], radix)
    decreases |z|
  {
    if z == [] then 0
    else
      var init, d := RunValue(z[..|z| - 1], radix), DigitValue(z[|z| - 1]);
      assert IsRadixDigit(z[|z| - 1], radix);
      MulMonotone(0, init, radix);
      init * radix + d
  }

  /** A leading "0x" or "0X". */
  predicate HexPrefixed(s: string) {
    |s| >= 2 && s[0] == '0' && (s[1] == 'x' || s[1] == 'X')
  }

  /** parseInt(input, radix) on exact integers: skip leading white space, read an
      optional sign, take radix 0 as 10 and reject any other radix outside 2 to
      36, strip a "0x" prefix when the radix is 16 or 0 (the prefix selects 16),
      then read the longest run of radix digits. An empty run is NaN, here None. */
  function ParseInt(input: string, radix: int): (r: Option<int>)
    ensures r.Some? ==> ToInt32(radix) == 0 || 2 <= ToInt32(radix) <= 36
    ensures r.Some? && r.value < 0 ==> TrimStart(input) != [] && TrimStart(input)[0] == '-'
  {
    ParseSigned(TrimStart(input), ToInt32(radix))
  }

  /** parseInt after white space and radix conversion: the sign, then the
      magnitude; a negative sign negates the magnitude. */
  function ParseSigned(s: string, r: int): (m: Option<int>)
    ensures m.Some? ==> r == 0 || 2 <= r <= 36
    ensures m.Some? && m.value < 0 ==> s != [] && s[0] == '-'
    ensures m.Some? && s != [] && s[0] == '-' ==> m.value <= 0
  {
    var negative := s != [] && s[0] == '-';
    var unsigned := if s != [] && (s[0] == '-' || s[0] == '+') then s[1..] else s;
    if negative then Negated(ParseUnsigned(unsigned, r)) else ParseUnsigned(unsigned, r)
  }

  function Negated(m: Option<int>): Option<int>
  {
    match m
    case None => None
    case Some(v) => Some(-v)
  }

  /** parseInt's magnitude: radix check, "0x" prefix, then the digit run. */
  function ParseUnsigned(unsigned: string, r: int): (m: Option<int>)
    ensures m.Some? ==> (r == 0 || 2 <= r <= 36) && m.value >= 0
    ensures m.Some? ==> unsigned != [] && IsRadixDigit(unsigned[0], 36)
  {
    if r != 0 && (r < 2 || r > 36) then None
    else
      var prefixed := (r == 0 || r == 16) && HexPrefixed(unsigned);
      var base := if prefixed then 16 else if r == 0 then 10 else r;
      var body := if prefixed then unsigned[2..] else unsigned;
      var z := body[..DigitRun(body, base)];
      if z == [] then None else Some(RunValue(z, base))
  }

  /** A radix that ToInt32 maps outside 0 and 2 to 36 makes parseInt NaN; in
      particular every radix from 37 to 64. */
  lemma ParseIntRejectsRadix(input: string, radix: int)
    requires 36 < radix < 0x8000_0000 || radix == 1
    ensures ParseInt(input, radix).None?
  {
    assert ToInt32(radix) == radix;
  }

  /** A run of radix digits followed by a non-digit is read up to the non-digit. */
  lemma {:induction false} DigitRunStops(digits: string, rest: string, radix: nat)
    requires 2 <= radix <= 36
    requires forall i :: 0 <= i < |digits| ==> IsRadixDigit(digits[i], radix)
    requires rest == [] || !IsRadixDigit(rest[0], radix)
    ensures DigitRun(digits + rest, radix) == |digits|
  {
    if digits == [] {
      assert digits + rest == rest;
    } else {
      DigitRunStops(digits[1..], rest, radix);
      assert (digits + rest)[1..] == digits[1..] + rest;
    }
  }

  /** The magnitude is the value of the digit run, whatever follows it. */
  lemma ParseUnsignedReads(digits: string, rest: string, radix: nat)
    requires 2 <= radix <= 36
    requires digits != [] && forall i :: 0 <= i < |digits| ==> IsRadixDigit(digits[i], radix)
    requires rest == [] || !IsRadixDigit(rest[0], radix)
    requires radix == 16 && digits == "0" && rest != [] ==> rest[0] != 'x' && rest[0] != 'X'
    ensures ParseUnsigned(digits + rest, radix) == Some(RunValue(digits, radix))
  {
    var unsigned := digits + rest;
    if |digits| >= 2 {
      assert unsigned[1] == digits[1];
    }
    assert !(radix == 16 && HexPrefixed(unsigned));
    DigitRunStops(digits, rest, radix);
    assert unsigned[..DigitRun(unsigned, radix)] == digits;
  }

  /** A radix digit is neither white space nor a sign. */
  lemma RadixDigitIsPlain(c: char, radix: nat)
    requires 2 <= radix <= 36 && IsRadixDigit(c, radix)
    ensures !IsWhitespace(c) && c != '-' && c != '+'
  {
  }

  /** A sign in front of a radix digit is read as the sign. */
  lemma ParseSignedReads(sign: string, u: string, radix: nat)
    requires 2 <= radix <= 36
    requires sign == "" || sign == "+" || sign == "-"
    requires u != [] && IsRadixDigit(u[0], radix)
    ensures sign == "-" ==> ParseSigned(sign + u, radix) == Negated(ParseUnsigned(u, radix))
    ensures sign != "-" ==> ParseSigned(sign + u, radix) == ParseUnsigned(u, radix)
  {
    var t := sign + u;
    if sign == "" {
      assert t == u;
      RadixDigitIsPlain(u[0], radix);
    } else {
      assert t[0] == sign[0] && t[1..] == u;
    }
  }

  /** White space in front of a string is trimmed with the string's own. */
  lemma {:induction false} TrimStartPrefix(ws: string, t: string)
    requires forall i :: 0 <= i < |ws| ==> IsWhitespace(ws[i])
    ensures TrimStart(ws + t) == TrimStart(t)
  {
    if ws == [] {
      assert ws + t == t;
    } else {
      assert (ws + t)[0] == ws[0];
      assert (ws + t)[1..] == ws[1..] + t;
      TrimStartPrefix(ws[1..], t);
    }
  }

  /** Leading white space does not change what parseInt reads. */
  lemma ParseIntSkipsWhitespace(ws: string, t: string, radix: int)
    requires forall i :: 0 <= i < |ws| ==> IsWhitespace(ws[i])
    ensures ParseInt(ws + t, radix) == ParseInt(t, radix)
  {
    TrimStartPrefix(ws, t);
  }

  /** A string that starts with a sign or a radix digit has no white space to
      trim. */
  lemma TrimStartKeeps(sign: string, u: string, radix: nat)
    requires 2 <= radix <= 36
    requires sign == "" || sign == "+" || sign == "-"
    requires u != [] && IsRadixDigit(u[0], radix)
    ensures TrimStart(sign + u) == sign + u
  {
    var t := sign + u;
    RadixDigitIsPlain(u[0], radix);
    assert t[0] == if sign == "" then u[0] else sign[0];
  }

  /** After white space, a sign followed by a run of radix digits is read as
      the signed value of the run. */
  lemma ParseSignedReadsRun(sign: string, digits: string, rest: string, radix: nat)
    requires 2 <= radix <= 36
    requires sign == "" || sign == "+" || sign == "-"
    requires digits != [] && forall i :: 0 <= i < |digits| ==> IsRadixDigit(digits[i], radix)
    requires rest == [] || !IsRadixDigit(rest[0], radix)
    requires radix == 16 && digits == "0" && rest != [] ==> rest[0] != 'x' && rest[0] != 'X'
    ensures var m := Some(RunValue(digits, radix));
      ParseSigned(sign + (digits + rest), radix) == if sign == "-" then Negated(m) else m
  {
    var u := digits + rest;
    assert u[0] == digits[0];
    ParseUnsignedReads(digits, rest, radix);
    ParseSignedReads(sign, u, radix);
  }

  /** parseInt reads an optional sign and a non-empty run of radix digits, and
      ignores whatever follows the run. The one exception, "0" then 'x' in
      radix 16, is the prefix and is excluded. */
  lemma ParseIntReads(sign: string, digits: string, rest: string, radix: nat)
    requires 2 <= radix <= 36
    requires sign == "" || sign == "+" || sign == "-"
    requires digits != [] && forall i :: 0 <= i < |digits| ==> IsRadixDigit(digits[i], radix)
    requires rest == [] || !IsRadixDigit(rest[0], radix)
    requires radix == 16 && digits == "0" && rest != [] ==> rest[0] != 'x' && rest[0] != 'X'
    ensures var m := Some(RunValue(digits, radix));
      ParseInt(sign + digits + rest, radix) == if sign == "-" then Negated(m) else m
  {
    var u := digits + rest;
    assert sign + digits + rest == sign + u;
    assert u[0] == digits[0];
    TrimStartKeeps(sign, u, radix);
    assert ToInt32(radix) == radix;
    ParseSignedReadsRun(sign, digits, rest, radix);
  }

  /** Digits are read without regard to case: upper-casing a digit keeps it a
      digit of the same value. */
  lemma DigitUppercase(c: char, radix: nat)
    requires IsRadixDigit(c, radix)
    ensures IsRadixDigit(UpperAscii(c), radix) && DigitValue(UpperAscii(c)) == DigitValue(c)
  {
  }

  /** A run of digits upper-cased has the same value. */
  lemma {:induction false} RunValueUppercase(z: string, radix: nat)
    requires 2 <= radix <= 36 && IsRadixRun(z, radix)
    ensures IsRadixRun(Uppercased(z), radix)
    ensures RunValue(Uppercased(z), radix) == RunValue(z, radix)
    decreases |z|
  {
    var u := Uppercased(z);
    forall i | 0 <= i < |z|
      ensures IsRadixDigit(u[i], radix)
    {
      DigitUppercase(z[i], radix);
    }
    if z != [] {
      var n := |z| - 1;
      RunValueUppercase(z[..n], radix);
      assert u[..n] == Uppercased(z[..n]);
      DigitUppercase(z[n], radix);
    }
  }

  /** The symbols of alph are parseInt digits of radix |alph|, and each is the
      digit of its own position. */
  predicate DigitsInOrder(alph: string)
  {
    forall i :: 0 <= i < |alph| ==> IsRadixDigit(alph[i], |alph|) && DigitValue(alph[i]) == i
  }

  /** The first radix symbols of convertBase's alphabet, for a radix parseInt
      accepts, are such an alphabet. */
  lemma RangeInOrder(radix: nat)
    requires 2 <= radix <= 36
    ensures |Range[..radix]| == radix && DigitsInOrder(Range[..radix])
  {
    forall i | 0 <= i < radix
      ensures IsRadixDigit(Range[..radix][i], radix) && DigitValue(Range[..radix][i]) == i
    {
      RangeCode(i, Range[i]);
    }
  }

  /** So are the upper-case hexadecimal digits. */
  lemma HexDigitsInOrder()
    ensures |HexDigits| == 16 && DigitsInOrder(HexDigits)
  {
    HexDigitsFacts();
  }

  /** On such an alphabet, parseInt's digit test and digit values agree with
      the positions convertBase's fold uses. */
  lemma {:induction false} RunValueIsValueOf(s: string, alph: string)
    requires 2 <= |alph| <= 36 && DigitsInOrder(alph) && Over(s, alph)
    ensures IsRadixRun(s, |alph|)
    ensures RunValue(s, |alph|) == ValueOf(s, alph)
    decreases |s|
  {
    forall i | 0 <= i < |s|
      ensures IsRadixDigit(s[i], |alph|) && DigitValue(s[i]) == IndexOf(s[i], alph)
    {
      var k := IndexOf(s[i], alph);
      assert alph[k] == s[i];
    }
    if s != [] {
      RunValueIsValueOf(s[..|s| - 1], alph);
    }
  }

  /** A run of radix digits on its own, with or without a minus sign in front. */
  lemma ParseIntWholeRun(s: string, radix: nat)
    requires 2 <= radix <= 36
    requires s != [] && IsRadixRun(s, radix)
    ensures ParseInt(s, radix) == Some(RunValue(s, radix))
    ensures ParseInt("-" + s, radix) == Negated(Some(RunValue(s, radix)))
  {
    assert "" + s + "" == s;
    ParseIntReads("", s, "", radix);
    assert "-" + s + "" == "-" + s;
    ParseIntReads("-", s, "", radix);
  }

  /** On such an alphabet, parseInt reads a digit string as its value. */
  lemma ParseIntInOrder(s: string, alph: string)
    requires 2 <= |alph| <= 36 && DigitsInOrder(alph) && s != [] && Over(s, alph)
    ensures ParseInt(s, |alph|) == Some(ValueOf(s, alph))
    ensures ParseInt("-" + s, |alph|) == Negated(Some(ValueOf(s, alph)))
  {
    RunValueIsValueOf(s, alph);
    ParseIntWholeRun(s, |alph|);
  }

  /** On convertBase's own digits for radices up to 36 (lower case), parseInt
      reads the same value convertBase's fold does, with the sign applied. */
  lemma ParseIntAgreesWithFold(s: string, radix: nat)
    requires 2 <= radix <= 36 && s != [] && Over(s, Range[..radix])
    ensures ParseInt(s, radix) == Some(ValueOf(s, Range[..radix]))
    ensures ParseInt("-" + s, radix) == Negated(Some(ValueOf(s, Range[..radix])))
  {
    RangeInOrder(radix);
    ParseIntInOrder(s, Range[..radix]);
  }
}
