/** convertBase: a signed digit string in one radix (2 to 64) rewritten in
    another, exactly, through an unbounded integer. The radix-b digits are the
    first b symbols of Range (fromRange and toRange below); the lemmas hold for
    any alphabet with the properties of DigitSet, which every such prefix has
    (RangeDigitSet). */
module BaseConverter {
  import opened Positional
  import opened Alphabet

  /** The error convertBase throws: `Invalid digit "<digit>" for base <base>.` */
  datatype ConvertError = InvalidDigit(digit: char, base: nat)

  /** The radices convertBase is called with. Radix 1 would never leave the
      emission loop and radix 0 would divide by zero. */
  predicate ValidBase(b: int) {
    2 <= b <= 64
  }

  /** What the proofs need of a digit alphabet: distinct symbols, at least two of
      them, '0' first, and no '-'. */
  predicate DigitSet(alph: string) {
    IsAlphabet(alph) && alph[0] == '0' && '-' !in alph
  }

  /** range.slice(0, b) is a digit set of b symbols for every radix from 2 to 64. */
  lemma RangeDigitSet(b: nat)
    requires ValidBase(b)
    ensures |Range[..b]| == b && DigitSet(Range[..b])
  {
    PrefixIsAlphabet(b);
    InPrefix('-', b);
  }

  /** The number of '-' characters value starts with. */
  function MinusCount(s: string): (k: nat)
    ensures k <= |s|
    ensures forall i :: 0 <= i < k ==> s[i] == '-'
    ensures k == |s| || s[k] != '-'
  {
    if |s| > 0 && s[0] == '-' then 1 + MinusCount(s[1..]) else 0
  }

  /** Strips the leading '-' characters one at a time, flipping the sign for each:
      what is left is value without its leading minus run, and the sign is
      negative exactly when that run has odd length. */
  method StripMinus(value: string) returns (rest: string, negate: bool)
    ensures rest == value[MinusCount(value)..]
    ensures negate <==> MinusCount(value) % 2 == 1
  {
    rest, negate := value, false;
    ghost var stripped: nat := 0;
    while |rest| > 0 && rest[0] == '-'
      invariant stripped <= |value| && rest == value[stripped..]
      invariant forall i :: 0 <= i < stripped ==> value[i] == '-'
      invariant negate <==> stripped % 2 == 1
      decreases |rest|
    {
      rest := rest[1..];
      negate := !negate;
      stripped := stripped + 1;
    }
    MinusCountAt(value, stripped);
  }

  /** A run of k minus signs not followed by another is the leading minus run. */
  lemma {:induction false} MinusCountAt(s: string, k: nat)
    requires k <= |s|
    requires forall i :: 0 <= i < k ==> s[i] == '-'
    requires k == |s| || s[k] != '-'
    ensures MinusCount(s) == k
  {
    if k > 0 {
      MinusCountAt(s[1..], k - 1);
    }
  }

  /** value.split('').reverse() */
  function Reverse(s: string): (r: string)
    ensures |r| == |s|
    ensures forall i :: 0 <= i < |s| ==> r[i] == s[|s| - 1 - i]
  {
    if s == [] then [] else [s[|s| - 1]] + Reverse(s[..|s| - 1])
  }

  /** The reduce over the reversed digit string, with fromBase = |fromRange|: entry
      `index` must be in fromRange, and adds its position there times
      fromBase^index to the carry. The first entry that is not a digit throws; in
      the original string that is the rightmost offending character. */
  function Accumulate(reversed: string, fromRange: string, index: nat, carry: int): (r: Result<int, ConvertError>)
    requires index <= |reversed|
    ensures r.Failure? ==> r.error.base == |fromRange| && r.error.digit !in fromRange
    decreases |reversed| - index
  {
    if index == |reversed| then Success(carry)
    else if reversed[index] !in fromRange then Failure(InvalidDigit(reversed[index], |fromRange|))
    else
      Accumulate(reversed, fromRange, index + 1,
                 carry + IndexOf(reversed[index], fromRange) * Pow(|fromRange|, index))
  }

  /** The position of the rightmost character of s that is not a digit of alph. */
  function LastInvalid(s: string, alph: string): (r: Option<nat>)
    ensures r.None? <==> Over(s, alph)
    ensures r.Some? ==> r.value < |s| && s[r.value] !in alph
    ensures r.Some? ==> forall i :: r.value < i < |s| ==> s[i] in alph
    decreases |s|
  {
    if s == [] then None
    else if s[|s| - 1] !in alph then Some(|s| - 1)
    else LastInvalid(s[..|s| - 1], alph)
  }

  /** The reduce computes the positional value of the digit string, or throws for
      its rightmost non-digit. Stated from entry i of the reversed string on: the
      entries still to come are the first |s| - i characters of s. */
  lemma {:induction false} AccumulateFolds(s: string, fromRange: string, i: nat, carry: int)
    requires i <= |s|
    ensures var p := s[..|s| - i];
      Accumulate(Reverse(s), fromRange, i, carry) ==
        match LastInvalid(p, fromRange)
        case Some(j) => Failure(InvalidDigit(s[j], |fromRange|))
        case None => Success(carry + ValueOf(p, fromRange) * Pow(|fromRange|, i))
    decreases |s| - i
  {
    var p := s[..|s| - i];
    var reversed := Reverse(s);
    if i == |s| {
      assert p == [];
    } else {
      var c, p' := s[|s| - 1 - i], s[..|s| - 1 - i];
      assert reversed[i] == c;
      assert p == p' + [c];
      assert p[..|p| - 1] == p';
      if c !in fromRange {
        assert LastInvalid(p, fromRange) == Some(|s| - 1 - i);
      } else {
        var d, w := IndexOf(c, fromRange), Pow(|fromRange|, i);
        assert LastInvalid(p, fromRange) == LastInvalid(p', fromRange);
        AccumulateFolds(s, fromRange, i + 1, carry + d * w);
        if Over(p', fromRange) {
          FoldStep(p', c, fromRange, i, carry);
        }
      }
    }
  }

  /** One step of the reduce: adding digit c at weight fromBase^i to the value of
      the digits left of it, at the next weight, is adding the value of both. */
  lemma FoldStep(p: string, c: char, fromRange: string, i: nat, carry: int)
    requires c in fromRange && Over(p, fromRange)
    ensures Over(p + [c], fromRange)
    ensures carry + IndexOf(c, fromRange) * Pow(|fromRange|, i) + ValueOf(p, fromRange) * Pow(|fromRange|, i + 1) ==
            carry + ValueOf(p + [c], fromRange) * Pow(|fromRange|, i)
  {
    var b, d, w, v := |fromRange|, IndexOf(c, fromRange), Pow(|fromRange|, i), ValueOf(p, fromRange);
    assert (p + [c])[..|p|] == p;
    assert ValueOf(p + [c], fromRange) == v * b + d;
    PowStep(b, i + 1);
    MulAddDistrib(v, b, d, w);
  }

  /** The repeated-division loop: each step puts the digit for decValue % toBase
      in front of the digits emitted so far and divides decValue by toBase. The
      result is the shortest toRange digit string of decValue, and empty when
      decValue is not positive. */
  method Emit(decValue: int, toRange: string) returns (newValue: string)
    requires |toRange| >= 2
    ensures newValue == if decValue > 0 then Digits(decValue, toRange) else ""
  {
    var toBase := |toRange|;
    var dec := decValue;
    newValue := "";
    while dec > 0
      invariant decValue <= 0 ==> dec == decValue && newValue == ""
      invariant decValue > 0 ==> dec >= 0 && Digits(decValue, toRange) == Digits(dec, toRange) + newValue
      decreases dec
    {
      var digit := dec % toBase;
      DivModParts(dec, toBase);
      DivModUnique(dec - digit, toBase, dec / toBase, 0);
      ghost var rest := Digits(dec / toBase, toRange);
      assert Digits(dec, toRange) == rest + [toRange[digit]];
      assert (rest + [toRange[digit]]) + newValue == rest + ([toRange[digit]] + newValue);
      newValue := [toRange[digit]] + newValue;
      dec := (dec - digit) / toBase;
    }
  }

  /** The output for a sign and a magnitude: the toRange digits of the magnitude,
      '-' in front when negative, and "0" in place of an empty string. */
  function Render(negative: bool, magnitude: nat, toRange: string): (r: string)
    requires |toRange| >= 2
    ensures r != ""
    ensures negative ==> r[0] == '-'
    ensures !negative && '-' !in toRange ==> r[0] != '-'
    ensures magnitude == 0 ==> r == (if negative then "-" else "0")
  {
    var digits := Digits(magnitude, toRange);
    var signed := if negative then "-" + digits else digits;
    if signed == "" then "0" else signed
  }

  /** What convertBase returns or throws, given the digits of the two radices.
      Everything after the leading minus run must be a digit of fromRange, else
      the rightmost non-digit is reported with the radix; the result is never
      empty. */
  function Converted(value: string, fromRange: string, toRange: string): (r: Result<string, ConvertError>)
    requires |toRange| >= 2
    ensures r.Failure? <==> !Over(value[MinusCount(value)..], fromRange)
    ensures r.Failure? ==> r.error.base == |fromRange|
    ensures r.Failure? ==>
      exists j ::
        MinusCount(value) <= j < |value| && value[j] == r.error.digit && value[j] !in fromRange &&
        forall i :: j < i < |value| ==> value[i] in fromRange
    ensures r.Success? ==> r.value != ""
  {
    var k := MinusCount(value);
    var digits := value[k..];
    match LastInvalid(digits, fromRange)
    case Some(j) =>
      assert digits[j] == value[k + j];
      assert forall i :: k + j < i < |value| ==> value[i] == digits[i - k];
      Failure(InvalidDigit(digits[j], |fromRange|))
    case None => Success(Render(k % 2 == 1, ValueOf(digits, fromRange), toRange))
  }

  /** convertBase: slice the two digit ranges off Range, then convert. */
  method ConvertBase(value: string, fromBase: nat, toBase: nat) returns (r: Result<string, ConvertError>)
    requires ValidBase(fromBase) && ValidBase(toBase)
    ensures r == Converted(value, Range[..fromBase], Range[..toBase])
    ensures r.Failure? ==> r.error.base == fromBase
  {
    RangeDigitSet(fromBase);
    var fromRange, toRange := Range[..fromBase], Range[..toBase];
    r := ConvertWith(value, fromRange, toRange);
  }

  /** The body of convertBase once the digit ranges are sliced: strip the minus
      run, fold the digits into an unbounded integer, emit its digits in the new
      radix, then put the sign back. */
  method ConvertWith(value: string, fromRange: string, toRange: string) returns (r: Result<string, ConvertError>)
    requires |toRange| >= 2
    ensures r == Converted(value, fromRange, toRange)
  {
    var digits, negate := StripMinus(value);
    var decValue := Accumulate(Reverse(digits), fromRange, 0, 0);
    AccumulateFolds(digits, fromRange, 0, 0);
    assert digits[..|digits| - 0] == digits;
    if decValue.Failure? {
      return Failure(decValue.error);
    }
    ghost var magnitude := ValueOf(digits, fromRange);
    assert LastInvalid(digits, fromRange).None? && decValue.value == magnitude;
    var newValue := Emit(decValue.value, toRange);
    if negate {
      newValue := "-" + newValue;
    }
    r := Success(if newValue == "" then "0" else newValue);
    assert r == Success(Render(negate, magnitude, toRange));
  }

  /** An upper-case letter is not a digit of any radix up to 36. */
  lemma ConvertRejectsUppercase(value: string, fromBase: nat, toBase: nat, j: nat)
    requires ValidBase(fromBase) && fromBase <= 36 && ValidBase(toBase)
    requires MinusCount(value) <= j < |value| && 'A' <= value[j] <= 'Z'
    ensures Converted(value, Range[..fromBase], Range[..toBase]).Failure?
  {
    var k := MinusCount(value);
    InPrefix(value[j], fromBase);
    assert value[k..][j - k] == value[j];
  }

  /** A '-' after the leading minus run is never a digit. */
  lemma ConvertRejectsInteriorMinus(value: string, fromRange: string, toRange: string, j: nat)
    requires DigitSet(fromRange) && |toRange| >= 2
    requires MinusCount(value) <= j < |value| && value[j] == '-'
    ensures j > MinusCount(value)
    ensures Converted(value, fromRange, toRange).Failure?
  {
    var k := MinusCount(value);
    assert value[k..][j - k] == value[j];
  }

  /** A zero magnitude comes out as "0" after an even minus run (none included)
      and as "-" after an odd one. */
  lemma ConvertZero(value: string, fromRange: string, toRange: string)
    requires DigitSet(fromRange) && |toRange| >= 2
    requires forall i :: MinusCount(value) <= i < |value| ==> value[i] == '0'
    ensures Converted(value, fromRange, toRange) == Success(if MinusCount(value) % 2 == 1 then "-" else "0")
  {
    var k := MinusCount(value);
    var digits := value[k..];
    ValueOfZeros(digits, fromRange);
    assert LastInvalid(digits, fromRange).None?;
    assert Digits(0, toRange) == [];
    assert Render(k % 2 == 1, 0, toRange) == if k % 2 == 1 then "-" else "0";
  }

  /** A nonzero magnitude comes out as its toRange digits, without leading zeros,
      behind a single '-' exactly when the minus run was odd; read back in toRange
      they give the magnitude read in fromRange. */
  lemma ConvertNonzero(value: string, fromRange: string, toRange: string)
    requires DigitSet(fromRange) && DigitSet(toRange)
    requires Over(value[MinusCount(value)..], fromRange)
    requires exists i :: MinusCount(value) <= i < |value| && value[i] != '0'
    ensures Converted(value, fromRange, toRange).Success?
    ensures
      var out, negative := Converted(value, fromRange, toRange).value, MinusCount(value) % 2 == 1;
      var digits := if negative then out[1..] else out;
      (negative <==> out[0] == '-') && digits != [] &&
      Over(digits, toRange) && digits[0] != '0' &&
      ValueOf(digits, toRange) == ValueOf(value[MinusCount(value)..], fromRange)
  {
    var k := MinusCount(value);
    var digits := value[k..];
    var i :| k <= i < |value| && value[i] != '0';
    assert digits[i - k] != fromRange[0];
    ValuePositiveIff(digits, fromRange);
    var v := ValueOf(digits, fromRange);
    assert Converted(value, fromRange, toRange) == Success(Render(k % 2 == 1, v, toRange));
    RenderPositive(k % 2 == 1, v, toRange);
    ValueOfDigits(v, toRange);
  }

  /** A positive magnitude renders as its digits, with '-' in front iff negative. */
  lemma RenderPositive(negative: bool, v: nat, toRange: string)
    requires DigitSet(toRange) && v > 0
    ensures var out := Render(negative, v, toRange);
      var digits := if negative then out[1..] else out;
      (negative <==> out[0] == '-') && digits == Digits(v, toRange) && digits != [] && digits[0] != '0'
  {
    var d := Digits(v, toRange);
    assert d[0] in toRange;
    assert Render(negative, v, toRange) == if negative then "-" + d else d;
    if negative {
      assert ("-" + d)[1..] == d;
    }
  }

  /** Converting a rendered sign and magnitude reads the same sign and magnitude
      back, whatever the two alphabets. */
  lemma RenderReadsBack(negative: bool, magnitude: nat, b2: string, b1: string)
    requires DigitSet(b1) && DigitSet(b2)
    ensures Converted(Render(negative, magnitude, b2), b2, b1) == Success(Render(negative, magnitude, b1))
  {
    var digits := Digits(magnitude, b2);
    var s := Render(negative, magnitude, b2);
    if magnitude == 0 {
      assert digits == [];
      assert Digits(0, b1) == [];
      if negative {
        assert s == "-";
        assert MinusCount(s[1..]) == 0;
        assert s[1..] == [];
      } else {
        assert s == "0" && MinusCount(s) == 0;
        assert s[0..] == s;
        ValueOfZeros(s, b2);
      }
    } else {
      ValueOfDigits(magnitude, b2);
      assert digits[0] in b2;
      if negative {
        assert s == "-" + digits && s[1] == digits[0];
        assert MinusCount(s[1..]) == 0;
        assert s[1..] == digits;
      } else {
        assert s[0..] == digits;
      }
    }
  }

  /** Converting A -> B -> A gives what converting A -> A gives: the input's
      canonical spelling (leading zeros dropped, at most one '-'). */
  lemma ConvertRoundTrip(value: string, a: string, b: string)
    requires DigitSet(a) && DigitSet(b)
    requires Converted(value, a, b).Success?
    ensures Converted(Converted(value, a, b).value, b, a) == Converted(value, a, a)
  {
    var k := MinusCount(value);
    RenderReadsBack(k % 2 == 1, ValueOf(value[k..], a), b, a);
  }

  /** The canonical spellings over alph: "0", "-", and digit strings without a
      leading zero, with or without one '-' in front. */
  predicate Canonical(s: string, alph: string) {
    var digits := if |s| > 0 && s[0] == '-' then s[1..] else s;
    s == "0" || s == "-" || (digits != [] && Over(digits, alph) && digits[0] != '0')
  }

  /** Every successful conversion is spelled canonically. */
  lemma ConvertIsCanonical(value: string, fromRange: string, toRange: string)
    requires DigitSet(toRange)
    requires Converted(value, fromRange, toRange).Success?
    ensures Canonical(Converted(value, fromRange, toRange).value, toRange)
  {
    var k := MinusCount(value);
    var d := Digits(ValueOf(value[k..], fromRange), toRange);
    if k % 2 == 1 && d != [] {
      assert ("-" + d)[1..] == d;
    }
  }

  /** Converting a canonical spelling to its own radix leaves it unchanged. */
  lemma CanonicalIsFixed(s: string, alph: string)
    requires DigitSet(alph)
    requires Canonical(s, alph)
    ensures Converted(s, alph, alph) == Success(s)
  {
    if s == "0" {
      RenderReadsBack(false, 0, alph, alph);
      assert Digits(0, alph) == [];
    } else if s == "-" {
      RenderReadsBack(true, 0, alph, alph);
      assert Digits(0, alph) == [];
      assert Render(true, 0, alph) == "-";
    } else {
      var negative := s[0] == '-';
      var digits := if negative then s[1..] else s;
      DigitsOfValue(digits, alph);
      RenderReadsBack(negative, ValueOf(digits, alph), alph, alph);
      if negative {
        assert s == "-" + digits;
      }
    }
  }
}
