/** Positional notation over an arbitrary digit alphabet: the symbol at position
    k of the alphabet is the digit value k, and the radix is the alphabet's length.
    Both directions of the converter (reading a digit string, writing one by
    repeated division) and the byte renderings are built on these definitions. */
module Positional {

  datatype Option<T> = None | Some(value: T)

  datatype Result<T, E> = Success(value: T) | Failure(error: E)

  function Pow(b: nat, e: nat): (r: nat)
    ensures b > 0 ==> r > 0
  {
    if e == 0 then 1 else b * Pow(b, e - 1)
  }

  lemma PowStep(b: nat, e: nat)
    requires e >= 1
    ensures Pow(b, e) == Pow(b, e - 1) * b
  {
  }

  lemma {:induction false} PowAdd(b: nat, e1: nat, e2: nat)
    ensures Pow(b, e1 + e2) == Pow(b, e1) * Pow(b, e2)
  {
    if e2 > 0 {
      PowAdd(b, e1, e2 - 1);
      PowStep(b, e1 + e2);
      PowStep(b, e2);
      MulAssoc(Pow(b, e1), Pow(b, e2 - 1), b);
    }
  }

  /** (b^w)^k == b^(w k): lets a byte-wide radix power be read as a digit-wide one. */
  lemma {:induction false} PowPow(b: nat, w: nat, k: nat)
    ensures Pow(Pow(b, w), k) == Pow(b, w * k)
  {
    if k > 0 {
      PowPow(b, w, k - 1);
      PowAdd(b, w, w * (k - 1));
      assert w * k == w + w * (k - 1);
    }
  }

  lemma {:induction false} PowMonotone(b: nat, e1: nat, e2: nat)
    requires b >= 1 && e1 <= e2
    ensures Pow(b, e1) <= Pow(b, e2)
  {
    if e1 < e2 {
      PowMonotone(b, e1, e2 - 1);
      assert Pow(b, e2) == b * Pow(b, e2 - 1);
    }
  }

  lemma MulAssoc(x: int, y: int, z: int)
    ensures (x * y) * z == x * (y * z)
  {
  }

  lemma MulMonotone(a: int, b: int, m: nat)
    requires a <= b
    ensures a * m <= b * m
  {
  }

  lemma MulAddDistrib(x: int, y: int, z: int, w: int)
    ensures (x * y + z) * w == x * (y * w) + z * w
  {
  }

  lemma DivModParts(n: nat, b: nat)
    requires b >= 2
    ensures n == (n / b) * b + n % b && 0 <= n % b < b
    ensures n > 0 ==> n / b < n
  {
  }

  /** Euclidean division is determined by its quotient and remainder. */
  lemma DivModUnique(n: int, m: nat, q: int, r: int)
    requires m > 0 && n == q * m + r && 0 <= r < m
    ensures n / m == q && n % m == r
  {
    var q', r' := n / m, n % m;
    assert n == q' * m + r';
    if q' < q {
      MulMonotone(q' + 1, q, m);
      assert false;
    } else if q' > q {
      MulMonotone(q + 1, q', m);
      assert false;
    }
  }

  predicate Distinct(alph: string) {
    forall i, j :: 0 <= i < j < |alph| ==> alph[i] != alph[j]
  }

  /** A usable digit alphabet: at least two symbols, none repeated. */
  predicate IsAlphabet(alph: string) {
    |alph| >= 2 && Distinct(alph)
  }

  /** Every character of s is a digit of alph. */
  predicate Over(s: string, alph: string) {
    forall i :: 0 <= i < |s| ==> s[i] in alph
  }

  /** The first position of c in alph (Array.prototype.indexOf on a present element). */
  function IndexOf(c: char, alph: string): (k: nat)
    requires c in alph
    ensures k < |alph| && alph[k] == c
    ensures forall j :: 0 <= j < k ==> alph[j] != c
  {
    if alph[0] == c then 0 else 1 + IndexOf(c, alph[1..])
  }

  lemma IndexOfAt(alph: string, k: nat)
    requires Distinct(alph) && k < |alph|
    ensures IndexOf(alph[k], alph) == k
  {
  }

  /** The number a big-endian digit string denotes: the last digit has weight 1,
      each digit further left |alph| times the weight of its right neighbour. */
  function ValueOf(s: string, alph: string): nat
    requires Over(s, alph)
    decreases |s|
  {
    if s == [] then 0 else ValueOf(s[..|s| - 1], alph) * |alph| + IndexOf(s[|s| - 1], alph)
  }

  /** A digit string of length L denotes a number below |alph|^L. */
  lemma {:induction false} ValueUpperBound(s: string, alph: string)
    requires Over(s, alph)
    ensures ValueOf(s, alph) < Pow(|alph|, |s|)
    decreases |s|
  {
    if s != [] {
      var b := |alph|;
      var init := s[..|s| - 1];
      var vi, d, p := ValueOf(init, alph), IndexOf(s[|s| - 1], alph), Pow(b, |init|);
      assert ValueOf(s, alph) == vi * b + d;
      ValueUpperBound(init, alph);
      MulMonotone(vi, p - 1, b);
      MulAddDistrib(p, 1, -1, b);
      PowStep(b, |s|);
    }
  }

  /** The shortest digit string of n: empty for zero, otherwise the digits of
      n / |alph| followed by the digit n % |alph|. */
  function Digits(n: nat, alph: string): (d: string)
    requires |alph| >= 2
    ensures Over(d, alph)
    ensures n == 0 <==> d == []
    ensures Distinct(alph) && n > 0 ==> d[0] != alph[0]
    decreases n
  {
    if n == 0 then [] else Digits(n / |alph|, alph) + [alph[n % |alph|]]
  }

  /** Number.prototype.toString(radix) / BigInt.prototype.toString(radix) on a
      non-negative integer: the digits, or the single zero digit for zero. */
  function RadixString(n: nat, alph: string): (s: string)
    requires |alph| >= 2
    ensures Over(s, alph) && |s| >= 1
    ensures Distinct(alph) && s[0] == alph[0] ==> n == 0 && s == [alph[0]]
  {
    if n == 0 then [alph[0]] else Digits(n, alph)
  }

  /** String.prototype.padStart(len, [c]): never truncates. */
  function PadStart(s: string, len: int, c: char): (r: string)
    ensures |r| == if |s| >= len then |s| else len
    ensures r[|r| - |s|..] == s
    ensures forall i :: 0 <= i < |r| - |s| ==> r[i] == c
  {
    if |s| >= len then s else seq(len - |s|, _ => c) + s
  }

  /** Reading back the digits of n gives n. */
  lemma {:induction false} ValueOfDigits(n: nat, alph: string)
    requires IsAlphabet(alph)
    ensures ValueOf(Digits(n, alph), alph) == n
    decreases n
  {
    if n > 0 {
      var b := |alph|;
      var d := Digits(n, alph);
      DivModParts(n, b);
      ValueOfDigits(n / b, alph);
      assert d[..|d| - 1] == Digits(n / b, alph);
      IndexOfAt(alph, n % b);
      assert ValueOf(d, alph) == (n / b) * b + n % b;
    }
  }

  /** A digit string whose leading digit is not zero has a positive value. */
  lemma {:induction false} ValueLowerBound(s: string, alph: string)
    requires |alph| >= 1 && Over(s, alph) && s != [] && s[0] != alph[0]
    ensures ValueOf(s, alph) >= Pow(|alph|, |s| - 1) >= 1
    decreases |s|
  {
    var b := |alph|;
    var init := s[..|s| - 1];
    var vi, d := ValueOf(init, alph), IndexOf(s[|s| - 1], alph);
    assert ValueOf(s, alph) == vi * b + d;
    if |s| == 1 {
      assert d != 0;
    } else {
      assert init[0] == s[0];
      ValueLowerBound(init, alph);
      MulMonotone(Pow(b, |init| - 1), vi, b);
      PowStep(b, |s| - 1);
    }
  }

  /** Digit strings without leading zeros are exactly the strings Digits produces. */
  lemma {:induction false} DigitsOfValue(s: string, alph: string)
    requires IsAlphabet(alph) && Over(s, alph) && s != [] && s[0] != alph[0]
    ensures Digits(ValueOf(s, alph), alph) == s
    decreases |s|
  {
    var b := |alph|;
    var init := s[..|s| - 1];
    var v, vi, d := ValueOf(s, alph), ValueOf(init, alph), IndexOf(s[|s| - 1], alph);
    DivModUnique(v, b, vi, d);
    ValueLowerBound(s, alph);
    if |s| == 1 {
      assert vi == 0;
      assert Digits(v, alph) == Digits(0, alph) + [alph[d]];
    } else {
      DigitsOfValue(init, alph);
      assert s == init + [s[|s| - 1]];
    }
  }

  lemma {:induction false} ValueOfAppend(a: string, c: string, alph: string)
    requires Over(a, alph) && Over(c, alph)
    ensures Over(a + c, alph)
    ensures ValueOf(a + c, alph) == ValueOf(a, alph) * Pow(|alph|, |c|) + ValueOf(c, alph)
    decreases |c|
  {
    if c == [] {
      assert a + c == a;
    } else {
      var c' := c[..|c| - 1];
      assert (a + c)[..|a + c| - 1] == a + c';
      ValueOfAppend(a, c', alph);
      var b := |alph|;
      var va, vc, d, p := ValueOf(a, alph), ValueOf(c', alph), IndexOf(c[|c| - 1], alph), Pow(b, |c'|);
      assert ValueOf(a + c, alph) == (va * p + vc) * b + d;
      assert ValueOf(c, alph) == vc * b + d;
      PowStep(b, |c|);
      MulAddDistrib(va, p, vc, b);
    }
  }

  /** A digit string has a positive value exactly when one of its digits is not zero. */
  lemma ValuePositiveIff(s: string, alph: string)
    requires Over(s, alph) && |alph| >= 1
    ensures ValueOf(s, alph) > 0 <==> exists i :: 0 <= i < |s| && s[i] != alph[0]
  {
    if exists i :: 0 <= i < |s| && s[i] != alph[0] {
      var k :| 0 <= k < |s| && s[k] != alph[0];
      var head, tail := s[..k], s[k..];
      assert s == head + tail;
      ValueOfAppend(head, tail, alph);
      ValueLowerBound(tail, alph);
      MulMonotone(0, ValueOf(head, alph), Pow(|alph|, |tail|));
    } else {
      ValueOfZeros(s, alph);
    }
  }

  /** A string of zero digits has value zero. */
  lemma {:induction false} ValueOfZeros(s: string, alph: string)
    requires |alph| >= 1 && forall i :: 0 <= i < |s| ==> s[i] == alph[0]
    ensures Over(s, alph) && ValueOf(s, alph) == 0
    decreases |s|
  {
    if s != [] {
      ValueOfZeros(s[..|s| - 1], alph);
    }
  }

  /** Two digit strings of equal length and equal value are the same string. */
  lemma {:induction false} ValueOfInjective(s: string, t: string, alph: string)
    requires Over(s, alph) && Over(t, alph) && |s| == |t|
    requires ValueOf(s, alph) == ValueOf(t, alph)
    ensures s == t
    decreases |s|
  {
    if s != [] {
      var b := |alph|;
      var si, ti := s[..|s| - 1], t[..|t| - 1];
      var ds, dt := IndexOf(s[|s| - 1], alph), IndexOf(t[|t| - 1], alph);
      DivModUnique(ValueOf(s, alph), b, ValueOf(si, alph), ds);
      DivModUnique(ValueOf(t, alph), b, ValueOf(ti, alph), dt);
      ValueOfInjective(si, ti, alph);
      assert s == si + [s[|s| - 1]] && t == ti + [t[|t| - 1]];
    }
  }

  /** Left-padding with zero digits keeps the value. */
  lemma PaddedValue(d: string, width: int, alph: string)
    requires |alph| >= 1 && Over(d, alph)
    ensures Over(PadStart(d, width, alph[0]), alph)
    ensures ValueOf(PadStart(d, width, alph[0]), alph) == ValueOf(d, alph)
  {
    var s := PadStart(d, width, alph[0]);
    var zeros := s[..|s| - |d|];
    assert s == zeros + d;
    ValueOfZeros(zeros, alph);
    ValueOfAppend(zeros, d, alph);
  }

  /** RadixString(n) denotes n. */
  lemma RadixStringValue(n: nat, alph: string)
    requires IsAlphabet(alph)
    ensures ValueOf(RadixString(n, alph), alph) == n
  {
    if n == 0 {
      assert ValueOf([alph[0]], alph) == ValueOf([], alph) * |alph| + IndexOf(alph[0], alph);
    } else {
      ValueOfDigits(n, alph);
    }
  }

  /** RadixString(n) fits in width digits exactly when n < |alph|^width. */
  lemma RadixStringLength(n: nat, width: nat, alph: string)
    requires IsAlphabet(alph)
    ensures width >= 1 && n < Pow(|alph|, width) ==> |RadixString(n, alph)| <= width
    ensures n >= Pow(|alph|, width) ==> |RadixString(n, alph)| > width
  {
    if n > 0 {
      var b, d := |alph|, Digits(n, alph);
      ValueOfDigits(n, alph);
      ValueLowerBound(d, alph);
      ValueUpperBound(d, alph);
      if n < Pow(b, width) && |d| > width {
        PowMonotone(b, width, |d| - 1);
      }
      if n >= Pow(b, width) && |d| <= width {
        PowMonotone(b, |d|, width);
      }
    } else {
      assert Pow(|alph|, width) >= 1;
    }
  }

  /** padStart with the zero digit of RadixString(n): the result is a digit string
      of value n whose length is width, unless n needs more digits than that, in
      which case it is longer (nothing is cut off). */
  lemma PaddedRadixString(n: nat, width: nat, alph: string)
    requires IsAlphabet(alph)
    ensures var s := PadStart(RadixString(n, alph), width, alph[0]);
      Over(s, alph) && ValueOf(s, alph) == n &&
      (width >= 1 && n < Pow(|alph|, width) ==> |s| == width) &&
      (n >= Pow(|alph|, width) ==> |s| > width)
  {
    RadixStringValue(n, alph);
    PaddedValue(RadixString(n, alph), width, alph);
    RadixStringLength(n, width, alph);
  }
}
