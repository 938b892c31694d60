/** Fixed-width two's-complement words: the low bytes of an unbounded integer,
    most significant first, each written as a fixed number of digits. Generic in
    the digit alphabet, so one set of lemmas serves the hexadecimal and the
    binary rendering. */
module TwosComplement {
  import opened Positional

  /** BigInt `n >> BigInt(k)`: an arithmetic shift right by k bits, one bit at a
      time; each step halves, rounding towards minus infinity, for either sign. */
  function ShiftRight(n: int, k: nat): (r: int)
    ensures 0 <= n ==> 0 <= r <= n
    ensures n < 0 ==> n <= r < 0
  {
    if k == 0 then n else ShiftRight(n, k - 1) / 2
  }

  /** `(n >> BigInt(i * 8)) & 0xFFn`: byte i of n's two's-complement form, counted
      from the least significant. The mask keeps the low eight bits, which for a
      negative n is the non-negative remainder. */
  function ByteAt(n: int, i: nat): (b: nat)
    ensures b < 256
  {
    ShiftRight(n, i * 8) % 256
  }

  /** Dividing by p and then by m is dividing by p * m, and the remainder modulo
      p * m is assembled from the two remainders. */
  lemma DivSplit(n: int, p: nat, m: nat)
    requires p > 0 && m > 0
    ensures n / (p * m) == (n / p) / m
    ensures n % (p * m) == ((n / p) % m) * p + n % p
  {
    var q, r := n / p, n % p;
    var q2, d := q / m, q % m;
    assert n == q * p + r;
    assert q == q2 * m + d;
    MulAddDistrib(q2, m, d, p);
    MulMonotone(d, m - 1, p);
    MulAddDistrib(m, 1, -1, p);
    assert (q2 * m) * p == q2 * (p * m);
    DivModUnique(n, p * m, q2, d * p + r);
  }

  /** Shifting right by k bits is division by 2^k, rounded towards minus infinity. */
  lemma {:induction false} ShiftRightDiv(n: int, k: nat)
    ensures ShiftRight(n, k) == n / Pow(2, k)
  {
    if k > 0 {
      ShiftRightDiv(n, k - 1);
      DivSplit(n, Pow(2, k - 1), 2);
      PowStep(2, k);
    }
  }

  /** A byte is the base-256 digit of n at position i. */
  lemma ByteAtPow(n: int, i: nat)
    ensures ByteAt(n, i) == (n / Pow(256, i)) % 256
  {
    ShiftRightDiv(n, i * 8);
    PowPow(2, 8, i);
    assert Pow(2, 8) == 256;
  }

  /** Taking one more base-256 digit: n mod 256^(k+1) is the digit at position k
      times 256^k plus n mod 256^k. */
  lemma ModSplit(n: int, p: nat)
    requires p > 0
    ensures n % (p * 256) == ((n / p) % 256) * p + n % p
  {
    DivSplit(n, p, 256);
  }

  /** One byte: its radix string in alph, left-padded with alph's zero digit to
      width digits. */
  function RenderByte(b: nat, alph: string, width: nat): string
    requires |alph| >= 2
  {
    PadStart(RadixString(b, alph), width, alph[0])
  }

  /** When width digits of alph hold exactly one byte, a byte renders as exactly
      width digits of alph that denote it. */
  lemma RenderByteFacts(b: nat, alph: string, width: nat)
    requires IsAlphabet(alph) && width >= 1 && Pow(|alph|, width) == 256 && b < 256
    ensures |RenderByte(b, alph, width)| == width
    ensures Over(RenderByte(b, alph, width), alph)
    ensures ValueOf(RenderByte(b, alph, width), alph) == b
  {
    PaddedRadixString(b, width, alph);
  }

  /** render writes every byte as exactly width digits of alph denoting it: a
      fixed-width digit rendering of bytes. */
  predicate Renders(render: nat -> string, alph: string, width: nat) {
    FixedWidth(render, alph, width) &&
    forall b: nat :: b < 256 ==> Over(render(b), alph) && ValueOf(render(b), alph) == b
  }

  /** render writes every byte as exactly width digits of alph. */
  predicate FixedWidth(render: nat -> string, alph: string, width: nat) {
    forall b: nat :: b < 256 ==> |render(b)| == width && Over(render(b), alph)
  }

  /** Bytes 0 to k - 1 of n, most significant first. */
  function Bytes(n: int, k: nat): (bs: seq<nat>)
    ensures |bs| == k
    ensures forall j :: 0 <= j < k ==> bs[j] == ByteAt(n, k - 1 - j)
  {
    if k == 0 then [] else [ByteAt(n, k - 1)] + Bytes(n, k - 1)
  }

  lemma BytesAt(n: int, k: nat, i: nat)
    requires i < k
    ensures Bytes(n, k)[k - 1 - i] == ByteAt(n, i)
  {
    var j := k - 1 - i;
    assert k - 1 - j == i;
  }

  /** The number a big-endian sequence of base-256 digits denotes. */
  function Base256(bs: seq<nat>): nat {
    if bs == [] then 0 else bs[0] * Pow(256, |bs| - 1) + Base256(bs[1..])
  }

  /** The k low bytes of n denote n modulo 256^k. */
  lemma {:induction false} BytesValue(n: int, k: nat)
    ensures Base256(Bytes(n, k)) == n % Pow(256, k)
  {
    if k > 0 {
      var bs, p := Bytes(n, k), Pow(256, k - 1);
      BytesValue(n, k - 1);
      assert bs[1..] == Bytes(n, k - 1);
      ByteAtPow(n, k - 1);
      ModSplit(n, p);
      PowStep(256, k);
    }
  }

  /** The strings of ss, one after the other. */
  function Flatten(ss: seq<string>): string {
    if ss == [] then [] else ss[0] + Flatten(ss[1..])
  }

  lemma {:induction false} FlattenAppend(xs: seq<string>, ys: seq<string>)
    ensures Flatten(xs + ys) == Flatten(xs) + Flatten(ys)
  {
    if xs == [] {
      assert xs + ys == ys;
    } else {
      var head, tail := xs[0], Flatten(xs[1..]);
      assert (xs + ys)[0] == head;
      assert (xs + ys)[1..] == xs[1..] + ys;
      FlattenAppend(xs[1..], ys);
      assert Flatten(xs + ys) == head + (tail + Flatten(ys));
      assert head + (tail + Flatten(ys)) == (head + tail) + Flatten(ys);
    }
  }

  /** Every string of ss is a digit string of alph with exactly width digits. */
  predicate Uniform(ss: seq<string>, alph: string, width: nat) {
    forall j :: 0 <= j < |ss| ==> |ss[j]| == width && Over(ss[j], alph)
  }

  lemma {:induction false} FlattenShape(ss: seq<string>, alph: string, width: nat)
    requires Uniform(ss, alph, width)
    ensures |Flatten(ss)| == width * |ss|
    ensures Over(Flatten(ss), alph)
  {
    if ss != [] {
      FlattenShape(ss[1..], alph, width);
      WordLength(width, |ss|);
    }
  }

  /** Flattened digit strings of one byte each denote the bytes they spell, read in
      base 256. */
  lemma {:induction false} FlattenValue(ss: seq<string>, bs: seq<nat>, alph: string, width: nat)
    requires Uniform(ss, alph, width) && Pow(|alph|, width) == 256 && |ss| == |bs|
    requires forall j :: 0 <= j < |ss| ==> ValueOf(ss[j], alph) == bs[j]
    ensures Over(Flatten(ss), alph)
    ensures ValueOf(Flatten(ss), alph) == Base256(bs)
  {
    FlattenShape(ss, alph, width);
    if ss != [] {
      var tail := Flatten(ss[1..]);
      FlattenValue(ss[1..], bs[1..], alph, width);
      FlattenShape(ss[1..], alph, width);
      ValueOfAppend(ss[0], tail, alph);
      PowPow(|alph|, width, |ss| - 1);
      assert Pow(|alph|, |tail|) == Pow(256, |bs| - 1);
    }
  }

  /** Digits width*j up to width*j + width of the flattened strings are string j. */
  lemma FlattenAt(ss: seq<string>, alph: string, width: nat, j: nat)
    requires Uniform(ss, alph, width) && j < |ss|
    ensures width * j + width <= |Flatten(ss)|
    ensures Flatten(ss)[width * j..width * j + width] == ss[j]
  {
    var pre, post := Flatten(ss[..j]), Flatten(ss[j + 1..]);
    assert ss == ss[..j] + ([ss[j]] + ss[j + 1..]);
    FlattenAppend(ss[..j], [ss[j]] + ss[j + 1..]);
    FlattenAppend([ss[j]], ss[j + 1..]);
    assert Flatten([ss[j]]) == ss[j] + Flatten([]);
    FlattenShape(ss[..j], alph, width);
    FlattenShape(ss, alph, width);
    assert Flatten(ss) == pre + ss[j] + post;
    assert (pre + ss[j] + post)[|pre|..|pre| + |ss[j]|] == ss[j];
  }

  lemma WordLength(width: nat, k: nat)
    requires k >= 1
    ensures width * k == width + width * (k - 1)
  {
  }

  /** Each byte of bs rendered by render, in order. */
  function Renderings(bs: seq<nat>, render: nat -> string): (ss: seq<string>)
    ensures |ss| == |bs|
    ensures forall j :: 0 <= j < |bs| ==> ss[j] == render(bs[j])
  {
    if bs == [] then [] else [render(bs[0])] + Renderings(bs[1..], render)
  }

  /** The k low bytes of n, most significant first, each written by render: the
      two's-complement word of n in k bytes. */
  function Word(n: int, k: nat, render: nat -> string): string {
    Flatten(Renderings(Bytes(n, k), render))
  }

  /** Extending a word by one byte puts the rendering of byte k in front. */
  lemma WordStep(n: int, k: nat, render: nat -> string)
    ensures Word(n, k + 1, render) == render(ByteAt(n, k)) + Word(n, k, render)
  {
    var ss := Renderings(Bytes(n, k + 1), render);
    assert ss[1..] == Renderings(Bytes(n, k), render);
  }

  /** A word has width digits per byte and denotes n modulo 256^k: it is the
      two's-complement encoding of n in k bytes, wrapped. */
  lemma WordValue(n: int, k: nat, render: nat -> string, alph: string, width: nat)
    requires Renders(render, alph, width) && Pow(|alph|, width) == 256
    ensures |Word(n, k, render)| == width * k
    ensures Over(Word(n, k, render), alph)
    ensures ValueOf(Word(n, k, render), alph) == n % Pow(256, k)
  {
    var bs := Bytes(n, k);
    var ss := Renderings(bs, render);
    FlattenShape(ss, alph, width);
    FlattenValue(ss, bs, alph, width);
    BytesValue(n, k);
  }

  /** A fixed-width rendering writes every byte of a word with the same width. */
  lemma WordUniform(n: int, k: nat, render: nat -> string, alph: string, width: nat)
    requires FixedWidth(render, alph, width)
    ensures Uniform(Renderings(Bytes(n, k), render), alph, width)
  {
    var bs := Bytes(n, k);
    var ss := Renderings(bs, render);
    forall j | 0 <= j < |ss|
      ensures |ss[j]| == width && Over(ss[j], alph)
    {
      assert ss[j] == render(bs[j]) && bs[j] < 256;
    }
  }

  /** Digits width*(k-1-i) up to width*(k-i) of a word are the rendering of byte i. */
  lemma WordByte(n: int, k: nat, render: nat -> string, alph: string, width: nat, i: nat)
    requires FixedWidth(render, alph, width) && i < k
    ensures 0 <= width * (k - 1 - i) && width * (k - 1 - i) + width <= |Word(n, k, render)|
    ensures Word(n, k, render)[width * (k - 1 - i)..width * (k - 1 - i) + width] == render(ByteAt(n, i))
  {
    var j := k - 1 - i;
    var ss := Renderings(Bytes(n, k), render);
    WordUniform(n, k, render, alph, width);
    FlattenAt(ss, alph, width, j);
    BytesAt(n, k, i);
    assert ss[j] == render(ByteAt(n, i));
    MulMonotone(0, j, width);
  }

  /** Two integers have the same k-byte word exactly when they agree modulo 256^k. */
  lemma WordIff(n: int, m: int, k: nat, render: nat -> string, alph: string, width: nat)
    requires Renders(render, alph, width) && Pow(|alph|, width) == 256
    ensures Word(n, k, render) == Word(m, k, render) <==> n % Pow(256, k) == m % Pow(256, k)
  {
    WordValue(n, k, render, alph, width);
    WordValue(m, k, render, alph, width);
    if n % Pow(256, k) == m % Pow(256, k) {
      ValueOfInjective(Word(n, k, render), Word(m, k, render), alph);
    }
  }

  /** A negative n that fits in k bytes is stored as n + 256^k. */
  lemma NegativeResidue(n: int, k: nat)
    requires 0 <= n + Pow(256, k) && n < 0
    ensures n % Pow(256, k) == n + Pow(256, k)
  {
    DivModUnique(n, Pow(256, k), -1, n + Pow(256, k));
  }

  /** A digit string of k bytes' width whose value fits in k bytes is the word
      of that value. */
  lemma WordOfFit(s: string, n: nat, k: nat, render: nat -> string, alph: string, width: nat)
    requires Renders(render, alph, width) && Pow(|alph|, width) == 256
    requires Over(s, alph) && |s| == width * k && ValueOf(s, alph) == n && n < Pow(256, k)
    ensures s == Word(n, k, render)
  {
    WordValue(n, k, render, alph, width);
    DivModUnique(n, Pow(256, k), 0, n);
    ValueOfInjective(s, Word(n, k, render), alph);
  }
}
