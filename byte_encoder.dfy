/** convertToBytes and convertToBytes2: a number written in some base, read with
    parseInt, shown as byteSize bytes of two's complement, in upper-case
    hexadecimal (two digits a byte) or in binary (eight bits a byte, with a
    "'" between nibbles and between bytes). */
module ByteEncoder {
  import opened Positional
  import opened Alphabet
  import opened TwosComplement
  import opened JsNumber

  /** BigInt(NaN) throws a RangeError: a value parseInt cannot read. */
  datatype ByteError = NotANumber

  /** n.toString(radix).toUpperCase() on a non-negative integer. */
  function UpperRadixString(n: nat, radix: nat): string
    requires 2 <= radix <= 36
  {
    Uppercased(RadixString(n, Range[..radix]))
  }

  /** One byte in hexadecimal: byte.toString(16).toUpperCase().padStart(2, '0'). */
  function HexByte(b: nat): (r: string)
    ensures b < 256 ==> |r| == 2 && Over(r, HexDigits) && ValueOf(r, HexDigits) == b
  {
    if b < 256 then
      HexDigitsFacts();
      assert Pow(16, 2) == 256;
      UpperRadixStringIs(b, 16);
      RenderByteFacts(b, HexDigits, 2);
      PadStart(UpperRadixString(b, 16), 2, '0')
    else
      PadStart(UpperRadixString(b, 16), 2, '0')
  }

  /** One byte in binary: byte.toString(2).toUpperCase().padStart(8, '0'). */
  function BinaryByte(b: nat): (r: string)
    ensures b < 256 ==> |r| == 8 && Over(r, BinaryDigits) && ValueOf(r, BinaryDigits) == b
  {
    if b < 256 then
      BinaryDigitsFacts();
      assert Uppercased(BinaryDigits) == BinaryDigits;
      assert Pow(2, 8) == 256;
      UpperRadixStringIs(b, 2);
      RenderByteFacts(b, BinaryDigits, 8);
      PadStart(UpperRadixString(b, 2), 8, '0')
    else
      PadStart(UpperRadixString(b, 2), 8, '0')
  }

  /** String.prototype.substring(start, end): both ends clamped to the string,
      and swapped when start is past end. */
  function Substring(s: string, start: int, end: int): (r: string)
    ensures 0 <= start <= end <= |s| ==> r == s[start..end]
  {
    var a := if start < 0 then 0 else if start > |s| then |s| else start;
    var b := if end < 0 then 0 else if end > |s| then |s| else end;
    if a <= b then s[a..b] else s[b..a]
  }

  /** A byte's eight bits as two nibbles with a "'" between them. */
  function Nibbles(bits: string): string {
    Substring(bits, 0, 4) + "'" + Substring(bits, 4, 8)
  }

  /** The number of times `for (let i = 0; i < byteSize; ++i)` runs. */
  function ByteCount(byteSize: int): nat {
    if byteSize > 0 then byteSize else 0
  }

  /** convertToBytes on a non-negative number: its hexadecimal digits, padded
      with zeros to byteSize * 2 digits and never cut. */
  function PaddedHex(n: nat, byteSize: int): string {
    PadStart(UpperRadixString(n, 16), byteSize * 2, '0')
  }

  /** convertToBytes on a negative number: the low byteSize bytes, most
      significant first, two hexadecimal digits each. */
  function NegativeHex(n: int, byteSize: int): string {
    Word(n, ByteCount(byteSize), HexByte)
  }

  /** What convertToBytes returns, or the error it throws. */
  function BytesHex(value: string, fromBase: int, byteSize: int): (r: Result<string, ByteError>)
    ensures r.Failure? <==> ParseInt(value, fromBase).None?
    ensures r.Success? ==> Over(r.value, HexDigits) && |r.value| >= 2 * ByteCount(byteSize)
  {
    match ParseInt(value, fromBase)
    case None => Failure(NotANumber)
    case Some(n) =>
      if n >= 0 then
        PaddedHexFacts(n, byteSize);
        Success(PaddedHex(n, byteSize))
      else
        NegativeHexFacts(n, byteSize);
        Success(NegativeHex(n, byteSize))
  }

  /** The bytes below k, each written by render, most significant first: the
      nibbles of each byte, and a "'" between consecutive bytes. */
  function Grouped(n: int, k: nat, render: nat -> string): (r: string)
    ensures r == "" <==> k == 0
    ensures |r| >= 2 * k - 1
  {
    if k == 0 then ""
    else
      var tmp := Nibbles(render(ByteAt(n, k - 1)));
      if k == 1 then tmp else tmp + "'" + Grouped(n, k - 1, render)
  }

  /** What convertToBytes2 returns, or the error it throws. */
  function BytesBinary(value: string, fromBase: int, byteSize: int): (r: Result<string, ByteError>)
    ensures r.Failure? <==> ParseInt(value, fromBase).None?
    ensures r.Success? ==> |r.value| == if byteSize >= 1 then 10 * byteSize - 1 else 0
  {
    match ParseInt(value, fromBase)
    case None => Failure(NotANumber)
    case Some(n) =>
      if byteSize >= 1 then
        BinaryDigitsPlain();
        GroupedShape(n, byteSize, BinaryByte, BinaryDigits);
        Success(Grouped(n, ByteCount(byteSize), BinaryByte))
      else
        Success(Grouped(n, ByteCount(byteSize), BinaryByte))
  }

  /** convertToBytes. */
  method ConvertToBytes(value: string, fromBase: int, byteSize: int) returns (r: Result<string, ByteError>)
    ensures r == BytesHex(value, fromBase, byteSize)
  {
    var nu := ParseInt(value, fromBase);
    if nu.Some? && nu.value >= 0 {
      return Success(PadStart(UpperRadixString(nu.value, 16), byteSize * 2, '0'));
    }
    if nu.None? {
      return Failure(NotANumber);
    }
    var n := nu.value;
    assert BytesHex(value, fromBase, byteSize) == Success(NegativeHex(n, byteSize));
    var result := "";
    var i := 0;
    while i < byteSize
      invariant 0 <= i <= ByteCount(byteSize)
      invariant result == Word(n, i, HexByte)
    {
      var byte := ShiftRight(n, i * 8) % 256;
      assert byte == ByteAt(n, i);
      result := PadStart(UpperRadixString(byte, 16), 2, '0') + result;
      WordStep(n, i, HexByte);
      i := i + 1;
    }
    assert i == ByteCount(byteSize);
    return Success(result);
  }

  /** convertToBytes2. */
  method ConvertToBytes2(value: string, fromBase: int, byteSize: int) returns (r: Result<string, ByteError>)
    ensures r == BytesBinary(value, fromBase, byteSize)
  {
    var nu := ParseInt(value, fromBase);
    if nu.None? {
      return Failure(NotANumber);
    }
    var n := nu.value;
    var result := "";
    var i := 0;
    while i < byteSize
      invariant 0 <= i <= ByteCount(byteSize)
      invariant result == Grouped(n, i, BinaryByte)
    {
      var byte := ShiftRight(n, i * 8) % 256;
      var byte1s := BinaryByte(byte);
      var tmp := Substring(byte1s, 0, 4) + "'" + Substring(byte1s, 4, 8);
      GroupedNext(n, i, BinaryByte, tmp, result);
      if i > 0 {
        result := tmp + "'" + result;
      } else {
        result := tmp;
      }
      i := i + 1;
    }
    assert i == ByteCount(byteSize);
    assert BytesBinary(value, fromBase, byteSize) == Success(result);
    return Success(result);
  }

  /** One more iteration of convertToBytes2's loop puts byte i's nibbles in
      front, with a "'" when there is already a byte. */
  lemma GroupedNext(n: int, i: nat, render: nat -> string, tmp: string, result: string)
    requires tmp == Nibbles(render(ByteAt(n, i))) && result == Grouped(n, i, render)
    ensures Grouped(n, i + 1, render) == if i > 0 then tmp + "'" + result else tmp
  {
  }

  /** toUpperCase distributes over concatenation. */
  lemma UppercasedAppend(x: string, y: string)
    ensures Uppercased(x + y) == Uppercased(x) + Uppercased(y)
  {
    var l, r := Uppercased(x + y), Uppercased(x) + Uppercased(y);
    assert |l| == |r|;
    forall i | 0 <= i < |l|
      ensures l[i] == r[i]
    {
      if i < |x| {
        assert (x + y)[i] == x[i];
      } else {
        assert (x + y)[i] == y[i - |x|];
      }
    }
  }

  /** Upper-casing the digits of n in alphabet a gives its digits in the
      upper-cased alphabet. */
  lemma {:induction false} UppercasedDigits(n: nat, a: string, u: string)
    requires |a| >= 2 && |u| == |a|
    requires forall i :: 0 <= i < |a| ==> u[i] == UpperAscii(a[i])
    ensures Uppercased(Digits(n, a)) == Digits(n, u)
    decreases n
  {
    if n > 0 {
      UppercasedDigits(n / |a|, a, u);
      UppercasedAppend(Digits(n / |a|, a), [a[n % |a|]]);
    }
  }

  /** toString(radix).toUpperCase() writes n in the upper-cased alphabet. */
  lemma UpperRadixStringIs(n: nat, radix: nat)
    requires 2 <= radix <= 36
    ensures UpperRadixString(n, radix) == RadixString(n, Uppercased(Range[..radix]))
  {
    var a := Range[..radix];
    var u := Uppercased(a);
    if n == 0 {
      assert Uppercased([a[0]]) == [u[0]];
    } else {
      UppercasedDigits(n, a, u);
    }
  }

  /** HexByte renders each byte as its two hexadecimal digits. */
  lemma HexByteRenders()
    ensures Renders(HexByte, HexDigits, 2)
  {
  }

  /** BinaryByte renders each byte as its eight bits. */
  lemma BinaryByteRenders()
    ensures Renders(BinaryByte, BinaryDigits, 8)
  {
  }

  /** Two hexadecimal digits make a byte. */
  lemma HexWidth()
    ensures |HexDigits| == 16 && Pow(|HexDigits|, 2) == 256
  {
    HexDigitsFacts();
    assert Pow(16, 2) == 256;
  }

  /** The hexadecimal digits of n, padded, are hexadecimal digits of value n.
      They fill exactly byteSize bytes when n fits in them, and overflow the
      width, uncut, when it does not. */
  lemma PaddedHexFacts(n: nat, byteSize: int)
    ensures Over(PaddedHex(n, byteSize), HexDigits)
    ensures ValueOf(PaddedHex(n, byteSize), HexDigits) == n
    ensures byteSize >= 1 && n < Pow(256, byteSize) ==> |PaddedHex(n, byteSize)| == 2 * byteSize
    ensures byteSize >= 0 && n >= Pow(256, byteSize) ==> |PaddedHex(n, byteSize)| > 2 * byteSize
  {
    HexDigitsFacts();
    UpperRadixStringIs(n, 16);
    var w: nat := if byteSize >= 0 then 2 * byteSize else 0;
    var digits := RadixString(n, HexDigits);
    assert PaddedHex(n, byteSize) == PadStart(digits, w, HexDigits[0]);
    PaddedRadixString(n, w, HexDigits);
    if byteSize >= 0 {
      PowPow(16, 2, byteSize);
      assert Pow(16, 2) == 256;
    }
  }

  /** convertToBytes on a negative number writes 2 * byteSize hexadecimal
      digits whose value is n modulo 256^byteSize: n + 256^byteSize, its two's
      complement, when n fits. */
  lemma NegativeHexFacts(n: int, byteSize: int)
    requires n < 0
    ensures |NegativeHex(n, byteSize)| == 2 * ByteCount(byteSize)
    ensures Over(NegativeHex(n, byteSize), HexDigits)
    ensures ValueOf(NegativeHex(n, byteSize), HexDigits) == n % Pow(256, ByteCount(byteSize))
    ensures 0 <= n + Pow(256, ByteCount(byteSize)) ==>
      ValueOf(NegativeHex(n, byteSize), HexDigits) == n + Pow(256, ByteCount(byteSize))
  {
    var k := ByteCount(byteSize);
    HexByteRenders();
    HexWidth();
    WordValue(n, k, HexByte, HexDigits, 2);
    if 0 <= n + Pow(256, k) {
      NegativeResidue(n, k);
    }
  }

  /** A string of 2k hexadecimal digits whose value fits in k bytes is the
      k-byte word of that value. */
  lemma HexWordOfFit(s: string, n: nat, k: nat)
    requires Over(s, HexDigits) && |s| == 2 * k && ValueOf(s, HexDigits) == n && n < Pow(256, k)
    ensures s == Word(n, k, HexByte)
  {
    HexWidth();
    HexByteRenders();
    WordOfFit(s, n, k, HexByte, HexDigits, 2);
  }

  /** On a non-negative number that fits in byteSize bytes, the padded digits
      are exactly the bytes the negative branch would write: both branches
      give the two's complement of n. */
  lemma PaddedHexIsBytes(n: nat, byteSize: int)
    requires byteSize >= 1 && n < Pow(256, byteSize)
    ensures PaddedHex(n, byteSize) == NegativeHex(n, byteSize)
  {
    var k: nat := byteSize;
    assert NegativeHex(n, byteSize) == Word(n, k, HexByte);
    PaddedHexFacts(n, byteSize);
    HexWordOfFit(PaddedHex(n, byteSize), n, k);
  }

  /** parseInt(s, 16) reads a non-empty string of upper-case hexadecimal digits
      as its value. */
  lemma HexReadsBack(s: string)
    requires s != [] && Over(s, HexDigits)
    ensures ParseInt(s, 16) == Some(ValueOf(s, HexDigits))
  {
    HexDigitsInOrder();
    ParseIntInOrder(s, HexDigits);
  }

  /** Reading convertToBytes' output back as hexadecimal gives the number for a
      non-negative input, and its residue modulo 256^byteSize (the two's
      complement) for a negative one. */
  lemma BytesHexReadsBack(value: string, fromBase: int, byteSize: int)
    requires byteSize >= 1 && ParseInt(value, fromBase).Some?
    ensures var n := ParseInt(value, fromBase).value;
      BytesHex(value, fromBase, byteSize).Success? &&
      ParseInt(BytesHex(value, fromBase, byteSize).value, 16) ==
        Some(if n >= 0 then n else n % Pow(256, byteSize))
  {
    var n := ParseInt(value, fromBase).value;
    if n >= 0 {
      PaddedHexFacts(n, byteSize);
      HexReadsBack(PaddedHex(n, byteSize));
    } else {
      NegativeHexFacts(n, byteSize);
      HexReadsBack(NegativeHex(n, byteSize));
    }
  }

  /** Both branches write the same thing for a number that fits: the k-byte
      two's-complement word of n. */
  lemma BytesHexIsWord(n: int, byteSize: int)
    requires byteSize >= 1 && 0 <= n + Pow(256, byteSize) && n < Pow(256, byteSize)
    ensures (if n >= 0 then PaddedHex(n, byteSize) else NegativeHex(n, byteSize)) == Word(n, byteSize, HexByte)
  {
    if n >= 0 {
      PaddedHexIsBytes(n, byteSize);
    }
  }

  /** Whatever the input, when parseInt reads a number that fits in byteSize
      bytes, convertToBytes writes its two's-complement word. */
  lemma BytesHexOfFit(value: string, fromBase: int, byteSize: int, m: int)
    requires ParseInt(value, fromBase) == Some(m)
    requires byteSize >= 1 && 0 <= m + Pow(256, byteSize) && m < Pow(256, byteSize)
    ensures BytesHex(value, fromBase, byteSize) == Success(Word(m, byteSize, HexByte))
  {
    BytesHexIsWord(m, byteSize);
  }

  /** parseInt rejects the radices 37 to 64 that convertBase accepts, so both
      byte encoders throw for them whatever the value. */
  lemma BytesRejectWideBase(value: string, fromBase: int, byteSize: int)
    requires 36 < fromBase <= 64
    ensures BytesHex(value, fromBase, byteSize) == Failure(NotANumber)
    ensures BytesBinary(value, fromBase, byteSize) == Failure(NotANumber)
  {
    ParseIntRejectsRadix(value, fromBase);
  }

  /** s with its "'" separators removed. */
  function Ungrouped(s: string): string {
    if s == [] then [] else (if s[0] == '\'' then [] else [s[0]]) + Ungrouped(s[1..])
  }

  lemma {:induction false} UngroupedAppend(x: string, y: string)
    ensures Ungrouped(x + y) == Ungrouped(x) + Ungrouped(y)
  {
    if x == [] {
      assert x + y == y;
    } else {
      assert (x + y)[0] == x[0];
      assert (x + y)[1..] == x[1..] + y;
      UngroupedAppend(x[1..], y);
    }
  }

  /** Digits have no separators to remove. */
  lemma {:induction false} UngroupedPlain(s: string, alph: string)
    requires Over(s, alph) && '\'' !in alph
    ensures Ungrouped(s) == s
  {
    if s != [] {
      assert s[0] in alph;
      UngroupedPlain(s[1..], alph);
    }
  }

  /** Eight digits are split after the fourth, and the split is undone by
      removing the separator. */
  lemma NibblesOf(bits: string, alph: string)
    requires |bits| == 8 && Over(bits, alph) && '\'' !in alph
    ensures Nibbles(bits) == bits[..4] + "'" + bits[4..]
    ensures Ungrouped(Nibbles(bits)) == bits
  {
    UngroupedAppend(bits[..4] + "'", bits[4..]);
    UngroupedAppend(bits[..4], "'");
    UngroupedPlain(bits[..4], alph);
    UngroupedPlain(bits[4..], alph);
    assert bits[..4] + bits[4..] == bits;
  }

  /** Removing the separators from convertToBytes2's output leaves the k-byte
      word of n. */
  lemma {:induction false} GroupedWord(n: int, k: nat, render: nat -> string, alph: string)
    requires FixedWidth(render, alph, 8) && '\'' !in alph
    ensures Ungrouped(Grouped(n, k, render)) == Word(n, k, render)
  {
    if k > 0 {
      var bits := render(ByteAt(n, k - 1));
      NibblesOf(bits, alph);
      WordStep(n, k - 1, render);
      if k == 1 {
        assert Word(n, 0, render) == [];
      } else {
        var rest := Grouped(n, k - 1, render);
        assert Grouped(n, k, render) == Nibbles(bits) + "'" + rest;
        GroupedWord(n, k - 1, render, alph);
        UngroupedAppend(Nibbles(bits) + "'", rest);
        UngroupedAppend(Nibbles(bits), "'");
      }
    }
  }

  /** The separators of convertToBytes2's output: every fifth character is a
      "'" and no other is. */
  predicate Separated(s: string) {
    forall i :: 0 <= i < |s| ==> (s[i] == '\'' <==> i % 5 == 4)
  }

  lemma NibblesSeparated(bits: string, alph: string)
    requires |bits| == 8 && Over(bits, alph) && '\'' !in alph
    ensures |Nibbles(bits) + "'"| == 10 && Separated(Nibbles(bits)) && Separated(Nibbles(bits) + "'")
  {
    NibblesOf(bits, alph);
    var t := Nibbles(bits) + "'";
    forall i | 0 <= i < 10
      ensures t[i] == '\'' <==> i % 5 == 4
    {
      if i < 4 {
        assert t[i] == bits[i] && bits[i] in alph;
      } else if 4 < i < 9 {
        assert t[i] == bits[i - 1] && bits[i - 1] in alph;
      }
    }
  }

  /** Prefixing ten separated characters keeps the separators in place. */
  lemma SeparatedAppend(x: string, y: string)
    requires |x| == 10 && Separated(x) && Separated(y)
    ensures Separated(x + y)
  {
    forall i | 10 <= i < |x + y|
      ensures (x + y)[i] == '\'' <==> i % 5 == 4
    {
      assert (x + y)[i] == y[i - 10];
      assert (i - 10) % 5 == i % 5;
    }
  }

  /** convertToBytes2 writes 10 k - 1 characters, with a "'" at every fifth
      and nowhere else. */
  lemma {:induction false} GroupedShape(n: int, k: nat, render: nat -> string, alph: string)
    requires FixedWidth(render, alph, 8) && '\'' !in alph && k >= 1
    ensures |Grouped(n, k, render)| == 10 * k - 1 && Separated(Grouped(n, k, render))
  {
    var bits := render(ByteAt(n, k - 1));
    NibblesSeparated(bits, alph);
    if k > 1 {
      GroupedShape(n, k - 1, render, alph);
      SeparatedAppend(Nibbles(bits) + "'", Grouped(n, k - 1, render));
      assert Grouped(n, k, render) == (Nibbles(bits) + "'") + Grouped(n, k - 1, render);
    }
  }

  /** The bits have no separator among them. */
  lemma BinaryDigitsPlain()
    ensures FixedWidth(BinaryByte, BinaryDigits, 8) && '\'' !in BinaryDigits
  {
    BinaryByteRenders();
    BinaryDigitsFacts();
  }

  /** convertToBytes2 on any number and byteSize >= 1: 10 byteSize - 1
      characters, a "'" at every fifth, and the bits of the byteSize-byte word
      between them. */
  lemma BytesBinaryShape(value: string, fromBase: int, byteSize: int)
    requires byteSize >= 1 && ParseInt(value, fromBase).Some?
    ensures var n := ParseInt(value, fromBase).value;
      BytesBinary(value, fromBase, byteSize).Success? &&
      var out := BytesBinary(value, fromBase, byteSize).value;
      |out| == 10 * byteSize - 1 && Separated(out) && Ungrouped(out) == Word(n, byteSize, BinaryByte)
  {
    var n := ParseInt(value, fromBase).value;
    BinaryDigitsPlain();
    GroupedShape(n, byteSize, BinaryByte, BinaryDigits);
    GroupedWord(n, byteSize, BinaryByte, BinaryDigits);
  }

  /** parseInt(s, 2) reads a non-empty string of bits as its value. */
  lemma BinaryReadsBackDigits(s: string)
    requires s != [] && Over(s, BinaryDigits)
    ensures ParseInt(s, 2) == Some(ValueOf(s, BinaryDigits))
  {
    RangeInOrder(2);
    ParseIntInOrder(s, BinaryDigits);
  }

  /** Reading convertToBytes2's output back as binary, separators removed, gives
      n modulo 256^byteSize: for either sign, the byteSize-byte two's complement. */
  lemma BytesBinaryReadsBack(value: string, fromBase: int, byteSize: int)
    requires byteSize >= 1 && ParseInt(value, fromBase).Some?
    ensures var n := ParseInt(value, fromBase).value;
      BytesBinary(value, fromBase, byteSize).Success? &&
      ParseInt(Ungrouped(BytesBinary(value, fromBase, byteSize).value), 2) == Some(n % Pow(256, byteSize))
  {
    var n := ParseInt(value, fromBase).value;
    BytesBinaryShape(value, fromBase, byteSize);
    BinaryWordReadsBack(n, byteSize);
  }

  /** A word of k >= 1 bytes in bits reads back as n modulo 256^k. */
  lemma BinaryWordReadsBack(n: int, k: nat)
    requires k >= 1
    ensures ParseInt(Word(n, k, BinaryByte), 2) == Some(n % Pow(256, k))
  {
    BinaryWordValue(n, k);
    BinaryReadsBackDigits(Word(n, k, BinaryByte));
  }

  /** A word of k >= 1 bytes in bits is 8k bits denoting n modulo 256^k. */
  lemma BinaryWordValue(n: int, k: nat)
    requires k >= 1
    ensures Word(n, k, BinaryByte) != [] && Over(Word(n, k, BinaryByte), BinaryDigits)
    ensures ValueOf(Word(n, k, BinaryByte), BinaryDigits) == n % Pow(256, k)
  {
    BinaryByteRenders();
    BinaryDigitsFacts();
    assert Pow(2, 8) == 256;
    WordValue(n, k, BinaryByte, BinaryDigits, 8);
  }

  /** A non-negative number too wide for byteSize bytes: convertToBytes writes
      all of its digits, more than byteSize * 2, while convertToBytes2 still
      writes byteSize bytes, which wrap it modulo 256^byteSize. */
  lemma HexOverflowsBinaryWraps(value: string, fromBase: int, byteSize: int)
    requires byteSize >= 1 && ParseInt(value, fromBase).Some?
    requires ParseInt(value, fromBase).value >= Pow(256, byteSize)
    ensures BytesHex(value, fromBase, byteSize).Success? && BytesBinary(value, fromBase, byteSize).Success?
    ensures |BytesHex(value, fromBase, byteSize).value| > 2 * byteSize
    ensures |BytesBinary(value, fromBase, byteSize).value| == 10 * byteSize - 1
  {
    PaddedHexFacts(ParseInt(value, fromBase).value, byteSize);
    BytesBinaryShape(value, fromBase, byteSize);
  }
}
