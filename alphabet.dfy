/** The digit alphabets the converter reads and writes. */
module Alphabet {
  import opened Positional

  /** Digit symbol k of convertBase's alphabet: 0-9, then a-z, then A-Z, then
      '+' and '/' (and '/' again past the end, so that Symbol is total). */
  function Symbol(k: int): char
  {
    if 0 <= k < 10 then ('0' as int + k) as char
    else if 10 <= k < 36 then ('a' as int + (k - 10)) as char
    else if 36 <= k < 62 then ('A' as int + (k - 36)) as char
    else if k == 62 then '+'
    else '/'
  }

  /** The 64 digit symbols of convertBase, in order. Radix b uses the first b of
      them; lower and upper case are different digits. The first 36 are also the
      digits JavaScript's toString(radix) writes. */
  const Range: string := SymbolsFrom(0)

  /** Symbols k to 63. */
  function SymbolsFrom(k: nat): (s: string)
    requires k <= 64
    ensures |s| == 64 - k
    ensures forall i :: 0 <= i < |s| ==> s[i] == Symbol(k + i)
    decreases 64 - k
  {
    if k == 64 then [] else [Symbol(k)] + SymbolsFrom(k + 1)
  }

  /** The digits toString(16).toUpperCase() writes. */
  const HexDigits: string := Uppercased(Range[..16])

  /** The digits toString(2) writes. */
  const BinaryDigits: string := Range[..2]

  /** Range spelled out. */
  lemma RangeSpelling()
    ensures Range == "0123456789" + "abcdefghijklmnopqrstuvwxyz" + "ABCDEFGHIJKLMNOPQRSTUVWXYZ" + "+/"
  {
    RangeDecimal();
    RangeLower();
    RangeUpper();
    assert Range[62..] == "+/";
    assert Range == Range[..10] + Range[10..36] + Range[36..62] + Range[62..];
  }

  lemma RangeDecimal()
    ensures Range[..10] == "0123456789"
  {
    var spelled := "0123456789";
    forall i | 0 <= i < 10
      ensures Range[i] == spelled[i]
    {
      assert spelled[i] as int == '0' as int + i;
    }
  }

  lemma RangeLower()
    ensures Range[10..36] == "abcdefghijklmnopqrstuvwxyz"
  {
    var spelled := "abcdefghijklmnopqrstuvwxyz";
    forall i | 0 <= i < 26
      ensures Range[10 + i] == spelled[i]
    {
      assert spelled[i] as int == 'a' as int + i;
    }
  }

  lemma RangeUpper()
    ensures Range[36..62] == "ABCDEFGHIJKLMNOPQRSTUVWXYZ"
  {
    var spelled := "ABCDEFGHIJKLMNOPQRSTUVWXYZ";
    forall i | 0 <= i < 26
      ensures Range[36 + i] == spelled[i]
    {
      assert spelled[i] as int == 'A' as int + i;
    }
  }

  /** The position of c in Range, or -1 when c is none of its symbols. */
  function Code(c: char): (k: int)
    ensures -1 <= k < 64
  {
    if '0' <= c <= '9' then c as int - '0' as int
    else if 'a' <= c <= 'z' then c as int - 'a' as int + 10
    else if 'A' <= c <= 'Z' then c as int - 'A' as int + 36
    else if c == '+' then 62
    else if c == '/' then 63
    else -1
  }

  /** Code and Symbol are inverse to each other. */
  lemma SymbolCode(k: int, c: char)
    ensures 0 <= k < 64 ==> Code(Symbol(k)) == k
    ensures Code(c) >= 0 ==> Symbol(Code(c)) == c
  {
  }

  /** Code and Range are inverse to each other. */
  lemma RangeCode(i: int, c: char)
    requires 0 <= i < 64
    ensures Code(Range[i]) == i
    ensures Code(c) >= 0 ==> Range[Code(c)] == c
  {
    SymbolCode(i, c);
  }

  /** Membership in the first b symbols, and the position found there, are both
      read off the code of the character. */
  lemma InPrefix(c: char, b: nat)
    requires b <= 64
    ensures c in Range[..b] <==> 0 <= Code(c) < b
    ensures c in Range[..b] ==> IndexOf(c, Range[..b]) == Code(c)
  {
    if 0 <= Code(c) < b {
      RangeCode(0, c);
      assert Range[..b][Code(c)] == c;
    }
    if c in Range[..b] {
      var k := IndexOf(c, Range[..b]);
      RangeCode(k, c);
    }
  }

  lemma PrefixIsAlphabet(b: nat)
    requires 2 <= b <= 64
    ensures |Range[..b]| == b && IsAlphabet(Range[..b]) && Range[0] == '0'
  {
    forall i, j | 0 <= i < j < b
      ensures Range[..b][i] != Range[..b][j]
    {
      RangeCode(i, Range[j]);
      RangeCode(j, Range[i]);
    }
  }

  /** The ASCII part of String.prototype.toUpperCase. */
  function UpperAscii(c: char): (u: char)
    ensures 'a' <= c <= 'z' ==> u as int == c as int - 32
    ensures !('a' <= c <= 'z') ==> u == c
  {
    if 'a' <= c <= 'z' then (c as int - 32) as char else c
  }

  /** String.prototype.toUpperCase on strings of ASCII characters. */
  function Uppercased(s: string): (u: string)
    ensures |u| == |s|
    ensures forall i :: 0 <= i < |s| ==> u[i] == UpperAscii(s[i])
  {
    if s == [] then [] else [UpperAscii(s[0])] + Uppercased(s[1..])
  }

  /** The hexadecimal digits, spelled out, and distinct. */
  lemma UpperSymbol(i: int)
    requires 0 <= i < 16
    ensures UpperAscii(Symbol(i)) as int == if i < 10 then '0' as int + i else 'A' as int + (i - 10)
  {
  }

  lemma HexDigitsFacts()
    ensures HexDigits == "0123456789" + "ABCDEF"
    ensures |HexDigits| == 16 && IsAlphabet(HexDigits) && HexDigits[0] == '0'
  {
    var decimal, letters := "0123456789", "ABCDEF";
    assert forall i :: 0 <= i < 10 ==> decimal[i] as int == '0' as int + i;
    assert forall i :: 0 <= i < 6 ==> letters[i] as int == 'A' as int + i;
    forall i | 0 <= i < 16
      ensures HexDigits[i] == (decimal + letters)[i]
      ensures HexDigits[i] as int == if i < 10 then '0' as int + i else 'A' as int + (i - 10)
    {
      UpperSymbol(i);
      assert HexDigits[i] == UpperAscii(Symbol(i));
      if i < 10 {
        assert (decimal + letters)[i] == decimal[i];
      } else {
        assert (decimal + letters)[i] == letters[i - 10];
      }
    }
  }

  lemma BinaryDigitsFacts()
    ensures BinaryDigits == "01" && IsAlphabet(BinaryDigits)
  {
    PrefixIsAlphabet(2);
  }
}
