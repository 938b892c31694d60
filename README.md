# Integer base converter

A Dafny model of the integer base converter of it-tools, with proofs about it.
The model covers the three functions of
`src/tools/integer-base-converter/integer-base-converter.model.ts`:

- `convertBase` rewrites a signed digit string from one radix (2 to 64) into
  another, exactly. It goes through an unbounded integer. The digits are the
  first `b` symbols of `0-9a-zA-Z+/`.
- `convertToBytes` reads a string with `Number.parseInt` and writes it as
  `byteSize` bytes of upper-case hexadecimal. A non-negative number is padded
  with zeros to `byteSize * 2` digits. A negative number is written as the
  low `byteSize` bytes of its two's complement.
- `convertToBytes2` reads the string the same way and writes the low
  `byteSize` bytes in binary. There is a `'` between the two nibbles of a byte
  and between consecutive bytes.

The model is in six modules:

- `Positional`: positional notation over any digit alphabet. It has the value
  of a digit string, the shortest digits of a number, `toString(radix)` and
  `padStart`.
- `Alphabet`: the 64-symbol range and the upper-case hexadecimal digits.
- `BaseConverter`: `convertBase`. Each loop of the source is a method proved
  against a specification function:
  - the minus-stripping loop is `StripMinus`;
  - the digit-emitting loop is `Emit`;
  - the method `ConvertBase` is proved against the function `Converted`.

  The `reduce` is the recursive function `Accumulate`.
- `JsNumber`: `Number.parseInt` on exact integers, as section 19.2.5 of
  ECMA-262 describes it. It skips leading white space, reads one optional
  sign, applies ToInt32 to the radix, treats radix 0 as 10, rejects any other
  radix outside 2 to 36, strips a `0x` prefix for radix 16 or 0, and reads the
  longest run of digits in either case. A value that is not a number (NaN) is
  `None`.
- `TwosComplement`: BigInt `>>` and `& 0xFF`, and the k-byte word of an
  integer. It is generic in how a byte is written.
- `ByteEncoder`: `convertToBytes` and `convertToBytes2`. Each is a method
  with the source's loop, proved against a function: `BytesHex` and
  `BytesBinary`.

`convertBase` throws `Invalid digit "<d>" for base <b>.`. The model returns
this as `Failure(InvalidDigit(d, b))`. `BigInt(NaN)` throws a RangeError.
The model returns this as `Failure(NotANumber)`.

Where the source's behaviour may surprise, the model follows the code:

- A value made only of minus signs, or minus signs then zeros, converts to
  `"-"` after an odd number of minus signs. This is because `"-"` is truthy
  in `newValue || '0'` (`ConvertZero`).
- Radices 37 to 64 are valid for `convertBase`, but `parseInt` rejects them.
  So both byte encoders throw for every value in those radices
  (`BytesRejectWideBase`).
- The binary output is `10 * byteSize - 1` characters long: eight bits and
  two separators per byte, less the separator after the last byte
  (`GroupedShape`).
- A non-negative number wider than `byteSize` bytes is not cut by
  `convertToBytes`: `padStart` never truncates. `convertToBytes2` still writes
  only the low `byteSize` bytes (`HexOverflowsBinaryWraps`).
- `parseInt("-0")` is minus zero. Minus zero passes `nu >= 0`, so it takes
  the padding branch and gives all zeros. In the model, `Negated(Some(0))` is
  `Some(0)`, which behaves the same way.

## Model

| member | source | states |
|---|---|---|
| `Alphabet.RangeSpelling` | src/tools/integer-base-converter/integer-base-converter.model.ts:2 | The 64-symbol range is exactly `0-9`, `a-z`, `A-Z`, `+`, `/` in that order. |
| `BaseConverter.RangeDigitSet` | src/tools/integer-base-converter/integer-base-converter.model.ts:2-4 | `range.slice(0, b)` for b from 2 to 64 has b distinct symbols, `'0'` first, no `'-'`. |
| `Alphabet.InPrefix` | src/tools/integer-base-converter/integer-base-converter.model.ts:14-17 | A character is in `range.slice(0, b)` iff its position in the range is below b, and `indexOf` returns that position. |
| `BaseConverter.MinusCount` | src/tools/integer-base-converter/integer-base-converter.model.ts:6 | The length of the leading minus run: every character before it is `'-'`, the one at it is not. |
| `BaseConverter.StripMinus` | src/tools/integer-base-converter/integer-base-converter.model.ts:5-9 | The loop leaves `value` without its leading minus run, and `negate` is set iff that run has odd length. |
| `BaseConverter.Reverse` | src/tools/integer-base-converter/integer-base-converter.model.ts:11-12 | `split('').reverse()` keeps the length and puts character i at position length-1-i. |
| `BaseConverter.Accumulate` | src/tools/integer-base-converter/integer-base-converter.model.ts:10-18 | The reduce throws only for a character that is not in fromRange, and the error reports fromBase. `AccumulateFolds` gives its exact value. |
| `BaseConverter.LastInvalid` | src/tools/integer-base-converter/integer-base-converter.model.ts:14-15 | Finds no character iff every character is a digit; otherwise finds the rightmost non-digit. |
| `BaseConverter.AccumulateFolds` | src/tools/integer-base-converter/integer-base-converter.model.ts:10-18 | The reduce over the reversed digits yields their positional value in fromBase. If any character is not a digit, it throws for the rightmost such character, the first one the reduce meets. |
| `BaseConverter.Emit` | src/tools/integer-base-converter/integer-base-converter.model.ts:19-23 | The repeated-division loop produces the shortest toRange digit string of decValue, and the empty string when decValue is 0. |
| `BaseConverter.Render` | src/tools/integer-base-converter/integer-base-converter.model.ts:24-27 | The output for a sign and a magnitude is never empty. It starts with `'-'` when negative, and not otherwise when `'-'` is not a digit. A zero magnitude gives `"-"` when negative and `"0"` otherwise. |
| `BaseConverter.Converted` | src/tools/integer-base-converter/integer-base-converter.model.ts:1-28 | Fails iff a character after the minus run is not a digit. The error names fromBase and a non-digit with only digits to its right. A success is never empty. |
| `BaseConverter.ConvertWith` | src/tools/integer-base-converter/integer-base-converter.model.ts:5-27 | The body of convertBase (strip, reduce, emit, sign, `|| '0'`) computes exactly `Converted`. |
| `BaseConverter.ConvertBase` | src/tools/integer-base-converter/integer-base-converter.model.ts:1-28 | convertBase on radices 2 to 64 is `Converted` over the two range slices, and an error reports fromBase. |
| `BaseConverter.ConvertRejectsUppercase` | src/tools/integer-base-converter/integer-base-converter.model.ts:3-15 | For a radix up to 36, an upper-case letter after the minus run makes the conversion throw. |
| `BaseConverter.ConvertRejectsInteriorMinus` | src/tools/integer-base-converter/integer-base-converter.model.ts:14-15 | A `'-'` after the leading minus run is never a digit, so the conversion throws. |
| `BaseConverter.ConvertZero` | src/tools/integer-base-converter/integer-base-converter.model.ts:24-27 | A zero magnitude gives `"0"` after an even minus run and `"-"` after an odd one. |
| `BaseConverter.ConvertNonzero` | src/tools/integer-base-converter/integer-base-converter.model.ts:19-27 | A nonzero magnitude gives digits without a leading zero. They have the same value in toRange as the input digits in fromRange. There is one `'-'` in front iff the minus run was odd. |
| `BaseConverter.RenderReadsBack` | src/tools/integer-base-converter/integer-base-converter.model.ts:19-27 | Converting an output back from its radix gives the same sign and magnitude in the other radix. |
| `BaseConverter.ConvertRoundTrip` | src/tools/integer-base-converter/integer-base-converter.model.ts:1-28 | Converting A to B and then back to A equals converting A to A. |
| `BaseConverter.ConvertIsCanonical` | src/tools/integer-base-converter/integer-base-converter.model.ts:19-27 | Every output is `"0"`, `"-"`, or digits without a leading zero with at most one `'-'` in front. |
| `BaseConverter.CanonicalIsFixed` | src/tools/integer-base-converter/integer-base-converter.model.ts:1-28 | Converting such a canonical string to its own radix returns it unchanged. |
| `Positional.ValueOfDigits` | src/tools/integer-base-converter/integer-base-converter.model.ts:19-23 | The digits the division loop emits denote the number they were emitted from. |
| `Positional.DigitsOfValue` | src/tools/integer-base-converter/integer-base-converter.model.ts:17-23 | A digit string without a leading zero is exactly the digit string emitted for its value. |
| `Positional.PadStart` | src/tools/integer-base-converter/integer-base-converter.model.ts:42 | `padStart(len, c)` never truncates. It puts `c` in front until the string has length len, and the original string is the suffix. |
| `Positional.RadixString` | src/tools/integer-base-converter/integer-base-converter.model.ts:42 | `toString(radix)` of a non-negative integer is a non-empty digit string. It starts with the zero digit only for 0, which is written as that digit alone. |
| `Positional.IndexOf` | src/tools/integer-base-converter/integer-base-converter.model.ts:17 | `indexOf` of a character in the alphabet is a position holding that character, and no earlier position holds it. |
| `Alphabet.Uppercased` | src/tools/integer-base-converter/integer-base-converter.model.ts:48 | `toUpperCase()` on the ASCII digit strings the source upper-cases (the output of `toString(16)` and `toString(2)`, lines 42, 48 and 68). It keeps the length, maps `a`-`z` to `A`-`Z` and leaves every other character alone. Full Unicode case mapping is not modelled. |
| `Positional.PaddedRadixString` | src/tools/integer-base-converter/integer-base-converter.model.ts:42 | `n.toString(radix).padStart(width, zero)` denotes n. It is exactly width digits when n < radix^width and longer otherwise. |
| `JsNumber.TrimStartFacts` | src/tools/integer-base-converter/integer-base-converter.model.ts:40 | parseInt's trimming removes only white space and keeps a suffix that does not start with white space. |
| `JsNumber.ParseIntSkipsWhitespace` | src/tools/integer-base-converter/integer-base-converter.model.ts:40 | Leading white space does not change what parseInt returns. |
| `JsNumber.ToInt32` | src/tools/integer-base-converter/integer-base-converter.model.ts:40 | The radix is taken modulo 2^32 as a signed 32-bit integer and left unchanged when already in range. |
| `JsNumber.ParseInt` | src/tools/integer-base-converter/integer-base-converter.model.ts:40 | parseInt yields a number only when ToInt32 of the radix is 0 or in 2 to 36. A negative result needs a `'-'` as the first character after the leading white space. |
| `JsNumber.ParseSigned` | src/tools/integer-base-converter/integer-base-converter.model.ts:40 | After white space: a number needs radix 0 or 2 to 36. A negative number needs a leading `'-'`, and a leading `'-'` gives a number of at most zero. |
| `JsNumber.ParseUnsigned` | src/tools/integer-base-converter/integer-base-converter.model.ts:40 | The magnitude after the sign is a non-negative number, produced only for radix 0 or 2 to 36 and only when the text starts with a digit. An empty text gives NaN. |
| `JsNumber.DigitRun` | src/tools/integer-base-converter/integer-base-converter.model.ts:40 | parseInt reads the longest prefix of radix digits. |
| `JsNumber.ParseIntRejectsRadix` | src/tools/integer-base-converter/integer-base-converter.model.ts:63 | Radix 1 and radices 37 to 2^31-1 make parseInt return NaN for every input. |
| `JsNumber.ParseIntReads` | src/tools/integer-base-converter/integer-base-converter.model.ts:40 | An optional sign, then a non-empty run of radix digits, then a non-digit, reads as the run's value, negated after `'-'`. The radix-16 `0x` prefix is the one exception. |
| `JsNumber.RunValueUppercase` | src/tools/integer-base-converter/integer-base-converter.model.ts:40 | parseInt reads digits case-insensitively: an upper-cased run has the same value. |
| `JsNumber.ParseIntAgreesWithFold` | src/tools/integer-base-converter/integer-base-converter.model.ts:17-40 | For radices up to 36, parseInt reads convertBase's digit strings as the value convertBase's reduce computes, and a `'-'` in front negates it. |
| `TwosComplement.ByteAt` | src/tools/integer-base-converter/integer-base-converter.model.ts:47 | `(n >> BigInt(i * 8)) & 0xFFn` is below 256 for either sign. |
| `TwosComplement.ShiftRight` | src/tools/integer-base-converter/integer-base-converter.model.ts:47 | BigInt `n >> k` keeps the sign of n and never moves away from zero. A non-negative n stays in 0 to n, and a negative n stays in n to -1. |
| `TwosComplement.ShiftRightDiv` | src/tools/integer-base-converter/integer-base-converter.model.ts:67 | BigInt `n >> k` is n divided by 2^k, rounded towards minus infinity. |
| `TwosComplement.ByteAtPow` | src/tools/integer-base-converter/integer-base-converter.model.ts:47 | Byte i is digit i of n in base 256: `(n / 256^i) mod 256`. |
| `TwosComplement.BytesValue` | src/tools/integer-base-converter/integer-base-converter.model.ts:66-67 | The bytes 0 to k-1, read in base 256, denote n mod 256^k. |
| `TwosComplement.WordStep` | src/tools/integer-base-converter/integer-base-converter.model.ts:48 | One more iteration puts the rendering of byte i in front of the word so far. |
| `TwosComplement.WordValue` | src/tools/integer-base-converter/integer-base-converter.model.ts:44-50 | The k-byte word has width digits a byte and denotes n mod 256^k: the two's complement of n in k bytes. |
| `TwosComplement.WordByte` | src/tools/integer-base-converter/integer-base-converter.model.ts:46-49 | The digits at `width * (k-1-i)` of the word are the rendering of byte i. |
| `TwosComplement.WordIff` | src/tools/integer-base-converter/integer-base-converter.model.ts:44-50 | Two integers get the same k-byte word iff they agree modulo 256^k. |
| `TwosComplement.NegativeResidue` | src/tools/integer-base-converter/integer-base-converter.model.ts:44-50 | A negative n with `-256^k <= n` is stored as n + 256^k. |
| `TwosComplement.WordOfFit` | src/tools/integer-base-converter/integer-base-converter.model.ts:42 | A digit string of k bytes' width whose value fits in k bytes is the word of that value. |
| `ByteEncoder.Substring` | src/tools/integer-base-converter/integer-base-converter.model.ts:69 | `substring(start, end)` with ends inside the string is the slice between them. |
| `ByteEncoder.UpperRadixStringIs` | src/tools/integer-base-converter/integer-base-converter.model.ts:48 | `toString(radix).toUpperCase()` writes n in the upper-cased digit alphabet. |
| `ByteEncoder.HexByte` | src/tools/integer-base-converter/integer-base-converter.model.ts:48 | `byte.toString(16).toUpperCase().padStart(2, '0')` is exactly two upper-case hexadecimal digits that denote the byte, for every byte below 256. |
| `ByteEncoder.BinaryByte` | src/tools/integer-base-converter/integer-base-converter.model.ts:68 | `byte.toString(2).toUpperCase().padStart(8, '0')` is exactly eight bits that denote the byte, for every byte below 256. |
| `ByteEncoder.HexByteRenders` | src/tools/integer-base-converter/integer-base-converter.model.ts:48 | Every byte becomes exactly two upper-case hexadecimal digits that denote it. |
| `ByteEncoder.BinaryByteRenders` | src/tools/integer-base-converter/integer-base-converter.model.ts:68 | Every byte becomes exactly eight bits that denote it. |
| `ByteEncoder.ConvertToBytes` | src/tools/integer-base-converter/integer-base-converter.model.ts:31-52 | convertToBytes, with its loop, returns `BytesHex`. This is a failure for NaN, the padded digits for `nu >= 0`, and the byteSize-byte word otherwise. |
| `ByteEncoder.ConvertToBytes2` | src/tools/integer-base-converter/integer-base-converter.model.ts:54-77 | convertToBytes2, with its loop, returns `BytesBinary`: a failure for NaN, else the grouped bits of the byteSize-byte word. |
| `ByteEncoder.BytesHex` | src/tools/integer-base-converter/integer-base-converter.model.ts:40-51 | convertToBytes throws exactly when parseInt gives NaN. Otherwise it returns upper-case hexadecimal digits, at least `2 * byteSize` of them. |
| `ByteEncoder.BytesBinary` | src/tools/integer-base-converter/integer-base-converter.model.ts:63-76 | convertToBytes2 throws exactly when parseInt gives NaN. Otherwise it returns `10 * byteSize - 1` characters for byteSize >= 1, and the empty string when the loop does not run. |
| `ByteEncoder.Grouped` | src/tools/integer-base-converter/integer-base-converter.model.ts:66-75 | The loop's result after k iterations is empty iff k is 0, and has at least `2k - 1` characters: a group and a separator per byte, less the last separator. |
| `ByteEncoder.GroupedNext` | src/tools/integer-base-converter/integer-base-converter.model.ts:70-74 | One iteration puts byte i's nibbles in front of the result, joined by `'` when i > 0 and alone when i is 0. |
| `ByteEncoder.PaddedHexFacts` | src/tools/integer-base-converter/integer-base-converter.model.ts:41-42 | The non-negative branch writes hexadecimal digits of value n. They are exactly `byteSize * 2` digits when n fits in byteSize bytes, and more, uncut, when it does not. |
| `ByteEncoder.NegativeHexFacts` | src/tools/integer-base-converter/integer-base-converter.model.ts:43-50 | The negative branch writes `2 * byteSize` hexadecimal digits denoting n mod 256^byteSize. That is n + 256^byteSize when n fits. |
| `ByteEncoder.PaddedHexIsBytes` | src/tools/integer-base-converter/integer-base-converter.model.ts:41-50 | On a non-negative n that fits, the padding branch writes exactly the bytes the loop would write. |
| `ByteEncoder.BytesHexIsWord` | src/tools/integer-base-converter/integer-base-converter.model.ts:41-51 | For any n that fits in byteSize bytes, either sign, the branch taken writes the byteSize-byte two's-complement word of n. |
| `ByteEncoder.BytesHexOfFit` | src/tools/integer-base-converter/integer-base-converter.model.ts:40-51 | When parseInt reads a number that fits in byteSize bytes, convertToBytes returns its two's-complement word. |
| `ByteEncoder.HexReadsBack` | src/tools/integer-base-converter/integer-base-converter.model.ts:48 | parseInt in radix 16 reads upper-case hexadecimal digits as their value. |
| `ByteEncoder.BytesHexReadsBack` | src/tools/integer-base-converter/integer-base-converter.model.ts:40-51 | Read back in radix 16, the output gives n for n >= 0 and n mod 256^byteSize for n < 0. |
| `ByteEncoder.BytesRejectWideBase` | src/tools/integer-base-converter/integer-base-converter.model.ts:40 | For radices 37 to 64, both byte encoders throw whatever the value. |
| `ByteEncoder.NibblesOf` | src/tools/integer-base-converter/integer-base-converter.model.ts:69 | The template on eight bits is bits 0-3, `'`, bits 4-7, and removing the `'` gives the bits back. |
| `ByteEncoder.GroupedWord` | src/tools/integer-base-converter/integer-base-converter.model.ts:66-75 | Without its separators, the loop's output is the k-byte word. |
| `ByteEncoder.GroupedShape` | src/tools/integer-base-converter/integer-base-converter.model.ts:66-75 | The loop's output has 10k-1 characters, with a `'` at every position 4 mod 5 and nowhere else. |
| `ByteEncoder.BytesBinaryShape` | src/tools/integer-base-converter/integer-base-converter.model.ts:63-76 | For byteSize >= 1 the output has the separator layout, and its bits are the byteSize-byte word of n. |
| `ByteEncoder.BinaryWordReadsBack` | src/tools/integer-base-converter/integer-base-converter.model.ts:66-68 | parseInt in radix 2 reads the k-byte word in bits as n mod 256^k. |
| `ByteEncoder.BinaryWordValue` | src/tools/integer-base-converter/integer-base-converter.model.ts:66-68 | The bits of a k-byte word, for k >= 1, are a non-empty binary string denoting n mod 256^k. |
| `ByteEncoder.BytesBinaryReadsBack` | src/tools/integer-base-converter/integer-base-converter.model.ts:63-76 | Without separators and read back in radix 2, the output gives n mod 256^byteSize for either sign. |
| `ByteEncoder.HexOverflowsBinaryWraps` | src/tools/integer-base-converter/integer-base-converter.model.ts:41-76 | For n >= 256^byteSize, the hexadecimal output is longer than `byteSize * 2` digits, while the binary output keeps its `10 * byteSize - 1` characters. |

## Left out

- `JsNumber.ParseInt`: `Number.parseInt` returns an IEEE double. The model
  returns the exact integer. Rounding of results above 2^53, `Infinity`, and
  `BigInt(nu)` of a rounded double are not modelled.
- `ByteEncoder.ConvertToBytes`: `nu.toString(16)` is modelled on exact
  integers. The double `nu` would be printed with the same rounding as above.
- `ByteEncoder.BytesHex`: `byteSize` is an integer. For a non-integral
  `byteSize`, `byteSize * 2` in `padStart` is not modelled. The loop's
  iteration count is modelled by `ByteCount`.
- `ByteEncoder.BytesBinary`: `byteSize` is an integer, as above.
- `BaseConverter.ConvertBase`: both radices are integers from 2 to 64, which
  is what the source's callers pass. Outside that range the source behaves
  as follows, and none of it is modelled:
  - A `toBase` of 1 never leaves the emission loop once the value is
    positive.
  - A `toBase` of 0 divides by zero once the value is positive.
  - A `fromBase` of 0 has no digits, so every non-empty value throws.
  - A `fromBase` of 1 reads any run of `'0'` as 0.
  - A `fromBase` above 64 accepts all 64 symbols, but weights each digit by
    `fromBase` itself.
  - A `toBase` above 64 indexes past the 64 symbols for a large remainder,
    and writes `undefined` there.
- `BaseConverter.Converted`: strings are modelled as sequences of Unicode
  scalar values. The source's `value.split('')` splits into UTF-16 code
  units. This only shows when the rightmost invalid character lies outside
  the Basic Multilingual Plane. The source then names that character's low
  surrogate in the error, for example `"\uDE00"` for `"a😀"` in base 16. The
  model names the whole character. Which inputs fail, and every successful
  result, are the same.
- `JsNumber.IsWhitespace`: white space is the StrWhiteSpaceChar set of
  ECMA-262. Other Unicode space characters added by later editions are not
  included.
- The Vue components and the UI glue around these functions are not part of
  this model.
