# Bitset — a verified model

This project models `com.maksim.Bitset`. The class is a fixed-capacity array of `bitCount`
bits packed into `size = ceil(bitCount / 64)` Java `long` words that are updated in
place.

- Logical bit `i` lives in word `size - 1 - i / 64`, at position `i % 64`.
- Word 0 is therefore the most significant word. Its top `prefixSize = (64 - bitCount % 64) % 64` bits are padding.

The model is a Dafny class `Bitsets.Bitset` with the same fields (`prefixSize`,
`bitCount`, `size`, and `bitset: array<Word>`). It has one method per public operation,
with the same behaviour, loops and branches. In a few places an early exit is written
differently: a `found` flag in place of an early `return`, or a `return` in place of a `break`
followed by `return result`. Each method is proved against a specification:

- `RawBits()` is the bit string of all `64 * size` positions, padding included, indexed by logical bit number.
- `Contents()` is its first `bitCount` bits.
- `WellFormed()` is the shape the constructor establishes. `Valid()` adds "the padding is clear".

Each query is specified over the raw positions, because that is what the code reads.
Under `Valid()` it is specified again over the logical bits.

The files are:

- `bitstrings.dfy` (module `BitStrings`) holds bit strings and their counting functions: `Count`, the run of clear bits at the low end (`LowZeros`) and at the high end (`HighZeros`).
- `words.dfy` (module `Words`) holds the 64-bit word.
  - A `long` is modelled by its unsigned value below 2^64.
  - The Java operators `&`, `|`, `^`, `~`, `<<`, `>>>` and `>>` are defined on these values, including the mod-64 rule for shift distances, and are proved to act bit by bit.
  - `Long.bitCount`, `Long.numberOfLeadingZeros` and `Long.numberOfTrailingZeros` are recursive specifications, and their meaning on the word's bits is proved.
- `layout.dfy` (module `Layout`) holds:
  - the packing of words into the bit string (`Raw`);
  - the word-level updates as functions of the old words (`SetWords`, `NotWords`, `CombineWords`);
  - what those updates mean bit by bit;
  - the lemmas the class's loops rely on.
- `bitset.dfy` (module `Bitsets`) holds the class.

Points where the behaviour is easy to get wrong. The model follows the code on each:

- `ctz()` and `findFirst()` return `64 * size` when no bit is set. That is not `bitCount` unless `bitCount` is a multiple of 64.
- `findLast()` returns -1 when no bit is set.
- `findNext(index)` returns `bitCount` when no later bit is set.
- `andAssign` clears the receiver's words that have no partner. It never sets a padding bit, whatever the operand's padding holds.
- `xorAssign` and `orAssign` do not re-mask the padding. An operand with more logical bits than the receiver can set padding bits. The contracts promise `Valid()` afterwards when the operand is valid and `bs.bitCount <= bitCount`. That condition is sufficient, not necessary: a larger operand whose bits from `bitCount` up are clear also leaves the padding clear.
- The combining operations may be called with the receiver as the operand. Their contracts are stated on the old words, so they cover that case. `Layout.CombineSelf` shows that `x.xorAssign(x)` clears every word and that `and`/`or` with itself change nothing.

## Model

| member | source | states |
|---|---|---|
| Bitsets.Bitset.constructor | src/main/java/com/maksim/Bitset.java:24-32 | `size == (bitCount + 63) / 64`, `prefixSize == (64 - bitCount % 64) % 64`; every word is zero, the padding is clear and no logical bit is set |
| Bitsets.Bitset.Create | src/main/java/com/maksim/Bitset.java:24-26 | a non-positive `bitCount` is an illegal argument (and only then); otherwise a fresh, valid, all-clear bitset of that many bits |
| Bitsets.Bitset.Set | src/main/java/com/maksim/Bitset.java:35-47 | an index outside `[0, bitCount)` throws and changes nothing; otherwise logical bit `index` becomes `bit`, no other position (padding included) changes, and clear padding stays clear |
| Bitsets.Bitset.Get | src/main/java/com/maksim/Bitset.java:49-56 | an index outside `[0, bitCount)` throws; otherwise the result is 1 when logical bit `index` is set and 0 when it is not |
| Bitsets.Bitset.PopCount | src/main/java/com/maksim/Bitset.java:59-65 | the number of set positions; with clear padding, the number of set logical bits |
| Bitsets.Bitset.Clz | src/main/java/com/maksim/Bitset.java:67-78 | the clear positions above the highest set one, less the padding; with clear padding, the clear logical bits above the highest set one (`bitCount` when none is set) |
| Bitsets.Bitset.Ctz | src/main/java/com/maksim/Bitset.java:80-91 | the clear positions below the lowest set one; with clear padding, `64 * size` when no logical bit is set |
| Bitsets.Bitset.FindFirst | src/main/java/com/maksim/Bitset.java:93-95 | with clear padding: the lowest set logical bit (set, and nothing set below it), or `64 * size` when none is set |
| Bitsets.Bitset.FindLast | src/main/java/com/maksim/Bitset.java:97-99 | with clear padding: -1 exactly when no bit is set, otherwise the highest set logical bit (set, and nothing set above it) |
| Bitsets.Bitset.FindNext | src/main/java/com/maksim/Bitset.java:101-123 | an index out of range throws; otherwise the first set position above `index`, or `bitCount` when there is none; with clear padding, the next set logical bit or `bitCount` |
| Bitsets.Bitset.NextAfter | src/main/java/com/maksim/Bitset.java:105-122 | for an index in range, the first set position above `index` over all `64 * size` positions, found in the rest of the index's own word or in a later word, or `bitCount` when there is none |
| Bitsets.Bitset.ScanWords | src/main/java/com/maksim/Bitset.java:115-122 | scanning from word `segmentIndex - 1` down to word 0, where the bits below already hold no set position, finds the next set position at `64 * (size - i - 1) + ntz(bitset[i])`, or yields `bitCount` |
| Bitsets.Bitset.ValidNext | src/main/java/com/maksim/Bitset.java:115 | with clear padding, a set position found among all positions is the next set logical bit, and "none" is `bitCount` |
| Bitsets.Bitset.NotAssign | src/main/java/com/maksim/Bitset.java:126-131 | every logical bit is flipped and the padding ends up clear, whatever it held before |
| Bitsets.Bitset.CombinePaired | src/main/java/com/maksim/Bitset.java:133-139 | the words paired from the least significant end are combined with the operand's words; the unpaired words are untouched, and the result holds when the operand is the receiver itself |
| Bitsets.Bitset.XorAssign | src/main/java/com/maksim/Bitset.java:133-139 | the words become the xor combination of the old words; the operand is unchanged unless it is the receiver; clear padding stays clear when `bs.bitCount <= bitCount` |
| Bitsets.Bitset.AndAssign | src/main/java/com/maksim/Bitset.java:141-150 | the paired words become the and of the old words and the unpaired ones zero; the operand is unchanged unless it is the receiver; clear padding stays clear, whatever the operand's padding holds |
| Bitsets.Bitset.OrAssign | src/main/java/com/maksim/Bitset.java:152-158 | the words become the or combination of the old words; the operand is unchanged unless it is the receiver; clear padding stays clear when `bs.bitCount <= bitCount` |
| Bitsets.Bitset.GetSize | src/main/java/com/maksim/Bitset.java:160-162 | the number of logical bits |
| Bitsets.Bitset.ToString | src/main/java/com/maksim/Bitset.java:165-178 | the text is `[`, then the logical bits as digits with the most significant first, then `]` |
| Bitsets.Bitset.AppendBits | src/main/java/com/maksim/Bitset.java:168-175 | each inner loop appends the bits of one word below `hi`, most significant first, which extends the text of the higher logical bits to the text from that word's lowest bit up |
| Bitsets.Bitset.DigitAt | src/main/java/com/maksim/Bitset.java:169 | `(bitset[w] >> j) & 1` is 1 exactly when the logical bit stored at bit `j` of word `w` is set |
| Bitsets.EmptyEnds | src/main/java/com/maksim/Bitset.java:80-99 | on a fresh one-bit bitset, `findFirst()` is 64 (that is, `64 * size`, not the `bitCount` of 1) and `findLast()` is -1 |
| Bitsets.AppendedBit | src/main/java/com/maksim/Bitset.java:173 | `(w >> i) & 1` is 1 when bit `i` of `w` is set and 0 otherwise |
| Layout.RawAt | src/main/java/com/maksim/Bitset.java:39-40 | logical bit `i` is bit `i % 64` of word `size - 1 - i / 64` |
| Layout.Text | src/main/java/com/maksim/Bitset.java:165-178 | the text has one character per bit, and character `k` is the digit of bit `n - 1 - k` (most significant first) |
| Layout.ZerosClear | src/main/java/com/maksim/Bitset.java:31 | an array of zero words has clear padding and no logical bit set |
| Layout.SetWordBit | src/main/java/com/maksim/Bitset.java:42-46 | or-ing `1L << p` into `w` sets bit `p`, and and-ing `~(1L << p)` clears it; either way every other bit is kept |
| Layout.MaskBit | src/main/java/com/maksim/Bitset.java:43 | `1L << p` has bit `p` alone set |
| Layout.SetRaw | src/main/java/com/maksim/Bitset.java:35-47 | after `set(i, b)` the bit string is the old one with position `i` replaced by `b` |
| Layout.SetWordsPadding | src/main/java/com/maksim/Bitset.java:39-46 | setting a logical bit never touches the padding |
| Layout.MaskedNotBit | src/main/java/com/maksim/Bitset.java:127 | `~(w << p) >>> p` flips the bits below the padding and clears the top `p` bits |
| Layout.NotContents | src/main/java/com/maksim/Bitset.java:126-131 | after `notAssign` every logical bit is the negation of the old one |
| Layout.NotWordsPadding | src/main/java/com/maksim/Bitset.java:127 | after `notAssign` the padding is clear |
| Layout.NotNotWords | src/main/java/com/maksim/Bitset.java:126-131 | `notAssign` twice restores words with clear padding exactly |
| Layout.CombineRaw | src/main/java/com/maksim/Bitset.java:133-158 | bit `i` of the combination is the operator applied to bit `i` of both bitsets where the operand has one; beyond the operand it is clear for `and` and unchanged for `or`/`xor` |
| Layout.CombineSelf | src/main/java/com/maksim/Bitset.java:133-158 | combining the words with themselves gives all zeros for `xor` and the same words for `and` and `or` |
| Layout.CombinePadding | src/main/java/com/maksim/Bitset.java:133-158 | `and` keeps clear padding clear for any operand; `or`/`xor` keep it clear when the operand's padding is clear and it has no more logical bits than the receiver |
| Layout.SumBitCountRaw | src/main/java/com/maksim/Bitset.java:59-65 | the sum of the words' bit counts is the number of set positions |
| Layout.ClzAt | src/main/java/com/maksim/Bitset.java:67-78 | when words 0 .. i-1 are zero and word i is not, the clear run at the top is `64 * i + nlz(word i)` |
| Layout.CtzAt | src/main/java/com/maksim/Bitset.java:80-91 | when the words after i are zero and word i is not, the clear run at the bottom is `64 * (size - 1 - i) + ntz(word i)` |
| Layout.NextInWord | src/main/java/com/maksim/Bitset.java:108-112 | when `w >>> (bitIndex + 1)` is not zero, the next set position is `index + ntz(tmp) + 1`, inside the same word |
| Layout.NextRestClear | src/main/java/com/maksim/Bitset.java:108-113 | when `bitIndex` is 63 or the shifted word is zero, nothing is set above `index` in its word |
| Layout.NextSkip | src/main/java/com/maksim/Bitset.java:116-117 | a zero word extends the run of clear positions by 64 |
| Layout.NextLater | src/main/java/com/maksim/Bitset.java:116-119 | the first non-zero word reached holds the next set position, at its trailing-zero count |
| Words.BitwiseBit | src/main/java/com/maksim/Bitset.java:137 | and, or and xor act bit by bit |
| Words.BitwiseSelf | src/main/java/com/maksim/Bitset.java:137 | a word xor itself is 0; a word and-ed or or-ed with itself is unchanged |
| Words.NotBit | src/main/java/com/maksim/Bitset.java:129 | `~a` flips every one of the 64 bits |
| Words.ShlBit | src/main/java/com/maksim/Bitset.java:43 | bit `k` of `a << s` is bit `k - s` of `a`, and clear below `s` |
| Words.ShrBit | src/main/java/com/maksim/Bitset.java:55 | bit `k` of `a >>> s` is bit `s + k` of `a`, and clear from `64 - s` up |
| Words.SarBit | src/main/java/com/maksim/Bitset.java:169 | bit `k` of `a >> s` is bit `s + k` of `a`, and the sign bit from `64 - s` up |
| Words.LowBit | src/main/java/com/maksim/Bitset.java:55 | `x & 1` is 1 when bit 0 of `x` is set and 0 otherwise |
| Words.BitCountBits | src/main/java/com/maksim/Bitset.java:62 | `Long.bitCount(w)` is the number of set bits of `w` |
| Words.TrailingZeros | src/main/java/com/maksim/Bitset.java:86 | `Long.numberOfTrailingZeros(w)` is at most 64, is 64 exactly for 0, and is the position of the lowest set bit |
| Words.TrailingZerosBits | src/main/java/com/maksim/Bitset.java:86 | `Long.numberOfTrailingZeros(w)` is the clear run at the low end of the word's bits |
| Words.LeadingZeros | src/main/java/com/maksim/Bitset.java:73 | `Long.numberOfLeadingZeros(w)` is at most 64, is 64 exactly for 0, and counts the clear bits above the highest set bit |
| Words.LeadingZerosBits | src/main/java/com/maksim/Bitset.java:73 | `Long.numberOfLeadingZeros(w)` is the clear run at the high end of the word's bits |

## Left out

- Serialization is left out: `Serializable`, `serialVersionUID` and the unused `UUID` import (src/main/java/com/maksim/Bitset.java:3-5, 21-22). They carry no logic.
- The exception messages are left out. An exception is modelled as an `Err`/`Fail` value naming its class; its text is not modelled.
- Bitsets.Bitset.constructor: models `bitCount` and all index arithmetic as unbounded integers, so the 32-bit overflow of `bitCount + 63` at line 29, for `bitCount` within 63 of `Integer.MAX_VALUE`, is not modelled.
- Bitsets.Bitset.PopCount: the `int` accumulator is unbounded in the model. It cannot overflow except in the same extreme case as the constructor.
- `Long.bitCount`, `Long.numberOfLeadingZeros` and `Long.numberOfTrailingZeros` are modelled by what they compute, not by how the JDK implements them.
- A `long` is modelled by its unsigned value. The code only compares words with 0 and shifts them, and `>>` is modelled with its sign extension, so signedness changes nothing here.
- Bitsets.Bitset.Get: the `(int)` cast in `get` is not modelled separately. The cast keeps the low 32 bits, and `& 1` then keeps only bit 0, so the result is the same.
- Bitsets.Bitset.ToString: `StringBuilder` is replaced by a string value built by appending. `append` of the `long` 0 or 1 is modelled as the character `'0'` or `'1'`.
- Bitsets.Bitset.XorAssign: the contract promises `Valid()` afterwards only when the operand is valid and `bs.bitCount <= bitCount`. That condition is sufficient, not necessary. With a larger operand the padding may become set, as in the code, and the queries' raw-position contracts still describe what they then return.
- Bitsets.Bitset.OrAssign: the same condition as `XorAssign`.
- Bitsets.Bitset.CombinePaired, Bitsets.Bitset.NextAfter, Bitsets.Bitset.ScanWords, Bitsets.Bitset.AppendBits: these are parts of one Java method's body, pulled out as methods of their own to keep each proof small. The behaviour is the code's, with two changes of form. `findNext`'s early `return index + ntz(tmp) + 1` (line 111) becomes a `found` flag in `NextAfter`. The scan's `break` followed by `return result` (lines 119-122) becomes a `return` from `ScanWords`.
- Bitsets.Bitset.XorAssign, Bitsets.Bitset.AndAssign, Bitsets.Bitset.OrAssign: a `null` operand throws `NullPointerException` in Java. The model's operand `bs: Bitset` is a non-null reference, so that case is not modelled.
