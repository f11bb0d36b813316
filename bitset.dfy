/**
 * The bitset: `bitCount` logical bits packed into `size` words, updated in
 * place.  Logical bit `i` is bit `i % 64` of word `size - 1 - i / 64`, so
 * word 0 is the most significant and its top `prefixSize` bits are
 * padding.  The queries are specified over all `64 * size` positions, as
 * the code reads them, and again over the `bitCount` logical bits when the
 * padding is clear (`Valid`).
 */
module Bitsets {
  import opened BitStrings
  import opened Words
  import opened Layout

  /** The exceptions the bitset throws. */
  datatype Error = IllegalArgument | IndexOutOfBounds

  /** A value, or the exception thrown instead. */
  datatype Result<T> = Ok(value: T) | Err(error: Error)

  /** A void call that returns normally or throws. */
  datatype Outcome = Pass | Fail(error: Error)

  class Bitset {
    const prefixSize: nat
    const bitCount: nat
    const size: nat
    const bitset: array<Word>

    /** The shape the constructor establishes and nothing changes. */
    ghost predicate WellFormed()
    {
      0 < bitCount && prefixSize < 64 && bitset.Length == size &&
      64 * size - prefixSize == bitCount
    }

    /** All `64 * size` positions, padding included, logical bit 0 first. */
    ghost function RawBits(): (s: seq<bool>)
      reads bitset
      ensures |s| == 64 * bitset.Length
    {
      Raw(bitset[..])
    }

    /** The `bitCount` logical bits. */
    ghost function Contents(): (s: seq<bool>)
      requires WellFormed()
      reads bitset
      ensures |s| == bitCount
    {
      RawBits()[..bitCount]
    }

    /** Well formed, with the padding clear. */
    ghost predicate Valid()
      reads bitset
    {
      WellFormed() && PaddingClear(bitset[..], prefixSize)
    }

    lemma ValidTail()
      requires Valid()
      ensures NoneSet(RawBits()[bitCount..])
    {
      PaddingRaw(bitset[..], prefixSize);
    }

    /** With clear padding, the next set position is the next set logical
        bit, and "none" is `bitCount`. */
    lemma ValidNext(j: nat)
      requires Valid() && j <= bitCount
      ensures NextSet(Contents(), j) ==
        if NextSet(RawBits(), j) < 64 * size then NextSet(RawBits(), j) else bitCount
    {
      ValidTail();
      NextSetPrefix(RawBits(), bitCount, j);
    }

    /** `new Bitset(bitCount)` for a positive `bitCount`: every word zero. */
    constructor (bitCount: int)
      requires bitCount > 0
      ensures this.bitCount == bitCount
      ensures size == (bitCount + 63) / 64
      ensures prefixSize == (64 - bitCount % 64) % 64
      ensures fresh(bitset) && bitset[..] == Zeros(size)
      ensures Valid() && NoneSet(Contents())
    {
      this.bitCount := bitCount;
      size := (bitCount + 63) / 64;
      prefixSize := (64 - bitCount % 64) % 64;
      bitset := new Word[(bitCount + 63) / 64](_ => 0);
      new;
      var q, m := bitCount / 64, bitCount % 64;
      assert bitCount == 64 * q + m;
      if m == 0 {
        assert size == q && prefixSize == 0;
      } else {
        assert size == q + 1 && prefixSize == 64 - m;
      }
      assert bitset[..] == Zeros(size);
      assert WellFormed();
      assert PaddingClear(bitset[..], prefixSize) && NoneSet(Contents()) by {
        ZerosClear(size, prefixSize, bitCount);
      }
    }

    /** The constructor, with its exception: a non-positive `bitCount` is
        an illegal argument. */
    static method Create(bitCount: int) returns (r: Result<Bitset>)
      ensures bitCount <= 0 <==> r.Err?
      ensures r.Err? ==> r.error == IllegalArgument
      ensures r.Ok? ==> fresh(r.value) && fresh(r.value.bitset) && r.value.bitCount == bitCount
      ensures r.Ok? ==> r.value.Valid() && NoneSet(r.value.Contents())
    {
      if bitCount <= 0 {
        return Err(IllegalArgument);
      }
      var b := new Bitset(bitCount);
      return Ok(b);
    }

    /** `set(index, bit)`: logical bit `index` becomes `bit` and no other
        position changes; an index out of range throws and changes nothing. */
    method Set(index: int, bit: bool) returns (o: Outcome)
      requires WellFormed()
      modifies bitset
      ensures !(0 <= index < bitCount) ==> o == Fail(IndexOutOfBounds) && bitset[..] == old(bitset[..])
      ensures 0 <= index < bitCount ==> o == Pass && bitset[..] == SetWords(old(bitset[..]), index, bit)
      ensures 0 <= index < bitCount ==> RawBits() == old(RawBits())[index := bit]
      ensures 0 <= index < bitCount ==> Contents() == old(Contents())[index := bit]
      ensures old(Valid()) ==> Valid()
    {
      if index < 0 || index >= bitCount {
        return Fail(IndexOutOfBounds);
      }
      ghost var ws := bitset[..];
      var segmentIndex := size - 1 - index / 64;
      var bitIndex := index % 64;
      OneWord();
      if bit {
        bitset[segmentIndex] := Bitwise(Or, bitset[segmentIndex], Shl(1, bitIndex));
      } else {
        bitset[segmentIndex] := Bitwise(And, bitset[segmentIndex], Not(Shl(1, bitIndex)));
      }
      assert bitset[..] == SetWords(ws, index, bit);
      SetRaw(ws, index, bit);
      UpdatePrefix(Raw(ws), bitCount, index, bit);
      if old(Valid()) {
        SetWordsPadding(ws, prefixSize, index, bit);
      }
      o := Pass;
    }

    /** `get(index)`: 1 when logical bit `index` is set, else 0; an index
        out of range throws. */
    method Get(index: int) returns (r: Result<int>)
      requires WellFormed()
      ensures !(0 <= index < bitCount) ==> r == Err(IndexOutOfBounds)
      ensures 0 <= index < bitCount ==> r == Ok(if Contents()[index] then 1 else 0)
    {
      if index < 0 || index >= bitCount {
        return Err(IndexOutOfBounds);
      }
      var segmentIndex := size - 1 - index / 64;
      var bitIndex := index % 64;
      OneWord();
      var v := Bitwise(And, Shr(bitset[segmentIndex], bitIndex), 1);
      LowBit(Shr(bitset[segmentIndex], bitIndex));
      ShrBit(bitset[segmentIndex], bitIndex, 0);
      RawAt(bitset[..], index);
      return Ok(v);
    }

    /** `popCount()`: the number of set positions; with clear padding, the
        number of set logical bits. */
    method PopCount() returns (n: int)
      requires WellFormed()
      ensures n == Count(RawBits())
      ensures Valid() ==> n == Count(Contents())
    {
      n := 0;
      for i := 0 to size
        invariant n == SumBitCount(bitset[..i])
      {
        assert bitset[..i + 1][..i] == bitset[..i];
        n := n + BitCount(bitset[i]);
      }
      assert bitset[..size] == bitset[..];
      SumBitCountRaw(bitset[..]);
      if Valid() {
        ValidTail();
        CountPrefix(RawBits(), bitCount);
      }
    }

    /** `clz()`: the clear positions above the highest set one, less the
        padding; with clear padding, the clear logical bits above the
        highest set one, or `bitCount` when none is set. */
    method Clz() returns (n: int)
      requires WellFormed()
      ensures n == HighZeros(RawBits()) - prefixSize
      ensures Valid() ==> n == HighZeros(Contents())
    {
      n := -(prefixSize as int);
      var i := 0;
      while i < size
        invariant 0 <= i <= size
        invariant n == 64 * i - prefixSize
        invariant forall j :: 0 <= j < i ==> bitset[..][j] == 0
      {
        if bitset[i] == 0 {
          n := n + 64;
        } else {
          n := n + LeadingZeros(bitset[i]);
          ClzAt(bitset[..], i);
          break;
        }
        i := i + 1;
      }
      if i == size {
        assert HighZeros(RawBits()) == 64 * size by {
          ZeroRaw(bitset[..]);
          NoneSetRuns(RawBits());
        }
      }
      if Valid() {
        assert n == HighZeros(Contents()) by {
          ValidTail();
          HighZerosPrefix(RawBits(), bitCount);
        }
      }
    }

    /** `ctz()`: the clear positions below the lowest set one, which is
        `64 * size`, not `bitCount`, when no position is set. */
    method Ctz() returns (n: int)
      requires WellFormed()
      ensures n == LowZeros(RawBits())
      ensures Valid() ==> n == if NoneSet(Contents()) then 64 * size else LowZeros(Contents())
    {
      n := 0;
      var i := size - 1;
      while i >= 0
        invariant -1 <= i < size
        invariant n == 64 * (size - 1 - i)
        invariant forall j :: i < j < size ==> bitset[..][j] == 0
      {
        if bitset[i] == 0 {
          n := n + 64;
        } else {
          n := n + TrailingZeros(bitset[i]);
          CtzAt(bitset[..], i);
          break;
        }
        i := i - 1;
      }
      if i < 0 {
        assert LowZeros(RawBits()) == 64 * size by {
          ZeroRaw(bitset[..]);
          NoneSetRuns(RawBits());
        }
      }
      if Valid() {
        assert n == if NoneSet(Contents()) then 64 * size else LowZeros(Contents()) by {
          ValidTail();
          LowZerosPrefix(RawBits(), bitCount);
        }
      }
    }

    /** `findFirst()`: with clear padding, the lowest set logical bit, or
        `64 * size` when none is set. */
    method FindFirst() returns (n: int)
      requires WellFormed()
      ensures n == LowZeros(RawBits())
      ensures Valid() && NoneSet(Contents()) ==> n == 64 * size
      ensures Valid() && !NoneSet(Contents()) ==>
        n < bitCount && Contents()[n] && forall k :: 0 <= k < n ==> !Contents()[k]
    {
      n := Ctz();
    }

    /** `findLast()`: with clear padding, the highest set logical bit, or
        -1 when none is set. */
    method FindLast() returns (r: int)
      requires WellFormed()
      ensures r == bitCount - 1 - (HighZeros(RawBits()) - prefixSize)
      ensures Valid() ==> (r == -1 <==> NoneSet(Contents()))
      ensures Valid() && r != -1 ==>
        0 <= r < bitCount && Contents()[r] && forall k :: r < k < bitCount ==> !Contents()[k]
    {
      var n := Clz();
      r := bitCount - n - 1;
      if Valid() {
        ghost var c := Contents();
        assert n == HighZeros(c) && |c| == bitCount;
        assert (r == -1 <==> NoneSet(c)) &&
          (r != -1 ==> 0 <= r < bitCount && c[r] && forall k :: r < k < bitCount ==> !c[k]) by {
          if NoneSet(c) {
            NoneSetRuns(c);
          } else {
            HighestSet(c);
          }
        }
      }
    }

    /** `findNext(index)`: the first set position above `index`, or
        `bitCount` when no position above it is set; with clear padding,
        the next set logical bit or `bitCount`.  An index out of range
        throws. */
    method FindNext(index: int) returns (r: Result<int>)
      requires WellFormed()
      ensures !(0 <= index < bitCount) ==> r == Err(IndexOutOfBounds)
      ensures 0 <= index < bitCount ==>
        r == Ok(if NextSet(RawBits(), index + 1) < 64 * size then NextSet(RawBits(), index + 1) else bitCount)
      ensures Valid() && 0 <= index < bitCount ==> r == Ok(NextSet(Contents(), index + 1))
    {
      if index < 0 || index >= bitCount {
        return Err(IndexOutOfBounds);
      }
      var result := NextAfter(index);
      assert Valid() ==> result == NextSet(Contents(), index + 1) by {
        if Valid() {
          ValidNext(index + 1);
        }
      }
      return Ok(result);
    }

    /** The body of `findNext` past its range check: the rest of the word
        of `index` first, then the later words. */
    method NextAfter(index: int) returns (result: int)
      requires WellFormed() && 0 <= index < bitCount
      ensures result == if NextSet(RawBits(), index + 1) < 64 * size then NextSet(RawBits(), index + 1) else bitCount
    {
      var segmentIndex := size - 1 - index / 64;
      var bitIndex := index % 64;
      ghost var q := index / 64;
      assert index == 64 * q + bitIndex && q < size;
      ghost var ws := bitset[..];
      ghost var next := NextSet(Raw(ws), index + 1);
      assert next <= 64 * size && ws[|ws| - 1 - q] == bitset[segmentIndex];
      var found := false;
      result := 0;
      if bitIndex != 63 {
        var tmp := Shr(bitset[segmentIndex], bitIndex + 1);
        if tmp != 0 {
          NextInWord(ws, q, bitIndex);
          result, found := index + TrailingZeros(tmp) + 1, true;
        }
      }
      if !found {
        NextRestClear(ws, q, bitIndex);
        result := ScanWords(segmentIndex - 1, index + 1);
      }
    }

    /** The scan at the end of `findNext`: words `i0` down to 0, which a run
        of clear bits from `j` already reaches, are searched for the first
        non-zero one; its trailing zeros locate the next set position, and
        when every word is zero the result is `bitCount`. */
    method ScanWords(i0: int, ghost j: nat) returns (result: int)
      requires WellFormed() && -1 <= i0 < size && j <= 64 * size
      requires j <= 64 * (size - 1 - i0) <= NextSet(RawBits(), j)
      ensures result == if NextSet(RawBits(), j) < 64 * size then NextSet(RawBits(), j) else bitCount
    {
      ghost var ws := bitset[..];
      ghost var next := NextSet(Raw(ws), j);
      result := bitCount;
      var i := i0;
      while i >= 0
        invariant -1 <= i <= i0
        invariant 64 * (size - 1 - i) <= next
        invariant result == bitCount
      {
        if bitset[i] != 0 {
          NextLater(ws, j, i);
          result := 64 * (size - i - 1) + TrailingZeros(bitset[i]);
          assert next == result < 64 * size;
          return;
        }
        NextSkip(ws, j, i);
        i := i - 1;
      }
    }

    /** `notAssign()`: flips every logical bit and clears the padding. */
    method NotAssign()
      requires WellFormed()
      modifies bitset
      ensures bitset[..] == NotWords(old(bitset[..]), prefixSize)
      ensures Valid()
      ensures forall i :: 0 <= i < bitCount ==> Contents()[i] == !old(Contents())[i]
    {
      bitset[0] := MaskedNot(bitset[0], prefixSize);
      for i := 1 to size
        invariant forall j :: 0 <= j < i ==> bitset[j] == NotWords(old(bitset[..]), prefixSize)[j]
        invariant forall j :: i <= j < size ==> bitset[j] == old(bitset[j])
      {
        bitset[i] := Not(bitset[i]);
      }
      assert bitset[..] == NotWords(old(bitset[..]), prefixSize);
      NotWordsPadding(old(bitset[..]), prefixSize);
      NotContents(old(bitset[..]), prefixSize);
    }

    /** The loop `xorAssign`, `andAssign` and `orAssign` share: pairs the
        words of both bitsets from the least significant end and combines
        each pair into the receiver's word.  Returns the index of the
        receiver's most significant unpaired word, or -1. */
    method CombinePaired(op: Op, bs: Bitset) returns (in0: int)
      requires WellFormed() && bs.WellFormed()
      modifies bitset
      ensures in0 == if size <= bs.size then -1 else size - 1 - bs.size
      ensures forall j :: in0 < j < size ==>
        bitset[j] == CombineWords(op, old(bitset[..]), old(bs.bitset[..]))[j]
      ensures forall j :: 0 <= j <= in0 ==> bitset[j] == old(bitset[j])
    {
      ghost var ws, os := bitset[..], bs.bitset[..];
      ghost var target := CombineWords(op, ws, os);
      in0 := size - 1;
      var in1 := bs.size - 1;
      while in0 >= 0 && in1 >= 0
        invariant in0 - in1 == size - bs.size
        invariant -1 <= in0 < size && -1 <= in1 < bs.size
        invariant forall j :: in0 < j < size ==> bitset[j] == target[j]
        invariant forall j :: 0 <= j <= in0 ==> bitset[j] == ws[j]
        invariant forall j :: 0 <= j <= in1 ==> bs.bitset[j] == os[j]
      {
        assert target[in0] == Bitwise(op, ws[in0], os[in1]);
        bitset[in0] := Bitwise(op, bitset[in0], bs.bitset[in1]);
        in0, in1 := in0 - 1, in1 - 1;
      }
    }

    /** `xorAssign(bs)`: each paired word becomes the xor of the two; the
        receiver's unpaired words are kept.  With no more logical bits in
        `bs` than in the receiver, the padding stays clear. */
    method XorAssign(bs: Bitset)
      requires WellFormed() && bs.WellFormed()
      modifies bitset
      ensures bitset[..] == CombineWords(Xor, old(bitset[..]), old(bs.bitset[..]))
      ensures bs.bitset != bitset ==> bs.bitset[..] == old(bs.bitset[..])
      ensures old(Valid()) && old(bs.Valid()) && bs.bitCount <= bitCount ==> Valid()
    {
      var in0 := CombinePaired(Xor, bs);
      assert bitset[..] == CombineWords(Xor, old(bitset[..]), old(bs.bitset[..]));
      if old(Valid()) && old(bs.Valid()) && bs.bitCount <= bitCount {
        CombinePadding(Xor, old(bitset[..]), old(bs.bitset[..]), prefixSize, bs.prefixSize);
      }
    }

    /** `andAssign(bs)`: each paired word becomes the and of the two; the
        receiver's unpaired words are zeroed.  The padding stays clear,
        whatever the operand's padding holds. */
    method AndAssign(bs: Bitset)
      requires WellFormed() && bs.WellFormed()
      modifies bitset
      ensures bitset[..] == CombineWords(And, old(bitset[..]), old(bs.bitset[..]))
      ensures bs.bitset != bitset ==> bs.bitset[..] == old(bs.bitset[..])
      ensures old(Valid()) ==> Valid()
    {
      var in0 := CombinePaired(And, bs);
      ghost var target := CombineWords(And, old(bitset[..]), old(bs.bitset[..]));
      while in0 >= 0
        invariant -1 <= in0 < size
        invariant forall j :: in0 < j < size ==> bitset[j] == target[j]
      {
        assert target[in0] == 0;
        bitset[in0] := 0;
        in0 := in0 - 1;
      }
      assert bitset[..] == target;
      if old(Valid()) {
        CombinePadding(And, old(bitset[..]), old(bs.bitset[..]), prefixSize, bs.prefixSize);
      }
    }

    /** `orAssign(bs)`: each paired word becomes the or of the two; the
        receiver's unpaired words are kept.  With no more logical bits in
        `bs` than in the receiver, the padding stays clear. */
    method OrAssign(bs: Bitset)
      requires WellFormed() && bs.WellFormed()
      modifies bitset
      ensures bitset[..] == CombineWords(Or, old(bitset[..]), old(bs.bitset[..]))
      ensures bs.bitset != bitset ==> bs.bitset[..] == old(bs.bitset[..])
      ensures old(Valid()) && old(bs.Valid()) && bs.bitCount <= bitCount ==> Valid()
    {
      var in0 := CombinePaired(Or, bs);
      assert bitset[..] == CombineWords(Or, old(bitset[..]), old(bs.bitset[..]));
      if old(Valid()) && old(bs.Valid()) && bs.bitCount <= bitCount {
        CombinePadding(Or, old(bitset[..]), old(bs.bitset[..]), prefixSize, bs.prefixSize);
      }
    }

    /** `getSize()`: the number of logical bits. */
    method GetSize() returns (n: int)
      requires WellFormed()
      ensures n == |Contents()|
    {
      n := bitCount;
    }

    /** `toString()`: the logical bits in brackets, most significant first,
        each as the digit 0 or 1. */
    method ToString() returns (s: string)
      requires WellFormed()
      ensures s == "[" + Text(Contents()) + "]"
    {
      s := "[";
      s := AppendBits(s, 0, 64 - prefixSize);
      for w := 1 to size
        invariant s == "[" + Text(Contents()[64 * (size - w)..])
      {
        s := AppendBits(s, w, 64);
      }
      assert Contents()[0..] == Contents();
      s := s + "]";
    }

    /** The inner loops of `toString`: appends `(bitset[w] >> j) & 1` for
        `j` from `hi - 1` down to 0, which writes the logical bits of word
        `w` below position `hi`, most significant first. */
    method AppendBits(s0: string, w: nat, hi: nat) returns (s: string)
      requires WellFormed() && w < size && hi <= 64 && (0 < w || hi <= 64 - prefixSize)
      requires s0 == "[" + Text(Contents()[64 * (size - 1 - w) + hi..])
      ensures s == "[" + Text(Contents()[64 * (size - 1 - w)..])
    {
      OneWord();
      ghost var base := 64 * (size - 1 - w);
      ghost var m := base + hi;
      s := s0;
      var j := hi - 1;
      while j >= 0
        invariant -1 <= j < hi
        invariant m == base + j + 1
        invariant s == "[" + Text(Contents()[m..])
      {
        var v := Bitwise(And, Sar(bitset[w], j), 1);
        DigitStep(s, w, j, m);
        s, m := s + [Digit(v == 1)], m - 1;
        j := j - 1;
      }
      assert m == base;
    }

    /** One step of `AppendBits`: the digit of bit `j` of word `w` extends
        the text down to logical bit `m - 1`. */
    lemma DigitStep(s: string, w: nat, j: nat, m: nat)
      requires WellFormed() && w < size && j < 64 && (0 < w || j < 64 - prefixSize)
      requires m == 64 * (size - 1 - w) + j + 1
      requires s == "[" + Text(Contents()[m..])
      ensures m <= bitCount
      ensures s + [Digit(Bitwise(And, Sar(bitset[w], j), 1) == 1)] == "[" + Text(Contents()[m - 1..])
    {
      DigitAt(w, j, m - 1);
      TextStep(s, Contents(), m);
    }

    /** `(bitset[w] >> j) & 1`, for bit `j` of word `w` below the padding,
        is 1 exactly when logical bit `k = 64 * (size - 1 - w) + j` is set. */
    lemma DigitAt(w: nat, j: nat, k: int)
      requires WellFormed() && w < size && j < 64 && (0 < w || j < 64 - prefixSize)
      requires k == 64 * (size - 1 - w) + j
      ensures 0 <= k < bitCount
      ensures (Bitwise(And, Sar(bitset[w], j), 1) == 1) == Contents()[k]
    {
      AppendedBit(bitset[w], j);
      RawWord(bitset[..], w, j);
    }
  }

  /** `(w >> i) & 1` is bit `i` of `w`, as the number 0 or 1. */
  lemma AppendedBit(w: Word, i: nat)
    requires i < 64
    ensures Bitwise(And, Sar(w, i), 1) == if Bit(w, i) then 1 else 0
  {
    LowBit(Sar(w, i));
    SarBit(w, i, 0);
  }

  /** On a fresh one-bit bitset, nothing is set: `findFirst()` gives
      `64 * size`, which is 64 and not the `bitCount` of 1, and
      `findLast()` gives -1. */
  method EmptyEnds() returns (first: int, last: int, count: int)
    ensures count == 1 && first == 64 && last == -1
  {
    var b := new Bitset(1);
    first := b.FindFirst();
    last := b.FindLast();
    count := b.GetSize();
  }
}
