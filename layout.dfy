/**
 * How the bitset lays its bits out in the word array, and what the
 * word-level updates of the array mean bit by bit.
 *
 * Logical bit `i` lives in word `size - 1 - i / 64` at position `i % 64`:
 * the last word holds bits 0 .. 63 and word 0 the most significant bits,
 * whose top `prefixSize` positions are padding.  `Raw(ws)` is the bit
 * string of all `64 * |ws|` positions, padding included, indexed by logical
 * bit number.
 */
module Layout {
  import opened BitStrings
  import opened Words

  /** The word that holds logical bit `i` of an array of `size` words. */
  function Segment(size: nat, i: nat): int
  {
    size - 1 - i / 64
  }

  /** All the bits of a word array, logical bit 0 first. */
  function Raw(ws: seq<Word>): (s: seq<bool>)
    ensures |s| == 64 * |ws|
  {
    if |ws| == 0 then [] else WordBits(ws[|ws| - 1]) + Raw(ws[..|ws| - 1])
  }

  /** Logical bit `i` is bit `i % 64` of word `Segment(|ws|, i)`. */
  lemma {:induction false} RawAt(ws: seq<Word>, i: nat)
    requires i < 64 * |ws|
    ensures Raw(ws)[i] == Bit(ws[Segment(|ws|, i)], i % 64)
    decreases |ws|
  {
    var init := ws[..|ws| - 1];
    if i >= 64 {
      RawAt(init, i - 64);
      assert (i - 64) / 64 == i / 64 - 1;
      assert init[Segment(|init|, i - 64)] == ws[Segment(|ws|, i)];
    }
  }

  /** Bit `k` of word `j` is logical bit `64 * (|ws| - 1 - j) + k`. */
  lemma RawWord(ws: seq<Word>, j: nat, k: nat)
    requires j < |ws| && k < 64
    ensures Raw(ws)[64 * (|ws| - 1 - j) + k] == Bit(ws[j], k)
  {
    var i := 64 * (|ws| - 1 - j) + k;
    assert i / 64 == |ws| - 1 - j && i % 64 == k;
    RawAt(ws, i);
  }

  /** An array of zero words has no bit set. */
  lemma ZeroRaw(ws: seq<Word>)
    requires forall j :: 0 <= j < |ws| ==> ws[j] == 0
    ensures NoneSet(Raw(ws))
  {
    forall i | 0 <= i < |Raw(ws)|
      ensures !Raw(ws)[i]
    {
      RawAt(ws, i);
      ZeroBit(i % 64);
    }
  }

  /** The bits of an array of `n` zero words. */
  function Zeros(n: nat): (ws: seq<Word>)
    ensures |ws| == n
    ensures NoneSet(Raw(ws))
  {
    var ws := seq(n, _ => 0);
    ZeroRaw(ws);
    ws
  }

  /** With no bit set, both runs are the whole string. */
  lemma NoneSetRuns(s: seq<bool>)
    requires NoneSet(s)
    ensures HighZeros(s) == |s| && LowZeros(s) == |s|
  {
  }

  /** With some bit set, the clear run at the top stops below the length,
      at the highest set bit. */
  lemma HighestSet(s: seq<bool>)
    requires !NoneSet(s)
    ensures var r := |s| - 1 - HighZeros(s);
      0 <= r < |s| && s[r] && forall k :: r < k < |s| ==> !s[k]
  {
  }

  /** The position after `j` of the next set bit of `s`, or `|s|`. */
  function NextSet(s: seq<bool>, j: nat): (r: nat)
    requires j <= |s|
    ensures j <= r <= |s|
    ensures forall k :: j <= k < r ==> !s[k]
    ensures r < |s| ==> s[r]
  {
    j + LowZeros(s[j..])
  }

  /** `NextSet` is the only position with its defining properties. */
  lemma NextSetUnique(s: seq<bool>, j: nat, r: nat)
    requires j <= r <= |s|
    requires forall k :: j <= k < r ==> !s[k]
    requires r < |s| ==> s[r]
    ensures NextSet(s, j) == r
  {
    var t := s[j..];
    forall k | 0 <= k < r - j
      ensures !t[k]
    {
      assert t[k] == s[j + k];
    }
    if r < |s| {
      assert t[r - j] == s[r];
    }
    LowZerosUnique(t, r - j);
  }

  /** Past the clear tail of `s`, the next set bit is the same in `s` and
      in its prefix `s[..n]`, except that "none" is `|s|` in one and `n`
      in the other. */
  lemma NextSetPrefix(s: seq<bool>, n: nat, j: nat)
    requires j <= n <= |s| && NoneSet(s[n..])
    ensures NextSet(s[..n], j) == if NextSet(s, j) < |s| then NextSet(s, j) else n
  {
    var r := NextSet(s, j);
    var t := s[..n];
    forall k | n <= k < |s|
      ensures !s[k]
    {
      assert s[n..][k - n] == s[k];
    }
    forall k | j <= k < n
      ensures t[k] == s[k]
    {
    }
    if r < |s| {
      NextSetUnique(t, j, r);
    } else {
      NextSetUnique(t, j, n);
    }
  }

  /** A clear tail `s[n..]` adds its length to the high run. */
  lemma HighZerosPrefix(s: seq<bool>, n: nat)
    requires n <= |s| && NoneSet(s[n..])
    ensures HighZeros(s) == (|s| - n) + HighZeros(s[..n])
  {
    assert s == s[..n] + s[n..];
    HighZerosAppend(s[..n], s[n..]);
  }

  /** A clear tail `s[n..]` adds nothing to the count. */
  lemma CountPrefix(s: seq<bool>, n: nat)
    requires n <= |s| && NoneSet(s[n..])
    ensures Count(s) == Count(s[..n])
  {
    assert s == s[..n] + s[n..];
    CountAppend(s[..n], s[n..]);
  }

  /** Under a clear tail `s[n..]`, the low run is that of `s[..n]`, unless
      `s[..n]` is clear too, when it is all of `s`. */
  lemma LowZerosPrefix(s: seq<bool>, n: nat)
    requires n <= |s| && NoneSet(s[n..])
    ensures LowZeros(s) == if NoneSet(s[..n]) then |s| else LowZeros(s[..n])
  {
    assert s == s[..n] + s[n..];
    LowZerosAppend(s[..n], s[n..]);
    if NoneSet(s[..n]) {
      NoneSetRuns(s[n..]);
    }
  }

  // ---------------------------------------------------------------------
  // set(index, bit)

  /** The word after setting or clearing bit `p`: `w | (1L << p)` or
      `w & ~(1L << p)`. */
  function SetWord(w: Word, p: nat, b: bool): Word
  {
    OneWord();
    if b then Bitwise(Or, w, Shl(1, p)) else Bitwise(And, w, Not(Shl(1, p)))
  }

  /** `1L << p` has bit `p` alone set. */
  lemma MaskBit(p: nat, k: nat)
    requires p < 64 && k < 64
    ensures Bit(Shl(1, p), k) == (k == p)
  {
    OneWord();
    ShlBit(1, p, k);
    if p <= k {
      OneBit(k - p);
    }
  }

  /** Only bit `p` changes, and it becomes `b`. */
  lemma SetWordBit(w: Word, p: nat, b: bool, k: nat)
    requires p < 64 && k < 64
    ensures Bit(SetWord(w, p, b), k) == if k == p then b else Bit(w, k)
  {
    OneWord();
    var mask := Shl(1, p);
    MaskBit(p, k);
    if b {
      BitwiseBit(Or, w, mask, k);
    } else {
      NotBit(mask, k);
      BitwiseBit(And, w, Not(mask), k);
    }
  }

  /** The word array after `set(i, b)`. */
  function SetWords(ws: seq<Word>, i: nat, b: bool): seq<Word>
    requires i < 64 * |ws|
  {
    var seg := Segment(|ws|, i);
    ws[seg := SetWord(ws[seg], i % 64, b)]
  }

  /** At the word level, `set(i, b)` changes bit `i` only. */
  lemma SetWordsBit(ws: seq<Word>, i: nat, b: bool, j: nat)
    requires i < 64 * |ws| && j < 64 * |ws|
    ensures Bit(SetWords(ws, i, b)[Segment(|ws|, j)], j % 64) ==
      if j == i then b else Bit(ws[Segment(|ws|, j)], j % 64)
  {
    var seg := Segment(|ws|, j);
    if seg == Segment(|ws|, i) {
      SetWordBit(ws[seg], i % 64, b, j % 64);
      assert (j % 64 == i % 64) == (j == i);
    } else {
      assert j != i;
    }
  }

  /** `set(i, b)` makes logical bit `i` equal to `b` and leaves every other
      bit, padding included, as it was. */
  lemma SetRaw(ws: seq<Word>, i: nat, b: bool)
    requires i < 64 * |ws|
    ensures Raw(SetWords(ws, i, b)) == Raw(ws)[i := b]
  {
    forall j | 0 <= j < 64 * |ws|
      ensures Raw(SetWords(ws, i, b))[j] == if j == i then b else Raw(ws)[j]
    {
      SetRawAt(ws, i, b, j);
    }
    UpdateExt(Raw(ws), Raw(SetWords(ws, i, b)), i, b);
  }

  lemma UpdateExt(s: seq<bool>, t: seq<bool>, i: nat, b: bool)
    requires |t| == |s| && i < |s|
    requires forall j :: 0 <= j < |s| ==> t[j] == if j == i then b else s[j]
    ensures t == s[i := b]
  {
  }

  /** Updating a position inside a prefix commutes with taking the prefix. */
  lemma UpdatePrefix(s: seq<bool>, n: nat, i: nat, b: bool)
    requires i < n <= |s|
    ensures s[i := b][..n] == s[..n][i := b]
  {
  }

  lemma SetRawAt(ws: seq<Word>, i: nat, b: bool, j: nat)
    requires i < 64 * |ws| && j < 64 * |ws|
    ensures Raw(SetWords(ws, i, b))[j] == if j == i then b else Raw(ws)[j]
  {
    RawAt(SetWords(ws, i, b), j);
    RawAt(ws, j);
    SetWordsBit(ws, i, b, j);
  }

  // ---------------------------------------------------------------------
  // notAssign()

  /** Word 0 after `notAssign`: `~(w << p) >>> p` flips the bits below the
      `p` padding positions and clears the padding. */
  function MaskedNot(w: Word, p: nat): Word
  {
    Shr(Not(Shl(w, p)), p)
  }

  lemma MaskedNotBit(w: Word, p: nat, k: nat)
    requires p < 64 && k < 64
    ensures Bit(MaskedNot(w, p), k) == (k < 64 - p && !Bit(w, k))
  {
    ShrBit(Not(Shl(w, p)), p, k);
    if p + k < 64 {
      NotBit(Shl(w, p), p + k);
      ShlBit(w, p, p + k);
    }
  }

  /** The word array after `notAssign` with `p` padding bits. */
  function NotWords(ws: seq<Word>, p: nat): (r: seq<Word>)
    ensures |r| == |ws|
  {
    seq(|ws|, j requires 0 <= j < |ws| => if j == 0 then MaskedNot(ws[0], p) else Not(ws[j]))
  }

  /** At the word level, `notAssign` flips bit `i` below the padding and
      clears it in the padding. */
  lemma NotWordsBit(ws: seq<Word>, p: nat, i: nat)
    requires p < 64 && i < 64 * |ws|
    ensures Bit(NotWords(ws, p)[Segment(|ws|, i)], i % 64) ==
      (i < 64 * |ws| - p && !Bit(ws[Segment(|ws|, i)], i % 64))
  {
    var seg := Segment(|ws|, i);
    if seg == 0 {
      MaskedNotBit(ws[0], p, i % 64);
    } else {
      NotBit(ws[seg], i % 64);
    }
  }

  /** `notAssign` flips every bit below the padding and clears the padding. */
  lemma NotRaw(ws: seq<Word>, p: nat, i: nat)
    requires p < 64 && i < 64 * |ws|
    ensures Raw(NotWords(ws, p))[i] == (i < 64 * |ws| - p && !Raw(ws)[i])
  {
    RawAt(NotWords(ws, p), i);
    RawAt(ws, i);
    NotWordsBit(ws, p, i);
  }

  /** The top `p` bits of word 0, the padding, are clear. */
  predicate PaddingClear(ws: seq<Word>, p: nat)
  {
    |ws| > 0 ==> forall k :: 64 - p <= k < 64 ==> !Bit(ws[0], k)
  }

  /** Zero words have clear padding and no bit set in any prefix. */
  lemma ZerosClear(n: nat, p: nat, m: nat)
    requires m <= 64 * n
    ensures PaddingClear(Zeros(n), p) && NoneSet(Raw(Zeros(n))[..m])
  {
    forall k | 64 - p <= k < 64
      ensures !Bit(0, k)
    {
      ZeroBit(k);
    }
  }

  /** The padding bits are the top `p` bits of word 0, so a clear tail of
      the bit string of length `p` is clear padding. */
  lemma PaddingClearRaw(ws: seq<Word>, p: nat)
    requires p <= 64 && p <= 64 * |ws|
    requires NoneSet(Raw(ws)[64 * |ws| - p..])
    ensures PaddingClear(ws, p)
  {
    if |ws| > 0 {
      forall k | 64 - p <= k < 64
        ensures !Bit(ws[0], k)
      {
        PaddingBit(ws, p, k);
      }
    }
  }

  lemma PaddingBit(ws: seq<Word>, p: nat, k: nat)
    requires p <= 64 * |ws| && 0 < |ws| && 64 - p <= k < 64
    requires NoneSet(Raw(ws)[64 * |ws| - p..])
    ensures !Bit(ws[0], k)
  {
    var n := 64 * |ws|;
    var i := 64 * (|ws| - 1) + k;
    RawWord(ws, 0, k);
    assert Raw(ws)[n - p..][i - (n - p)] == Raw(ws)[i];
  }

  /** Clear padding is a clear tail of the bit string of length `p`. */
  lemma PaddingRaw(ws: seq<Word>, p: nat)
    requires p < 64 && 0 < |ws| && PaddingClear(ws, p)
    ensures NoneSet(Raw(ws)[64 * |ws| - p..])
  {
    var n := 64 * |ws|;
    var tail := Raw(ws)[n - p..];
    forall k | 0 <= k < p
      ensures !tail[k]
    {
      PaddingRawAt(ws, p, k);
    }
  }

  lemma PaddingRawAt(ws: seq<Word>, p: nat, k: nat)
    requires k < p < 64 && 0 < |ws| && PaddingClear(ws, p)
    ensures !Raw(ws)[64 * |ws| - p + k]
  {
    var m := 64 - p + k;
    assert !Bit(ws[0], m);
    RawWord(ws, 0, m);
  }

  /** `set` below the padding leaves the padding as it was. */
  lemma SetWordsPadding(ws: seq<Word>, p: nat, i: nat, b: bool)
    requires p < 64 && i < 64 * |ws| - p && PaddingClear(ws, p)
    ensures PaddingClear(SetWords(ws, i, b), p)
  {
    var q, m := i / 64, i % 64;
    assert i == 64 * q + m;
    forall k | 64 - p <= k < 64
      ensures !Bit(SetWords(ws, i, b)[0], k)
    {
      if Segment(|ws|, i) == 0 {
        SetWordBit(ws[0], m, b, k);
      }
    }
  }

  /** `notAssign` flips every logical bit below the padding. */
  lemma NotContents(ws: seq<Word>, p: nat)
    requires p < 64 && p <= 64 * |ws|
    ensures forall i :: 0 <= i < 64 * |ws| - p ==> Raw(NotWords(ws, p))[i] == !Raw(ws)[i]
  {
    forall i | 0 <= i < 64 * |ws| - p
      ensures Raw(NotWords(ws, p))[i] == !Raw(ws)[i]
    {
      NotRaw(ws, p, i);
    }
  }

  /** `notAssign` leaves the padding clear, whatever it held before. */
  lemma NotWordsPadding(ws: seq<Word>, p: nat)
    requires p < 64
    ensures PaddingClear(NotWords(ws, p), p)
  {
    if |ws| > 0 {
      forall k | 64 - p <= k < 64
        ensures !Bit(NotWords(ws, p)[0], k)
      {
        MaskedNotBit(ws[0], p, k);
      }
    }
  }

  /** With the padding clear, `notAssign` twice restores the array. */
  lemma NotNotWords(ws: seq<Word>, p: nat)
    requires p < 64 && PaddingClear(ws, p)
    ensures NotWords(NotWords(ws, p), p) == ws
  {
    var twice := NotWords(NotWords(ws, p), p);
    forall j | 0 <= j < |ws|
      ensures twice[j] == ws[j]
    {
      NotNotWord(ws, p, j);
    }
  }

  lemma NotNotWord(ws: seq<Word>, p: nat, j: nat)
    requires p < 64 && j < |ws| && PaddingClear(ws, p)
    ensures NotWords(NotWords(ws, p), p)[j] == ws[j]
  {
    var w := ws[j];
    if j == 0 {
      forall k | 0 <= k < 64
        ensures Bit(MaskedNot(MaskedNot(w, p), p), k) == Bit(w, k)
      {
        MaskedNotBit(MaskedNot(w, p), p, k);
        MaskedNotBit(w, p, k);
      }
      WordsEqual(MaskedNot(MaskedNot(w, p), p), w);
    } else {
      forall k | 0 <= k < 64
        ensures Bit(Not(Not(w)), k) == Bit(w, k)
      {
        NotBit(Not(w), k);
        NotBit(w, k);
      }
      WordsEqual(Not(Not(w)), w);
    }
  }

  // ---------------------------------------------------------------------
  // xorAssign, andAssign, orAssign

  /** The receiver's words after `andAssign`, `orAssign` or `xorAssign`
      with an operand whose words are `os`: words are paired from the least
      significant end; `&` zeroes the receiver's unpaired words, `|` and
      `^` leave them. */
  function CombineWords(op: Op, ws: seq<Word>, os: seq<Word>): (r: seq<Word>)
    ensures |r| == |ws|
  {
    seq(|ws|, j requires 0 <= j < |ws| =>
      if |ws| - 1 - j < |os| then Bitwise(op, ws[j], os[|os| - 1 - (|ws| - 1 - j)])
      else if op == And then 0
      else ws[j])
  }

  /** At the word level, each bit of the result combines the bits of the
      two words that hold the same logical index. */
  lemma CombineWordsBit(op: Op, ws: seq<Word>, os: seq<Word>, i: nat)
    requires i < 64 * |ws|
    ensures Bit(CombineWords(op, ws, os)[Segment(|ws|, i)], i % 64) ==
      if i < 64 * |os| then Apply(op, Bit(ws[Segment(|ws|, i)], i % 64), Bit(os[Segment(|os|, i)], i % 64))
      else op != And && Bit(ws[Segment(|ws|, i)], i % 64)
  {
    var r := CombineWords(op, ws, os);
    var seg := Segment(|ws|, i);
    if i < 64 * |os| {
      assert r[seg] == Bitwise(op, ws[seg], os[Segment(|os|, i)]);
      BitwiseBit(op, ws[seg], os[Segment(|os|, i)], i % 64);
    } else if op == And {
      assert r[seg] == 0;
      ZeroBit(i % 64);
    } else {
      assert r[seg] == ws[seg];
    }
  }

  /** Each bit of the result is the operator applied to the two operands'
      bits with the same logical index; past the operand's length, `&`
      clears and `|`, `^` keep. */
  lemma CombineRaw(op: Op, ws: seq<Word>, os: seq<Word>, i: nat)
    requires i < 64 * |ws|
    ensures Raw(CombineWords(op, ws, os))[i] ==
      if i < 64 * |os| then Apply(op, Raw(ws)[i], Raw(os)[i])
      else op != And && Raw(ws)[i]
  {
    CombineWordsBit(op, ws, os, i);
    RawAt(CombineWords(op, ws, os), i);
    RawAt(ws, i);
    if i < 64 * |os| {
      RawAt(os, i);
    }
  }

  /** Combining an array with itself: `x ^= x` clears, `x &= x` and
      `x |= x` change nothing. */
  lemma CombineSelf(op: Op, ws: seq<Word>)
    ensures CombineWords(op, ws, ws) == if op == Xor then Zeros(|ws|) else ws
  {
    var r := CombineWords(op, ws, ws);
    var e := if op == Xor then Zeros(|ws|) else ws;
    forall j | 0 <= j < |ws|
      ensures r[j] == e[j]
    {
      BitwiseSelf(op, ws[j]);
    }
  }

  /** `andAssign` keeps a clear tail clear; `orAssign` and `xorAssign` do
      too when the operand's own clear tail starts no later. */
  lemma CombineTail(op: Op, ws: seq<Word>, os: seq<Word>, n: nat, m: nat)
    requires n <= 64 * |ws| && NoneSet(Raw(ws)[n..])
    requires op != And ==> m <= n && m <= 64 * |os| && NoneSet(Raw(os)[m..])
    ensures NoneSet(Raw(CombineWords(op, ws, os))[n..])
  {
    var r := CombineWords(op, ws, os);
    forall i | n <= i < 64 * |ws|
      ensures !Raw(r)[i]
    {
      CombineRaw(op, ws, os, i);
      assert Raw(ws)[n..][i - n] == Raw(ws)[i];
      if op != And && i < 64 * |os| {
        assert Raw(os)[m..][i - m] == Raw(os)[i];
      }
    }
  }

  /** `andAssign` keeps the padding clear, whatever the operand holds;
      `orAssign` and `xorAssign` do too when the operand's padding is clear
      and it has no more logical bits than the receiver. */
  lemma CombinePadding(op: Op, ws: seq<Word>, os: seq<Word>, p: nat, po: nat)
    requires p < 64 && po < 64 && 0 < |ws| && 0 < |os|
    requires PaddingClear(ws, p)
    requires op != And ==> PaddingClear(os, po) && 64 * |os| - po <= 64 * |ws| - p
    ensures PaddingClear(CombineWords(op, ws, os), p)
  {
    PaddingRaw(ws, p);
    if op != And {
      PaddingRaw(os, po);
    }
    CombineTail(op, ws, os, 64 * |ws| - p, 64 * |os| - po);
    PaddingClearRaw(CombineWords(op, ws, os), p);
  }

  // ---------------------------------------------------------------------
  // popCount()

  /** The sum of `Long.bitCount` over the words. */
  function SumBitCount(ws: seq<Word>): nat
  {
    if |ws| == 0 then 0 else SumBitCount(ws[..|ws| - 1]) + BitCount(ws[|ws| - 1])
  }

  /** Summing `Long.bitCount` counts the set bits of the whole array. */
  lemma {:induction false} SumBitCountRaw(ws: seq<Word>)
    ensures SumBitCount(ws) == Count(Raw(ws))
  {
    if |ws| > 0 {
      SumBitCountRaw(ws[..|ws| - 1]);
      BitCountBits(ws[|ws| - 1]);
      CountAppend(WordBits(ws[|ws| - 1]), Raw(ws[..|ws| - 1]));
    }
  }

  // ---------------------------------------------------------------------
  // clz() and ctz()

  /** Below leading zero words, the high run ends in the first non-zero
      word. */
  lemma ClzAt(ws: seq<Word>, i: nat)
    requires i < |ws| && ws[i] != 0
    requires forall j :: 0 <= j < i ==> ws[j] == 0
    ensures HighZeros(Raw(ws)) == 64 * i + LeadingZeros(ws[i])
  {
    var r := 64 * i + LeadingZeros(ws[i]);
    forall k | 64 * |ws| - r <= k < 64 * |ws|
      ensures !Raw(ws)[k]
    {
      ClzClear(ws, i, k);
    }
    RawWord(ws, i, 63 - LeadingZeros(ws[i]));
    HighZerosUnique(Raw(ws), r);
  }

  lemma ClzClear(ws: seq<Word>, i: nat, k: nat)
    requires i < |ws| && ws[i] != 0
    requires forall j :: 0 <= j < i ==> ws[j] == 0
    requires 64 * |ws| - (64 * i + LeadingZeros(ws[i])) <= k < 64 * |ws|
    ensures !Raw(ws)[k]
  {
    RawAt(ws, k);
    var q, m := k / 64, k % 64;
    assert k == 64 * q + m;
    var seg := |ws| - 1 - q;
    assert seg <= i;
    if seg < i {
      ZeroBit(m);
    } else {
      assert 64 - LeadingZeros(ws[i]) <= m;
    }
  }

  /** Above trailing zero words, the low run ends in the last non-zero
      word. */
  lemma CtzAt(ws: seq<Word>, i: nat)
    requires i < |ws| && ws[i] != 0
    requires forall j :: i < j < |ws| ==> ws[j] == 0
    ensures LowZeros(Raw(ws)) == 64 * (|ws| - 1 - i) + TrailingZeros(ws[i])
  {
    var r := 64 * (|ws| - 1 - i) + TrailingZeros(ws[i]);
    forall k | 0 <= k < r
      ensures !Raw(ws)[k]
    {
      CtzClear(ws, i, k);
    }
    RawWord(ws, i, TrailingZeros(ws[i]));
    LowZerosUnique(Raw(ws), r);
  }

  lemma CtzClear(ws: seq<Word>, i: nat, k: nat)
    requires i < |ws| && ws[i] != 0
    requires forall j :: i < j < |ws| ==> ws[j] == 0
    requires k < 64 * (|ws| - 1 - i) + TrailingZeros(ws[i])
    ensures !Raw(ws)[k]
  {
    RawAt(ws, k);
    var q, m := k / 64, k % 64;
    assert k == 64 * q + m;
    var seg := Segment(|ws|, k);
    if seg > i {
      ZeroBit(m);
    }
  }

  // ---------------------------------------------------------------------
  // findNext(index), for index = 64 * q + b: word |ws| - 1 - q, bit b.

  /** Bit `m` of `w >>> (b + 1)`, for `w` the word of logical bit
      `64 * q + b`, is logical bit `64 * q + b + 1 + m`. */
  lemma RawShr(ws: seq<Word>, q: nat, b: nat, m: nat)
    requires q < |ws| && b + 1 + m < 64
    ensures Raw(ws)[64 * q + b + 1 + m] == Bit(Shr(ws[|ws| - 1 - q], b + 1), m)
  {
    ShrBit(ws[|ws| - 1 - q], b + 1, m);
    RawWord(ws, |ws| - 1 - q, b + 1 + m);
  }

  /** The bits of word `|ws| - 1 - q` above position `b` are `w >>> (b + 1)`;
      when that is not zero, its trailing zeros locate the next set bit. */
  lemma NextInWord(ws: seq<Word>, q: nat, b: nat)
    requires q < |ws| && b < 63 && Shr(ws[|ws| - 1 - q], b + 1) != 0
    ensures NextSet(Raw(ws), 64 * q + b + 1) ==
      64 * q + b + TrailingZeros(Shr(ws[|ws| - 1 - q], b + 1)) + 1
    ensures NextSet(Raw(ws), 64 * q + b + 1) < 64 * (q + 1)
  {
    var w, j := ws[|ws| - 1 - q], 64 * q + b + 1;
    var t := TrailingZeros(Shr(w, b + 1));
    assert t < 64 && Bit(Shr(w, b + 1), t);
    assert b + 1 + t < 64 by {
      ShrBit(w, b + 1, t);
    }
    var r := NextSet(Raw(ws), j);
    if r < j + t {
      assert !Bit(Shr(w, b + 1), r - j);
      RawShr(ws, q, b, r - j);
    } else if j + t < r {
      assert !Raw(ws)[j + t];
      RawShr(ws, q, b, t);
    }
  }

  /** When bit `b` is the top of its word, or nothing above it in the word
      is set, the next set bit is in a later word, if anywhere. */
  lemma NextRestClear(ws: seq<Word>, q: nat, b: nat)
    requires q < |ws| && b < 64
    requires b < 63 ==> Shr(ws[|ws| - 1 - q], b + 1) == 0
    ensures 64 * (q + 1) <= NextSet(Raw(ws), 64 * q + b + 1)
  {
    var j := 64 * q + b + 1;
    var r := NextSet(Raw(ws), j);
    if b < 63 && r < 64 * (q + 1) {
      RawShr(ws, q, b, r - j);
      ZeroBit(r - j);
    }
  }

  /** A zero word `i` adds its 64 positions to a run of clear bits that
      reaches it. */
  lemma NextSkip(ws: seq<Word>, j: nat, i: nat)
    requires i < |ws| && ws[i] == 0
    requires j <= 64 * (|ws| - 1 - i) <= NextSet(Raw(ws), j)
    ensures 64 * (|ws| - i) <= NextSet(Raw(ws), j)
  {
    var base := 64 * (|ws| - 1 - i);
    var r := NextSet(Raw(ws), j);
    if r < base + 64 {
      RawWord(ws, i, r - base);
      ZeroBit(r - base);
    }
  }

  /** The first non-zero word `i` reached by a run of clear bits holds the
      next set bit, at its trailing-zero count. */
  lemma NextLater(ws: seq<Word>, j: nat, i: nat)
    requires i < |ws| && ws[i] != 0
    requires j <= 64 * (|ws| - 1 - i) <= NextSet(Raw(ws), j)
    ensures NextSet(Raw(ws), j) == 64 * (|ws| - 1 - i) + TrailingZeros(ws[i])
  {
    var base := 64 * (|ws| - 1 - i);
    var t := TrailingZeros(ws[i]);
    assert t < 64;
    var r := NextSet(Raw(ws), j);
    assert base + t <= r by {
      if r < base + t {
        RawWord(ws, i, r - base);
      }
    }
    assert Raw(ws)[base + t] by {
      RawWord(ws, i, t);
    }
  }

  // ---------------------------------------------------------------------
  // toString()

  /** The character `toString` writes for a bit. */
  function Digit(x: bool): char
  {
    if x then '1' else '0'
  }

  /** The text of a bit string, most significant bit (the last) first. */
  function Text(bits: seq<bool>): (t: string)
    ensures |t| == |bits|
    ensures forall k :: 0 <= k < |bits| ==> t[k] == Digit(bits[|bits| - 1 - k])
  {
    if |bits| == 0 then [] else Text(bits[1..]) + [Digit(bits[0])]
  }

  /** Writing the next lower bit after a bracket and the text of the bits
      above it. */
  lemma TextStep(s: string, c: seq<bool>, m: nat)
    requires 0 < m <= |c| && s == "[" + Text(c[m..])
    ensures s + [Digit(c[m - 1])] == "[" + Text(c[m - 1..])
  {
    assert c[m - 1..][1..] == c[m..];
    assert Text(c[m - 1..]) == Text(c[m..]) + [Digit(c[m - 1])];
  }
}
