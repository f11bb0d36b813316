/**
 * The 64-bit words (`long`) the bitset is packed into.  A word is modelled
 * by its unsigned value, 0 .. 2^64 - 1, so that bit `k` of the Java `long`
 * is bit `k` of the number.  The Java operators on `long` that the bitset
 * uses (`&`, `|`, `^`, `~`, `<<`, `>>>`, `>>`) are defined on these values
 * and proved to act bit by bit, and the JDK counting functions
 * `Long.bitCount`, `Long.numberOfLeadingZeros` and
 * `Long.numberOfTrailingZeros` are given as recursive specifications.
 *
 * The recursive definitions descend on the value, not on a bit position
 * or a width, so that a constant position such as 63 does not make the
 * verifier unfold them 64 levels deep.
 */
module Words {
  import opened BitStrings

  /** A 64-bit word, seen as an unsigned number below 2^64. */
  type Word = w: nat | w < Pow2(64)

  /** 2^n. */
  function Pow2(n: nat): (r: nat)
    ensures 1 <= r
  {
    if n == 0 then 1 else 2 * Pow2(n - 1)
  }

  /** Bit `k` of `w`: the parity of `w` after `k` halvings. */
  predicate Bit(w: nat, k: nat)
    decreases w
  {
    if k == 0 then w % 2 == 1 else w > 0 && Bit(w / 2, k - 1)
  }

  /** The low `n` bits of `w`, least significant first. */
  function BitsOf(w: nat, n: nat): seq<bool>
  {
    seq(n, k requires 0 <= k < n => Bit(w, k))
  }

  /** The 64 bits of a word, least significant first. */
  function WordBits(w: Word): seq<bool>
  {
    BitsOf(w, 64)
  }

  lemma ZeroBit(k: nat)
    ensures !Bit(0, k)
  {
  }

  /** Halving drops bit 0 and moves every other bit down one place. */
  lemma BitHalf(w: nat, k: nat)
    ensures Bit(w, k + 1) == Bit(w / 2, k)
  {
    if w == 0 {
      ZeroBit(k);
    }
  }

  /** A number below 2^n has no bit set at position n or above. */
  lemma {:induction false} HighBit(w: nat, n: nat, k: nat)
    requires w < Pow2(n) && n <= k
    ensures !Bit(w, k)
  {
    if n == 0 {
      ZeroBit(k);
    } else {
      HighBit(w / 2, n - 1, k - 1);
      BitHalf(w, k - 1);
    }
  }

  /** The set bits of a number below 2^n are below n. */
  lemma BitBelow(w: nat, n: nat, k: nat)
    requires w < Pow2(n)
    ensures Bit(w, k) ==> k < n
  {
    if n <= k {
      HighBit(w, n, k);
    }
  }

  lemma OneBit(k: nat)
    ensures Bit(1, k) == (k == 0)
  {
    if k > 0 {
      ZeroBit(k - 1);
    }
  }

  /** Two numbers below 2^n that agree on their low n bits are equal. */
  lemma {:induction false} BitsEqual(a: nat, b: nat, n: nat)
    requires a < Pow2(n) && b < Pow2(n)
    requires forall k :: 0 <= k < n ==> Bit(a, k) == Bit(b, k)
    ensures a == b
  {
    if n > 0 {
      assert Bit(a, 0) == Bit(b, 0);
      forall k | 0 <= k < n - 1
        ensures Bit(a / 2, k) == Bit(b / 2, k)
      {
        BitHalf(a, k);
        BitHalf(b, k);
        assert Bit(a, k + 1) == Bit(b, k + 1);
      }
      BitsEqual(a / 2, b / 2, n - 1);
    }
  }

  /** Words are equal exactly when all 64 of their bits are. */
  lemma WordsEqual(a: Word, b: Word)
    requires forall k :: 0 <= k < 64 ==> Bit(a, k) == Bit(b, k)
    ensures a == b
  {
    BitsEqual(a, b, 64);
  }

  /** A word is zero exactly when none of its bits is set. */
  lemma ZeroIff(w: Word)
    ensures w == 0 ==> forall k :: 0 <= k < 64 ==> !Bit(w, k)
    ensures w != 0 ==> exists k :: 0 <= k < 64 && Bit(w, k)
  {
    if w == 0 {
      forall k | 0 <= k < 64
        ensures !Bit(w, k)
      {
        ZeroBit(k);
      }
    } else if forall k :: 0 <= k < 64 ==> !Bit(w, k) {
      forall k | 0 <= k < 64
        ensures Bit(w, k) == Bit(0, k)
      {
        ZeroBit(k);
      }
      WordsEqual(w, 0);
    }
  }

  lemma OneWord()
    ensures 1 < Pow2(64)
  {
  }

  // ---------------------------------------------------------------------
  // The Java operators on `long`.

  /** The three bitwise binary operators `&`, `|` and `^`. */
  datatype Op = And | Or | Xor

  /** What an operator does to one pair of bits. */
  function Apply(op: Op, x: bool, y: bool): bool
  {
    match op
    case And => x && y
    case Or => x || y
    case Xor => x != y
  }

  function BitwiseRec(op: Op, a: nat, b: nat): nat
    decreases a + b
  {
    if a == 0 && b == 0 then 0
    else (if Apply(op, a % 2 == 1, b % 2 == 1) then 1 else 0) + 2 * BitwiseRec(op, a / 2, b / 2)
  }

  lemma {:induction false} BitwiseRecBit(op: Op, a: nat, b: nat, k: nat)
    ensures Bit(BitwiseRec(op, a, b), k) == Apply(op, Bit(a, k), Bit(b, k))
    decreases a + b
  {
    if a == 0 && b == 0 {
      ZeroBit(k);
    } else if k > 0 {
      var r := BitwiseRec(op, a, b);
      assert r / 2 == BitwiseRec(op, a / 2, b / 2);
      BitwiseRecBit(op, a / 2, b / 2, k - 1);
      BitHalf(r, k - 1);
      BitHalf(a, k - 1);
      BitHalf(b, k - 1);
    }
  }

  lemma {:induction false} BitwiseRecBound(op: Op, a: nat, b: nat, n: nat)
    requires a < Pow2(n) && b < Pow2(n)
    ensures BitwiseRec(op, a, b) < Pow2(n)
  {
    if n > 0 && (a != 0 || b != 0) {
      BitwiseRecBound(op, a / 2, b / 2, n - 1);
    }
  }

  /** `a & b`, `a | b` or `a ^ b`. */
  function Bitwise(op: Op, a: Word, b: Word): Word
  {
    BitwiseRecBound(op, a, b, 64);
    BitwiseRec(op, a, b)
  }

  /** `~a`: in the unsigned view, 2^64 - 1 - a. */
  function Not(a: Word): Word
  {
    Pow2(64) - 1 - a
  }

  /** `2 * a`, losing the bit carried past position 63. */
  function Double(a: Word): Word
  {
    if 2 * a < Pow2(64) then 2 * a else 2 * a - Pow2(64)
  }

  function ShlRec(a: Word, s: nat): Word
    decreases s
  {
    if s == 0 then a else ShlRec(Double(a), s - 1)
  }

  /** `a << s`; like Java, only the low six bits of the amount count. */
  function Shl(a: Word, s: nat): Word
  {
    ShlRec(a, s % 64)
  }

  function ShrN(a: nat, s: nat): (r: nat)
    ensures r <= a
  {
    if s == 0 then a else ShrN(a / 2, s - 1)
  }

  /** `a >>> s`; like Java, only the low six bits of the amount count. */
  function Shr(a: Word, s: nat): Word
  {
    ShrN(a, s % 64)
  }

  /** `a >> s`, the arithmetic shift: a negative `long` (bit 63 set) shifts
      in ones, which is `~(~a >>> s)`. */
  function Sar(a: Word, s: nat): Word
  {
    if Bit(a, 63) then Not(Shr(Not(a), s)) else Shr(a, s)
  }

  /** Each bit of `a & b`, `a | b`, `a ^ b` is the operator applied to the
      bits of the operands at the same position. */
  lemma BitwiseBit(op: Op, a: Word, b: Word, k: nat)
    ensures Bit(Bitwise(op, a, b), k) == Apply(op, Bit(a, k), Bit(b, k))
  {
    BitwiseRecBit(op, a, b, k);
  }

  lemma {:induction false} ComplementBit(a: nat, n: nat, k: nat)
    requires a < Pow2(n) && k < n
    ensures Bit(Pow2(n) - 1 - a, k) == !Bit(a, k)
  {
    var p := Pow2(n - 1);
    var c := Pow2(n) - 1 - a;
    assert a == 2 * (a / 2) + a % 2;
    assert c == 2 * (p - 1 - a / 2) + (1 - a % 2);
    if k > 0 {
      ComplementBit(a / 2, n - 1, k - 1);
      BitHalf(c, k - 1);
      BitHalf(a, k - 1);
    }
  }

  /** `~a` flips every one of the 64 bits. */
  lemma NotBit(a: Word, k: nat)
    requires k < 64
    ensures Bit(Not(a), k) == !Bit(a, k)
  {
    ComplementBit(a, 64, k);
  }

  /** Subtracting 2^m, from a number at least that large, keeps the bits
      below m. */
  lemma {:induction false} LessPowBit(c: nat, m: nat, j: nat)
    requires Pow2(m) <= c && j < m
    ensures Bit(c - Pow2(m), j) == Bit(c, j)
  {
    var d := c - Pow2(m);
    assert Pow2(m) == 2 * Pow2(m - 1);
    if j > 0 {
      assert d / 2 == c / 2 - Pow2(m - 1);
      LessPowBit(c / 2, m - 1, j - 1);
      BitHalf(d, j - 1);
      BitHalf(c, j - 1);
    }
  }

  /** Doubling below 2^n, wrapping at 2^n, moves every bit below n up
      one place. */
  lemma DoubleModBit(a: nat, n: nat, k: nat)
    requires a < Pow2(n) && k < n
    ensures var d := 2 * a; Bit(if d < Pow2(n) then d else d - Pow2(n), k) == (0 < k && Bit(a, k - 1))
  {
    var d := 2 * a;
    var p := Pow2(n - 1);
    assert Pow2(n) == 2 * p;
    if d < 2 * p {
      if k > 0 {
        BitHalf(d, k - 1);
      }
    } else {
      var h := a - p;
      assert d - 2 * p == 2 * h;
      if k > 0 {
        BitHalf(2 * h, k - 1);
        LessPowBit(a, n - 1, k - 1);
      }
    }
  }

  /** Doubling moves every bit up one place; bit 63 is lost. */
  lemma DoubleBit(a: Word, k: nat)
    requires k < 64
    ensures Bit(Double(a), k) == (0 < k && Bit(a, k - 1))
  {
    DoubleModBit(a, 64, k);
  }

  lemma {:induction false} ShlRecBit(a: Word, s: nat, k: nat)
    requires k < 64
    ensures Bit(ShlRec(a, s), k) == (s <= k && Bit(a, k - s))
    decreases s
  {
    if s > 0 {
      ShlRecBit(Double(a), s - 1, k);
      if s - 1 <= k {
        DoubleBit(a, k - (s - 1));
      }
    }
  }

  /** `a << s` moves bit `k - s` to position `k` and clears the `s` lowest
      positions; bits shifted past position 63 are lost. */
  lemma ShlBit(a: Word, s: nat, k: nat)
    requires s < 64 && k < 64
    ensures Bit(Shl(a, s), k) == (s <= k && Bit(a, k - s))
  {
    assert s % 64 == s;
    ShlRecBit(a, s, k);
  }

  lemma {:induction false} ShrNBit(a: nat, s: nat, k: nat)
    ensures Bit(ShrN(a, s), k) == Bit(a, s + k)
  {
    if s > 0 {
      ShrNBit(a / 2, s - 1, k);
      BitHalf(a, s - 1 + k);
    }
  }

  /** `a >>> s` moves bit `s + k` to position `k`, filling with zeros. */
  lemma ShrBit(a: Word, s: nat, k: nat)
    requires s < 64
    ensures Bit(Shr(a, s), k) == (s + k < 64 && Bit(a, s + k))
  {
    assert s % 64 == s;
    ShrNBit(a, s, k);
    BitBelow(a, 64, s + k);
  }

  /** `a >> s` moves bit `s + k` to position `k` and fills with copies of
      the sign bit 63. */
  lemma SarBit(a: Word, s: nat, k: nat)
    requires s < 64 && k < 64
    ensures Bit(Sar(a, s), k) == if s + k < 64 then Bit(a, s + k) else Bit(a, 63)
  {
    if Bit(a, 63) {
      NotBit(Shr(Not(a), s), k);
      ShrBit(Not(a), s, k);
      if s + k < 64 {
        NotBit(a, s + k);
      }
    } else {
      ShrBit(a, s, k);
    }
  }

  /** `x & 1` is the lowest bit of `x`, as the number 0 or 1. */
  lemma LowBit(x: Word)
    ensures Bitwise(And, x, 1) == if Bit(x, 0) then 1 else 0
  {
    OneWord();
    var r := if Bit(x, 0) then 1 else 0;
    forall k | 0 <= k < 64
      ensures Bit(Bitwise(And, x, 1), k) == Bit(r, k)
    {
      BitwiseBit(And, x, 1, k);
      OneBit(k);
      ZeroBit(k);
    }
    WordsEqual(Bitwise(And, x, 1), r);
  }

  /** The identities behind `x ^= x`, `x &= x` and `x |= x`. */
  lemma BitwiseSelf(op: Op, a: Word)
    ensures Bitwise(op, a, a) == if op == Xor then 0 else a
  {
    var r := if op == Xor then 0 else a;
    forall k | 0 <= k < 64
      ensures Bit(Bitwise(op, a, a), k) == Bit(r, k)
    {
      BitwiseBit(op, a, a, k);
      ZeroBit(k);
    }
    WordsEqual(Bitwise(op, a, a), r);
  }

  // ---------------------------------------------------------------------
  // The JDK counting functions.

  function Pop(w: nat): nat
  {
    if w == 0 then 0 else w % 2 + Pop(w / 2)
  }

  /** `Long.bitCount(w)`. */
  function BitCount(w: Word): nat
  {
    Pop(w)
  }

  function Ntz(w: nat): (r: nat)
    requires w > 0
    ensures forall k :: 0 <= k < r ==> !Bit(w, k)
    ensures Bit(w, r)
  {
    if w % 2 == 1 then 0 else 1 + Ntz(w / 2)
  }

  /** `Long.numberOfTrailingZeros(w)`: the position of the lowest set bit,
      or 64 when there is none. */
  function TrailingZeros(w: Word): (r: nat)
    ensures r <= 64
    ensures r == 64 <==> w == 0
    ensures forall k :: 0 <= k < r ==> !Bit(w, k)
    ensures r < 64 ==> Bit(w, r)
  {
    if w == 0 then
      ZeroIff(w);
      64
    else
      BitBelow(w, 64, Ntz(w));
      Ntz(w)
  }

  /** The number of significant bits of `w`. */
  function BitLength(w: nat): (r: nat)
    ensures forall k :: r <= k ==> !Bit(w, k)
    ensures r > 0 ==> Bit(w, r - 1)
    ensures r == 0 <==> w == 0
  {
    if w == 0 then 0 else 1 + BitLength(w / 2)
  }

  /** `Long.numberOfLeadingZeros(w)`: 63 minus the position of the highest
      set bit, or 64 when there is none. */
  function LeadingZeros(w: Word): (r: nat)
    ensures r <= 64
    ensures r == 64 <==> w == 0
    ensures forall k :: 64 - r <= k < 64 ==> !Bit(w, k)
    ensures r < 64 ==> Bit(w, 64 - 1 - r)
  {
    if w == 0 then
      ZeroIff(w);
      64
    else
      BitBelow(w, 64, BitLength(w) - 1);
      64 - BitLength(w)
  }

  /** `Pop` counts the set bits among the low `n` bits. */
  lemma {:induction false} PopBits(w: nat, n: nat)
    requires w < Pow2(n)
    ensures Pop(w) == Count(BitsOf(w, n))
  {
    if n > 0 {
      var s := BitsOf(w, n);
      assert s[0] == (w % 2 == 1);
      assert s[1..] == BitsOf(w / 2, n - 1) by {
        forall k | 0 <= k < n - 1
          ensures s[1..][k] == Bit(w / 2, k)
        {
          BitHalf(w, k);
        }
      }
      PopBits(w / 2, n - 1);
    }
  }

  /** `Long.bitCount` counts the set bits of the word. */
  lemma BitCountBits(w: Word)
    ensures BitCount(w) == Count(WordBits(w))
  {
    PopBits(w, 64);
  }

  /** `Long.numberOfTrailingZeros` is the low run of clear bits. */
  lemma TrailingZerosBits(w: Word)
    ensures TrailingZeros(w) == LowZeros(WordBits(w))
  {
    LowZerosUnique(WordBits(w), TrailingZeros(w));
  }

  /** `Long.numberOfLeadingZeros` is the high run of clear bits. */
  lemma LeadingZerosBits(w: Word)
    ensures LeadingZeros(w) == HighZeros(WordBits(w))
  {
    HighZerosUnique(WordBits(w), LeadingZeros(w));
  }
}
