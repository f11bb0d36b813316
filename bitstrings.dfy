/**
 * Finite bit strings, written as `seq<bool>` with index 0 the least
 * significant bit.  The three measures here are the ones the bitset
 * answers: how many bits are set, how long the run of clear bits is at
 * the low end, and how long it is at the high end.
 */
module BitStrings {

  /** No bit of `s` is set. */
  predicate NoneSet(s: seq<bool>)
  {
    forall k :: 0 <= k < |s| ==> !s[k]
  }

  /** The number of set bits of `s`. */
  function Count(s: seq<bool>): (r: nat)
    ensures r <= |s|
    ensures r == 0 <==> NoneSet(s)
  {
    if |s| == 0 then 0 else (if s[0] then 1 else 0) + Count(s[1..])
  }

  /** The length of the run of clear bits starting at index 0; it is the
      index of the lowest set bit, or `|s|` when none is set. */
  function LowZeros(s: seq<bool>): (r: nat)
    ensures r <= |s|
    ensures forall k :: 0 <= k < r ==> !s[k]
    ensures r < |s| ==> s[r]
  {
    if |s| == 0 then 0 else if s[0] then 0 else 1 + LowZeros(s[1..])
  }

  /** The length of the run of clear bits ending at index `|s| - 1`; the
      highest set bit, if any, sits at `|s| - 1 - r`. */
  function HighZeros(s: seq<bool>): (r: nat)
    ensures r <= |s|
    ensures forall k :: |s| - r <= k < |s| ==> !s[k]
    ensures r < |s| ==> s[|s| - 1 - r]
  {
    if |s| == 0 then 0 else if s[|s| - 1] then 0 else 1 + HighZeros(s[..|s| - 1])
  }

  lemma {:induction false} CountAppend(a: seq<bool>, b: seq<bool>)
    ensures Count(a + b) == Count(a) + Count(b)
  {
    if |a| > 0 {
      assert (a + b)[0] == a[0];
      assert (a + b)[1..] == a[1..] + b;
      CountAppend(a[1..], b);
    } else {
      assert a + b == b;
    }
  }

  /** `LowZeros` is the only number with its three defining properties. */
  lemma LowZerosUnique(s: seq<bool>, r: nat)
    requires r <= |s|
    requires forall k :: 0 <= k < r ==> !s[k]
    requires r < |s| ==> s[r]
    ensures r == LowZeros(s)
  {
  }

  /** `HighZeros` is the only number with its three defining properties. */
  lemma HighZerosUnique(s: seq<bool>, r: nat)
    requires r <= |s|
    requires forall k :: |s| - r <= k < |s| ==> !s[k]
    requires r < |s| ==> s[|s| - 1 - r]
    ensures r == HighZeros(s)
  {
  }

  /** The low run of `a + b` ends inside `a` unless `a` is all clear. */
  lemma LowZerosAppend(a: seq<bool>, b: seq<bool>)
    ensures LowZeros(a + b) == if NoneSet(a) then |a| + LowZeros(b) else LowZeros(a)
  {
    var s := a + b;
    if NoneSet(a) {
      var r := |a| + LowZeros(b);
      assert forall k :: |a| <= k < r ==> !s[k] by {
        forall k | |a| <= k < r ensures !s[k] {
          assert s[k] == b[k - |a|];
        }
      }
      if r < |s| {
        assert s[r] == b[LowZeros(b)];
      }
      LowZerosUnique(s, r);
    } else {
      var r := LowZeros(a);
      assert forall k :: 0 <= k < r ==> !s[k] by {
        forall k | 0 <= k < r ensures !s[k] {
          assert s[k] == a[k];
        }
      }
      assert s[r] == a[r];
      LowZerosUnique(s, r);
    }
  }

  /** The high run of `a + b` ends inside `b` unless `b` is all clear. */
  lemma HighZerosAppend(a: seq<bool>, b: seq<bool>)
    ensures HighZeros(a + b) == if NoneSet(b) then |b| + HighZeros(a) else HighZeros(b)
  {
    var s := a + b;
    if NoneSet(b) {
      var r := |b| + HighZeros(a);
      assert forall k :: |s| - r <= k < |s| ==> !s[k] by {
        forall k | |s| - r <= k < |s| ensures !s[k] {
          if k < |a| {
            assert s[k] == a[k];
          } else {
            assert s[k] == b[k - |a|];
          }
        }
      }
      if r < |s| {
        assert s[|s| - 1 - r] == a[|a| - 1 - HighZeros(a)];
      }
      HighZerosUnique(s, r);
    } else {
      var r := HighZeros(b);
      assert forall k :: |s| - r <= k < |s| ==> !s[k] by {
        forall k | |s| - r <= k < |s| ensures !s[k] {
          assert s[k] == b[k - |a|];
        }
      }
      assert s[|s| - 1 - r] == b[|b| - 1 - r];
      HighZerosUnique(s, r);
    }
  }
}
