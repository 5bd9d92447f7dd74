/** Shared vocabulary: optional values, 32-bit wrap-around, and sums over a selection of indices. */
module Prelude {
  datatype Option<+T> = None | Some(value: T)

  /** The modulus of Go's uint32 arithmetic. */
  const TWO32: int := 0x1_0000_0000

  type uint32 = x: int | 0 <= x < 0x1_0000_0000

  function Wrap32(x: int): uint32 {
    x % TWO32
  }

  /** Wrapping early or late makes no difference to a sum. */
  lemma WrapAbsorb(x: int, z: int)
    ensures Wrap32(Wrap32(x) + z) == Wrap32(x + z)
  {
  }

  lemma WrapZero()
    ensures Wrap32(0) == 0
  {
  }

  lemma WrapFits(x: int)
    requires 0 <= x < TWO32
    ensures Wrap32(x) == x
  {
  }

  /** Multiplication as repeated addition: k terms x. */
  ghost function Times(k: nat, x: int): int {
    if k == 0 then 0 else Times(k - 1, x) + x
  }

  lemma {:induction false} TimesIs(k: nat, x: int)
    ensures Times(k, x) == k * x
  {
    if k > 0 {
      TimesIs(k - 1, x);
      assert k * x == (k - 1) * x + x;
    }
  }

  lemma {:induction false} TimesMonotone(s: nat, q: nat, x: int)
    requires s <= q && 0 <= x
    ensures Times(s, x) <= Times(q, x)
  {
    if s < q {
      TimesMonotone(s, q - 1, x);
    }
  }

  /** The sum of s over the indices below n that are switched on. */
  ghost function SumOn(s: seq<int>, on: seq<bool>, n: nat): int
    requires n <= |s| == |on|
  {
    if n == 0 then 0 else SumOn(s, on, n - 1) + if on[n - 1] then s[n - 1] else 0
  }

  lemma {:induction false} SumOnUpdate(s: seq<int>, on: seq<bool>, n: nat, k: nat, v: int)
    requires n <= |s| == |on| && k < |s| && on[k]
    ensures SumOn(s[k := v], on, n) == SumOn(s, on, n) + if k < n then v - s[k] else 0
  {
    if n > 0 {
      SumOnUpdate(s, on, n - 1, k, v);
    }
  }

  lemma {:induction false} SumOnAdd(s: seq<int>, d: seq<int>, r: seq<int>, on: seq<bool>, n: nat)
    requires n <= |s| == |d| == |r| == |on|
    requires forall i :: 0 <= i < n && on[i] ==> r[i] == s[i] + d[i]
    ensures SumOn(r, on, n) == SumOn(s, on, n) + SumOn(d, on, n)
  {
    if n > 0 {
      SumOnAdd(s, d, r, on, n - 1);
    }
  }

  /** How many of the first n indices are switched on. */
  ghost function Selected(on: seq<bool>, n: nat): nat
    requires n <= |on|
  {
    if n == 0 then 0 else Selected(on, n - 1) + if on[n - 1] then 1 else 0
  }

  /** With every selected element at least lo, the sum is at least the one element k plus lo for each of
      the others. */
  lemma {:induction false} SumOnAtLeast(s: seq<int>, on: seq<bool>, n: nat, lo: int, k: int)
    requires n <= |s| == |on| && lo <= 0
    requires forall i :: 0 <= i < n && on[i] ==> lo <= s[i]
    requires k < n && (0 <= k ==> on[k])
    ensures 0 <= k ==> Selected(on, n) >= 1 && SumOn(s, on, n) >= s[k] + (Selected(on, n) - 1) * lo
    ensures k < 0 ==> SumOn(s, on, n) >= Selected(on, n) * lo
    decreases n
  {
    if n > 0 {
      var m := Selected(on, n);
      SumOnAtLeast(s, on, n - 1, lo, if k == n - 1 then -1 else k);
      assert (m - 1) * lo == (m - 2) * lo + lo && m * lo == (m - 1) * lo + lo;
    }
  }

  /** A selection of all n indices. */
  ghost function Everyone(n: nat): (on: seq<bool>)
    ensures |on| == n
  {
    seq(n, i => true)
  }

  /** The sum of the whole sequence. */
  ghost function Total(s: seq<int>): int {
    SumOn(s, Everyone(|s|), |s|)
  }

  lemma TotalUpdate(s: seq<int>, k: nat, v: int)
    requires k < |s|
    ensures Total(s[k := v]) == Total(s) - s[k] + v
  {
    SumOnUpdate(s, Everyone(|s|), |s|, k, v);
  }

  lemma TotalAppend(s: seq<int>, v: int)
    ensures Total(s + [v]) == Total(s) + v
  {
    SumOnPrefix(s, s + [v], Everyone(|s|), Everyone(|s| + 1), |s|);
  }

  lemma {:induction false} SumOnPrefix(s: seq<int>, r: seq<int>, on: seq<bool>, of: seq<bool>, n: nat)
    requires n <= |s| == |on| && n <= |r| == |of|
    requires forall i :: 0 <= i < n ==> s[i] == r[i] && on[i] == of[i]
    ensures SumOn(s, on, n) == SumOn(r, of, n)
  {
    if n > 0 {
      SumOnPrefix(s, r, on, of, n - 1);
    }
  }

  lemma {:induction false} SubsetSize<T>(a: set<T>, b: set<T>)
    requires a <= b
    ensures |a| <= |b|
  {
    if a != {} {
      var x :| x in a;
      SubsetSize(a - {x}, b - {x});
    }
  }
}
