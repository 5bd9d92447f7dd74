/**
 The weighted random picker of loadbalance/random/weight_picker.go: one draw between 0 and the total
 weight, counted down along the accepted connections.
 */
module WeightedRandom {
  import opened Prelude

  /** The total is a uint32 sum of the accepted weights. */
  ghost function Total32(w: seq<uint32>, on: seq<bool>): uint32
    requires |w| == |on|
  {
    Wrap32(SumOn(w, on, |w|))
  }

  /** The second loop, from connection i on with val left of the draw. */
  function Select(w: seq<uint32>, on: seq<bool>, i: nat, val: int): (r: Option<nat>)
    requires i <= |w| == |on|
    ensures r.Some? ==> i <= r.value < |w| && on[r.value]
    decreases |w| - i
  {
    if i == |w| then None
    else if !on[i] then Select(w, on, i + 1, val)
    else if val - w[i] <= 0 then Some(i)
    else Select(w, on, i + 1, val - w[i])
  }

  ghost predicate SomeAccepted(on: seq<bool>) {
    exists i :: 0 <= i < |on| && on[i]
  }

  /** Connection k is the first accepted one. */
  ghost predicate First(on: seq<bool>, k: nat) {
    k < |on| && on[k] && forall i :: 0 <= i < k ==> !on[i]
  }

  /** The draws that select k: those above the weights before it, up to those with its own; a draw of
      zero or below goes to the first. */
  ghost predicate Hits(w: seq<uint32>, on: seq<bool>, k: nat, val: int)
    requires k < |w| == |on|
  {
    on[k] && val <= SumOn(w, on, k + 1) && (SumOn(w, on, k) < val || First(on, k))
  }

  lemma {:induction false} SumGrows(w: seq<uint32>, on: seq<bool>, i: nat, j: nat)
    requires i <= j <= |w| == |on|
    ensures 0 <= SumOn(w, on, i) <= SumOn(w, on, j)
  {
    if i < j {
      SumGrows(w, on, i, j - 1);
    } else if i > 0 {
      SumGrows(w, on, i - 1, i - 1);
    }
  }

  /** The countdown finds k exactly for the draws that hit it. */
  lemma {:induction false} SelectIsHit(w: seq<uint32>, on: seq<bool>, i: nat, val: int, k: nat)
    requires i <= |w| == |on| && k < |w|
    requires SumOn(w, on, i) < val || forall j :: 0 <= j < i ==> !on[j]
    ensures Select(w, on, i, val - SumOn(w, on, i)) == Some(k) <==> i <= k && Hits(w, on, k, val)
    decreases |w| - i
  {
    if i < |w| {
      if i <= k {
        SumGrows(w, on, i, k);
        if i < k {
          SumGrows(w, on, i + 1, k);
        }
      }
      if !on[i] || val > SumOn(w, on, i + 1) {
        SelectIsHit(w, on, i + 1, val, k);
      }
    }
  }

  lemma SelectedIffHit(w: seq<uint32>, on: seq<bool>, val: int, k: nat)
    requires k < |w| == |on|
    ensures Select(w, on, 0, val) == Some(k) <==> Hits(w, on, k, val)
  {
    SelectIsHit(w, on, 0, val, k);
  }

  /** A draw up to the total selects someone, so the error after the loop is reached only when the filter
      rejects every connection. This holds even when the total has wrapped. */
  lemma AlwaysSelects(w: seq<uint32>, on: seq<bool>, val: int)
    requires |w| == |on| && val <= Total32(w, on)
    ensures Select(w, on, 0, val).Some? <==> SomeAccepted(on)
  {
    SumGrows(w, on, 0, |w|);
    WrapShrinks(SumOn(w, on, |w|));
    if SomeAccepted(on) {
      Reaches(w, on, 0, val);
    }
  }

  lemma WrapShrinks(x: int)
    requires 0 <= x
    ensures Wrap32(x) <= x
  {
  }

  lemma {:induction false} Reaches(w: seq<uint32>, on: seq<bool>, i: nat, val: int)
    requires i <= |w| == |on| && val <= SumOn(w, on, |w|)
    requires SumOn(w, on, i) < val || exists j :: i <= j < |w| && on[j]
    ensures Select(w, on, i, val - SumOn(w, on, i)).Some?
    decreases |w| - i
  {
    if i < |w| && (!on[i] || val > SumOn(w, on, i + 1)) {
      Reaches(w, on, i + 1, val);
    }
  }

  /** The draws from 0 to the total that select connection k. */
  ghost function Draws(w: seq<uint32>, on: seq<bool>, k: nat): set<int>
    requires |w| == |on|
  {
    set v: int | 0 <= v <= Total32(w, on) && Select(w, on, 0, v) == Some(k)
  }

  /** The integers above lo, up to hi. */
  ghost function Interval(lo: int, hi: int): (r: set<int>)
    requires lo <= hi
    ensures |r| == hi - lo && forall v :: v in r <==> lo < v <= hi
    decreases hi - lo
  {
    if lo == hi then {} else Interval(lo, hi - 1) + {hi}
  }

  /** With a total below 2^32, each accepted connection is selected by as many draws as its weight, the
      first by one more, and a rejected one by none. */
  lemma DrawCounts(w: seq<uint32>, on: seq<bool>, k: nat)
    requires k < |w| == |on| && SumOn(w, on, |w|) < TWO32
    ensures |Draws(w, on, k)| == if !on[k] then 0 else if First(on, k) then w[k] as int + 1 else w[k] as int
  {
    forall v: int
      ensures Select(w, on, 0, v) == Some(k) <==> Hits(w, on, k, v)
    {
      SelectedIffHit(w, on, v, k);
    }
    SumGrows(w, on, 0, k);
    SumGrows(w, on, k + 1, |w|);
    WrapFits(SumOn(w, on, |w|));
    if !on[k] {
      assert Draws(w, on, k) == {};
    } else {
      var lo, hi := if First(on, k) then -1 else SumOn(w, on, k), SumOn(w, on, k + 1);
      if First(on, k) {
        NothingBefore(w, on, k);
      }
      assert Draws(w, on, k) == Interval(lo, hi);
    }
  }

  lemma {:induction false} NothingBefore(w: seq<uint32>, on: seq<bool>, k: nat)
    requires k <= |w| == |on| && forall i :: 0 <= i < k ==> !on[i]
    ensures SumOn(w, on, k) == 0
  {
    if k > 0 {
      NothingBefore(w, on, k - 1);
    }
  }

  /** Pick, given what rand.Intn(total+1) returns for each bound. None is ErrNoSubConnAvailable. */
  method Pick(weights: seq<uint32>, accepts: seq<bool>, intn: uint32 -> int) returns (chosen: Option<nat>)
    requires |weights| == |accepts| && forall total :: 0 <= intn(total) <= total
    ensures chosen == Select(weights, accepts, 0, intn(Total32(weights, accepts)))
    ensures chosen.None? <==> !SomeAccepted(accepts)
  {
    if |weights| == 0 {
      return None;
    }
    WrapZero();
    var total: uint32 := 0;
    for i := 0 to |weights|
      invariant total == Wrap32(SumOn(weights, accepts, i))
    {
      if !accepts[i] {
        continue;
      }
      WrapAbsorb(SumOn(weights, accepts, i), weights[i]);
      total := Wrap32(total as int + weights[i] as int);
    }
    var val := intn(total);
    ghost var drawn := val;
    AlwaysSelects(weights, accepts, drawn);
    for i := 0 to |weights|
      invariant Select(weights, accepts, i, val) == Select(weights, accepts, 0, drawn)
    {
      if !accepts[i] {
        continue;
      }
      val := val - weights[i];
      if val <= 0 {
        return Some(i);
      }
    }
    return None;
  }
}
