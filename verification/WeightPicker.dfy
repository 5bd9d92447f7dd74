/**
 The weighted round-robin picker of loadbalance/roundrobin/weight_picker.go as the code has it:
 connections whose uint32 fields are updated in place. Pick is proved against SmoothWeights.PickOnce.
 */
module WeightPicker {
  import opened Prelude
  import opened SmoothWeights

  const MAX_UINT32: uint32 := 0xFFFF_FFFF

  /** efficientWeight after the Done callback. The failure guard tests the initial weight. */
  function AfterDone(weight: uint32, efficient: uint32, failed: bool): uint32 {
    if failed && weight == 0 then efficient
    else if !failed && efficient == MAX_UINT32 then efficient
    else if failed then Wrap32(efficient - 1)
    else efficient + 1
  }

  /** A report changes the efficient weight by at most one, and in its own direction, exactly when it
      is not a failure of a weighted connection that has nothing left to lose. */
  lemma DoneIsGradualIff(weight: uint32, efficient: uint32, failed: bool)
    ensures (if failed then efficient - 1 <= AfterDone(weight, efficient, failed) <= efficient
             else efficient <= AfterDone(weight, efficient, failed) <= efficient + 1)
       <==> !(failed && weight != 0 && efficient == 0)
  {
  }

  /** efficientWeight after k failures in a row, starting from Build's state. */
  function AfterFailures(weight: uint32, k: nat): uint32 {
    if k == 0 then weight else AfterDone(weight, AfterFailures(weight, k - 1), true)
  }

  /** A connection of weight w > 0 that only ever fails fades to 0 over w calls, and the next failure
      gives it the largest weight there is. One of weight 0 keeps it. */
  lemma {:induction false} FailuresEndOnTop(weight: uint32, k: nat)
    requires k <= weight + 1
    ensures weight > 0 && k <= weight ==> AfterFailures(weight, k) == weight - k
    ensures weight > 0 && k == weight + 1 ==> AfterFailures(weight, k) == MAX_UINT32
    ensures weight == 0 ==> AfterFailures(weight, k) == 0
  {
    if k > 0 {
      FailuresEndOnTop(weight, k - 1);
    }
  }

  /** efficientWeight after k successes in a row. */
  function AfterSuccesses(weight: uint32, efficient: uint32, k: nat): uint32 {
    if k == 0 then efficient else AfterDone(weight, AfterSuccesses(weight, efficient, k - 1), false)
  }

  /** Successes raise the weight by one each, without regard to the initial weight, up to the largest. */
  lemma {:induction false} SuccessesRaise(weight: uint32, efficient: uint32, k: nat)
    ensures AfterSuccesses(weight, efficient, k) as int
         == if efficient + k <= MAX_UINT32 then efficient + k else MAX_UINT32
  {
    if k > 0 {
      SuccessesRaise(weight, efficient, k - 1);
    }
  }

  /** When a success makes up for a failure, and a failure for a success. A weighted connection at 0 cannot
      fall, one at the largest weight cannot rise, and one of weight 0 does not feel failures. */
  lemma RecoversIff(weight: uint32, efficient: uint32)
    ensures AfterDone(weight, AfterDone(weight, efficient, true), false) == efficient
       <==> (weight > 0 && efficient > 0) || efficient == MAX_UINT32
    ensures AfterDone(weight, AfterDone(weight, efficient, false), true) == efficient
       <==> if weight > 0 then efficient < MAX_UINT32 else efficient == MAX_UINT32
  {
  }

  class WeightConn {
    const weight: uint32
    var currentWeight: uint32
    var efficientWeight: uint32

    constructor (weight: uint32)
      ensures this.weight == currentWeight == efficientWeight == weight
    {
      this.weight, currentWeight, efficientWeight := weight, weight, weight;
    }

    /** The connection's share of one scan. */
    method Bump()
      modifies this`currentWeight
      ensures currentWeight == Wrap32(old(currentWeight) + efficientWeight)
    {
      currentWeight := Wrap32(currentWeight + efficientWeight);
    }

    /** The callback handed out by Pick. */
    method Done(failed: bool)
      modifies this`efficientWeight
      ensures efficientWeight == AfterDone(weight, old(efficientWeight), failed)
      ensures !failed && old(efficientWeight) < MAX_UINT32 ==> efficientWeight == old(efficientWeight) + 1
      ensures failed && weight > 0 && old(efficientWeight) > 0 ==> efficientWeight == old(efficientWeight) - 1
      ensures failed && weight > 0 && old(efficientWeight) == 0 ==> efficientWeight == MAX_UINT32
      ensures (if failed then weight == 0 else old(efficientWeight) == MAX_UINT32) ==>
        efficientWeight == old(efficientWeight)
    {
      if failed && weight == 0 {
        return;
      }
      if !failed && efficientWeight == MAX_UINT32 {
        return;
      }
      if failed {
        efficientWeight := Wrap32(efficientWeight - 1);
      } else {
        efficientWeight := efficientWeight + 1;
      }
    }
  }

  class Picker {
    const connections: seq<WeightConn>

    ghost predicate Valid() {
      forall i, j :: 0 <= i < j < |connections| ==> connections[i] != connections[j]
    }

    ghost function Currents(): (c: seq<int>)
      reads connections
      ensures |c| == |connections|
    {
      seq(|connections|, i requires 0 <= i < |connections| reads connections => connections[i].currentWeight)
    }

    ghost function Efficients(): (e: seq<int>)
      reads connections
      ensures |e| == |connections|
    {
      seq(|connections|, i requires 0 <= i < |connections| reads connections => connections[i].efficientWeight)
    }

    /** One fresh connection for each weight. */
    constructor Build(weights: seq<uint32>)
      ensures Valid() && |connections| == |weights| && fresh(connections)
      ensures Currents() == weights && Efficients() == weights
      ensures forall i :: 0 <= i < |weights| ==> connections[i].weight == weights[i]
    {
      var cons: seq<WeightConn> := [];
      for i := 0 to |weights|
        invariant |cons| == i && fresh(cons)
        invariant forall j :: 0 <= j < i ==>
          cons[j].weight == cons[j].currentWeight == cons[j].efficientWeight == weights[j]
        invariant forall j, l :: 0 <= j < l < i ==> cons[j] != cons[l]
      {
        var con := new WeightConn(weights[i]);
        cons := cons + [con];
      }
      connections := cons;
    }

    /** The scan: every accepted connection is increased, and the first with the largest new weight is
        remembered. */
    method Scan(accepts: seq<bool>) returns (total: uint32, max: Option<nat>)
      requires Valid() && |accepts| == |connections|
      modifies (set con | con in connections)`currentWeight
      ensures Efficients() == old(Efficients())
      ensures Currents() == Added(Wrapping, old(Currents()), old(Efficients()), accepts)
      ensures total == Wrap32(TotalWeight(old(Efficients()), accepts))
      ensures max == Leader(Currents(), accepts, |accepts|)
    {
      WrapZero();
      ScanBegins(Efficients(), accepts);
      hide Wrap32, SumOn, Leader;
      total, max := 0, None;
      ghost var e, c := Efficients(), Currents();
      ghost var p := Added(Wrapping, c, e, accepts);
      for i := 0 to |connections|
        invariant total == Wrap32(SumOn(e, accepts, i))
        invariant max == Leader(p, accepts, i)
        invariant forall j :: 0 <= j < |e| ==> connections[j].efficientWeight == e[j]
        invariant forall j :: 0 <= j < i ==> connections[j].currentWeight == p[j]
        invariant forall j :: i <= j < |c| ==> connections[j].currentWeight == c[j]
      {
        ScanGoesOn(e, p, accepts, i);
        if accepts[i] {
          WrapAbsorb(SumOn(e, accepts, i), e[i]);
          total := Wrap32(total + connections[i].efficientWeight);
          connections[i].Bump();
          if max.None? || connections[max.value].currentWeight < connections[i].currentWeight {
            max := Some(i);
          }
        }
      }
    }

    /** accepts holds the filter's verdict for each connection. */
    method Pick(accepts: seq<bool>) returns (chosen: Option<WeightConn>)
      requires Valid() && |accepts| == |connections|
      modifies (set con | con in connections)`currentWeight
      ensures Efficients() == old(Efficients())
      ensures var r := PickOnce(Wrapping, old(Currents()), old(Efficients()), accepts);
              && Currents() == r.0
              && chosen == (if r.1.Some? then Some(connections[r.1.value]) else None)
    {
      if |connections| == 0 {
        return None;
      }
      var total, max := Scan(accepts);
      if max.None? {
        return None;
      }
      var best := connections[max.value];
      WrapDifference(best.currentWeight, TotalWeight(Efficients(), accepts));
      best.currentWeight := Wrap32(best.currentWeight - total);
      return Some(best);
    }
  }

  lemma ScanBegins(e: seq<int>, on: seq<bool>)
    requires |e| == |on|
    ensures SumOn(e, on, 0) == 0 && Leader(e, on, 0) == None
  {
  }

  /** What one more connection does to the total and the candidate. */
  lemma ScanGoesOn(e: seq<int>, p: seq<int>, on: seq<bool>, i: nat)
    requires i < |e| == |p| == |on|
    ensures SumOn(e, on, i + 1) == SumOn(e, on, i) + if on[i] then e[i] else 0
    ensures var l := Leader(p, on, i);
      Leader(p, on, i + 1) == if on[i] && (l.None? || p[l.value] < p[i]) then Some(i) else l
  {
  }

  lemma WrapDifference(x: int, y: int)
    ensures Wrap32(x - Wrap32(y)) == Wrap32(x - y)
  {
  }
}
