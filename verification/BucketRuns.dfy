/** The shape of any token-bucket run, free of clients, clocks and rates:
    levels that gain, lose taken tokens and are capped. Time is measured in
    tokens, so that everything here is linear. */
module BucketRuns {

  function Count(took: seq<bool>, i: nat, j: nat): nat
    requires i <= j <= |took|
  {
    if i == j then 0 else Count(took, i, j - 1) + if took[j - 1] then 1 else 0
  }

  function Min(x: real, y: real): real {
    if x <= y then x else y
  }

  /** The next level: what was left, plus what came in, capped. */
  function Stepped(cap: real, level: real, took: bool, gain: real): real {
    Min(level - (if took then 1.0 else 0.0) + gain, cap)
  }

  ghost predicate StepHolds(cap: real, clock: seq<real>, took: seq<bool>, level: seq<real>, k: nat)
    requires |clock| == |took| == |level| && 0 < k < |level|
  {
    && clock[k - 1] <= clock[k]
    && level[k] == Stepped(cap, level[k - 1], took[k - 1], clock[k] - clock[k - 1])
  }

  ghost predicate IsRun(cap: real, clock: seq<real>, took: seq<bool>, level: seq<real>) {
    && |clock| == |took| == |level|
    && (|level| > 0 ==> level[0] == cap)
    && (forall k :: 0 < k < |level| ==> StepHolds(cap, clock, took, level, k))
  }

  /** Room left by the window that starts at i, when request k arrives. */
  function Room(cap: real, clock: seq<real>, took: seq<bool>, i: nat, k: nat): real
    requires |clock| == |took| && i <= k < |took|
  {
    cap + (clock[k] - clock[i]) - Count(took, i, k) as real
  }

  /** The level is at most the room of every window... */
  lemma {:induction false} LevelBelowRoom(
      cap: real, clock: seq<real>, took: seq<bool>, level: seq<real>, i: nat, k: nat)
    requires IsRun(cap, clock, took, level) && i <= k < |level|
    ensures level[k] <= Room(cap, clock, took, i, k)
  {
    assert level[0] == cap;
    if 0 < k {
      assert StepHolds(cap, clock, took, level, k);
    }
    if i < k {
      LevelBelowRoom(cap, clock, took, level, i, k - 1);
    }
  }

  /** ... and equals the room of one of them. */
  lemma {:induction false} LevelIsSomeRoom(
      cap: real, clock: seq<real>, took: seq<bool>, level: seq<real>, k: nat) returns (i: nat)
    requires IsRun(cap, clock, took, level) && k < |level|
    ensures i <= k && level[k] == Room(cap, clock, took, i, k)
  {
    i := k;
    if k > 0 && level[k] != cap {
      assert StepHolds(cap, clock, took, level, k);
      i := LevelIsSomeRoom(cap, clock, took, level, k - 1);
    }
  }
}
