/** Which requests whole runs of the rate-limit store admit: the law for every
    interleaving and every clock, and the forms it takes when a client's clock,
    or everybody's, does not run back. */
module Admission {
  import opened Domain
  import opened RateLimit
  import opened RateLimitStore
  import opened BucketRuns

  // ----- decisions -----

  /** Which steps of the evicting store grant a request. */
  function Decisions(lim: Limits, ttl: real, steps: seq<Step>): (d: seq<bool>)
    requires lim.Valid()
    ensures |d| == |steps|
  {
    seq(|steps|, k requires 0 <= k < |steps| =>
      steps[k].Consume? && EvictingAnswer(lim, ttl, steps, k).allowed)
  }

  function KeepingDecisions(lim: Limits, steps: seq<Step>): (d: seq<bool>)
    requires lim.Valid()
    ensures |d| == |steps|
  {
    seq(|steps|, k requires 0 <= k < |steps| =>
      steps[k].Consume? && KeepingAnswer(lim, steps, k).allowed)
  }

  predicate From(step: Step, client: string) {
    step.Consume? && step.q.client == client
  }

  /** Which steps are requests of `client`. */
  function Requests(steps: seq<Step>, client: string): (own: seq<bool>)
    ensures |own| == |steps|
  {
    seq(|steps|, k requires 0 <= k < |steps| => From(steps[k], client))
  }

  /** Which of them are granted. */
  function GrantedTo(steps: seq<Step>, d: seq<bool>, client: string): (took: seq<bool>)
    requires |d| == |steps|
    ensures |took| == |steps|
  {
    seq(|steps|, k requires 0 <= k < |steps| => From(steps[k], client) && d[k])
  }

  // ----- clocks -----

  /** What the clock read at each step. */
  function Readings(steps: seq<Step>): (clock: seq<real>)
    ensures |clock| == |steps|
  {
    seq(|steps|, k requires 0 <= k < |steps| => steps[k].At())
  }

  /** The reading of the client's last request before step k. */
  function LastReading(steps: seq<Step>, client: string, k: nat): Option<real>
    requires k <= |steps|
  {
    if k == 0 then None
    else if From(steps[k - 1], client) then Some(steps[k - 1].q.now)
    else LastReading(steps, client, k - 1)
  }

  /** How far step k moves the client's clock forward from its last reading. */
  function Move(steps: seq<Step>, client: string, k: nat): (d: real)
    requires k < |steps|
    ensures d >= 0.0
  {
    match LastReading(steps, client, k)
    case Some(last) => if From(steps[k], client) && last < steps[k].q.now then steps[k].q.now - last else 0.0
    case None => 0.0
  }

  /** The sum of the client's forward moves, up to step k. */
  function Forward(steps: seq<Step>, client: string, k: nat): real
    requires k < |steps|
  {
    if k == 0 then 0.0 else Forward(steps, client, k - 1) + Move(steps, client, k)
  }

  function ForwardClock(steps: seq<Step>, client: string): (clock: seq<real>)
    ensures |clock| == |steps|
  {
    seq(|steps|, k requires 0 <= k < |steps| => Forward(steps, client, k))
  }

  ghost predicate Sorted(clock: seq<real>) {
    forall i, k :: 0 <= i <= k < |clock| ==> clock[i] <= clock[k]
  }

  lemma {:induction false} ForwardGrows(steps: seq<Step>, client: string, i: nat, k: nat)
    requires i <= k < |steps|
    ensures Forward(steps, client, i) <= Forward(steps, client, k)
  {
    if i < k {
      ForwardGrows(steps, client, i, k - 1);
    }
  }

  lemma ForwardSorted(steps: seq<Step>, client: string)
    ensures Sorted(ForwardClock(steps, client))
  {
    forall i, k | 0 <= i <= k < |steps|
      ensures ForwardClock(steps, client)[i] <= ForwardClock(steps, client)[k]
    {
      ForwardGrows(steps, client, i, k);
    }
  }

  // ----- windows -----

  /** What the window from step i to step k may hold at most. */
  function Allowance(lim: Limits, clock: seq<real>, i: nat, k: nat): real
    requires i <= k < |clock|
  {
    lim.capacity + Refill(clock[i], clock[k], lim.rate)
  }

  /** The window from step i to request k has room for that request beside what
      it holds already. */
  predicate Fits(lim: Limits, clock: seq<real>, took: seq<bool>, i: nat, k: nat)
    requires i <= k < |clock| == |took|
  {
    Count(took, i, k) as real + 1.0 <= Allowance(lim, clock, i, k)
  }

  ghost predicate FitsEveryWindow(lim: Limits, clock: seq<real>, took: seq<bool>, k: nat)
    requires k < |clock| == |took|
  {
    forall i: nat :: i <= k ==> Fits(lim, clock, took, i, k)
  }

  /** The same for the windows that start at a request of the client. */
  ghost predicate FitsOwnWindows(lim: Limits, clock: seq<real>, own: seq<bool>, took: seq<bool>, k: nat)
    requires k < |clock| == |own| == |took|
  {
    forall i: nat :: i <= k && own[i] ==> Fits(lim, clock, took, i, k)
  }

  ghost predicate Within(took: seq<bool>, own: seq<bool>) {
    |took| == |own| && forall k :: 0 <= k < |took| && took[k] ==> own[k]
  }

  /** A request is granted if and only if it fits every window. */
  ghost predicate Law(lim: Limits, clock: seq<real>, own: seq<bool>, took: seq<bool>)
    requires |clock| == |own| == |took|
  {
    forall k :: 0 <= k < |own| && own[k] ==> (took[k] <==> FitsEveryWindow(lim, clock, took, k))
  }

  lemma AllowanceGrows(lim: Limits, clock: seq<real>, i: nat, j: nat, k: nat)
    requires lim.Valid() && Sorted(clock) && i <= j <= k < |clock|
    ensures lim.capacity <= Allowance(lim, clock, i, j) <= Allowance(lim, clock, i, k)
    ensures Allowance(lim, clock, j, k) <= Allowance(lim, clock, i, k)
  {
    RefillAdds(clock[i], clock[j], clock[k], lim.rate);
  }

  /** The law bounds every segment. */
  lemma {:induction false} LawBounds(lim: Limits, clock: seq<real>, own: seq<bool>, took: seq<bool>, i: nat, j: nat)
    requires lim.Valid() && Sorted(clock) && |clock| == |own| && Within(took, own)
    requires Law(lim, clock, own, took) && i <= j < |clock|
    ensures Count(took, i, j + 1) as real <= Allowance(lim, clock, i, j)
  {
    if took[j] {
      assert FitsEveryWindow(lim, clock, took, j);
      assert Fits(lim, clock, took, i, j);
    } else {
      AllowanceGrows(lim, clock, i, if i < j then j - 1 else j, j);
      if i < j {
        LawBounds(lim, clock, own, took, i, j - 1);
      }
    }
  }

  lemma {:induction false} SameCount(a: seq<bool>, b: seq<bool>, i: nat, j: nat)
    requires |a| == |b| && i <= j <= |a|
    requires forall k :: i <= k < j ==> a[k] == b[k]
    ensures Count(a, i, j) == Count(b, i, j)
  {
    if i < j {
      SameCount(a, b, i, j - 1);
    }
  }

  lemma SameFit(lim: Limits, clock: seq<real>, a: seq<bool>, b: seq<bool>, k: nat)
    requires k < |clock| == |a| == |b|
    requires forall j :: 0 <= j < k ==> a[j] == b[j]
    ensures FitsEveryWindow(lim, clock, a, k) <==> FitsEveryWindow(lim, clock, b, k)
  {
    forall i: nat | i <= k
      ensures Fits(lim, clock, a, i, k) <==> Fits(lim, clock, b, i, k)
    {
      SameCount(a, b, i, k);
    }
  }

  lemma {:induction false} FittingAreGranted(lim: Limits, clock: seq<real>, own: seq<bool>, took: seq<bool>, n: nat)
    requires |clock| == |own| && Within(took, own) && Law(lim, clock, own, took) && n <= |own|
    requires forall k :: 0 <= k < n && own[k] ==> FitsEveryWindow(lim, clock, own, k)
    ensures took[..n] == own[..n]
  {
    if n > 0 {
      FittingAreGranted(lim, clock, own, took, n - 1);
      forall j | 0 <= j < n - 1
        ensures took[j] == own[j]
      {
        assert took[j] == took[..n - 1][j] == own[..n - 1][j] == own[j];
      }
      SameFit(lim, clock, took, own, n - 1);
    }
  }

  /** By the law, all requests are granted if and only if they all fit. */
  lemma LawNeverRefuses(lim: Limits, clock: seq<real>, own: seq<bool>, took: seq<bool>)
    requires |clock| == |own| && Within(took, own) && Law(lim, clock, own, took)
    ensures took == own <==> forall k :: 0 <= k < |own| && own[k] ==> FitsEveryWindow(lim, clock, own, k)
  {
    if forall k :: 0 <= k < |own| && own[k] ==> FitsEveryWindow(lim, clock, own, k) {
      FittingAreGranted(lim, clock, own, took, |own|);
      assert took == took[..|own|] == own[..|own|] == own;
    }
  }

  lemma {:induction false} CountFrom(took: seq<bool>, i: nat, k: nat)
    requires i < k <= |took|
    ensures Count(took, i, k) == Count(took, i + 1, k) + if took[i] then 1 else 0
  {
    if i + 1 < k {
      CountFrom(took, i, k - 1);
    }
  }

  lemma {:induction false} OwnWindowsDo(lim: Limits, clock: seq<real>, own: seq<bool>, took: seq<bool>, i: nat, k: nat)
    requires lim.Valid() && Sorted(clock) && i <= k < |clock| == |own| && Within(took, own)
    requires own[k] && FitsOwnWindows(lim, clock, own, took, k)
    ensures Fits(lim, clock, took, i, k)
    decreases k - i
  {
    if !own[i] {
      OwnWindowsDo(lim, clock, own, took, i + 1, k);
      CountFrom(took, i, k);
      AllowanceGrows(lim, clock, i, i + 1, k);
    }
  }

  /** While the clock does not run back, no other window is tighter. */
  lemma OwnWindowsSuffice(lim: Limits, clock: seq<real>, own: seq<bool>, took: seq<bool>, k: nat)
    requires lim.Valid() && Sorted(clock) && k < |clock| == |own| && Within(took, own) && own[k]
    ensures FitsEveryWindow(lim, clock, took, k) <==> FitsOwnWindows(lim, clock, own, took, k)
  {
    if FitsOwnWindows(lim, clock, own, took, k) {
      forall i: nat | i <= k
        ensures Fits(lim, clock, took, i, k)
      {
        OwnWindowsDo(lim, clock, own, took, i, k);
      }
    }
  }

  // ----- the law of the keeping store -----

  function TokensOf(m: Buckets, lim: Limits, client: string): real {
    if client in m then m[client].tokens else lim.capacity
  }

  /** The client's level when step k comes: what it holds, refilled if the step
      is a request of its own. */
  function LevelAt(lim: Limits, steps: seq<Step>, client: string, k: nat): real
    requires lim.Valid() && k < |steps|
  {
    var m := Keeping(lim, steps, k);
    if From(steps[k], client) then Level(Lookup(m, lim, steps[k].q), lim, steps[k].q.now) else TokensOf(m, lim, client)
  }

  lemma {:induction false} KeepingTracks(lim: Limits, steps: seq<Step>, client: string, k: nat)
    requires lim.Valid() && k <= |steps|
    ensures
      var m := Keeping(lim, steps, k);
      LastReading(steps, client, k) == if client in m then Some(m[client].lastUpdate) else None
  {
    if k > 0 {
      KeepingTracks(lim, steps, client, k - 1);
    }
  }

  lemma NewLevel(lim: Limits, q: Request)
    requires lim.Valid()
    ensures Level(NewFull(lim, q.created), lim, q.now) == lim.capacity
  {
    RefillNonNegative(q.created, q.now, lim.rate);
  }

  /** A client's move forward is what its bucket gains. */
  lemma MoveGains(lim: Limits, steps: seq<Step>, client: string, k: nat)
    requires lim.Valid() && 0 < k < |steps|
    ensures
      Refill(Forward(steps, client, k - 1), Forward(steps, client, k), lim.rate)
      == match LastReading(steps, client, k)
         case Some(last) => if From(steps[k], client) then Refill(last, steps[k].q.now, lim.rate) else 0.0
         case None => 0.0
  {
    assert Forward(steps, client, k) - Forward(steps, client, k - 1) == Move(steps, client, k);
  }

  lemma LevelArrives(lim: Limits, steps: seq<Step>, client: string, k: nat)
    requires lim.Valid() && 0 < k < |steps|
    ensures
      var gain := Refill(Forward(steps, client, k - 1), Forward(steps, client, k), lim.rate);
      LevelAt(lim, steps, client, k) == Min(TokensOf(Keeping(lim, steps, k), lim, client) + gain, lim.capacity)
  {
    KeepingTracks(lim, steps, client, k);
    MoveGains(lim, steps, client, k);
    TokensInRange(lim, 0.0, steps, k);
    if From(steps[k], client) {
      NewLevel(lim, steps[k].q);
    }
  }

  lemma LevelLeaves(lim: Limits, steps: seq<Step>, client: string, k: nat)
    requires lim.Valid() && k < |steps|
    ensures
      var took := GrantedTo(steps, KeepingDecisions(lim, steps), client)[k];
      TokensOf(Keeping(lim, steps, k + 1), lim, client)
      == LevelAt(lim, steps, client, k) - (if took then 1.0 else 0.0)
  {
  }

  function Levels(lim: Limits, steps: seq<Step>, client: string): (level: seq<real>)
    requires lim.Valid()
    ensures |level| == |steps|
  {
    seq(|steps|, k requires 0 <= k < |steps| => LevelAt(lim, steps, client, k))
  }

  /** The client's clock, counted in tokens. */
  function TokenClock(lim: Limits, steps: seq<Step>, client: string): (clock: seq<real>)
    ensures |clock| == |steps|
  {
    seq(|steps|, k requires 0 <= k < |steps| => Refill(0.0, Forward(steps, client, k), lim.rate))
  }

  lemma TokenClockGains(lim: Limits, steps: seq<Step>, client: string, i: nat, k: nat)
    requires lim.Valid() && i <= k < |steps|
    ensures
      var gain := Refill(Forward(steps, client, i), Forward(steps, client, k), lim.rate);
      && gain >= 0.0
      && TokenClock(lim, steps, client)[k] - TokenClock(lim, steps, client)[i] == gain
  {
    ForwardGrows(steps, client, 0, i);
    ForwardGrows(steps, client, i, k);
    RefillAdds(0.0, Forward(steps, client, i), Forward(steps, client, k), lim.rate);
  }

  /** A client's levels in the keeping store form a bucket run. */
  lemma KeepingIsRun(lim: Limits, steps: seq<Step>, client: string)
    requires lim.Valid()
    ensures IsRun(lim.capacity, TokenClock(lim, steps, client),
                  GrantedTo(steps, KeepingDecisions(lim, steps), client), Levels(lim, steps, client))
  {
    var clock, level := TokenClock(lim, steps, client), Levels(lim, steps, client);
    var took := GrantedTo(steps, KeepingDecisions(lim, steps), client);
    if |steps| > 0 && From(steps[0], client) {
      NewLevel(lim, steps[0].q);
    }
    forall k | 0 < k < |steps|
      ensures StepHolds(lim.capacity, clock, took, level, k)
    {
      LevelLeaves(lim, steps, client, k - 1);
      LevelArrives(lim, steps, client, k);
      TokenClockGains(lim, steps, client, k - 1, k);
    }
  }

  lemma FitsIffRoom(lim: Limits, steps: seq<Step>, client: string, took: seq<bool>, i: nat, k: nat)
    requires lim.Valid() && i <= k < |steps| == |took|
    ensures Fits(lim, ForwardClock(steps, client), took, i, k)
       <==> Room(lim.capacity, TokenClock(lim, steps, client), took, i, k) >= 1.0
  {
    TokenClockGains(lim, steps, client, i, k);
  }

  lemma KeepingLawAt(lim: Limits, steps: seq<Step>, client: string, k: nat)
    requires lim.Valid() && k < |steps| && From(steps[k], client)
    ensures
      var took := GrantedTo(steps, KeepingDecisions(lim, steps), client);
      took[k] <==> FitsEveryWindow(lim, ForwardClock(steps, client), took, k)
  {
    var took, clock := GrantedTo(steps, KeepingDecisions(lim, steps), client), TokenClock(lim, steps, client);
    var level := Levels(lim, steps, client);
    KeepingIsRun(lim, steps, client);
    assert took[k] <==> level[k] >= 1.0;
    if took[k] {
      forall i: nat | i <= k
        ensures Fits(lim, ForwardClock(steps, client), took, i, k)
      {
        LevelBelowRoom(lim.capacity, clock, took, level, i, k);
        FitsIffRoom(lim, steps, client, took, i, k);
      }
    } else {
      var i := LevelIsSomeRoom(lim.capacity, clock, took, level, k);
      FitsIffRoom(lim, steps, client, took, i, k);
    }
  }

  lemma KeepingLaw(lim: Limits, steps: seq<Step>, client: string)
    requires lim.Valid()
    ensures Law(lim, ForwardClock(steps, client), Requests(steps, client),
                GrantedTo(steps, KeepingDecisions(lim, steps), client))
  {
    forall k | 0 <= k < |steps| && From(steps[k], client)
      ensures
        var took := GrantedTo(steps, KeepingDecisions(lim, steps), client);
        took[k] <==> FitsEveryWindow(lim, ForwardClock(steps, client), took, k)
    {
      KeepingLawAt(lim, steps, client, k);
    }
  }

  /** Of requests that overfill a window, one is refused. */
  lemma OverfullRefused(lim: Limits, steps: seq<Step>, client: string, i: nat, j: nat) returns (k: nat)
    requires lim.Valid() && i <= j < |steps|
    requires Count(Requests(steps, client), i, j + 1) as real > Allowance(lim, ForwardClock(steps, client), i, j)
    ensures i <= k <= j && From(steps[k], client) && !KeepingAnswer(lim, steps, k).allowed
  {
    var own, took := Requests(steps, client), GrantedTo(steps, KeepingDecisions(lim, steps), client);
    KeepingLaw(lim, steps, client);
    ForwardSorted(steps, client);
    LawBounds(lim, ForwardClock(steps, client), own, took, i, j);
    k := SomeDifference(own, took, i, j + 1);
  }

  lemma {:induction false} SomeDifference(a: seq<bool>, b: seq<bool>, i: nat, j: nat) returns (k: nat)
    requires |a| == |b| && i <= j <= |a| && Count(a, i, j) > Count(b, i, j)
    ensures i <= k < j && a[k] && !b[k]
  {
    k := j - 1;
    if !(a[k] && !b[k]) {
      k := SomeDifference(a, b, i, k);
    }
  }

  // ----- every clock -----

  lemma DecisionsAgree(lim: Limits, ttl: real, skew: real, steps: seq<Step>)
    requires lim.Valid() && WithinSkew(steps, skew) && (ttl - skew) * lim.rate >= lim.capacity
    ensures Decisions(lim, ttl, steps) == KeepingDecisions(lim, steps)
  {
    forall k | 0 <= k < |steps| && steps[k].Consume?
      ensures EvictingAnswer(lim, ttl, steps, k) == KeepingAnswer(lim, steps, k)
    {
      EvictionInvisible(lim, ttl, skew, steps, k);
    }
  }

  lemma EvictingLaw(cfg: RateLimit.Config, ttl: real, skew: real, steps: seq<Step>, client: string)
    requires cfg.Valid() && WithinSkew(steps, skew) && ttl >= cfg.periodSecs as real + skew
    ensures
      var lim := cfg.ToLimits();
      Law(lim, ForwardClock(steps, client), Requests(steps, client),
          GrantedTo(steps, Decisions(lim, ttl, steps), client))
  {
    PeriodFillsBucket(cfg, ttl - skew);
    DecisionsAgree(cfg.ToLimits(), ttl, skew, steps);
    KeepingLaw(cfg.ToLimits(), steps, client);
  }

  /** The exact admission law, for any interleaving of clients, refusals and
      sweeps, and whatever the clocks read: a request is granted if and only if
      no window that ends with it then holds more of its client's grants than
      capacity + rate * (what the client's clock moved forward in it). */
  lemma AdmissionLaw(cfg: RateLimit.Config, ttl: real, skew: real, steps: seq<Step>, k: nat)
    requires cfg.Valid() && WithinSkew(steps, skew) && ttl >= cfg.periodSecs as real + skew
    requires k < |steps| && steps[k].Consume?
    ensures
      var lim, client := cfg.ToLimits(), steps[k].q.client;
      var d := Decisions(lim, ttl, steps);
      d[k] <==> FitsEveryWindow(lim, ForwardClock(steps, client), GrantedTo(steps, d, client), k)
  {
    var client := steps[k].q.client;
    EvictingLaw(cfg, ttl, skew, steps, client);
    assert Requests(steps, client)[k];
  }

  /** Over any segment of any run, a client is granted at most capacity +
      rate * (what its clock moved forward) requests, across evictions. */
  lemma WindowBound(cfg: RateLimit.Config, ttl: real, skew: real, steps: seq<Step>, client: string, i: nat, j: nat)
    requires cfg.Valid() && WithinSkew(steps, skew) && ttl >= cfg.periodSecs as real + skew
    requires i <= j < |steps|
    ensures
      var lim := cfg.ToLimits();
      Count(GrantedTo(steps, Decisions(lim, ttl, steps), client), i, j + 1) as real
      <= Allowance(lim, ForwardClock(steps, client), i, j)
  {
    var lim, clock, own := cfg.ToLimits(), ForwardClock(steps, client), Requests(steps, client);
    EvictingLaw(cfg, ttl, skew, steps, client);
    ForwardSorted(steps, client);
    LawBounds(lim, clock, own, GrantedTo(steps, Decisions(lim, ttl, steps), client), i, j);
  }

  ghost predicate NeverRefused(steps: seq<Step>, d: seq<bool>, client: string)
    requires |d| == |steps|
  {
    forall k :: 0 <= k < |steps| && From(steps[k], client) ==> d[k]
  }

  /** Each request of the client, granted or not, fits every window among all
      the requests of the client. */
  ghost predicate RequestsFit(lim: Limits, clock: seq<real>, steps: seq<Step>, client: string)
    requires |clock| == |steps|
  {
    forall k :: 0 <= k < |steps| && From(steps[k], client) ==>
      FitsEveryWindow(lim, clock, Requests(steps, client), k)
  }

  lemma NeverRefusedByLaw(lim: Limits, clock: seq<real>, steps: seq<Step>, d: seq<bool>, client: string)
    requires |clock| == |steps| == |d|
    requires Law(lim, clock, Requests(steps, client), GrantedTo(steps, d, client))
    ensures NeverRefused(steps, d, client) <==> RequestsFit(lim, clock, steps, client)
  {
    var own, took := Requests(steps, client), GrantedTo(steps, d, client);
    LawNeverRefuses(lim, clock, own, took);
    assert NeverRefused(steps, d, client) <==> took == own by {
      if took == own {
        assert forall k :: 0 <= k < |steps| && From(steps[k], client) ==> own[k] && took[k];
      }
    }
    assert RequestsFit(lim, clock, steps, client) <==>
      forall k :: 0 <= k < |own| && own[k] ==> FitsEveryWindow(lim, clock, own, k);
  }

  /** Among any other clients, a client is never refused if and only if its
      requests fit. */
  lemma NeverRefusedIff(cfg: RateLimit.Config, ttl: real, skew: real, steps: seq<Step>, client: string)
    requires cfg.Valid() && WithinSkew(steps, skew) && ttl >= cfg.periodSecs as real + skew
    ensures
      NeverRefused(steps, Decisions(cfg.ToLimits(), ttl, steps), client)
      <==> RequestsFit(cfg.ToLimits(), ForwardClock(steps, client), steps, client)
  {
    var lim := cfg.ToLimits();
    EvictingLaw(cfg, ttl, skew, steps, client);
    NeverRefusedByLaw(lim, ForwardClock(steps, client), steps, Decisions(lim, ttl, steps), client);
  }

  // ----- a client whose clock does not run back -----

  /** The client's readings from step i to step k are in order. */
  ghost predicate InOrder(steps: seq<Step>, client: string, i: nat, k: nat)
    requires k < |steps|
  {
    forall a, b :: i <= a <= b <= k && From(steps[a], client) && From(steps[b], client) ==>
      steps[a].q.now <= steps[b].q.now
  }

  lemma {:induction false} LastReadingIs(steps: seq<Step>, client: string, i: nat, k: nat) returns (j: nat)
    requires i < k <= |steps| && From(steps[i], client)
    ensures i <= j < k && From(steps[j], client) && LastReading(steps, client, k) == Some(steps[j].q.now)
    ensures forall b :: j < b < k ==> !From(steps[b], client)
  {
    j := k - 1;
    if !From(steps[j], client) {
      j := LastReadingIs(steps, client, i, k - 1);
    }
  }

  /** Between two requests of a client, its clock moves forward by at least what
      it gains in all, and by no more if and only if it never runs back. */
  lemma {:induction false} ForwardIsElapsedIff(steps: seq<Step>, client: string, i: nat, k: nat)
    requires i <= k < |steps| && From(steps[i], client)
    ensures
      var moved, last := Forward(steps, client, k) - Forward(steps, client, i), LastReading(steps, client, k + 1);
      && last.Some? && moved >= last.value - steps[i].q.now
      && (moved == last.value - steps[i].q.now <==> InOrder(steps, client, i, k))
  {
    if i < k {
      ForwardIsElapsedIff(steps, client, i, k - 1);
      var j := LastReadingIs(steps, client, i, k);
      if From(steps[k], client) {
        InOrderStep(steps, client, i, j, k);
      } else {
        assert InOrder(steps, client, i, k) <==> InOrder(steps, client, i, k - 1);
      }
    }
  }

  lemma InOrderStep(steps: seq<Step>, client: string, i: nat, j: nat, k: nat)
    requires i <= j < k < |steps| && From(steps[j], client) && From(steps[k], client)
    requires forall b :: j < b < k ==> !From(steps[b], client)
    ensures InOrder(steps, client, i, k) <==> InOrder(steps, client, i, k - 1) && steps[j].q.now <= steps[k].q.now
  {
    if InOrder(steps, client, i, k - 1) && steps[j].q.now <= steps[k].q.now {
      forall a | i <= a <= k && From(steps[a], client)
        ensures steps[a].q.now <= steps[k].q.now
      {
        assert a < k ==> a <= j;
      }
    }
  }

  lemma OwnWindowsInRealTime(lim: Limits, steps: seq<Step>, client: string, took: seq<bool>, k: nat)
    requires lim.Valid() && k < |steps| == |took| && From(steps[k], client) && InOrder(steps, client, 0, k)
    ensures
      var own := Requests(steps, client);
      FitsOwnWindows(lim, ForwardClock(steps, client), own, took, k)
      <==> FitsOwnWindows(lim, Readings(steps), own, took, k)
  {
    forall i: nat | i <= k && From(steps[i], client)
      ensures Fits(lim, ForwardClock(steps, client), took, i, k) <==> Fits(lim, Readings(steps), took, i, k)
    {
      AllowanceInRealTime(lim, steps, client, i, k);
    }
  }

  lemma AllowanceInRealTime(lim: Limits, steps: seq<Step>, client: string, i: nat, k: nat)
    requires lim.Valid() && i <= k < |steps| && From(steps[i], client) && From(steps[k], client)
    requires InOrder(steps, client, i, k)
    ensures Allowance(lim, ForwardClock(steps, client), i, k) == Allowance(lim, Readings(steps), i, k)
  {
    ForwardIsElapsedIff(steps, client, i, k);
    assert Forward(steps, client, k) - Forward(steps, client, i) == steps[k].At() - steps[i].At();
  }

  /** The law in real time, for a client whose readings up to the request are in
      order, whatever the others' are. */
  lemma AdmissionLawInOrder(cfg: RateLimit.Config, ttl: real, skew: real, steps: seq<Step>, k: nat)
    requires cfg.Valid() && WithinSkew(steps, skew) && ttl >= cfg.periodSecs as real + skew
    requires k < |steps| && steps[k].Consume? && InOrder(steps, steps[k].q.client, 0, k)
    ensures
      var lim, client := cfg.ToLimits(), steps[k].q.client;
      var d := Decisions(lim, ttl, steps);
      d[k] <==> FitsOwnWindows(lim, Readings(steps), Requests(steps, client), GrantedTo(steps, d, client), k)
  {
    var lim, client := cfg.ToLimits(), steps[k].q.client;
    var took := GrantedTo(steps, Decisions(lim, ttl, steps), client);
    AdmissionLaw(cfg, ttl, skew, steps, k);
    ForwardSorted(steps, client);
    OwnWindowsSuffice(lim, ForwardClock(steps, client), Requests(steps, client), took, k);
    OwnWindowsInRealTime(lim, steps, client, took, k);
  }

  lemma WindowBoundInOrder(
      cfg: RateLimit.Config, ttl: real, skew: real, steps: seq<Step>, client: string, i: nat, j: nat)
    requires cfg.Valid() && WithinSkew(steps, skew) && ttl >= cfg.periodSecs as real + skew
    requires i <= j < |steps| && From(steps[i], client) && From(steps[j], client) && InOrder(steps, client, i, j)
    ensures
      var lim := cfg.ToLimits();
      Count(GrantedTo(steps, Decisions(lim, ttl, steps), client), i, j + 1) as real
      <= Allowance(lim, Readings(steps), i, j)
  {
    WindowBound(cfg, ttl, skew, steps, client, i, j);
    AllowanceInRealTime(cfg.ToLimits(), steps, client, i, j);
  }

  /** A client whose readings are in order is never refused if and only if each
      block of its requests, from its i-th to its k-th, has size at most
      capacity + rate * (t_k - t_i). */
  lemma NeverRefusedIffInOrder(cfg: RateLimit.Config, ttl: real, skew: real, steps: seq<Step>, client: string)
    requires cfg.Valid() && WithinSkew(steps, skew) && ttl >= cfg.periodSecs as real + skew
    requires forall k :: 0 <= k < |steps| ==> InOrder(steps, client, 0, k)
    ensures
      var lim, own := cfg.ToLimits(), Requests(steps, client);
      NeverRefused(steps, Decisions(lim, ttl, steps), client)
      <==> forall k :: 0 <= k < |steps| && From(steps[k], client) ==>
             FitsOwnWindows(lim, Readings(steps), own, own, k)
  {
    var lim, own := cfg.ToLimits(), Requests(steps, client);
    NeverRefusedIff(cfg, ttl, skew, steps, client);
    ForwardSorted(steps, client);
    forall k | 0 <= k < |steps| && From(steps[k], client)
      ensures FitsEveryWindow(lim, ForwardClock(steps, client), own, k)
         <==> FitsOwnWindows(lim, Readings(steps), own, own, k)
    {
      OwnWindowsSuffice(lim, ForwardClock(steps, client), own, own, k);
      OwnWindowsInRealTime(lim, steps, client, own, k);
    }
  }

  // ----- when no clock runs back -----

  lemma SortedInOrder(steps: seq<Step>, client: string)
    requires Sorted(Readings(steps))
    ensures WithinSkew(steps, 0.0)
    ensures forall k :: 0 <= k < |steps| ==> InOrder(steps, client, 0, k)
  {
    var clock := Readings(steps);
    forall i, k | 0 <= i <= k < |steps|
      ensures steps[i].At() <= steps[k].At()
    {
      assert clock[i] <= clock[k];
    }
  }

  /** When time does not run back at all, the law holds of all windows of the
      run, measured in real time. */
  lemma SortedLaw(cfg: RateLimit.Config, ttl: real, steps: seq<Step>, client: string)
    requires cfg.Valid() && Sorted(Readings(steps)) && ttl >= cfg.periodSecs as real
    ensures
      var lim := cfg.ToLimits();
      Law(lim, Readings(steps), Requests(steps, client), GrantedTo(steps, Decisions(lim, ttl, steps), client))
  {
    var lim, own := cfg.ToLimits(), Requests(steps, client);
    var took := GrantedTo(steps, Decisions(lim, ttl, steps), client);
    SortedInOrder(steps, client);
    forall k | 0 <= k < |steps| && own[k]
      ensures took[k] <==> FitsEveryWindow(lim, Readings(steps), took, k)
    {
      AdmissionLawInOrder(cfg, ttl, 0.0, steps, k);
      OwnWindowsSuffice(lim, Readings(steps), own, took, k);
    }
  }

  lemma SortedWindowBound(cfg: RateLimit.Config, ttl: real, steps: seq<Step>, client: string, i: nat, j: nat)
    requires cfg.Valid() && Sorted(Readings(steps)) && ttl >= cfg.periodSecs as real && i <= j < |steps|
    ensures
      var lim := cfg.ToLimits();
      Count(GrantedTo(steps, Decisions(lim, ttl, steps), client), i, j + 1) as real
      <= Allowance(lim, Readings(steps), i, j)
  {
    var lim := cfg.ToLimits();
    SortedLaw(cfg, ttl, steps, client);
    LawBounds(lim, Readings(steps), Requests(steps, client),
              GrantedTo(steps, Decisions(lim, ttl, steps), client), i, j);
  }

  lemma SortedNeverRefusedIff(cfg: RateLimit.Config, ttl: real, steps: seq<Step>, client: string)
    requires cfg.Valid() && Sorted(Readings(steps)) && ttl >= cfg.periodSecs as real
    ensures
      NeverRefused(steps, Decisions(cfg.ToLimits(), ttl, steps), client)
      <==> RequestsFit(cfg.ToLimits(), Readings(steps), steps, client)
  {
    SortedLaw(cfg, ttl, steps, client);
    NeverRefusedByLaw(cfg.ToLimits(), Readings(steps), steps, Decisions(cfg.ToLimits(), ttl, steps), client);
  }

  // ----- a clock that runs back -----

  /** Three calls of one client, which read the clock at 1, 0 and 1. */
  function BackAndForth(): (steps: seq<Step>)
    ensures steps == Calls([CallAt(1.0), CallAt(0.0), CallAt(1.0)], {"client"})
  {
    [Sweep(1.0, {"client"}), Consume(CallAt(1.0)),
     Sweep(0.0, {"client"}), Consume(CallAt(0.0)),
     Sweep(1.0, {"client"}), Consume(CallAt(1.0))]
  }

  function CallAt(now: real): Request {
    Request("client", now, now)
  }

  lemma StoreBackAndForth(lim: Limits)
    requires lim == Limits(1.0, 1.0)
    ensures
      var steps := BackAndForth();
      && Evicting(lim, 2.0, steps, 1) == map[]
      && Evicting(lim, 2.0, steps, 3) == map["client" := Bucket(0.0, 1.0)]
      && Evicting(lim, 2.0, steps, 5) == map["client" := Bucket(0.0, 0.0)]
  {
    var steps := BackAndForth();
    assert Evicting(lim, 2.0, steps, 0) == map[];
    assert Evicting(lim, 2.0, steps, 1) == map[];
    assert Evicting(lim, 2.0, steps, 2) == map["client" := Bucket(0.0, 1.0)];
    assert Evicting(lim, 2.0, steps, 3) == map["client" := Bucket(0.0, 1.0)];
    assert Evicting(lim, 2.0, steps, 4) == map["client" := Bucket(0.0, 0.0)];
    assert Evicting(lim, 2.0, steps, 5) == map["client" := Bucket(0.0, 0.0)];
  }

  lemma GrantedBackAndForth(lim: Limits)
    requires lim == Limits(1.0, 1.0)
    ensures
      var steps := BackAndForth();
      GrantedTo(steps, Decisions(lim, 2.0, steps), "client") == [false, true, false, false, false, true]
  {
    StoreBackAndForth(lim);
  }

  lemma TwoCounted(took: seq<bool>)
    requires took == [false, true, false, false, false, true]
    ensures Count(took, 1, 6) == 2
  {
    assert Count(took, 1, 2) == 1;
    assert Count(took, 1, 5) == 1 by {
      assert Count(took, 1, 3) == Count(took, 1, 4) == 1;
    }
  }

  /** A witness, with one token a second and room for one: the second call is
      refused but sets the bucket's clock back, so the first and the third are
      granted, two in a window of no length at all. */
  lemma BackwardClockAdmitsMore()
    ensures
      var lim, steps := Limits(1.0, 1.0), BackAndForth();
      && WithinSkew(steps, 1.0)
      && Count(GrantedTo(steps, Decisions(lim, 2.0, steps), "client"), 1, 6) == 2
      && Allowance(lim, Readings(steps), 1, 5) == 1.0
      && !InOrder(steps, "client", 1, 5)
  {
    var steps, lim := BackAndForth(), Limits(1.0, 1.0);
    GrantedBackAndForth(lim);
    TwoCounted(GrantedTo(steps, Decisions(lim, 2.0, steps), "client"));
    ClockBackAndForth();
    EmptyWindow(lim, Readings(steps), 1, 5);
  }

  /** Its limits are those of one request a second. */
  lemma OneASecond()
    ensures RateLimit.Config(1, 1).ToLimits() == Limits(1.0, 1.0)
  {
  }

  lemma ClockBackAndForth()
    ensures WithinSkew(BackAndForth(), 1.0) && !InOrder(BackAndForth(), "client", 1, 5)
    ensures Readings(BackAndForth())[1] == Readings(BackAndForth())[5] == 1.0
  {
    assert From(BackAndForth()[1], "client") && From(BackAndForth()[3], "client");
  }

  lemma EmptyWindow(lim: Limits, clock: seq<real>, i: nat, k: nat)
    requires i <= k < |clock| && clock[i] == clock[k]
    ensures Allowance(lim, clock, i, k) == lim.capacity
  {
  }
}
