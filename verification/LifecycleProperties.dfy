/** Owner lifetime against the lower AP of the HAL, and the association limit. */
module LifecycleProperties {
  import opened ApstaInvariant
  import opened ApstaState
  import opened MachineTypes
  import opened StationRefinement

  /** The lower AP is up only while the owner can still stop it. */
  predicate LowerSafe(s: OwnerState) {
    s.lowerUp ==> s.bound && (s.lifecycle.LowerBlocked? || s.lifecycle.Running?)
  }

  /** A call that stops the owner while the lower AP is up but the HAL is out of reach. */
  predicate LosesLowerAp(s: OwnerState, c: Call) {
    Stops(s, c) && s.lowerUp && !c.env.hal
  }

  /** What a call does to the lifecycle fields. */
  lemma LifecycleOfCall(s: OwnerState, c: Call)
    ensures var r := Step(s, c).state;
            && (Stops(s, c) ==> r.lowerUp == (s.lowerUp && !(s.bound && c.env.hal)) && !r.IsApRunning()
                                && r.lifecycle == (if c.op.FreeOp? || s.lifecycle.Freed? then Freed else Terminal))
            && (c.op.StartOp? ==> && r.bound == s.bound
                                  && (r.lifecycle.Running? || r.lifecycle.LowerBlocked?)
                                  && (r.lowerUp ==> s.lowerUp || s.bound))
            && (!Stops(s, c) && !c.op.StartOp? && !c.op.TeardownOp? && !c.op.FreeOp?
                ==> r.lowerUp == s.lowerUp && r.lifecycle == s.lifecycle && r.bound == s.bound)
            && (!Stops(s, c) && (c.op.TeardownOp? || c.op.FreeOp?) ==> r.lowerUp == s.lowerUp)
            && (c.op.TeardownOp? || c.op.FreeOp? ==> !r.bound && !r.lifecycle.BeforeTerminal())
  {
    if c.op.EventOp? {
      EventLifecycle(s, c.op.ev, c.env);
    }
    hide PublishEvent, SetPowerSave, ParamsPower;
  }

  /** A start ends with a running AP exactly when the owner is bound, the HAL is there, supports the role and
      starts; then the lower AP is up. Any other start ends blocked, with the AP-up word cleared and the lower AP
      as it was. */
  lemma StartEndsRunningIff(s: OwnerState, c: Call)
    requires c.op.StartOp?
    ensures var o, r := Step(s, c), Step(s, c).state;
            var starts := s.bound && c.env.hal && c.env.supportsAp && c.env.startResult == Success;
            && (r.lifecycle.Running? && r.apUp != 0 <==> starts)
            && (starts ==> r == s.(lifecycle := Running, apUp := 1, transition := 1, lowerUp := true))
            && (!starts ==> r == s.(lifecycle := LowerBlocked, apUp := 0))
            && o.ret == (if !s.bound || !c.env.hal then NotReady
                         else if !c.env.supportsAp then Unsupported else c.env.startResult)
  {
  }

  /** A running AP has its lower AP up. */
  lemma RunningStep(s: OwnerState, c: Call)
    requires s.lifecycle.Running? && s.apUp != 0 ==> s.lowerUp
    requires LifecycleInv(s)
    ensures var r := Step(s, c).state; r.lifecycle.Running? && r.apUp != 0 ==> r.lowerUp
  {
    LifecycleOfCall(s, c);
    if c.op.StartOp? {
      StartEndsRunningIff(s, c);
    }
    hide Step;
  }

  /** Over every run, stable HAL or not: whenever the owner reports a running AP, the lower AP is up. */
  lemma {:induction false} RunningMeansUp(s: OwnerState, calls: seq<Call>)
    requires Initial(s)
    ensures var r := Run(s, calls); r.lifecycle.Running? && r.apUp != 0 ==> r.lowerUp
    decreases |calls|
  {
    hide Step, TableInv, PowerInv;
    if calls != [] {
      var before := calls[..|calls| - 1];
      RunningMeansUp(s, before);
      InitialInv(s);
      RunKeepsInv(s, before);
      RunningStep(Run(s, before), calls[|calls| - 1]);
    }
  }

  lemma EventLifecycle(s: OwnerState, ev: StationEvent, env: Env)
    ensures var r := PublishEvent(s, ev, env).state;
            r.lowerUp == s.lowerUp && r.lifecycle == s.lifecycle && r.bound == s.bound
  {
    hide Admitted, MarkApple, RsnxeField, AllocatedIndex, FindStation, SetPowerSave, AllStationsInLowPower;
  }

  /** A call leaves the lower AP stranded exactly when it stops the owner without reaching the HAL. */
  lemma LowerSafeIff(s: OwnerState, c: Call)
    requires LowerSafe(s)
    ensures LowerSafe(Step(s, c).state) <==> !LosesLowerAp(s, c)
  {
    LifecycleOfCall(s, c);
    hide Step;
  }

  /** No call of the run stops the owner while the lower AP is up but the HAL is out of reach. */
  ghost predicate NeverLoses(s: OwnerState, calls: seq<Call>) {
    forall k | 0 <= k < |calls| :: !LosesLowerAp(Run(s, calls[..k]), calls[k])
  }

  lemma {:induction false} SafeWithoutLoss(s: OwnerState, calls: seq<Call>)
    requires Initial(s) && NeverLoses(s, calls)
    ensures LowerSafe(Run(s, calls))
    decreases |calls|
  {
    hide Step, LosesLowerAp;
    if calls != [] {
      var before := calls[..|calls| - 1];
      forall k | 0 <= k < |before| ensures calls[..k] == before[..k] {}
      SafeWithoutLoss(s, before);
      LowerSafeIff(Run(s, before), calls[|calls| - 1]);
    }
  }

  /** Over runs: the lower AP is up only in LowerBlocked or Running after every prefix, if and only if no
      call of the run is such a stop. */
  lemma RunSafeIff(s: OwnerState, calls: seq<Call>)
    requires Initial(s)
    ensures (forall k | 0 <= k <= |calls| :: LowerSafe(Run(s, calls[..k]))) <==> NeverLoses(s, calls)
  {
    hide Step, LosesLowerAp, LowerSafe, Run, Initial;
    if NeverLoses(s, calls) {
      forall k | 0 <= k <= |calls| ensures LowerSafe(Run(s, calls[..k])) {
        forall j | 0 <= j < k ensures calls[..k][..j] == calls[..j] {}
        SafeWithoutLoss(s, calls[..k]);
      }
    }
    if forall k | 0 <= k <= |calls| :: LowerSafe(Run(s, calls[..k])) {
      forall k | 0 <= k < |calls| ensures !LosesLowerAp(Run(s, calls[..k]), calls[k]) {
        RunLast(s, calls, k);
        LowerSafeIff(Run(s, calls[..k]), calls[k]);
      }
    }
  }

  /** With a stable HAL: in every reachable state the lifecycle is Running exactly when the AP-up word
      is set, and the lower AP is up only in LowerBlocked or Running. */
  lemma StableHalIsSafe(s: OwnerState, calls: seq<Call>)
    requires Initial(s)
    requires forall c | c in calls :: c.env.hal
    ensures NeverLoses(s, calls)
    ensures LifecycleInv(Run(s, calls)) && LowerSafe(Run(s, calls))
  {
    InitialInv(s);
    RunKeepsInv(s, calls);
    hide Step, Run, TableInv, PowerInv, Stops, Initial;
    SafeWithoutLoss(s, calls);
  }

  /** So after a run without such a stop, whatever starts failed or followed a stop, a teardown or a free
      leaves the lower AP down exactly when it was down already or the HAL can be reached. */
  lemma TeardownLeavesLowerDown(s: OwnerState, calls: seq<Call>, c: Call)
    requires Initial(s) && NeverLoses(s, calls) && (c.op.TeardownOp? || c.op.FreeOp?)
    ensures var pre, post := Run(s, calls), Step(Run(s, calls), c).state;
            !post.bound && (!post.lowerUp <==> !pre.lowerUp || c.env.hal)
  {
    var pre := Run(s, calls);
    SafeWithoutLoss(s, calls);
    LifecycleOfCall(pre, c);
    hide Step, Run;
  }

  /** Without a stable HAL it can stay up: the stop does not reach the HAL, and the later teardown finds
      a terminal owner and does not try again. */
  lemma UnstableHalLeavesLowerUp()
    ensures var up := Env(true, true, true, Success, Success, false, 0);
            var calls := [Call(StartOp, up), Call(StopOp, up.(hal := false)), Call(TeardownOp, up)];
            Run(FreshState(0), calls).lowerUp
  {
    var up := Env(true, true, true, Success, Success, false, 0);
    var c0, c1, c2 := Call(StartOp, up), Call(StopOp, up.(hal := false)), Call(TeardownOp, up);
    RunOfThree(FreshState(0), c0, c1, c2);
  }

  // ---------- the association limit ----------

  /** The limit check adds modulo 2^32. A changed request is within the limit afterwards exactly when it
      is refused or the sum does not wrap. */
  lemma MaxAssocWithinLimitIff(s: OwnerState, value: uint32)
    requires Inv(s) && s.maxAssoc != value
    ensures var r := SetMaxAssoc(s, value);
            var accepted := (s.count + value) % 0x1_0000_0000 <= s.maxAssocLimit;
            && (r.maxAssoc == value <==> accepted)
            && (accepted ==> (s.count + r.maxAssoc <= s.maxAssocLimit <==> s.count + value < 0x1_0000_0000))
  {
    var sum := s.count + value;
    NumActiveBounds(s.table);
    assert s.count <= 5;
    if sum >= 0x1_0000_0000 {
      assert sum % 0x1_0000_0000 == sum - 0x1_0000_0000;
    } else {
      assert sum % 0x1_0000_0000 == sum;
    }
  }
}
