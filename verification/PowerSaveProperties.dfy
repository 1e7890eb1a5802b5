/** The power-save machine over whole runs: who may change the mode, and what the raw counters hold. */
module PowerSaveProperties {
  import opened ApstaInvariant
  import opened ApstaState
  import opened ByteBuffers
  import opened EventContracts
  import opened MachineTypes
  import opened StationRefinement

  // ---------- the enable bit and the mode ----------

  /** Over every run, from any starting enable byte: the invariant of the machine holds, and the enable bit
      never rises -- where it is set at the end, it was set all along. */
  lemma {:induction false} EnableNeverRises(s: OwnerState, calls: seq<Call>)
    requires Initial(s)
    ensures PowerInv(Run(s, calls).power)
    ensures forall k | 0 <= k <= |calls| :: Run(s, calls).power.Enabled() ==> Run(s, calls[..k]).power.Enabled()
    decreases |calls|
  {
    hide Step, PowerInv, TableInv, LifecycleInv, Initial;
    InitialInv(s);
    RunKeepsInv(s, calls);
    assert calls[..|calls|] == calls;
    if calls != [] {
      var before := calls[..|calls| - 1];
      EnableNeverRises(s, before);
      EnableStep(Run(s, before), calls[|calls| - 1]);
      forall k | 0 <= k < |calls| ensures calls[..k] == before[..k] {}
    }
  }

  lemma EnableStep(s: OwnerState, c: Call)
    ensures Step(s, c).state.power.Enabled() ==> s.power.Enabled()
  {
    PowerOfCall(s, c);
    hide Step, StepPower, SetPowerSave;
    StepPowerEnabled(s, c);
  }

  /** What one call does to the power fields, and nothing else of it. */
  ghost function StepPower(s: OwnerState, c: Call): Power {
    if Stops(s, c) then SetPowerSave(s.power, MODE_OFF, REASON_RESET).(stats := Zeros(STATS_SIZE))
    else
      match c.op
      case HiddenOp(value) =>
        if ClearsHidden(s, value, c.env)
        then SetPowerSave(s.power, MODE_OFF, REASON_HIDDEN).(param0e := 0, assertion := 1) else s.power
      case ParamsOp(in0) => ParamsPower(s, in0)
      case EventOp(ev) =>
        if EntersLowPower(s, ev, c.env) then SetPowerSave(s.power, MODE_LOW_POWER, REASON_ALL_STATIONS) else s.power
      case _ => s.power
  }

  /** An accepted request to show the network again. */
  predicate ClearsHidden(s: OwnerState, value: Option<uint32>, env: Env) {
    value == Some(0) && s.IsApRunning() && s.bound && env.hal && env.hiddenResult == Success
  }

  /** An action frame of a known station after which every station sleeps, without concurrency. */
  ghost predicate EntersLowPower(s: OwnerState, ev: StationEvent, env: Env) {
    && ev.mac.Some? && ev.IsAction()
    && FindStation(s.table, ev.mac.value) < |s.table|
    && ParseActionFrame(ev.data).Parsed?
    && AllStationsInLowPower(ActionEvent(s, ev.mac.value, ev, env).state.table)
    && !ConcurrencyEnabled(s, env)
  }

  lemma EventPower(s: OwnerState, ev: StationEvent, env: Env)
    ensures PublishEvent(s, ev, env).state.power == StepPower(s, Call(EventOp(ev), env))
  {
    hide AuthEvent, AssocEvent, LeaveEvent, ActionEvent, SetPowerSave, FindStation, AllStationsInLowPower;
    hide ParseActionFrame, ConcurrencyEnabled;
    if ev.mac.Some? {
      AuthKeepsInv(s, ev, env);
      AssocPower(s, ev.mac.value, ev, env);
      LeavePower(s, ev.mac.value, env);
      if ev.IsAction() {
        ActionPower(s, ev, env);
      }
    }
  }

  lemma LeavePower(s: OwnerState, mac: Mac, env: Env)
    ensures LeaveEvent(s, mac, env).state.power == s.power
  {
    hide FindStation;
  }

  lemma ActionPower(s: OwnerState, ev: StationEvent, env: Env)
    requires ev.mac.Some? && ev.IsAction()
    ensures ActionEvent(s, ev.mac.value, ev, env).state.power
            == if EntersLowPower(s, ev, env) then SetPowerSave(s.power, MODE_LOW_POWER, REASON_ALL_STATIONS)
               else s.power
  {
    hide FindStation, AllStationsInLowPower, SetPowerSave, ParseActionFrame, ConcurrencyEnabled;
  }

  lemma AssocPower(s: OwnerState, mac: Mac, ev: StationEvent, env: Env)
    ensures AssocEvent(s, mac, ev, env).state.power == s.power
  {
    hide Admitted, MarkApple, RsnxeField, AllocatedIndex, FindStation;
  }

  lemma PowerOfCall(s: OwnerState, c: Call)
    ensures Step(s, c).state.power == StepPower(s, c)
  {
    if c.op.EventOp? {
      EventPower(s, c.op.ev, c.env);
    }
    hide PublishEvent, SetPowerSave, SetMaxAssoc, StartLower, EntersLowPower;
    if c.op.StartOp? || c.op.MaxAssocOp? || c.op.MisMaxStaOp? {
      QuietCalls(s, c);
    }
  }

  lemma QuietCalls(s: OwnerState, c: Call)
    ensures StartLower(s, c.env).state.power == s.power
    ensures forall max: uint32 :: SetMaxAssoc(s, max).power == s.power
  {
  }

  /** A reset always ends with power save off and the statistics cleared. */
  lemma StopEndsOff(s: OwnerState, c: Call)
    requires Inv(s) && Stops(s, c)
    ensures Step(s, c).state.power.mode == MODE_OFF && Step(s, c).state.power.stats == Zeros(STATS_SIZE)
  {
    hide Step, Stops;
    PowerOfCall(s, c);
  }

  lemma StepPowerEnabled(s: OwnerState, c: Call)
    ensures StepPower(s, c).Enabled() ==> s.power.Enabled()
  {
  }

  lemma EntryStep(s: OwnerState, c: Call)
    ensures c.op.EventOp? && EntersLowPower(s, c.op.ev, c.env)
            ==> Step(s, c).state.table == ActionEvent(s, c.op.ev.mac.value, c.op.ev, c.env).state.table
  {
    hide ActionEvent, AllStationsInLowPower, FindStation;
  }

  /** A call moves the AP into low power only by an action frame, and then every active station sleeps
      and SoftAP concurrency is disabled. */
  lemma LowPowerOnlyWhenAllSleep(s: OwnerState, c: Call)
    requires Inv(s) && s.power.mode != MODE_LOW_POWER && Step(s, c).state.power.mode == MODE_LOW_POWER
    ensures c.op.EventOp? && c.op.ev.IsAction()
    ensures forall i | 0 <= i < |Step(s, c).state.table| && Step(s, c).state.table[i].active != 0 ::
              Step(s, c).state.table[i].sleepState == SLEEP_STATE_LOW_POWER
    ensures !ConcurrencyEnabled(s, c.env)
  {
    hide Step, ParseActionFrame, FindStation, DistinctMacs, NumActive, ConcurrencyEnabled, Stops, ClearsHidden;
    PowerOfCall(s, c);
    StepKeepsInv(s, c);
    EntryStep(s, c);
  }

  /** The three ways out of low power; no station event is among them. */
  lemma LowPowerLeftIff(s: OwnerState, c: Call)
    requires Inv(s) && s.power.mode == MODE_LOW_POWER
    ensures Step(s, c).state.power.mode != MODE_LOW_POWER
            <==> || Stops(s, c)
                 || (c.op.HiddenOp? && ClearsHidden(s, c.op.value, c.env))
                 || (c.op.ParamsOp? && (c.op.in0.enabled17 != 0 || s.apUp != 0))
  {
    PowerOfCall(s, c);
    hide Step, Stops, ClearsHidden, EntersLowPower, TableInv, LifecycleInv;
  }

  /** Low power means that every active station sleeps. */
  predicate LowPowerMeansAsleep(s: OwnerState) {
    s.power.mode == MODE_LOW_POWER ==> AllStationsInLowPower(s.table)
  }

  /** The events that leave a station awake: a station gets a new entry, or a known one says it is awake. */
  ghost predicate Wakes(s: OwnerState, c: Call) {
    && c.op.EventOp? && c.op.ev.mac.Some?
    && var ev, mac := c.op.ev, c.op.ev.mac.value;
       var known := FindStation(s.table, mac) < |s.table|;
       || (ev.IsAssoc() && Admitted(s, ev) && !known && AllocatedIndex(s.table, mac) < |s.table|)
       || (ev.IsAction() && known && ParseActionFrame(ev.data) == Parsed(LPHS_CATEGORY, LPHS_ACTION_AWAKE))
  }

  ghost predicate WakesInLowPower(s: OwnerState, c: Call) {
    s.power.mode == MODE_LOW_POWER && Wakes(s, c)
  }

  lemma StoredAwake(t: seq<Slot>, i: nat, x: Slot)
    requires i < |t| && x.active == 1 && x.sleepState == SLEEP_STATE_AWAKE
    ensures !AllStationsInLowPower(t[i := x])
  {
    assert t[i := x][i] == x;
  }

  lemma StoredAsleep(t: seq<Slot>, i: nat, x: Slot)
    requires i < |t| && AllStationsInLowPower(t) && (x.active == 0 || x.sleepState != SLEEP_STATE_AWAKE)
    ensures AllStationsInLowPower(t[i := x])
  {
  }

  lemma SameSleep(t: seq<Slot>, i: nat, x: Slot)
    requires i < |t| && x.active == t[i].active && x.sleepState == t[i].sleepState
    ensures AllStationsInLowPower(t[i := x]) <==> AllStationsInLowPower(t)
  {
    var u := t[i := x];
    assert forall k | 0 <= k < |t| && k != i :: u[k] == t[k];
    if AllStationsInLowPower(u) {
      assert u[i] == x;
    }
  }

  lemma AssocSleep(s: OwnerState, mac: Mac, ev: StationEvent, env: Env)
    requires AllStationsInLowPower(s.table) && Admitted(s, ev)
    ensures AllStationsInLowPower(AssocEvent(s, mac, ev, env).state.table)
            <==> FindStation(s.table, mac) < |s.table| || AllocatedIndex(s.table, mac) == |s.table|
  {
    var i := AllocatedIndex(s.table, mac);
    AssocTable(s, mac, ev, env);
    if i < |s.table| {
      if FindStation(s.table, mac) < |s.table| {
        SameSleep(s.table, i, MarkApple(s.table[i], ev.ies));
      } else {
        StoredAwake(s.table, i, MarkApple(NewSlot(mac), ev.ies));
      }
    }
    hide AssocEvent, Admitted, AllStationsInLowPower, FindStation;
  }

  lemma LeaveSleep(s: OwnerState, mac: Mac, env: Env)
    requires AllStationsInLowPower(s.table)
    ensures AllStationsInLowPower(LeaveEvent(s, mac, env).state.table)
  {
    var i := FindStation(s.table, mac);
    if i < |s.table| {
      StoredAsleep(s.table, i, CLEAR_SLOT);
    }
    hide AllStationsInLowPower, FindStation;
  }

  lemma ActionSleep(s: OwnerState, mac: Mac, ev: StationEvent, env: Env)
    requires TableInv(s.table) && AllStationsInLowPower(s.table)
    ensures AllStationsInLowPower(ActionEvent(s, mac, ev, env).state.table)
            <==> !(FindStation(s.table, mac) < |s.table|
                   && ParseActionFrame(ev.data) == Parsed(LPHS_CATEGORY, LPHS_ACTION_AWAKE))
  {
    var i, frame := FindStation(s.table, mac), ParseActionFrame(ev.data);
    if i < |s.table| && frame.Parsed? {
      assert s.table[i].active != 0 && SlotOk(s.table[i]);
      var x := s.table[i].(sleepState := frame.action);
      if frame.action == LPHS_ACTION_AWAKE {
        StoredAwake(s.table, i, x);
      } else {
        StoredAsleep(s.table, i, x);
      }
    }
    hide AllStationsInLowPower, FindStation, ParseActionFrame, SetPowerSave, DistinctMacs;
  }

  /** An event leaves everyone asleep exactly when it wakes nobody. */
  lemma EventSleep(s: OwnerState, c: Call)
    requires TableInv(s.table) && AllStationsInLowPower(s.table) && c.op.EventOp?
    ensures AllStationsInLowPower(Step(s, c).state.table) <==> !Wakes(s, c)
  {
    hide AuthEvent, AssocEvent, LeaveEvent, ActionEvent, AllStationsInLowPower, FindStation, AllocatedIndex, Admitted,
         ParseActionFrame, TableInv;
    var ev := c.op.ev;
    if ev.mac.Some? {
      var mac := ev.mac.value;
      AuthKeepsInv(s, ev, c.env);
      if ev.IsAssoc() && Admitted(s, ev) {
        AssocSleep(s, mac, ev, c.env);
      } else if ev.IsAssoc() {
        RefusedAssocKeeps(s, mac, ev, c.env);
      } else if ev.IsLeave() {
        LeaveSleep(s, mac, c.env);
      } else if ev.IsAction() {
        ActionSleep(s, mac, ev, c.env);
      }
    }
  }

  lemma OthersKeepTable(s: OwnerState, c: Call)
    requires !c.op.EventOp? && !Stops(s, c)
    ensures Step(s, c).state.table == s.table
  {
    hide PublishEvent, StopLower, SetPowerSave;
  }

  /** When low power means that everyone sleeps: a call breaks it exactly when it leaves a station awake
      while the AP is in low power. */
  lemma LowPowerMeansAsleepIff(s: OwnerState, c: Call)
    requires Inv(s) && LowPowerMeansAsleep(s)
    ensures LowPowerMeansAsleep(Step(s, c).state) <==> !(s.power.mode == MODE_LOW_POWER && Wakes(s, c))
  {
    hide Step, Stops, Wakes, TableInv, PowerInv, LifecycleInv, ClearsHidden, ConcurrencyEnabled;
    StopsAreNoEvents(s, c);
    if s.power.mode != MODE_LOW_POWER {
      if Step(s, c).state.power.mode == MODE_LOW_POWER {
        LowPowerOnlyWhenAllSleep(s, c);
      }
    } else if Stops(s, c) {
      StopEndsOff(s, c);
    } else if c.op.EventOp? {
      LowPowerLeftIff(s, c);
      EventSleep(s, c);
    } else {
      OthersKeepTable(s, c);
    }
  }

  lemma StopsAreNoEvents(s: OwnerState, c: Call)
    ensures Stops(s, c) ==> !c.op.EventOp?
    ensures Wakes(s, c) ==> c.op.EventOp?
  {
    hide FindStation, AllocatedIndex, Admitted, ParseActionFrame;
  }

  lemma {:induction false} AsleepWithoutWaking(s: OwnerState, calls: seq<Call>)
    requires Initial(s)
    requires forall k | 0 <= k < |calls| :: !WakesInLowPower(Run(s, calls[..k]), calls[k])
    ensures LowPowerMeansAsleep(Run(s, calls))
    decreases |calls|
  {
    hide Inv, Wakes, LowPowerMeansAsleep, Step, Initial;
    if calls == [] {
      InitialAsleep(s);
    } else {
      var before := calls[..|calls| - 1];
      forall k | 0 <= k < |before| ensures calls[..k] == before[..k] {}
      AsleepWithoutWaking(s, before);
      InitialInv(s);
      RunKeepsInv(s, before);
      LowPowerMeansAsleepIff(Run(s, before), calls[|calls| - 1]);
    }
  }

  /** Over runs: low power means that everyone sleeps after every prefix exactly when no call of the run
      leaves a station awake in low power. */
  lemma RunMeansAsleepIff(s: OwnerState, calls: seq<Call>)
    requires Initial(s)
    ensures (forall k | 0 <= k <= |calls| :: LowPowerMeansAsleep(Run(s, calls[..k])))
            <==> forall k | 0 <= k < |calls| :: !WakesInLowPower(Run(s, calls[..k]), calls[k])
  {
    hide Inv, Wakes, LowPowerMeansAsleep, Step, Run, Initial;
    if forall k | 0 <= k < |calls| :: !WakesInLowPower(Run(s, calls[..k]), calls[k]) {
      forall k | 0 <= k <= |calls| ensures LowPowerMeansAsleep(Run(s, calls[..k])) {
        forall j | 0 <= j < k ensures calls[..k][..j] == calls[..j] {}
        AsleepWithoutWaking(s, calls[..k]);
      }
    }
    if forall k | 0 <= k <= |calls| :: LowPowerMeansAsleep(Run(s, calls[..k])) {
      InitialInv(s);
      forall k | 0 <= k < |calls| ensures !WakesInLowPower(Run(s, calls[..k]), calls[k]) {
        RunKeepsInv(s, calls[..k]);
        RunLast(s, calls, k);
        LowPowerMeansAsleepIff(Run(s, calls[..k]), calls[k]);
      }
    }
  }

  lemma InitialAsleep(s: OwnerState)
    requires Initial(s)
    ensures LowPowerMeansAsleep(s)
  {
  }

  /** An event that wakes a station never leaves the mode: from then on, low power with a station awake. */
  lemma LowPowerOutlivesSleep(s: OwnerState, c: Call)
    requires Inv(s) && LowPowerMeansAsleep(s) && s.power.mode == MODE_LOW_POWER && Wakes(s, c)
    ensures var r := Step(s, c).state;
            r.power.mode == MODE_LOW_POWER && !AllStationsInLowPower(r.table)
  {
    LowPowerMeansAsleepIff(s, c);
    hide Step, Inv, Wakes, AllStationsInLowPower;
  }

  // ---------- the transition counters ----------

  lemma BumpCounterMeaning(stats: Stats, n: byte)
    requires n <= MODE_LOW_POWER
    ensures var r, o := BumpCounter(stats, n), CounterOffset(n);
            && o + 4 <= STATS_SIZE
            && (forall k | 0 <= k < STATS_SIZE && !(o <= k < o + 4) :: r[k] == stats[k])
            && Counter(r, n) == (Counter(stats, n) + 1) % 0x1_0000_0000
            && forall m: byte | m <= MODE_LOW_POWER && m != n :: Counter(r, m) == Counter(stats, m)
  {
    var o, v := CounterOffset(n), (Counter(stats, n) + 1) % 0x1_0000_0000;
    var b := ToLe32(v);
    SpliceMeaning(stats, o, b);
    Le32RoundTrip(v);
    var r := BumpCounter(stats, n);
    assert r[o] == b[0] && r[o + 1] == b[1] && r[o + 2] == b[2] && r[o + 3] == b[3];
    assert forall k | 0 <= k < STATS_SIZE && !(o <= k < o + 4) :: r[k] == stats[k];
    hide Splice, ToLe32, BumpCounter;
  }

  /** One if the mode changed into n, else zero. */
  function Entered(before: Power, after: Power, n: byte): nat {
    if before.mode != after.mode && after.mode == n then 1 else 0
  }

  /** Changes of the mode into n since the last call that clears the statistics. */
  ghost function ChangesInto(s: OwnerState, calls: seq<Call>, n: byte): nat {
    if calls == [] then 0
    else
      var before, c := calls[..|calls| - 1], calls[|calls| - 1];
      var pre, post := Run(s, before), Run(s, calls);
      if Stops(pre, c) then 0 else ChangesInto(s, before, n) + Entered(pre.power, post.power, n)
  }

  /** Changes of the mode at all since then. */
  ghost function Changes(s: OwnerState, calls: seq<Call>): nat {
    if calls == [] then 0
    else
      var before, c := calls[..|calls| - 1], calls[|calls| - 1];
      var pre, post := Run(s, before), Run(s, calls);
      if Stops(pre, c) then 0
      else Changes(s, before) + (if pre.power.mode != post.power.mode then 1 else 0)
  }

  lemma PowerSaveCounters(p: Power, newState: byte, reason: byte, n: byte)
    requires newState <= MODE_LOW_POWER && n <= MODE_LOW_POWER
    ensures var r := SetPowerSave(p, newState, reason);
            Counter(r.stats, n) == (Counter(p.stats, n) + Entered(p, r, n)) % 0x1_0000_0000
  {
    if SetPowerSave(p, newState, reason) != p {
      BumpCounterMeaning(p.stats, newState);
    }
    hide Counter, BumpCounter;
  }

  lemma ZeroCounter(n: byte)
    requires n <= MODE_LOW_POWER
    ensures Counter(Zeros(STATS_SIZE), n) == 0
  {
  }

  lemma InitialCounter(s: OwnerState, n: byte)
    requires Initial(s) && n <= MODE_LOW_POWER
    ensures Counter(s.power.stats, n) == 0
  {
    ZeroCounter(n);
    hide Counter;
  }

  lemma StepCounters(s: OwnerState, c: Call, n: byte)
    requires n <= MODE_LOW_POWER
    ensures var r := Step(s, c).state.power;
            Counter(r.stats, n)
            == if Stops(s, c) then 0 else (Counter(s.power.stats, n) + Entered(s.power, r, n)) % 0x1_0000_0000
  {
    PowerOfCall(s, c);
    hide Step, SetPowerSave, Stops, ClearsHidden, EntersLowPower, Counter;
    PowerSaveCounters(s.power, MODE_OFF, REASON_HIDDEN, n);
    PowerSaveCounters(s.power, MODE_OFF, REASON_PARAMS, n);
    PowerSaveCounters(s.power, MODE_ON, REASON_PARAMS, n);
    PowerSaveCounters(s.power, MODE_LOW_POWER, REASON_ALL_STATIONS, n);
    ZeroCounter(n);
  }

  lemma ModeInRange(s: OwnerState, calls: seq<Call>)
    requires Initial(s)
    ensures Run(s, calls).power.mode in {MODE_OFF, MODE_ON, MODE_LOW_POWER}
  {
    EnableNeverRises(s, calls);
  }

  lemma WrapStep(counter: nat, n: nat, d: nat)
    requires counter == n % 0x1_0000_0000
    ensures (counter + d) % 0x1_0000_0000 == (n + d) % 0x1_0000_0000
  {
  }

  lemma ChangesIntoLast(s: OwnerState, before: seq<Call>, c: Call, n: byte)
    ensures var pre := Run(s, before);
            && Run(s, before + [c]) == Step(pre, c).state
            && ChangesInto(s, before + [c], n)
               == if Stops(pre, c) then 0
                  else ChangesInto(s, before, n) + Entered(pre.power, Step(pre, c).state.power, n)
  {
    assert (before + [c])[..|before|] == before;
    hide Step, Stops, Entered;
  }

  /** Conservation: in every reachable state each raw counter is, modulo 2^32, the number of mode
      changes into its state since the statistics were last cleared. */
  lemma {:induction false} CountersConserved(s: OwnerState, calls: seq<Call>, n: byte)
    requires Initial(s) && n <= MODE_LOW_POWER
    ensures Counter(Run(s, calls).power.stats, n) == ChangesInto(s, calls, n) % 0x1_0000_0000
    decreases |calls|
  {
    hide Step, Stops, Counter, Entered, Initial;
    InitialCounter(s, n);
    if calls != [] {
      var before, c := calls[..|calls| - 1], calls[|calls| - 1];
      var pre := Run(s, before);
      CountersConserved(s, before, n);
      StepCounters(pre, c, n);
      assert before + [c] == calls;
      ChangesIntoLast(s, before, c, n);
      WrapStep(Counter(pre.power.stats, n), ChangesInto(s, before, n), Entered(pre.power, Step(pre, c).state.power, n));
    }
  }

  /** The four numbers add up to the number of mode changes. */
  lemma {:induction false} ChangesAddUp(s: OwnerState, calls: seq<Call>)
    requires Initial(s)
    ensures Changes(s, calls) == ChangesInto(s, calls, 0) + ChangesInto(s, calls, 1)
                                 + ChangesInto(s, calls, 2) + ChangesInto(s, calls, 3)
    decreases |calls|
  {
    hide Step, Stops, Initial;
    if calls != [] {
      ChangesAddUp(s, calls[..|calls| - 1]);
      ModeInRange(s, calls);
    }
  }

  lemma AddModulo(a: nat, b: nat, c: nat, d: nat)
    ensures (a % 0x1_0000_0000 + b % 0x1_0000_0000 + c % 0x1_0000_0000 + d % 0x1_0000_0000) % 0x1_0000_0000
            == (a + b + c + d) % 0x1_0000_0000
  {
    WrapStep(a % 0x1_0000_0000, a, b + c + d);
    WrapStep(b % 0x1_0000_0000, b, a % 0x1_0000_0000 + c + d);
    WrapStep(c % 0x1_0000_0000, c, a % 0x1_0000_0000 + b % 0x1_0000_0000 + d);
    WrapStep(d % 0x1_0000_0000, d, a % 0x1_0000_0000 + b % 0x1_0000_0000 + c % 0x1_0000_0000);
  }

  /** And so do the raw bytes: in every reachable state the four little-endian counters add up, modulo
      2^32, to the number of mode changes since the statistics were last cleared. */
  lemma CountersAddUp(s: OwnerState, calls: seq<Call>)
    requires Initial(s)
    ensures var stats := Run(s, calls).power.stats;
            (Counter(stats, 0) + Counter(stats, 1) + Counter(stats, 2) + Counter(stats, 3)) % 0x1_0000_0000
            == Changes(s, calls) % 0x1_0000_0000
  {
    hide Counter, Changes, ChangesInto, Run, Initial;
    CountersConserved(s, calls, 0);
    CountersConserved(s, calls, 1);
    CountersConserved(s, calls, 2);
    CountersConserved(s, calls, 3);
    ChangesAddUp(s, calls);
    AddModulo(ChangesInto(s, calls, 0), ChangesInto(s, calls, 1), ChangesInto(s, calls, 2), ChangesInto(s, calls, 3));
  }

  // ---------- events from the wireless stack ----------

  /** What the net80211 event hook passes on: type, address and element bytes; status, reason,
      authentication type and event data keep their defaults. */
  predicate FromNet80211(c: Call) {
    c.op.EventOp? ==> c.op.ev.status == 0 && c.op.ev.reason == 0 && c.op.ev.authType == 0 && c.op.ev.data == []
  }

  predicate AllAwake(t: seq<Slot>) {
    forall i | 0 <= i < |t| && t[i].active != 0 :: t[i].sleepState == SLEEP_STATE_AWAKE
  }

  /** Through the hook an action frame changes nothing and no authentication message is posted. */
  lemma Net80211Event(s: OwnerState, c: Call)
    requires FromNet80211(c) && c.op.EventOp?
    ensures c.op.ev.IsAction() && c.op.ev.mac.Some? ==> Step(s, c) == Outcome(s, [], Success)
    ensures forall m | m in Step(s, c).posted :: !m.AuthIndMessage?
    ensures Step(s, c).state.power == s.power
  {
    PowerOfCall(s, c);
    hide Admitted, FindStation, AllocatedIndex, AllocateStation, RemoveStation, MarkApple, RsnxeField, SetPowerSave;
  }

  lemma AwakeStep(s: OwnerState, c: Call)
    requires AllAwake(s.table) && FromNet80211(c)
    ensures AllAwake(Step(s, c).state.table)
  {
    if c.op.EventOp? {
      AwakeEvent(s, c);
    } else if !Stops(s, c) {
      OthersKeepTable(s, c);
    }
    hide PublishEvent, SetPowerSave;
  }

  lemma AwakeEvent(s: OwnerState, c: Call)
    requires AllAwake(s.table) && FromNet80211(c) && c.op.EventOp?
    ensures AllAwake(Step(s, c).state.table)
  {
    hide AuthEvent, AssocEvent, ActionEvent, Admitted, FindStation;
    if c.op.ev.mac.Some? {
      var ev, mac := c.op.ev, c.op.ev.mac.value;
      AuthKeepsInv(s, ev, c.env);
      if ev.IsAssoc() && Admitted(s, ev) {
        AssocTable(s, mac, ev, c.env);
      } else if ev.IsAssoc() {
        RefusedAssocKeeps(s, mac, ev, c.env);
      } else if ev.IsAction() {
        Net80211Event(s, c);
      }
    }
  }

  /** So over runs whose events all come through the hook no station ever sleeps and the AP never enters
      low power. */
  lemma {:induction false} Net80211RunsStayAwake(s: OwnerState, calls: seq<Call>)
    requires Initial(s)
    requires forall c | c in calls :: FromNet80211(c)
    ensures AllAwake(Run(s, calls).table) && Run(s, calls).power.mode != MODE_LOW_POWER
    decreases |calls|
  {
    hide Step, Inv, FromNet80211;
    if calls != [] {
      var before, c := calls[..|calls| - 1], calls[|calls| - 1];
      Net80211RunsStayAwake(s, before);
      InitialInv(s);
      RunKeepsInv(s, before);
      AwakeStep(Run(s, before), c);
      if Step(Run(s, before), c).state.power.mode == MODE_LOW_POWER {
        LowPowerOnlyWhenAllSleep(Run(s, before), c);
        Net80211Event(Run(s, before), c);
      }
    }
  }
}
