/** Field by field, for all calls: which calls may write a field of the owner, what they store, and what every
    call returns. */
module CallProperties {
  import opened ApstaIeScanners
  import opened ApstaInvariant
  import opened ApstaState
  import opened ByteBuffers
  import opened EventContracts
  import opened EventProperties
  import opened MachineTypes
  import opened PowerSaveProperties
  import opened StationRefinement

  /** The conditions every setting of a running AP shares. */
  predicate Reachable(s: OwnerState, env: Env) {
    s.lifecycle.Running? && s.apUp != 0 && s.bound && env.hal
  }

  /** An accepted request to show (0) or hide (1) the network. */
  predicate SetsHidden(s: OwnerState, c: Call, v: uint32) {
    c.op == HiddenOp(Some(v)) && v <= 1 && Reachable(s, c.env) && c.env.hiddenResult == Success
  }

  // ---------- settings ----------

  /** The hidden flag is what the last accepted request said; no other call touches it. */
  lemma HiddenLaw(s: OwnerState, c: Call)
    ensures Step(s, c).state.hidden
            == if SetsHidden(s, c, 1) then 1 else if SetsHidden(s, c, 0) then 0 else s.hidden
  {
    if c.op.EventOp? {
      EventKeepsSettings(s, c);
    }
    hide PublishEvent, SetPowerSave, ParamsPower;
  }

  /** What an event may change. */
  predicate OnlyEventFields(s: OwnerState, r: OwnerState) {
    r == s.(lastEvent := r.lastEvent, table := r.table, count := r.count, power := r.power)
  }

  lemma EventKeepsSettings(s: OwnerState, c: Call)
    requires c.op.EventOp?
    ensures OnlyEventFields(s, Step(s, c).state)
  {
    hide AuthEvent, AssocEvent, LeaveEvent, ActionEvent;
    if c.op.ev.mac.Some? {
      AuthKeepsInv(s, c.op.ev, c.env);
      AssocKeepsSettings(s, c.op.ev.mac.value, c.op.ev, c.env);
      LeaveKeepsSettings(s, c.op.ev.mac.value, c.env);
      ActionKeepsSettings(s, c.op.ev.mac.value, c.op.ev, c.env);
    }
  }

  lemma AssocKeepsSettings(s: OwnerState, mac: Mac, ev: StationEvent, env: Env)
    ensures OnlyEventFields(s, AssocEvent(s, mac, ev, env).state)
  {
    hide Admitted, MarkApple, RsnxeField, AllocatedIndex, FindStation, HasAppleIE, SlotFlags, NewSlot;
  }

  lemma LeaveKeepsSettings(s: OwnerState, mac: Mac, env: Env)
    ensures OnlyEventFields(s, LeaveEvent(s, mac, env).state)
  {
    hide FindStation;
  }

  lemma ActionKeepsSettings(s: OwnerState, mac: Mac, ev: StationEvent, env: Env)
    ensures OnlyEventFields(s, ActionEvent(s, mac, ev, env).state)
  {
    hide FindStation, ParseActionFrame, AllStationsInLowPower, SetPowerSave, ConcurrencyEnabled;
  }

  /** Every parameter request stores its five parameters, and its beacon interval unless that is the sentinel
      0xffff or the applied one; no other call touches them. */
  lemma ParamsLaw(s: OwnerState, c: Call)
    ensures var r := Step(s, c).state;
            if c.op.ParamsOp? then
              var in0 := c.op.in0;
              var beacon := in0.param14 != 0xffff && in0.param14 != s.appliedBeaconInterval;
              && r.params.param18 == in0.param04 && r.params.param1c == in0.param08
              && r.params.param20 == in0.param0c && r.params.param24 == in0.param10
              && r.params.param28 == in0.param18
              && r.beaconInterval == (if beacon then in0.param14 else s.beaconInterval)
              && r.appliedBeaconInterval == (if beacon then in0.param14 else s.appliedBeaconInterval)
            else
              r.params == s.params && r.beaconInterval == s.beaconInterval
              && r.appliedBeaconInterval == s.appliedBeaconInterval
  {
    if c.op.EventOp? {
      EventKeepsSettings(s, c);
    }
    hide PublishEvent, SetPowerSave, ParamsPower;
  }

  /** The SSID is stored, zero-padded, by a network request with an SSID of 1 to 32 bytes and at most 256 bytes
      of vendor element, while the AP runs; no other call touches it. */
  lemma SsidLaw(s: OwnerState, c: Call)
    ensures var r := Step(s, c).state;
            if c.op.HostApModeOp? && c.op.net.Some? && Reachable(s, c.env)
               && c.op.net.value.vendorIELength <= 256 && 1 <= c.op.net.value.ssidLength <= 32 then
              var n := c.op.net.value.ssidLength;
              && r.ssidLength == n
              && forall k | 0 <= k < 32 :: r.ssid[k] == if k < n then c.op.net.value.ssid[k] else 0
            else r.ssidLength == s.ssidLength && r.ssid == s.ssid
  {
    if c.op.EventOp? {
      EventKeepsSettings(s, c);
    }
    hide PublishEvent, SetPowerSave, ParamsPower;
  }

  /** The association limit is stored by its own request, and by the MIS request only while the AP runs, if the
      32-bit sum with the count stays within the maximum; the maximum never changes. */
  lemma LimitLaw(s: OwnerState, c: Call)
    ensures var r := Step(s, c).state;
            && r.maxAssocLimit == s.maxAssocLimit
            && r.maxAssoc == match c.op
                             case MaxAssocOp(max) =>
                               if (s.count + max) % 0x1_0000_0000 <= s.maxAssocLimit then max else s.maxAssoc
                             case MisMaxStaOp(max) =>
                               if s.lifecycle.Running? && s.apUp != 0
                                  && (s.count + max) % 0x1_0000_0000 <= s.maxAssocLimit then max else s.maxAssoc
                             case _ => s.maxAssoc
  {
    if c.op.EventOp? {
      EventKeepsSettings(s, c);
    }
    hide PublishEvent, SetPowerSave, ParamsPower;
  }

  // ---------- lifecycle fields ----------

  /** A stop clears the table, the count, the AP-up and transition words and the statistics, and keeps every
      setting; only a teardown or a free unbinds. */
  lemma StopLaw(s: OwnerState, c: Call)
    requires Stops(s, c)
    ensures var r := Step(s, c).state;
            && (forall i | 0 <= i < 5 :: r.table[i] == Slot(0, [0, 0, 0, 0, 0, 0], 0, 0, 0, 0))
            && r.count == 0 && r.apUp == 0 && r.transition == 0
            && (forall k | 0 <= k < 0x58 :: r.power.stats[k] == 0)
            && r.lastEvent == s.lastEvent && r.power.param0e == s.power.param0e
            && (r.bound <==> s.bound && !c.op.TeardownOp? && !c.op.FreeOp?)
  {
  }

  /** Who writes the address of the last event: leaves and admitted associations, with their address. */
  lemma LastEventLaw(s: OwnerState, c: Call)
    ensures Step(s, c).state.lastEvent
            == if c.op.EventOp? && c.op.ev.mac.Some? && (Leaves(c.op.ev) || Joins(s, c.op.ev))
               then c.op.ev.mac.value else s.lastEvent
  {
    if c.op.EventOp? {
      JoinsIffAdmitted(s, c.op.ev);
      LastEventOfEvent(s, c);
    }
    hide PublishEvent, SetPowerSave, ParamsPower, Joins, Admitted;
  }

  lemma LastEventOfEvent(s: OwnerState, c: Call)
    requires c.op.EventOp?
    ensures Step(s, c).state.lastEvent
            == if c.op.ev.mac.Some? && (Leaves(c.op.ev) || (c.op.ev.IsAssoc() && Admitted(s, c.op.ev)))
               then c.op.ev.mac.value else s.lastEvent
  {
    hide Admitted, MarkApple, RsnxeField, AllocatedIndex, FindStation, SetPowerSave, AllStationsInLowPower;
    hide HasAppleIE, SlotFlags;
  }

  // ---------- the power-save machine ----------

  /** Bits 0, 1, 3 and 4 of the feature byte enable SoftAP concurrency, given feature 46. */
  predicate Concurrent(s: OwnerState, env: Env) {
    var b := env.corePrivateByte;
    s.bound && env.feature46 && (b % 2 == 1 || b / 2 % 2 == 1 || b / 8 % 2 == 1 || b / 16 % 2 == 1)
  }

  lemma TwoBits(x: nat)
    ensures x % 4 != 0 <==> x % 2 == 1 || x / 2 % 2 == 1
  {
  }

  lemma ConcurrentMeaning(s: OwnerState, env: Env)
    ensures ConcurrencyEnabled(s, env) <==> Concurrent(s, env)
  {
    var b := env.corePrivateByte;
    TwoBits(b);
    TwoBits(b / 8);
    assert b / 16 == b / 8 / 2;
  }

  /** An action frame of a known station that counts, after which every active station sleeps, while there is no
      concurrency. */
  ghost predicate PutsToSleep(s: OwnerState, c: Call) {
    && c.op.EventOp? && c.op.ev.mac.Some? && c.op.ev.eventType == 0x4b
    && IsKnown(s.table, c.op.ev.mac.value) && FrameCounts(c.op.ev.data)
    && (forall i | 0 <= i < 5 && Step(s, c).state.table[i].active != 0 :: Step(s, c).state.table[i].sleepState == 1)
    && !Concurrent(s, c.env)
  }

  lemma AsleepMeaning(t: seq<Slot>)
    requires TableInv(t)
    ensures AllStationsInLowPower(t) <==> forall i | 0 <= i < |t| && t[i].active != 0 :: t[i].sleepState == 1
  {
    hide DistinctMacs;
    assert forall i | 0 <= i < |t| :: SlotOk(t[i]);
  }

  lemma SleepMeaning(s: OwnerState, c: Call)
    requires Inv(s)
    ensures PutsToSleep(s, c) <==> c.op.EventOp? && EntersLowPower(s, c.op.ev, c.env)
  {
    hide TableInv, PowerInv, LifecycleInv, AllStationsInLowPower, ParseActionFrame, ConcurrencyEnabled, ActionEvent;
    hide FrameCounts, Concurrent, IsKnown, FindStation;
    if c.op.EventOp? && c.op.ev.mac.Some? {
      var mac := c.op.ev.mac.value;
      StepKeepsInv(s, c);
      AsleepMeaning(Step(s, c).state.table);
      FrameMeaning(c.op.ev.data);
      ConcurrentMeaning(s, c.env);
      AllocatedIndexMeaning(s, mac);
    }
  }

  /** The whole machine: how the mode, the enable byte, the assertion and the low-traffic counter change on every
      call. Without the enable bit nothing moves the mode. Low power holds the assertion and on releases it; a
      stop releases it, showing the network holds it, and disabling by a parameter request keeps it. Every change
      to off or low power clears the low-traffic counter. */
  lemma PowerLaw(s: OwnerState, c: Call)
    requires Inv(s)
    ensures var p, q := s.power, Step(s, c).state.power;
            var enabled := p.param0e % 2 == 1;
            && q.mode == (if !enabled then p.mode
                          else if Stops(s, c) || SetsHidden(s, c, 0) then 0
                          else if c.op.ParamsOp? then
                            if c.op.in0.enabled17 != 0 then 1 else if s.apUp != 0 then 0 else p.mode
                          else if PutsToSleep(s, c) then 3 else p.mode)
            && q.param0e == (if SetsHidden(s, c, 0) then 0
                             else if enabled && c.op.ParamsOp? && c.op.in0.enabled17 == 0 && s.apUp != 0 then 0
                             else p.param0e)
            && q.assertion == (if SetsHidden(s, c, 0) then 1
                               else if q.mode == p.mode then p.assertion
                               else if q.mode == 3 then 1
                               else if q.mode == 1 || Stops(s, c) then 0 else p.assertion)
            && q.lowTraffic == (if q.mode != p.mode && q.mode != 1 then 0 else p.lowTraffic)
  {
    PowerOfCall(s, c);
    SleepMeaning(s, c);
    StopsAreNoEvents(s, c);
    hide Step, PutsToSleep, EntersLowPower, TableInv, Stops, BumpCounter, LifecycleInv;
  }

  lemma CounterBumped(stats: Stats, n: byte)
    requires n <= 3
    ensures forall m: byte | m <= 3 ::
              Counter(BumpCounter(stats, n), m) == (Counter(stats, m) + if m == n then 1 else 0) % 0x1_0000_0000
  {
    hide BumpCounter, Counter, Le32;
    BumpCounterMeaning(stats, n);
  }

  /** One request to the machine, for any target and reason. It is ignored without the enable bit, for a target
      above 3, for reason 7 (an infrastructure scan) and for the current mode. Off releases the assertion for
      reasons 0x0a and 0x0c only and clears the low-traffic counter; 1 releases it; 3 holds it and clears the
      counter; 2 does neither. */
  lemma RequestLaw(p: Power, n: byte, reason: byte)
    ensures var q := SetPowerSave(p, n, reason);
            if p.param0e % 2 == 0 || n > 3 || reason == 7 || p.mode == n then q == p
            else
              && q.param0e == p.param0e && q.mode == n
              && q.assertion == (if n == 3 then 1
                                 else if n == 1 || (n == 0 && (reason == 0x0a || reason == 0x0c)) then 0
                                 else p.assertion)
              && q.lowTraffic == (if n == 0 || n == 3 then 0 else p.lowTraffic)
              && forall m: byte | m <= 3 ::
                   Counter(q.stats, m) == (Counter(p.stats, m) + if m == n then 1 else 0) % 0x1_0000_0000
  {
    hide Counter, BumpCounter, Le32, CounterOffset;
    if n <= 3 {
      CounterBumped(p.stats, n);
    }
  }

  /** The raw bytes: entry n of the statistics block, 0x10 bytes each from 0x18 on, starts with the little-endian
      number of mode changes into state n, modulo 2^32, since the statistics were last cleared. */
  lemma RawCounters(s: OwnerState, calls: seq<Call>, n: byte)
    requires Initial(s) && n <= 3
    ensures var b, o: nat := Run(s, calls).power.stats, 0x18 + 0x10 * n;
            && |b| == 0x58
            && b[o] as int + 0x100 * (b[o + 1] as int) + 0x1_0000 * (b[o + 2] as int) + 0x100_0000 * (b[o + 3] as int)
               == ChangesInto(s, calls, n) % 0x1_0000_0000
  {
    CountersConserved(s, calls, n);
    hide Run, ChangesInto, Initial;
  }

  // ---------- return codes ----------

  /** What every call returns. */
  lemma ReturnCodes(s: OwnerState, c: Call)
    ensures var ret := Step(s, c).ret;
            match c.op
            case StartOp =>
              ret == (if !s.bound || !c.env.hal then NotReady
                      else if !c.env.supportsAp then Unsupported else c.env.startResult)
            case HostApModeOp(net) =>
              ret == (if net.Some? && (net.value.vendorIELength > 256 || net.value.ssidLength > 32) then Errno(22)
                      else if !Reachable(s, c.env) then Errno(6) else Success)
            case HiddenOp(value) =>
              ret == (if !Reachable(s, c.env) then Errno(6)
                      else if value.None? || value.value > 1 then Errno(22) else c.env.hiddenResult)
            case EventOp(ev) =>
              ret == (if ev.mac.None? then BadArgument
                      else if ev.eventType in {4, 5, 6, 8, 10, 11, 12, 0x4b} then Success else Unsupported)
            case _ => ret == Success
  {
    if c.op.EventOp? {
      EventReturns(s, c);
    }
    hide PublishEvent, SetPowerSave, ParamsPower, StopLower;
  }

  lemma EventReturns(s: OwnerState, c: Call)
    requires c.op.EventOp?
    ensures Step(s, c).ret == if c.op.ev.mac.None? then BadArgument
                              else if c.op.ev.eventType in {4, 5, 6, 8, 10, 11, 12, 0x4b} then Success else Unsupported
  {
    hide Admitted, MarkApple, RsnxeField, AllocatedIndex, FindStation, SetPowerSave, AllStationsInLowPower;
    hide HasAppleIE, SlotFlags;
  }
}
