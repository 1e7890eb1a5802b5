/** The invariant of the SoftAP owner and what it says about the messages it posts. */
module ApstaInvariant {
  import opened ApstaIeScanners
  import opened ApstaState
  import opened AuthIndication
  import opened ByteBuffers
  import opened ElementList
  import opened EventContracts
  import opened MachineTypes

  // ---------- the station table ----------

  function NumActive(t: seq<Slot>): nat {
    if t == [] then 0 else (if t[0].active != 0 then 1 else 0) + NumActive(t[1..])
  }

  ghost predicate DistinctMacs(t: seq<Slot>) {
    forall i, j | 0 <= i < j < |t| && t[i].active != 0 && t[j].active != 0 ::
      t[i].mac == t[j].mac ==> t[i].mac == ZERO_MAC
  }

  /** An active entry is 1, its station sleeps or is awake, and hotspot flags come with the Apple flag. */
  predicate SlotOk(x: Slot) {
    && x.active <= 1
    && (x.active != 0 ==> x.sleepState == SLEEP_STATE_LOW_POWER || x.sleepState == SLEEP_STATE_AWAKE)
    && (x.active != 0 && (x.aihs != 0 || x.sharing != 0) ==> x.apple != 0)
  }

  ghost predicate TableInv(t: seq<Slot>) {
    DistinctMacs(t) && forall i | 0 <= i < |t| :: SlotOk(t[i])
  }

  lemma {:induction false} NumActiveUpdate(t: seq<Slot>, i: nat, x: Slot)
    requires i < |t|
    ensures NumActive(t[i := x]) + (if t[i].active != 0 then 1 else 0)
            == NumActive(t) + (if x.active != 0 then 1 else 0)
    ensures t[i].active != 0 ==> NumActive(t) >= 1
  {
    if i == 0 {
      assert t[0 := x][1..] == t[1..];
    } else {
      assert t[i := x][1..] == t[1..][i - 1 := x];
      NumActiveUpdate(t[1..], i - 1, x);
    }
  }

  lemma {:induction false} NumActiveBounds(t: seq<Slot>)
    ensures NumActive(t) <= |t|
    ensures NumActive(t) == |t| <==> forall i | 0 <= i < |t| :: t[i].active != 0
  {
    if t != [] {
      NumActiveBounds(t[1..]);
      assert forall i | 0 < i < |t| :: t[i] == t[1..][i - 1];
      if forall i | 0 <= i < |t| :: t[i].active != 0 {
        assert forall i | 0 <= i < |t[1..]| :: t[1..][i] == t[i + 1];
      }
    }
  }

  lemma {:induction false} NoneActive(t: seq<Slot>)
    requires forall i | 0 <= i < |t| :: t[i].active == 0
    ensures NumActive(t) == 0
  {
    if t != [] {
      NoneActive(t[1..]);
    }
  }

  /** Storing an entry: its address must be zero, the one already there, or new to the table. */
  lemma StoreSlot(t: seq<Slot>, i: nat, x: Slot)
    requires TableInv(t) && i < |t| && SlotOk(x)
    requires || x.active == 0
             || (t[i].active != 0 && x.mac == t[i].mac)
             || x.mac == ZERO_MAC
             || forall k | 0 <= k < |t| && t[k].active != 0 :: t[k].mac != x.mac
    ensures TableInv(t[i := x])
    ensures NumActive(t[i := x])
            == NumActive(t) + (if x.active != 0 then 1 else 0) - (if t[i].active != 0 then 1 else 0)
    ensures NumActive(t) <= |t| && (t[i].active != 0 ==> NumActive(t) >= 1)
  {
    NumActiveUpdate(t, i, x);
    NumActiveBounds(t);
  }

  // ---------- the invariant ----------

  /** Mode 2 is never entered; disabled means off; low power holds the assertion, on releases it. */
  predicate PowerInv(p: Power) {
    && p.mode in {MODE_OFF, MODE_ON, MODE_LOW_POWER}
    && (!p.Enabled() ==> p.mode == MODE_OFF)
    && (p.mode == MODE_LOW_POWER ==> p.assertion == 1)
    && (p.mode == MODE_ON ==> p.assertion == 0)
  }

  predicate LifecycleInv(s: OwnerState) {
    && (s.lifecycle.Running? <==> s.apUp != 0)
    && (s.lifecycle.Running? ==> s.bound && s.transition == 1)
  }

  ghost predicate Inv(s: OwnerState) {
    TableInv(s.table) && s.count == NumActive(s.table) && PowerInv(s.power) && LifecycleInv(s)
  }

  lemma InitialInv(s: OwnerState)
    requires Initial(s)
    ensures Inv(s)
  {
    NoneActive(CLEAR_TABLE);
  }

  lemma PowerSaveKeepsInv(p: Power, newState: byte, reason: byte)
    requires PowerInv(p) && newState in {MODE_OFF, MODE_ON, MODE_LOW_POWER}
    ensures PowerInv(SetPowerSave(p, newState, reason))
  {
  }

  lemma AllocateKeepsInv(s: OwnerState, mac: Mac)
    requires Inv(s)
    ensures var a, i := AllocateStation(s, mac), AllocatedIndex(s.table, mac);
            && Inv(a)
            && (i < |a.table| ==> a.table[i].active == 1 && a.table[i].mac == mac && SlotOk(a.table[i]))
  {
    hide PowerInv;
    var i := AllocatedIndex(s.table, mac);
    if i < |s.table| && FindStation(s.table, mac) == |s.table| {
      StoreSlot(s.table, i, NewSlot(mac));
    }
  }

  lemma MarkedSlotOk(x: Slot, ies: seq<byte>)
    requires SlotOk(x)
    ensures var y := MarkApple(x, ies); SlotOk(y) && y.active == x.active && y.mac == x.mac
  {
    HotspotFlagsImplyAppleIE(ies);
    hide HotspotFlags, HasAppleIE;
  }

  /** The outcome of an admitted association, with what it posts in terms of the state it leaves. */
  lemma AdmittedOutcome(s: OwnerState, mac: Mac, ev: StationEvent, env: Env)
    requires Admitted(s, ev)
    ensures var o, i := AssocEvent(s, mac, ev, env), AllocatedIndex(s.table, mac);
            var a := AllocateStation(s.(lastEvent := mac), mac);
            var entryFlags := if i < |o.state.table| then SlotFlags(o.state.table[i]) else 0;
            && o.state == (if i < |a.table| then a.(table := a.table[i := MarkApple(a.table[i], ev.ies)]) else a)
            && o.posted == Post(o.state, env, AssocMessage(
                 mac, o.state.count, entryFlags + (if HasAppleIE(ev.ies) then FLAG_APPLE_STATION else 0),
                 RsnxeField(ev.ies)))
  {
    hide Admitted, FindStation, AllocatedIndex, MarkApple, SlotFlags, RsnxeField, HasAppleIE, NewSlot;
  }

  lemma AssocKeepsInv(s: OwnerState, mac: Mac, ev: StationEvent, env: Env)
    requires Inv(s)
    ensures Inv(AssocEvent(s, mac, ev, env).state)
  {
    hide AssocEvent, Admitted, AllocateStation, AllocatedIndex, MarkApple, SlotOk, TableInv, PowerInv, NumActive;
    var s1 := s.(lastEvent := mac);
    var a, i := AllocateStation(s1, mac), AllocatedIndex(s.table, mac);
    if Admitted(s, ev) {
      AdmittedOutcome(s, mac, ev, env);
      AllocateKeepsInv(s1, mac);
      if i < |a.table| {
        MarkedSlotOk(a.table[i], ev.ies);
        StoreSlot(a.table, i, MarkApple(a.table[i], ev.ies));
      }
    } else {
      RefusedAssocKeeps(s, mac, ev, env);
    }
  }

  lemma RefusedAssocKeeps(s: OwnerState, mac: Mac, ev: StationEvent, env: Env)
    requires !Admitted(s, ev)
    ensures AssocEvent(s, mac, ev, env) == Outcome(s, [], Success)
  {
  }

  lemma LeaveKeepsInv(s: OwnerState, mac: Mac, env: Env)
    requires Inv(s)
    ensures Inv(LeaveEvent(s, mac, env).state)
    ensures FindStation(s.table, mac) < |s.table| ==> s.count != 0
  {
    var i := FindStation(s.table, mac);
    if i < |s.table| {
      StoreSlot(s.table, i, CLEAR_SLOT);
    }
  }

  lemma ActionKeepsInv(s: OwnerState, mac: Mac, ev: StationEvent, env: Env)
    requires Inv(s)
    ensures Inv(ActionEvent(s, mac, ev, env).state)
  {
    var i, frame := FindStation(s.table, mac), ParseActionFrame(ev.data);
    PowerSaveKeepsInv(s.power, MODE_LOW_POWER, REASON_ALL_STATIONS);
    if i < |s.table| && frame.Parsed? && IsLphsStateAction(frame.category, frame.action) {
      StoreSlot(s.table, i, s.table[i].(sleepState := frame.action));
    }
  }

  lemma AuthKeepsInv(s: OwnerState, ev: StationEvent, env: Env)
    ensures ev.mac.Some? ==> AuthEvent(s, ev.mac.value, ev, env).state == s
  {
  }

  lemma EventKeepsInv(s: OwnerState, ev: StationEvent, env: Env)
    requires Inv(s)
    ensures Inv(PublishEvent(s, ev, env).state)
  {
    hide AuthEvent, AssocEvent, LeaveEvent, ActionEvent, Inv;
    AuthKeepsInv(s, ev, env);
    if ev.mac.Some? {
      AssocKeepsInv(s, ev.mac.value, ev, env);
      LeaveKeepsInv(s, ev.mac.value, env);
      ActionKeepsInv(s, ev.mac.value, ev, env);
    }
  }

  /** A reset ends with the AP down, the table empty and power save off. */
  lemma StopKeepsInv(s: OwnerState, env: Env)
    requires Inv(s)
    ensures var r := StopLower(s, env);
            && Inv(r) && r.power.mode == MODE_OFF && !r.IsApRunning()
            && Inv(r.(bound := false)) && Inv(r.(bound := false, lifecycle := Freed))
  {
    NoneActive(CLEAR_TABLE);
    PowerSaveKeepsInv(s.power, MODE_OFF, REASON_RESET);
  }

  lemma SettingsKeepInv(s: OwnerState, in0: ParamsInput, value: Option<uint32>, env: Env)
    requires Inv(s)
    ensures Inv(SetParams(s, in0).state)
    ensures Inv(SetHidden(s, value, env).state)
  {
    PowerSaveKeepsInv(s.power, MODE_OFF, REASON_PARAMS);
    PowerSaveKeepsInv(s.power, MODE_ON, REASON_PARAMS);
    PowerSaveKeepsInv(s.power, MODE_OFF, REASON_HIDDEN);
  }

  lemma StartKeepsInv(s: OwnerState, env: Env)
    requires Inv(s)
    ensures Inv(StartLower(s, env).state)
  {
  }

  lemma LifecycleCallsKeepInv(s: OwnerState, net: Option<HostApNetwork>, env: Env)
    requires Inv(s)
    ensures Inv(StopLower(s, env)) && Inv(Teardown(s, env)) && Inv(Teardown(s, env).(lifecycle := Freed))
    ensures Inv(SetHostApMode(s, net, env).state)
  {
    StopKeepsInv(s, env);
  }

  lemma MaxAssocKeepsInv(s: OwnerState, max: uint32)
    requires Inv(s)
    ensures Inv(SetMaxAssoc(s, max))
  {
  }

  /** Every call keeps the invariant. */
  lemma StepKeepsInv(s: OwnerState, c: Call)
    requires Inv(s)
    ensures Inv(Step(s, c).state)
  {
    hide PublishEvent, StartLower, StopLower, Teardown, SetHostApMode, SetHidden, SetParams, SetMaxAssoc, Inv;
    match c.op
    case StartOp => StartKeepsInv(s, c.env);
    case StopOp => LifecycleCallsKeepInv(s, None, c.env);
    case TeardownOp => LifecycleCallsKeepInv(s, None, c.env);
    case FreeOp => LifecycleCallsKeepInv(s, None, c.env);
    case HostApModeOp(net) => LifecycleCallsKeepInv(s, net, c.env);
    case HiddenOp(value) => SettingsKeepInv(s, ParamsInput(0, 0, 0, 0, 0, 0, 0), value, c.env);
    case ParamsOp(in0) => SettingsKeepInv(s, in0, None, c.env);
    case MaxAssocOp(max) => MaxAssocKeepsInv(s, max);
    case MisMaxStaOp(max) => MaxAssocKeepsInv(s, max);
    case EventOp(ev) => EventKeepsInv(s, ev, c.env);
  }

  /** The invariant holds in every reachable state. */
  lemma {:induction false} RunKeepsInv(s: OwnerState, calls: seq<Call>)
    requires Inv(s)
    ensures Inv(Run(s, calls))
    decreases |calls|
  {
    if calls != [] {
      RunKeepsInv(s, calls[..|calls| - 1]);
      StepKeepsInv(Run(s, calls[..|calls| - 1]), calls[|calls| - 1]);
    }
  }

  lemma RunOfThree(s: OwnerState, c0: Call, c1: Call, c2: Call)
    ensures Run(s, [c0, c1, c2]) == Step(Step(Step(s, c0).state, c1).state, c2).state
  {
    assert [c0, c1, c2][..2] == [c0, c1];
    assert [c0, c1][..1] == [c0];
    assert [c0][..0] == [];
    assert Run(s, [c0]) == Step(s, c0).state;
    assert Run(s, [c0, c1]) == Step(Run(s, [c0]), c1).state;
    hide Step;
  }

  /** Counter and uniqueness law in every reachable state, zero addresses included: the associated
      count is the number of active entries and at most 5, and no two active entries share a non-zero
      address. */
  lemma CounterLaw(s: OwnerState, calls: seq<Call>)
    requires Initial(s)
    ensures var r := Run(s, calls);
            r.count == NumActive(r.table) <= STATION_TABLE_ENTRY_COUNT && DistinctMacs(r.table)
  {
    InitialInv(s);
    RunKeepsInv(s, calls);
    NumActiveBounds(Run(s, calls).table);
  }

  /** In every reachable state an active station is asleep or awake, and an entry with a hotspot flag
      also has the Apple-station flag. */
  lemma EntryLaw(s: OwnerState, calls: seq<Call>, i: nat)
    requires Initial(s) && i < STATION_TABLE_ENTRY_COUNT
    ensures var x := Run(s, calls).table[i];
            x.active != 0 ==>
              && x.sleepState in {SLEEP_STATE_LOW_POWER, SLEEP_STATE_AWAKE}
              && (x.aihs != 0 || x.sharing != 0 ==> x.apple != 0)
  {
    InitialInv(s);
    RunKeepsInv(s, calls);
    assert SlotOk(Run(s, calls).table[i]);
  }

  /** The guard against counting below zero never matters. */
  lemma RemovalAlwaysCounts(s: OwnerState, mac: Mac)
    requires Inv(s) && FindStation(s.table, mac) < |s.table|
    ensures RemoveStation(s, mac).count == s.count - 1
  {
    StoreSlot(s.table, FindStation(s.table, mac), CLEAR_SLOT);
  }

  // ---------- posted messages ----------

  /** An association message reports the table after the event and flags that depend only on the
      station's bytes and on whether it got an entry; the authentication message keeps its own fields. */
  ghost predicate MessageOk(m: Message, pre: OwnerState, post: OwnerState, ev: StationEvent) {
    match m
    case AssocMessage(mac, n, flags, rsnxe) =>
      && ev.mac == Some(mac) && n == NumActive(post.table) && flags in {0, 4, 5, 6, 7}
      && (flags >= FLAG_APPLE_STATION <==> HasAppleIE(ev.ies))
      && flags % 4 == (if AllocatedIndex(pre.table, mac) < STATION_TABLE_ENTRY_COUNT then HotspotFlags(ev.ies) else 0)
      && rsnxe == RsnxeField(ev.ies)
    case RemoveMessage(mac, n) => ev.mac == Some(mac) && n == NumActive(post.table)
    case AuthIndMessage(bytes) =>
      && |bytes| == MESSAGE_SIZE && Le32(bytes, 0) == 5 && Le32(bytes, 8) == StatusFromReason(ev.reason)
      && ev.mac == Some(bytes[0x0c..0x12])
  }

  lemma AssocMessageOk(s: OwnerState, mac: Mac, ev: StationEvent, env: Env)
    requires Inv(s) && ev.mac == Some(mac)
    ensures var o := AssocEvent(s, mac, ev, env); forall m | m in o.posted :: MessageOk(m, s, o.state, ev)
  {
    AssocKeepsInv(s, mac, ev, env);
    HotspotFlagsImplyAppleIE(ev.ies);
    if Admitted(s, ev) {
      AdmittedOutcome(s, mac, ev, env);
      MarkedFlags(AllocateStation(s.(lastEvent := mac), mac), AllocatedIndex(s.table, mac), ev.ies);
    } else {
      assert AssocEvent(s, mac, ev, env).posted == [];
    }
    hide AssocEvent, Admitted, AllocateStation, AllocatedIndex, MarkApple, SlotFlags, HotspotFlags, HasAppleIE;
    hide TableInv, PowerInv, LifecycleInv, RsnxeField, NumActive;
  }

  /** The message flags of an entry are the hotspot flags it was marked with. */
  lemma MarkedFlags(a: OwnerState, i: nat, ies: seq<byte>)
    ensures i < |a.table| ==> SlotFlags(MarkApple(a.table[i], ies)) == HotspotFlags(ies)
  {
    HotspotFlagsImplyAppleIE(ies);
    hide HotspotFlags, HasAppleIE;
  }

  lemma LeaveMessageOk(s: OwnerState, mac: Mac, ev: StationEvent, env: Env)
    requires Inv(s) && ev.mac == Some(mac)
    ensures var o := LeaveEvent(s, mac, env); forall m | m in o.posted :: MessageOk(m, s, o.state, ev)
  {
    LeaveKeepsInv(s, mac, env);
    hide TableInv, PowerInv, LifecycleInv, NumActive;
  }

  lemma AuthMessageOk(s: OwnerState, mac: Mac, ev: StationEvent, env: Env)
    requires ev.mac == Some(mac)
    ensures var o := AuthEvent(s, mac, ev, env); forall m | m in o.posted :: MessageOk(m, s, o.state, ev)
  {
    AuthFieldsSurvive(mac, ev.reason, Chunks(ev.data));
    hide AuthHeader, ApplyAll, Chunks;
  }

  /** Every message any call posts is an event's, and tells the truth. */
  lemma PostedMessagesOk(s: OwnerState, c: Call)
    requires Inv(s)
    ensures var o := Step(s, c);
            && (!c.op.EventOp? ==> o.posted == [])
            && (c.op.EventOp? ==> forall m | m in o.posted :: MessageOk(m, s, o.state, c.op.ev))
  {
    if c.op.EventOp? && c.op.ev.mac.Some? {
      var ev := c.op.ev;
      AssocMessageOk(s, ev.mac.value, ev, c.env);
      LeaveMessageOk(s, ev.mac.value, ev, c.env);
      AuthMessageOk(s, ev.mac.value, ev, c.env);
    }
    hide StartLower, StopLower, Teardown, SetParams, SetMaxAssoc, AssocEvent, LeaveEvent, AuthEvent, Inv, MessageOk;
  }

  lemma AuthFieldsSurvive(mac: Mac, reason: uint32, cs: seq<Chunk>)
    ensures var m := ApplyAll(AuthHeader(mac, reason), cs);
            Le32(m, 0) == 5 && Le32(m, 8) == StatusFromReason(reason) && m[0x0c..0x12] == mac
  {
    var h := AuthHeader(mac, reason);
    var m := ApplyAll(h, cs);
    OnlyChunkAreaChanges(h, cs);
    assert forall k | 0 <= k < 0x18 :: m[k] == m[..0x18][k] == h[..0x18][k] == h[k];
    Le32RoundTrip(5);
    Le32RoundTrip(StatusFromReason(reason));
    assert h[0..4] == ToLe32(5) && h[8..12] == ToLe32(StatusFromReason(reason)) && h[0x0c..0x12] == mac;
    assert m[0x0c..0x12] == h[0x0c..0x12];
  }

  /** The RSNXE field: the first complete RSNXE, then zeros. */
  lemma RsnxeFieldMeaning(ies: seq<byte>)
    ensures |RsnxeField(ies)| == RSNXE_CAPACITY
    ensures var e := FirstFitting(Elements(ies), RSNXE_ELEMENT_ID, RSNXE_CAPACITY);
            |e| <= RSNXE_CAPACITY && RsnxeField(ies) == e + Zeros(RSNXE_CAPACITY - |e|)
  {
    var e := FirstFitting(Elements(ies), RSNXE_ELEMENT_ID, RSNXE_CAPACITY);
    FirstFittingFits(Elements(ies), RSNXE_ELEMENT_ID, RSNXE_CAPACITY);
    SpliceMeaning(Zeros(RSNXE_CAPACITY), 0, e);
    assert Zeros(RSNXE_CAPACITY)[|e|..] == Zeros(RSNXE_CAPACITY - |e|);
  }

  lemma {:induction false} FirstFittingFits(es: seq<Element>, id: byte, capacity: nat)
    ensures |FirstFitting(es, id, capacity)| <= capacity
  {
    if es != [] && !(es[0][0] == id && |es[0]| <= capacity) {
      FirstFittingFits(es[1..], id, capacity);
    }
  }
}
