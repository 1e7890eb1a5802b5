/** Concrete runs of the SoftAP owner from its initial state. */
module ApstaExamples {
  import opened ApstaIeScanners
  import opened ApstaInvariant
  import opened ApstaOwner
  import opened ApstaState
  import opened EventContracts
  import opened EventProperties
  import opened MachineTypes
  import opened PowerSaveProperties
  import opened StationRefinement

  const MAC_A: Mac := [2, 0, 0, 0, 0, 1]
  const MAC_B: Mac := [2, 0, 0, 0, 0, 2]

  const PLAIN_ENV := Env(true, true, true, Success, Success, false, 0)

  /** A version-1 action frame with this sleep state. */
  function StateFrame(action: byte): seq<byte> {
    [0, 1, 0, 0, 0, 0, 0, 0, 0, 0, 0, 0, 0, 0, 0, 0, LPHS_CATEGORY, action]
  }

  function EventCall(eventType: uint32, mac: Mac, data: seq<byte>): Call {
    Call(EventOp(StationEvent(eventType, Some(mac), [], 0, 0, 0, data)), PLAIN_ENV)
  }

  function AssocCall(mac: Mac): Call { EventCall(8, mac, []) }

  function LeaveCall(mac: Mac): Call { EventCall(11, mac, []) }

  function StateCall(mac: Mac, action: byte): Call { EventCall(0x4b, mac, StateFrame(action)) }

  function MaxAssocCall(max: uint32): Call { Call(MaxAssocOp(max), PLAIN_ENV) }

  // ---------- single calls ----------

  lemma RunOfTwo(s: OwnerState, c0: Call, c1: Call)
    ensures Run(s, [c0, c1]) == Step(Step(s, c0).state, c1).state
  {
    RunOfThree(s, c0, c1, c1);
    assert [c0, c1][..1] == [c0];
    assert [c0][..0] == [];
    assert Run(s, [c0]) == Step(s, c0).state;
    hide Step;
  }

  lemma NoElementsNoApple()
    ensures !HasAppleIE([]) && HotspotFlags([]) == 0
  {
  }

  /** The state after a new station gets entry i. */
  function Joined(s: OwnerState, mac: Mac, i: nat): OwnerState
    requires i < STATION_TABLE_ENTRY_COUNT && s.count < STATION_TABLE_ENTRY_COUNT
  {
    s.(lastEvent := mac, table := s.table[i := NewSlot(mac)], count := s.count + 1)
  }

  lemma JoinStep(s: OwnerState, mac: Mac, i: nat)
    requires s.hidden == 0 && s.count < STATION_TABLE_ENTRY_COUNT
    requires FindStation(s.table, mac) == |s.table| && AllocatedIndex(s.table, mac) == i < |s.table|
    ensures Step(s, AssocCall(mac)).state == Joined(s, mac, i)
  {
    NoElementsNoApple();
    hide FindStation, AllocatedIndex, HasAppleIE, HotspotFlags, RsnxeField;
  }

  lemma EmptyTable(mac: Mac)
    ensures FindStation(CLEAR_TABLE, mac) == |CLEAR_TABLE| && AllocatedIndex(CLEAR_TABLE, mac) == 0
  {
    assert CLEAR_TABLE[0].active == 0;
  }

  lemma FirstJoin(enable: byte, mac: Mac)
    ensures Step(FreshState(enable), AssocCall(mac)).state == Joined(FreshState(enable), mac, 0)
  {
    EmptyTable(mac);
    JoinStep(FreshState(enable), mac, 0);
    hide Step, FindStation, AllocatedIndex;
  }

  /** A table whose one station, in entry 0, sleeps or is awake. */
  ghost predicate OnlyStation(s: OwnerState, mac: Mac, sleepState: uint32) {
    s.table == CLEAR_TABLE[0 := NewSlot(mac).(sleepState := sleepState)]
  }

  lemma OnlyStationFound(s: OwnerState, mac: Mac, sleepState: uint32, other: Mac)
    requires OnlyStation(s, mac, sleepState)
    ensures FindStation(s.table, other) == if other == mac && mac != ZERO_MAC then 0 else |s.table|
    ensures other != mac || mac == ZERO_MAC ==> AllocatedIndex(s.table, other) == 1
  {
    assert s.table[0].mac == mac && s.table[0].active == 1;
    assert s.table[1].active == 0;
  }

  lemma FrameParses(action: byte)
    ensures ParseActionFrame(StateFrame(action)) == Parsed(LPHS_CATEGORY, action)
  {
  }

  /** The station of such a table says it sleeps. */
  lemma SleepStep(s: OwnerState, mac: Mac)
    requires OnlyStation(s, mac, SLEEP_STATE_AWAKE) && mac != ZERO_MAC
    requires s.power.Enabled() && s.power.mode != MODE_LOW_POWER
    ensures var r := Step(s, StateCall(mac, LPHS_ACTION_SLEEP)).state;
            && OnlyStation(r, mac, SLEEP_STATE_LOW_POWER) && r.power.mode == MODE_LOW_POWER
            && r.hidden == s.hidden && r.count == s.count
  {
    OnlyStationFound(s, mac, SLEEP_STATE_AWAKE, mac);
    FrameParses(LPHS_ACTION_SLEEP);
    hide FindStation, BumpCounter, ParseActionFrame, StateFrame;
  }

  /** Low power is reachable: a station joins a power-saving AP and says it sleeps. */
  lemma OneSleeper() returns (s: OwnerState)
    ensures s == Step(Step(FreshState(1), AssocCall(MAC_A)).state, StateCall(MAC_A, LPHS_ACTION_SLEEP)).state
    ensures Inv(s) && OnlyStation(s, MAC_A, SLEEP_STATE_LOW_POWER)
    ensures s.power.mode == MODE_LOW_POWER && s.hidden == 0 && s.count == 1 && LowPowerMeansAsleep(s)
  {
    var s0 := FreshState(1);
    var s1 := Step(s0, AssocCall(MAC_A)).state;
    s := Step(s1, StateCall(MAC_A, LPHS_ACTION_SLEEP)).state;
    FirstJoin(1, MAC_A);
    SleepStep(s1, MAC_A);
    InitialInv(s0);
    StepKeepsInv(s0, AssocCall(MAC_A));
    StepKeepsInv(s1, StateCall(MAC_A, LPHS_ACTION_SLEEP));
    hide Step, Inv;
  }

  // ---------- low power with a station awake ----------

  /** A station joins, says it sleeps, and another joins. */
  lemma JoinInLowPower()
    ensures var r := Run(FreshState(1), [AssocCall(MAC_A), StateCall(MAC_A, LPHS_ACTION_SLEEP), AssocCall(MAC_B)]);
            r.power.mode == MODE_LOW_POWER && !AllStationsInLowPower(r.table)
  {
    var s := OneSleeper();
    OnlyStationFound(s, MAC_A, SLEEP_STATE_LOW_POWER, MAC_B);
    assert MAC_A[5] != MAC_B[5];
    assert Admitted(s, AssocCall(MAC_B).op.ev);
    assert Wakes(s, AssocCall(MAC_B));
    hide Step, FreshState, Inv, AllStationsInLowPower, FindStation, AllocatedIndex, Admitted, Wakes;
    LowPowerOutlivesSleep(s, AssocCall(MAC_B));
    RunOfThree(FreshState(1), AssocCall(MAC_A), StateCall(MAC_A, LPHS_ACTION_SLEEP), AssocCall(MAC_B));
  }

  /** A station joins, says it sleeps, and says it is awake again. */
  lemma AwakeFrameInLowPower()
    ensures var r := Run(FreshState(1), [AssocCall(MAC_A), StateCall(MAC_A, LPHS_ACTION_SLEEP),
                                         StateCall(MAC_A, LPHS_ACTION_AWAKE)]);
            r.power.mode == MODE_LOW_POWER && !AllStationsInLowPower(r.table)
  {
    var s := OneSleeper();
    OnlyStationFound(s, MAC_A, SLEEP_STATE_LOW_POWER, MAC_A);
    FrameParses(LPHS_ACTION_AWAKE);
    hide ParseActionFrame, StateFrame;
    assert Wakes(s, StateCall(MAC_A, LPHS_ACTION_AWAKE));
    hide Step, FreshState, Inv, AllStationsInLowPower, FindStation, AllocatedIndex, Admitted, Wakes;
    LowPowerOutlivesSleep(s, StateCall(MAC_A, LPHS_ACTION_AWAKE));
    RunOfThree(FreshState(1), AssocCall(MAC_A), StateCall(MAC_A, LPHS_ACTION_SLEEP),
               StateCall(MAC_A, LPHS_ACTION_AWAKE));
  }

  // ---------- a hidden network ----------

  const APPLE_ELEMENT: seq<byte> := [0xdd, 4, 0x00, 0x17, 0xf2, 0]

  function AssocWith(mac: Mac, ies: seq<byte>): Call {
    Call(EventOp(StationEvent(8, Some(mac), ies, 0, 0, 0, [])), PLAIN_ENV)
  }

  /** A hidden network admits a station with an Apple element and refuses one without. */
  lemma HiddenNetwork()
    ensures var hidden := [Call(StartOp, PLAIN_ENV), Call(HiddenOp(Some(1)), PLAIN_ENV)];
            && MAC_A in StationSet(Run(FreshState(0), hidden + [AssocWith(MAC_A, APPLE_ELEMENT)]).table)
            && Run(FreshState(0), hidden + [AssocWith(MAC_A, [])]) == Run(FreshState(0), hidden)
  {
    var start, hide1 := Call(StartOp, PLAIN_ENV), Call(HiddenOp(Some(1)), PLAIN_ENV);
    var s0 := FreshState(0);
    var s1 := s0.(lifecycle := Running, apUp := 1, transition := 1, lowerUp := true);
    var s2 := s1.(hidden := 1);
    InitialInv(s0);
    StepKeepsInv(s0, start);
    assert Step(s0, start).state == s1 && Step(s1, hide1).state == s2;
    StepKeepsInv(s1, hide1);
    RunOfTwo(s0, start, hide1);
    RunOfThree(s0, start, hide1, AssocWith(MAC_A, APPLE_ELEMENT));
    RunOfThree(s0, start, hide1, AssocWith(MAC_A, []));
    assert [start, hide1] + [AssocWith(MAC_A, APPLE_ELEMENT)] == [start, hide1, AssocWith(MAC_A, APPLE_ELEMENT)];
    assert [start, hide1] + [AssocWith(MAC_A, [])] == [start, hide1, AssocWith(MAC_A, [])];
    OneAppleElement(APPLE_ELEMENT);
    NoElementsNoApple();
    hide Step, Run, Inv, HasAppleIE, StationSet;
    AdmittedIsIn(s2, AssocWith(MAC_A, APPLE_ELEMENT).op.ev, PLAIN_ENV);
    RefusedChangesNothing(s2, AssocWith(MAC_A, []).op.ev, PLAIN_ENV);
  }

  // ---------- the zero address ----------

  /** The zero address joins twice and is counted twice. */
  lemma ZeroAddressCountsTwice()
    ensures var r := Run(FreshState(0), [AssocCall(ZERO_MAC), AssocCall(ZERO_MAC)]);
            r.count == 2 && StationSet(r.table) == {ZERO_MAC}
  {
    var s := Joined(FreshState(0), ZERO_MAC, 0);
    FirstJoin(0, ZERO_MAC);
    OnlyStationFound(s, ZERO_MAC, SLEEP_STATE_AWAKE, ZERO_MAC);
    JoinStep(s, ZERO_MAC, 1);
    RunOfTwo(FreshState(0), AssocCall(ZERO_MAC), AssocCall(ZERO_MAC));
    var t := Joined(s, ZERO_MAC, 1).table;
    assert t[0].active == 1 && t[0].mac == ZERO_MAC;
    hide Step, FindStation, AllocatedIndex, Run;
  }

  /** The zero address joins and leaves, and is still there. */
  lemma ZeroAddressStays()
    ensures var r := Run(FreshState(0), [AssocCall(ZERO_MAC), LeaveCall(ZERO_MAC)]);
            r.count == 1 && StationSet(r.table) == {ZERO_MAC}
  {
    var s := Joined(FreshState(0), ZERO_MAC, 0);
    FirstJoin(0, ZERO_MAC);
    assert Step(s, LeaveCall(ZERO_MAC)).state == s;
    RunOfTwo(FreshState(0), AssocCall(ZERO_MAC), LeaveCall(ZERO_MAC));
    assert s.table[0].active == 1 && s.table[0].mac == ZERO_MAC;
    hide Step, Run;
  }

  // ---------- the association limit ----------

  /** With one station, the largest 32-bit request is accepted although the limit is 1800. */
  lemma MaxAssocWraps()
    ensures var r := Run(FreshState(1), [AssocCall(MAC_A), MaxAssocCall(0xFFFF_FFFF)]);
            r.maxAssoc == 0xFFFF_FFFF && r.maxAssocLimit == 1800
  {
    var s := Joined(FreshState(1), MAC_A, 0);
    FirstJoin(1, MAC_A);
    assert s.count == 1 && (s.count + 0xFFFF_FFFF) % 0x1_0000_0000 == 0;
    RunOfTwo(FreshState(1), AssocCall(MAC_A), MaxAssocCall(0xFFFF_FFFF));
  }

  // ---------- the object ----------

  lemma EventStep(s: OwnerState, ev: StationEvent, env: Env)
    ensures Step(s, Call(EventOp(ev), env)) == PublishEvent(s, ev, env)
  {
    hide PublishEvent;
  }

  lemma OneSleeperRun()
    ensures Run(FreshState(1), [AssocCall(MAC_A), StateCall(MAC_A, LPHS_ACTION_SLEEP)]).power.mode == MODE_LOW_POWER
  {
    var s := OneSleeper();
    RunOfTwo(FreshState(1), AssocCall(MAC_A), StateCall(MAC_A, LPHS_ACTION_SLEEP));
    hide Step, Run, FreshState, Inv;
  }

  /** The first two calls on the object: an owner that other code has enabled, and a station that joins and
      says it sleeps. */
  method SleepingOwner() returns (owner: Owner)
    ensures fresh(owner) && owner.Valid()
    ensures owner.State() == Run(FreshState(1), [AssocCall(MAC_A), StateCall(MAC_A, LPHS_ACTION_SLEEP)])
    ensures owner.state.mode == MODE_LOW_POWER
  {
    hide Inv, Step, FreshState, Run, PublishEvent, StateFrame;
    ghost var join, sleep := AssocCall(MAC_A), StateCall(MAC_A, LPHS_ACTION_SLEEP);
    RunOfTwo(FreshState(1), join, sleep);
    OneSleeperRun();
    owner := new Owner();
    var ok := owner.InitWithController(true, true, Some(VIF_SOFT_AP));
    owner.SeedParam0e(1);
    EventStep(owner.State(), join.op.ev, PLAIN_ENV);
    var frame := StateFrame(LPHS_ACTION_SLEEP);
    FrameLength(LPHS_ACTION_SLEEP);
    var _ := owner.PublishStationEventFromNet80211(8, Some(MAC_A), Null, 0, 0, 0, 0, Null, 0, PLAIN_ENV);
    EventStep(owner.State(), sleep.op.ev, PLAIN_ENV);
    var _ := owner.PublishStationEventFromNet80211(
      0x4b, Some(MAC_A), Null, 0, 0, 0, 0, At(frame), |frame|, PLAIN_ENV);
  }

  lemma FrameLength(action: byte)
    ensures var frame := StateFrame(action); |frame| == 0x12 && frame[..|frame|] == frame
  {
  }
}
