/** The SoftAP owner as the object it is: fields, the station table and the statistics block are
    updated in place, and every method is proved to take the step `ApstaState` specifies. */
module ApstaOwner {
  import opened ApstaIeScanners
  import opened ApstaInvariant
  import opened ApstaState
  import opened AuthIndication
  import opened ByteBuffers
  import opened ElementList
  import opened EventContracts
  import opened MachineTypes

  const VIF_SOFT_AP: nat := 7
  const VERSION: uint32 := 1
  const MAX_STATIONS: nat := 128

  /** One row of the station list. */
  datatype StationInfo = StationInfo(version: uint32, mac: Mac, rssi: int)

  method MacIsZero(mac: Mac) returns (zero: bool)
    ensures zero <==> mac == ZERO_MAC
  {
    for i := 0 to 6
      invariant forall k | 0 <= k < i :: mac[k] == 0
    {
      if mac[i] != 0 {
        return false;
      }
    }
    return true;
  }

  /** The authentication message: zeroed, header fields stored, chunks copied over it. */
  method BuildAuthMessage(mac: Mac, reason: uint32, data: ConstBytes, dataLength: uint32) returns (bytes: seq<byte>)
    requires data.Holds(dataLength)
    ensures bytes == ApplyAll(AuthHeader(mac, reason), Chunks(data.Bytes(dataLength)))
  {
    var message := new byte[MESSAGE_SIZE](_ => 0);
    assert message[..] == Zeros(MESSAGE_SIZE);
    AuthHeaderStores(mac, reason);
    CopyBytes(message, 0, ToLe32(5), 0, 4);
    CopyBytes(message, 8, ToLe32(StatusFromReason(reason)), 0, 4);
    CopyBytes(message, 0x0c, mac, 0, 6);
    CopyAuthIndChunks(data, dataLength, message);
    bytes := message[..];
  }

  lemma AuthHeaderStores(mac: Mac, reason: uint32)
    ensures var t, r := ToLe32(5), ToLe32(StatusFromReason(reason));
            && t[0..0 + 4] == t && r[0..0 + 4] == r && mac[0..0 + 6] == mac
            && Splice(Splice(Splice(Zeros(MESSAGE_SIZE), 0, t), 8, r), 0x0c, mac) == AuthHeader(mac, reason)
  {
    var t, r := ToLe32(5), ToLe32(StatusFromReason(reason));
    var a := Splice(Zeros(MESSAGE_SIZE), 0, t);
    var b := Splice(a, 8, r);
    SpliceMeaning(Zeros(MESSAGE_SIZE), 0, t);
    SpliceMeaning(a, 8, r);
    SpliceMeaning(b, 0x0c, mac);
    assert a == t + Zeros(MESSAGE_SIZE - 4);
    assert b == t + Zeros(4) + r + Zeros(MESSAGE_SIZE - 12);
    assert b[..0x0c] == t + Zeros(4) + r;
    assert b[0x12..] == Zeros(MESSAGE_SIZE - 0x12);
  }

  method BuildRsnxe(ies: ConstBytes, iesLength: uint32) returns (bytes: seq<byte>)
    requires ies.Holds(iesLength)
    ensures bytes == RsnxeField(ies.Bytes(iesLength))
  {
    var rsnxe := new byte[RSNXE_CAPACITY](_ => 0);
    assert rsnxe[..] == Zeros(RSNXE_CAPACITY);
    CopyRsnxe(ies, iesLength, rsnxe, RSNXE_CAPACITY);
    FirstFittingFits(Elements(ies.Bytes(iesLength)), RSNXE_ELEMENT_ID, RSNXE_CAPACITY);
    bytes := rsnxe[..];
  }

  lemma HandlersSucceed(s: OwnerState, mac: Mac, ev: StationEvent, env: Env)
    ensures AuthEvent(s, mac, ev, env).ret == AssocEvent(s, mac, ev, env).ret == LeaveEvent(s, mac, env).ret
            == ActionEvent(s, mac, ev, env).ret == Success
    ensures ActionEvent(s, mac, ev, env).posted == []
  {
    hide Admitted, FindStation, AllocatedIndex, RsnxeField, MarkApple, SetPowerSave;
  }

  /** Which associations are admitted, and what they leave for certain. */
  lemma AssociationOutcome(s: OwnerState, mac: Mac, ev: StationEvent, env: Env)
    ensures var o := AssocEvent(s, mac, ev, env);
            if ev.status == 0 && ev.reason == 0 && (s.hidden % 2 == 0 || HasAppleIE(ev.ies)) then
              o.state.lastEvent == mac && |o.posted| == (if s.bound && env.netIf then 1 else 0)
              && o.state.bound == s.bound
            else o.state == s && o.posted == []
  {
    hide HasAppleIE, MarkApple, SlotFlags, RsnxeField, FindStation, AllocatedIndex;
  }

  /** One row of the station list. */
  lemma ActiveMacsStep(t: seq<Slot>, i: nat)
    requires i < |t|
    ensures ActiveMacs(t[i..]) == (if t[i].active != 0 then [t[i].mac] else []) + ActiveMacs(t[i + 1..])
  {
    assert t[i..][1..] == t[i + 1..];
  }

  lemma NextMac(macs: seq<Mac>, num: nat, mac: Mac, rest: seq<Mac>)
    requires num <= |macs| && macs[num..] == [mac] + rest
    ensures num < |macs| && macs[num] == mac && macs[num + 1..] == rest
  {
    assert macs[num..][0] == mac && macs[num..][1..] == rest;
  }

  lemma NoMoreMacs(t: seq<Slot>)
    ensures t == [] ==> ActiveMacs(t) == []
  {
  }

  class Owner {
    var bound: bool
    var lifecycle: Lifecycle
    var state: StateBlock
    const stats: array<byte>
    const table: array<Slot>
    ghost var lowerUp: bool
    ghost var posted: seq<Message>

    ghost predicate Shape()
      reads this
    {
      stats.Length == STATS_SIZE && table.Length == STATION_TABLE_ENTRY_COUNT
    }

    ghost function PowerState(): Power
      reads this, stats
      requires Shape()
    {
      Power(state.param0e, state.mode, state.assertion, state.lowTraffic, stats[..])
    }

    ghost function State(): OwnerState
      reads this, stats, table
      requires Shape()
    {
      OwnerState(bound, lifecycle, state.apUp, state.transition, state.count, state.maxAssoc, state.maxAssocLimit,
                 state.hidden, PowerState(), table[..], state.lastEvent, state.beaconInterval,
                 state.appliedBeaconInterval, state.params, state.ssidLength, state.ssid, lowerUp)
    }

    ghost predicate Valid()
      reads this, stats, table
    {
      Shape() && Inv(State())
    }

    /** The kernel object before `initWithController`: all members zero. */
    constructor ()
      ensures Valid() && State() == FailedState().(lifecycle := Unallocated) && posted == []
      ensures fresh(stats) && fresh(table)
    {
      bound, lifecycle, state, lowerUp, posted := false, Unallocated, ZERO_BLOCK, false, [];
      stats := new byte[STATS_SIZE](_ => 0);
      table := new Slot[STATION_TABLE_ENTRY_COUNT](_ => CLEAR_SLOT);
      new;
      assert stats[..] == Zeros(STATS_SIZE) && table[..] == CLEAR_TABLE;
      NoneActive(CLEAR_TABLE);
    }

    /** Clears the statistics block in place. */
    method ClearStats()
      requires Shape()
      modifies stats
      ensures stats[..] == Zeros(STATS_SIZE)
    {
      forall i | 0 <= i < stats.Length {
        stats[i] := 0;
      }
    }

    method ClearStation(i: nat)
      requires Shape() && i < table.Length
      modifies table
      ensures table[..] == old(table[..])[i := CLEAR_SLOT]
    {
      table[i] := CLEAR_SLOT;
    }

    method ClearAllStations()
      requires Shape()
      modifies table
      ensures table[..] == CLEAR_TABLE
    {
      for i := 0 to STATION_TABLE_ENTRY_COUNT
        invariant forall k | 0 <= k < i :: table[k] == CLEAR_SLOT
      {
        ClearStation(i);
      }
    }

    method InitSoftApParameters()
      requires Shape()
      modifies this, stats, table
      ensures State() == old(State()).(
                           count := 0, maxAssoc := 1, maxAssocLimit := 1800, table := CLEAR_TABLE,
                           power := old(PowerState()).(stats := Zeros(STATS_SIZE)),
                           params := Params(0x0f, 0x1e, 0x708, 0x0a, 3),
                           appliedBeaconInterval := old(state).beaconInterval)
      ensures posted == old(posted)
    {
      ClearStats();
      ClearAllStations();
      state := state.(count := 0, maxAssoc := 1, maxAssocLimit := 1800,
                      params := Params(0x0f, 0x1e, 0x708, 0x0a, 3),
                      appliedBeaconInterval := state.beaconInterval);
    }

    /** `superInit` and the arguments say which of the early returns is taken. */
    method InitWithController(superInit: bool, hasController: bool, createRole: Option<nat>) returns (ok: bool)
      requires Shape()
      modifies this, stats, table
      ensures ok <==> superInit && hasController && createRole == Some(7)
      ensures ok ==> && bound && lifecycle == Created && state.apUp == 0 && state.count == 0
                     && state.maxAssoc == 1 && state.maxAssocLimit == 1800
                     && state.beaconInterval == 100 && state.appliedBeaconInterval == 100
      ensures Valid() && State() == if ok then FreshState(0) else FailedState()
      ensures posted == old(posted)
    {
      hide Inv;
      bound, lifecycle, state, lowerUp := false, Terminal, ZERO_BLOCK, false;
      ClearStats();
      ClearAllStations();
      InitialInv(FailedState());
      InitialInv(FreshState(0));
      assert table[..] == CLEAR_TABLE && stats[..] == Zeros(STATS_SIZE);
      assert State() == FailedState();
      if !superInit || !hasController || createRole != Some(VIF_SOFT_AP) {
        return false;
      }
      bound, lifecycle := true, Created;
      state := state.(beaconInterval := 100, apUp := 0, transition := 0);
      InitSoftApParameters();
      assert State() == FreshState(0);
      return true;
    }

    /** The byte another file may store through `stateBlock()` before the AP is used. */
    method SeedParam0e(b: byte)
      requires Shape() && State() == FreshState(0)
      modifies this
      ensures Valid() && State() == FreshState(b) && posted == old(posted)
    {
      state := state.(param0e := b);
      InitialInv(FreshState(b));
    }

    // ---------- power save ----------

    /** Reads, increments (modulo 2^32) and stores the transition count of a mode. */
    method CountTransition(newState: byte)
      requires Shape() && newState <= MODE_LOW_POWER
      modifies stats
      ensures stats[..] == BumpCounter(old(stats[..]), newState)
    {
      var at := CounterOffset(newState);
      var transitionCount := Le32(stats[..], at);
      var incremented: int := transitionCount as int + 1;
      var b := ToLe32(incremented % 0x1_0000_0000);
      assert b[0..0 + 4] == b;
      CopyBytes(stats, at, b, 0, 4);
    }

    method SetSoftApPowerSaveState(newState: byte, reason: byte)
      requires Shape()
      modifies this`state, stats
      ensures state == old(state).(mode := state.mode, assertion := state.assertion, lowTraffic := state.lowTraffic)
      ensures PowerState() == SetPowerSave(old(PowerState()), newState, reason)
    {
      if state.param0e % 2 == 0 {
        return;
      }
      if reason == REASON_INFRA_SCAN || newState > MODE_LOW_POWER {
        return;
      }
      if state.mode != newState {
        CountTransition(newState);
        if newState == MODE_OFF {
          state := state.(lowTraffic := 0);
          if reason == REASON_RESET || reason == REASON_POWER_OFF {
            state := state.(assertion := 0);
          }
        } else if newState == MODE_ON {
          state := state.(assertion := 0);
        } else if newState == MODE_LOW_POWER {
          state := state.(assertion := 1, lowTraffic := 0);
        }
      }
      state := state.(mode := newState);
    }

    // ---------- lifecycle ----------

    method ResetRuntimeState()
      requires Shape()
      modifies this`state, stats, table
      ensures State() == Reset(old(State()))
    {
      hide SetPowerSave;
      state := state.(apUp := 0, transition := 0, count := 0);
      ClearAllStations();
      SetSoftApPowerSaveState(MODE_OFF, REASON_RESET);
      ClearStats();
    }

    method StartLowerIfReady(env: Env) returns (ret: IOReturn)
      requires Valid()
      modifies this
      ensures Valid() && posted == old(posted)
      ensures State() == StartLower(old(State()), env).state && ret == StartLower(old(State()), env).ret
      ensures lifecycle.Running? && state.apUp != 0
              <==> old(bound) && env.hal && env.supportsAp && env.startResult == Success
    {
      hide Inv;
      StartKeepsInv(State(), env);
      if !bound || !env.hal {
        lifecycle, state := LowerBlocked, state.(apUp := 0);
        return NotReady;
      }
      if !env.supportsAp {
        lifecycle, state := LowerBlocked, state.(apUp := 0);
        return Unsupported;
      }
      ret := env.startResult;
      if ret == Success {
        lowerUp := true;
        lifecycle, state := Running, state.(apUp := 1, transition := 1);
      } else {
        lifecycle, state := LowerBlocked, state.(apUp := 0);
      }
    }

    method StopLowerAp(env: Env) returns (ret: IOReturn)
      requires Valid()
      modifies this, stats, table
      ensures Valid() && posted == old(posted) && ret == Success
      ensures State() == StopLower(old(State()), env)
    {
      hide Inv, Reset;
      StopKeepsInv(State(), env);
      if bound && env.hal {
        lowerUp := false;
      }
      ResetRuntimeState();
      if lifecycle != Freed {
        lifecycle := Terminal;
      }
      return Success;
    }

    method TeardownOwner(env: Env)
      requires Valid()
      modifies this, stats, table
      ensures Valid() && posted == old(posted)
      ensures State() == Teardown(old(State()), env)
    {
      hide Inv, StopLower;
      LifecycleCallsKeepInv(State(), None, env);
      if lifecycle.BeforeTerminal() {
        var _ := StopLowerAp(env);
      }
      bound := false;
    }

    method Free(env: Env)
      requires Valid()
      modifies this, stats, table
      ensures Valid() && posted == old(posted)
      ensures State() == Teardown(old(State()), env).(lifecycle := Freed)
    {
      hide Inv, StopLower;
      LifecycleCallsKeepInv(State(), None, env);
      TeardownOwner(env);
      lifecycle := Freed;
      bound := false;
    }

    // ---------- settings ----------

    method SetHostApModeNetwork(net: Option<HostApNetwork>, env: Env) returns (ret: IOReturn)
      requires Valid()
      modifies this, stats, table
      ensures Valid() && posted == old(posted)
      ensures State() == SetHostApMode(old(State()), net, env).state && ret == SetHostApMode(old(State()), net, env).ret
    {
      hide Inv, StopLower;
      LifecycleCallsKeepInv(State(), net, env);
      if net.Some? {
        if net.value.vendorIELength > 0x100 || net.value.ssidLength > 0x20 {
          return EINVAL;
        }
      }
      if !(lifecycle == Running && state.apUp != 0) || !bound || !env.hal {
        return SOFTAP_NOT_READY;
      }
      if net.None? || net.value.ssidLength == 0 {
        ret := StopLowerAp(env);
        return;
      }
      var n := net.value.ssidLength;
      state := state.(ssidLength := n, ssid := net.value.ssid[..n] + Zeros(0x20 - n));
      assert State() == SetHostApMode(old(State()), net, env).state;
      return Success;
    }

    method SetHostApModeHidden(value: Option<uint32>, env: Env) returns (ret: IOReturn)
      requires Valid()
      modifies this, stats
      ensures Valid() && posted == old(posted)
      ensures State() == SetHidden(old(State()), value, env).state && ret == SetHidden(old(State()), value, env).ret
    {
      hide Inv, SetPowerSave;
      SettingsKeepInv(State(), ParamsInput(0, 0, 0, 0, 0, 0, 0), value, env);
      if !(lifecycle == Running && state.apUp != 0) || !bound || !env.hal {
        return SOFTAP_NOT_READY;
      }
      if value.None? {
        return EINVAL;
      }
      if value.value > 1 {
        return EINVAL;
      }
      ret := env.hiddenResult;
      if ret == Success {
        state := state.(hidden := if value.value != 0 then 1 else 0);
        if value.value == 0 && lifecycle == Running && state.apUp != 0 {
          SetSoftApPowerSaveState(MODE_OFF, REASON_HIDDEN);
          state := state.(param0e := 0, assertion := 1);
          assert PowerState()
                 == SetPowerSave(old(PowerState()), MODE_OFF, REASON_HIDDEN).(param0e := 0, assertion := 1);
          assert table[..] == old(table[..]);
        }
        assert State() == SetHidden(old(State()), value, env).state;
      }
    }

    method SetSoftApParams(in0: ParamsInput) returns (ret: IOReturn)
      requires Valid()
      modifies this, stats
      ensures Valid() && posted == old(posted) && ret == Success
      ensures State() == SetParams(old(State()), in0).state
    {
      hide Inv, SetPowerSave;
      SettingsKeepInv(State(), in0, None, Env(false, false, false, Success, Success, false, 0));
      var wasEnabled := state.param0e % 2 != 0;
      var disableRequested := in0.enabled17 == 0;
      if wasEnabled && disableRequested && state.apUp != 0 {
        SetSoftApPowerSaveState(MODE_OFF, REASON_PARAMS);
        state := state.(param0e := 0);
      }
      assert wasEnabled && disableRequested ==> PowerState() == ParamsPower(old(State()), in0);
      if in0.param14 != BEACON_SENTINEL && in0.param14 != state.appliedBeaconInterval {
        state := state.(appliedBeaconInterval := in0.param14, beaconInterval := in0.param14);
      }
      state := state.(params := Params(in0.param04, in0.param08, in0.param0c, in0.param10, in0.param18));
      if !wasEnabled || !disableRequested {
        SetSoftApPowerSaveState(MODE_ON, REASON_PARAMS);
      }
      assert PowerState() == ParamsPower(old(State()), in0);
      assert table[..] == old(table[..]);
      assert State() == SetParams(old(State()), in0).state;
      return Success;
    }

    method SetMaxAssociations(value: uint32) returns (ret: IOReturn)
      requires Valid()
      modifies this
      ensures Valid() && posted == old(posted) && ret == Success
      ensures State() == SetMaxAssoc(old(State()), value)
    {
      hide Inv;
      MaxAssocKeepsInv(State(), value);
      if state.maxAssoc == value {
        return Success;
      }
      var payload: uint32 := (state.count + value) % 0x1_0000_0000;
      if payload > state.maxAssocLimit {
        return Success;
      }
      state := state.(maxAssoc := value);
      return Success;
    }

    method SetMisMaxSta(value: uint32) returns (ret: IOReturn)
      requires Valid()
      modifies this
      ensures Valid() && posted == old(posted) && ret == Success
      ensures State() == if old(State()).IsApRunning() then SetMaxAssoc(old(State()), value) else old(State())
    {
      hide Inv, SetMaxAssoc;
      if !(lifecycle == Running && state.apUp != 0) {
        return Success;
      }
      ret := SetMaxAssociations(value);
    }

    // ---------- the station table ----------

    /** The index of a station's entry, or 5. */
    method FindEntry(mac: Mac) returns (i: nat)
      requires Shape()
      ensures i == FindStation(table[..], mac)
    {
      var zero := MacIsZero(mac);
      if zero {
        return STATION_TABLE_ENTRY_COUNT;
      }
      i := 0;
      while i < STATION_TABLE_ENTRY_COUNT
        invariant i <= STATION_TABLE_ENTRY_COUNT
        invariant FindFrom(table[..], mac, 0) == FindFrom(table[..], mac, i)
      {
        if table[i].active != 0 && table[i].mac == mac {
          return;
        }
        i := i + 1;
      }
    }

    method AllocateEntry(mac: Mac) returns (i: nat)
      requires Shape()
      modifies this`state, table
      ensures i == AllocatedIndex(old(table[..]), mac)
      ensures State() == AllocateStation(old(State()), mac)
    {
      i := FindEntry(mac);
      if i < STATION_TABLE_ENTRY_COUNT {
        return;
      }
      i := 0;
      while i < STATION_TABLE_ENTRY_COUNT
        invariant i <= STATION_TABLE_ENTRY_COUNT
        invariant FreeFrom(table[..], 0) == FreeFrom(table[..], i)
        invariant State() == old(State())
      {
        if table[i].active == 0 {
          table[i] := CLEAR_SLOT.(active := 1, mac := mac, sleepState := SLEEP_STATE_AWAKE);
          state := state.(count := (state.count + 1) % 0x1_0000_0000);
          return;
        }
        i := i + 1;
      }
    }

    method RemoveEntry(mac: Mac)
      requires Shape()
      modifies this`state, table
      ensures State() == RemoveStation(old(State()), mac)
    {
      var i := FindEntry(mac);
      if i < STATION_TABLE_ENTRY_COUNT {
        if state.count != 0 {
          state := state.(count := state.count - 1);
        }
        ClearStation(i);
      }
    }

    method AreAllStationsInLowPowerMode() returns (all: bool)
      requires Shape()
      ensures all <==> AllStationsInLowPower(table[..])
    {
      for i := 0 to STATION_TABLE_ENTRY_COUNT
        invariant forall k | 0 <= k < i :: !(table[k].active % 2 != 0 && table[k].sleepState == SLEEP_STATE_AWAKE)
      {
        if table[i].active % 2 != 0 && table[i].sleepState == SLEEP_STATE_AWAKE {
          assert table[..][i] == table[i];
          return false;
        }
      }
      return true;
    }

    /** Fills `out` with the active stations; nothing is written on the error paths. */
    method GetStationList(out: array?<StationInfo>) returns (ret: IOReturn, num: nat)
      requires Valid()
      requires out != null ==> out.Length == 128
      modifies out
      ensures ret == if out == null then Errno(22)
                     else if !(lifecycle.Running? && state.apUp != 0) then Errno(57) else Success
      ensures ret != Success && out != null ==> out[..] == old(out[..])
      ensures ret == Success ==>
                var macs := ActiveMacs(table[..]);
                && num == |macs| <= out.Length
                && (forall k | 0 <= k < num :: out[k] == StationInfo(1, macs[k], 0))
                && out[num..] == old(out[num..])
    {
      hide Inv, ActiveMacs;
      num := 0;
      if out == null {
        return EINVAL, 0;
      }
      if !(lifecycle == Running && state.apUp != 0) {
        return STATION_LIST_NOT_UP, 0;
      }
      var i := 0;
      ghost var t, macs := table[..], ActiveMacs(table[..]);
      assert t[0..] == t;
      while i < STATION_TABLE_ENTRY_COUNT && num < MAX_STATIONS
        invariant num <= i <= STATION_TABLE_ENTRY_COUNT && num <= |macs|
        invariant table[..] == t && macs[num..] == ActiveMacs(t[i..])
        invariant forall k | 0 <= k < num :: out[k] == StationInfo(VERSION, macs[k], 0)
        invariant out[num..] == old(out[num..])
        decreases STATION_TABLE_ENTRY_COUNT - i
      {
        ActiveMacsStep(t, i);
        assert table[i] == t[i];
        if table[i].active != 0 {
          NextMac(macs, num, t[i].mac, ActiveMacs(t[i + 1..]));
          out[num] := StationInfo(VERSION, table[i].mac, 0);
          num := num + 1;
        }
        i := i + 1;
      }
      NoMoreMacs(t[i..]);
      ret := Success;
    }

    // ---------- station events ----------

    method PostStationMessage(env: Env, m: Message)
      requires Shape()
      modifies this`posted
      ensures State() == old(State()) && posted == old(posted) + (if bound && env.netIf then [m] else [])
    {
      if !bound || !env.netIf {
        return;
      }
      posted := posted + [m];
    }

    /** Stores the Apple flags of an entry and returns its message flags. */
    method MarkEntry(i: nat, ies: ConstBytes, iesLength: uint32, foundAppleIE: bool) returns (flags: byte)
      requires Shape() && i < table.Length && ies.Holds(iesLength)
      requires foundAppleIE <==> HasAppleIE(ies.Bytes(iesLength))
      modifies table
      ensures State()
              == old(State()).(table := old(State()).table[i := MarkApple(old(table[i]), ies.Bytes(iesLength))])
      ensures flags == SlotFlags(table[i]) <= FLAG_AIHS + FLAG_SHARING
    {
      hide HasAppleIE, HotspotFlags;
      var appleFlags := ExtractInstantHotspotFlags(ies, iesLength);
      table[i] := table[i].(aihs := if appleFlags % 2 != 0 then 1 else 0,
                            sharing := if appleFlags / 2 % 2 != 0 then 1 else 0);
      if foundAppleIE {
        table[i] := table[i].(apple := 1);
      }
      flags := (if table[i].aihs != 0 then FLAG_AIHS else 0) + (if table[i].sharing != 0 then FLAG_SHARING else 0);
    }

    /** The entry of an admitted station and the flags of its message. */
    method StoreStation(mac: Mac, ies: ConstBytes, iesLength: uint32, foundAppleIE: bool) returns (assocFlags: byte)
      requires Shape() && ies.Holds(iesLength)
      requires foundAppleIE <==> HasAppleIE(ies.Bytes(iesLength))
      modifies this`state, table
      ensures var s, elements := old(State()), ies.Bytes(iesLength);
              var a, i := AllocateStation(s.(lastEvent := mac), mac), AllocatedIndex(s.table, mac);
              var entryFlags := if i < |a.table| then SlotFlags(State().table[i]) else 0;
              && State() == (if i < |a.table| then a.(table := a.table[i := MarkApple(a.table[i], elements)]) else a)
              && assocFlags == entryFlags + if foundAppleIE then FLAG_APPLE_STATION else 0
    {
      hide HasAppleIE, MarkApple, SlotFlags, FindStation, AllocatedIndex, AllocateStation, ConstBytes.Bytes;
      state := state.(lastEvent := mac);
      var i := AllocateEntry(mac);
      assocFlags := 0;
      if i < STATION_TABLE_ENTRY_COUNT {
        assocFlags := MarkEntry(i, ies, iesLength, foundAppleIE);
      }
      if foundAppleIE {
        assocFlags := assocFlags + FLAG_APPLE_STATION;
      }
    }

    /** An admitted association: entry, flags, message. */
    method AdmitStation(mac: Mac, ies: ConstBytes, iesLength: uint32, foundAppleIE: bool, env: Env,
                        ghost ev: StationEvent)
      requires Shape() && ies.Holds(iesLength) && ev.ies == ies.Bytes(iesLength)
      requires Admitted(State(), ev) && (foundAppleIE <==> HasAppleIE(ev.ies))
      modifies this`state, this`posted, table
      ensures State() == AssocEvent(old(State()), mac, ev, env).state
      ensures posted == old(posted) + AssocEvent(old(State()), mac, ev, env).posted
    {
      hide AssocEvent, HasAppleIE, Admitted, MarkApple, SlotFlags, RsnxeField, FindStation, AllocatedIndex,
           AllocateStation, ConstBytes.Bytes;
      AdmittedOutcome(State(), mac, ev, env);
      var assocFlags := StoreStation(mac, ies, iesLength, foundAppleIE);
      ghost var r := State();
      var rsnxe := BuildRsnxe(ies, iesLength);
      assert State() == r;
      PostStationMessage(env, AssocMessage(mac, state.count, assocFlags, rsnxe));
    }

    method HandleAssociation(mac: Mac, ies: ConstBytes, iesLength: uint32, status: uint32, reason: uint32, env: Env,
                             ghost ev: StationEvent)
      requires Shape() && ies.Holds(iesLength)
      requires ev.ies == ies.Bytes(iesLength) && ev.status == status && ev.reason == reason
      modifies this`state, this`posted, table
      ensures State() == AssocEvent(old(State()), mac, ev, env).state
      ensures posted == old(posted) + AssocEvent(old(State()), mac, ev, env).posted
      ensures status == 0 && reason == 0 && (old(state.hidden) % 2 == 0 || HasAppleIE(ies.Bytes(iesLength)))
              ==> state.lastEvent == mac && |posted| == |old(posted)| + if bound && env.netIf then 1 else 0
      ensures status != 0 || reason != 0 || (old(state.hidden) % 2 == 1 && !HasAppleIE(ies.Bytes(iesLength)))
              ==> State() == old(State()) && posted == old(posted)
    {
      AssociationOutcome(State(), mac, ev, env);
      if !AssociationStatusIsSuccessful(status, reason) {
        return;
      }
      var foundAppleIE := CheckForAppleIE(ies, iesLength);
      if !AssociationIsAdmitted(status, reason, foundAppleIE, state.hidden) {
        return;
      }
      hide AssocEvent, HasAppleIE;
      AdmitStation(mac, ies, iesLength, foundAppleIE, env, ev);
    }

    method HandleAuthentication(mac: Mac, status: uint32, reason: uint32, authType: uint32, eventData: ConstBytes,
                                eventDataLength: uint32, env: Env, ghost ev: StationEvent)
      requires Shape() && eventData.Holds(eventDataLength)
      requires ev.data == eventData.Bytes(eventDataLength)
      requires ev.status == status && ev.reason == reason && ev.authType == authType
      modifies this`posted
      ensures posted == old(posted) + AuthEvent(State(), mac, ev, env).posted
    {
      hide ApplyAll, Chunks, AuthHeader;
      if status != 0 || authType != 3 {
        return;
      }
      var bytes := BuildAuthMessage(mac, reason, eventData, eventDataLength);
      PostStationMessage(env, AuthIndMessage(bytes));
    }

    method HandleLeave(mac: Mac, env: Env)
      requires Shape()
      modifies this`state, this`posted, table
      ensures State() == LeaveEvent(old(State()), mac, env).state
      ensures posted == old(posted) + LeaveEvent(old(State()), mac, env).posted
    {
      hide RemoveStation;
      state := state.(lastEvent := mac);
      RemoveEntry(mac);
      PostStationMessage(env, RemoveMessage(mac, state.count));
    }

    method HandleActionFrame(mac: Mac, eventData: ConstBytes, eventDataLength: uint32, env: Env, ghost ev: StationEvent)
      requires Shape() && eventData.Holds(eventDataLength) && ev.data == eventData.Bytes(eventDataLength)
      modifies this`state, stats, table
      ensures State() == ActionEvent(old(State()), mac, ev, env).state
    {
      hide SetPowerSave, ParseActionFrame, FindStation, AllStationsInLowPower;
      var i := FindEntry(mac);
      if i == STATION_TABLE_ENTRY_COUNT {
        return;
      }
      var frame := ParseActionFrame(eventData.Bytes(eventDataLength));
      if frame.Rejected? {
        return;
      }
      if IsLphsStateAction(frame.category, frame.action) {
        table[i] := table[i].(sleepState := frame.action);
      }
      var concurrencyEnabled := bound && SoftApConcurrencyIsEnabled(env.feature46, env.corePrivateByte);
      var all := AreAllStationsInLowPowerMode();
      if all && !concurrencyEnabled {
        SetSoftApPowerSaveState(MODE_LOW_POWER, REASON_ALL_STATIONS);
      }
    }

    method PublishStationEventFromNet80211(
        eventType: uint32, mac: Option<Mac>, ies: ConstBytes, iesLength: uint32, status: uint32, reason: uint32,
        authType: uint32, eventData: ConstBytes, eventDataLength: uint32, env: Env)
      returns (ret: IOReturn)
      requires Valid() && ies.Holds(iesLength) && eventData.Holds(eventDataLength)
      modifies this, stats, table
      ensures var ev := StationEvent(eventType, mac, ies.Bytes(iesLength), status, reason, authType,
                                     eventData.Bytes(eventDataLength));
              var o := PublishEvent(old(State()), ev, env);
              State() == o.state && posted == old(posted) + o.posted && ret == o.ret
      ensures Valid()
    {
      hide Inv, AuthEvent, AssocEvent, LeaveEvent, ActionEvent;
      ghost var ev := StationEvent(eventType, mac, ies.Bytes(iesLength), status, reason, authType,
                                   eventData.Bytes(eventDataLength));
      EventKeepsInv(State(), ev, env);
      AuthKeepsInv(State(), ev, env);
      if mac.Some? {
        HandlersSucceed(State(), mac.value, ev, env);
      }
      if mac.None? {
        return BadArgument;
      }
      if eventType == 4 {
        HandleAuthentication(mac.value, status, reason, authType, eventData, eventDataLength, env, ev);
        return Success;
      } else if eventType == 8 || eventType == 10 {
        HandleAssociation(mac.value, ies, iesLength, status, reason, env, ev);
        return Success;
      } else if eventType == 5 || eventType == 6 || eventType == 11 || eventType == 12 {
        HandleLeave(mac.value, env);
        return Success;
      } else if eventType == 0x4b {
        HandleActionFrame(mac.value, eventData, eventDataLength, env, ev);
        return Success;
      }
      return Unsupported;
    }
  }
}
