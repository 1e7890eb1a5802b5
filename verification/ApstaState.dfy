/** The SoftAP (APSTA) owner as a state machine: the values of its fields and what each call does to
    them. `ApstaOwner.Owner` is the object whose methods are proved to take these steps. */
module ApstaState {
  import opened ApstaIeScanners
  import opened AuthIndication
  import opened ByteBuffers
  import opened ElementList
  import opened EventContracts
  import opened MachineTypes

  datatype Option<+T> = None | Some(value: T)

  datatype IOReturn = Success | NotReady | Unsupported | BadArgument | Errno(code: nat) | HalError(halCode: int)

  const EINVAL := Errno(0x16)
  const SOFTAP_NOT_READY := Errno(6)
  const STATION_LIST_NOT_UP := Errno(0x39)

  // ---------- fields ----------

  datatype Lifecycle = Unallocated | Allocated | Created | LowerBlocked | Running | Terminal | Freed {
    predicate BeforeTerminal() { !Terminal? && !Freed? }
  }

  const STATION_TABLE_ENTRY_COUNT: nat := 5
  const SLEEP_STATE_LOW_POWER: uint32 := 1
  const SLEEP_STATE_AWAKE: uint32 := 2

  /** One station-table entry; the reserved bytes are left out. */
  datatype Slot = Slot(active: byte, mac: Mac, sleepState: uint32, aihs: uint32, sharing: uint32, apple: uint32)

  const CLEAR_SLOT := Slot(0, ZERO_MAC, 0, 0, 0, 0)

  type Table = t: seq<Slot> | |t| == STATION_TABLE_ENTRY_COUNT
    witness [CLEAR_SLOT, CLEAR_SLOT, CLEAR_SLOT, CLEAR_SLOT, CLEAR_SLOT]

  const CLEAR_TABLE: Table := [CLEAR_SLOT, CLEAR_SLOT, CLEAR_SLOT, CLEAR_SLOT, CLEAR_SLOT]

  const STATS_SIZE: nat := 0x58

  type Stats = s: seq<byte> | |s| == STATS_SIZE witness Zeros(STATS_SIZE)

  const MODE_OFF: byte := 0
  const MODE_ON: byte := 1
  const MODE_LOW_POWER: byte := 3

  const REASON_PARAMS: byte := 0
  const REASON_INFRA_SCAN: byte := 7
  const REASON_HIDDEN: byte := 9
  const REASON_RESET: byte := 0x0a
  const REASON_ALL_STATIONS: byte := 0x0b
  const REASON_POWER_OFF: byte := 0x0c

  /** The power-save fields: softapParam0e (bit 0 enables), softapMode10, powerAssertionFlag0c,
      lowTrafficCounter64 and the raw statistics block. */
  datatype Power = Power(param0e: byte, mode: byte, assertion: byte, lowTraffic: uint32, stats: Stats) {
    predicate Enabled() { param0e % 2 == 1 }
  }

  datatype Params = Params(param18: uint32, param1c: uint32, param20: uint32, param24: uint32, param28: uint32)

  type SsidField = s: seq<byte> | |s| == 0x20 witness Zeros(0x20)

  /** `bound` says that the controller is set; `lowerUp` is the lower AP of the HAL. */
  datatype OwnerState = OwnerState(
    bound: bool, lifecycle: Lifecycle, apUp: uint32, transition: uint32,
    count: uint32, maxAssoc: uint32, maxAssocLimit: uint32,
    hidden: byte, power: Power, table: Table, lastEvent: Mac,
    beaconInterval: uint16, appliedBeaconInterval: uint16, params: Params,
    ssidLength: uint32, ssid: SsidField, lowerUp: bool)
  {
    predicate IsApRunning() { lifecycle.Running? && apUp != 0 }
  }

  /** The scalar fields of the owner's `state` member, as the object stores them beside its station
      table and statistics block. */
  datatype StateBlock = StateBlock(
    apUp: uint32, transition: uint32, count: uint32, maxAssoc: uint32, maxAssocLimit: uint32, hidden: byte,
    param0e: byte, mode: byte, assertion: byte, lowTraffic: uint32, lastEvent: Mac,
    beaconInterval: uint16, appliedBeaconInterval: uint16, params: Params, ssidLength: uint32, ssid: SsidField)

  const ZERO_BLOCK :=
    StateBlock(0, 0, 0, 0, 0, 0, 0, 0, 0, 0, ZERO_MAC, 0, 0, Params(0, 0, 0, 0, 0), 0, Zeros(0x20))

  /** What the world outside the owner answers during one call. */
  datatype Env = Env(hal: bool, netIf: bool, supportsAp: bool, startResult: IOReturn, hiddenResult: IOReturn,
                     feature46: bool, corePrivateByte: byte)

  /** Messages posted to the interface. */
  datatype Message =
    | AuthIndMessage(bytes: seq<byte>)
    | AssocMessage(mac: Mac, associatedCount: uint32, flags: byte, rsnxe: seq<byte>)
    | RemoveMessage(mac: Mac, associatedCount: uint32)

  datatype Outcome = Outcome(state: OwnerState, posted: seq<Message>, ret: IOReturn)

  // ---------- initial state ----------

  /** After `initWithController`; `enable` is the byte other code may have stored in softapParam0e
      through `stateBlock()` -- the owner itself only ever clears it. */
  function FreshState(enable: byte): OwnerState {
    OwnerState(true, Created, 0, 0, 0, 1, 1800, 0, Power(enable, MODE_OFF, 0, 0, Zeros(STATS_SIZE)),
               CLEAR_TABLE, ZERO_MAC, 100, 100, Params(0x0f, 0x1e, 0x708, 0x0a, 3), 0, Zeros(0x20), false)
  }

  /** After an `initWithController` that returned false: everything zero, terminal, unbound. */
  function FailedState(): OwnerState {
    OwnerState(false, Terminal, 0, 0, 0, 0, 0, 0, Power(0, MODE_OFF, 0, 0, Zeros(STATS_SIZE)),
               CLEAR_TABLE, ZERO_MAC, 0, 0, Params(0, 0, 0, 0, 0), 0, Zeros(0x20), false)
  }

  ghost predicate Initial(s: OwnerState) {
    s == FailedState() || s == FreshState(s.power.param0e)
  }

  // ---------- power save ----------

  function CounterOffset(mode: byte): nat {
    0x1c8 - 0x1b0 + mode * 0x10
  }

  function Counter(stats: Stats, mode: byte): uint32
    requires mode <= MODE_LOW_POWER
  {
    Le32(stats, CounterOffset(mode))
  }

  ghost function BumpCounter(stats: Stats, mode: byte): Stats
    requires mode <= MODE_LOW_POWER
  {
    Splice(stats, CounterOffset(mode), ToLe32((Counter(stats, mode) + 1) % 0x1_0000_0000))
  }

  ghost function SetPowerSave(p: Power, newState: byte, reason: byte): Power {
    if !p.Enabled() || reason == REASON_INFRA_SCAN || newState > MODE_LOW_POWER || p.mode == newState then p
    else
      var assertion :=
        if newState == MODE_OFF then (if reason == REASON_RESET || reason == REASON_POWER_OFF then 0 else p.assertion)
        else if newState == MODE_ON then 0
        else if newState == MODE_LOW_POWER then 1
        else p.assertion;
      var lowTraffic := if newState == MODE_OFF || newState == MODE_LOW_POWER then 0 else p.lowTraffic;
      Power(p.param0e, newState, assertion, lowTraffic, BumpCounter(p.stats, newState))
  }

  // ---------- station table ----------

  function FindFrom(t: seq<Slot>, mac: Mac, i: nat): (r: nat)
    requires i <= |t|
    ensures i <= r <= |t|
    ensures r < |t| ==> t[r].active != 0 && t[r].mac == mac
    ensures forall k | i <= k < r :: t[k].active == 0 || t[k].mac != mac
    decreases |t| - i
  {
    if i == |t| || (t[i].active != 0 && t[i].mac == mac) then i else FindFrom(t, mac, i + 1)
  }

  /** The entry of a station, or |t|; a zero address is never found. */
  function FindStation(t: seq<Slot>, mac: Mac): (r: nat)
    ensures r <= |t|
    ensures r < |t| <==> mac != ZERO_MAC && exists k | 0 <= k < |t| :: t[k].active != 0 && t[k].mac == mac
    ensures r < |t| ==> t[r].active != 0 && t[r].mac == mac
  {
    if mac == ZERO_MAC then |t| else FindFrom(t, mac, 0)
  }

  function FreeFrom(t: seq<Slot>, i: nat): (r: nat)
    requires i <= |t|
    ensures i <= r <= |t|
    ensures r < |t| ==> t[r].active == 0
    ensures forall k | i <= k < r :: t[k].active != 0
    decreases |t| - i
  {
    if i == |t| || t[i].active == 0 then i else FreeFrom(t, i + 1)
  }

  function NewSlot(mac: Mac): Slot {
    Slot(1, mac, SLEEP_STATE_AWAKE, 0, 0, 0)
  }

  /** The entry `allocateStation` returns, or 5 when the table is full. */
  function AllocatedIndex(t: Table, mac: Mac): (r: nat)
    ensures r <= |t|
  {
    var i := FindStation(t, mac);
    if i < |t| then i else FreeFrom(t, 0)
  }

  function AllocateStation(s: OwnerState, mac: Mac): OwnerState {
    var i := AllocatedIndex(s.table, mac);
    if FindStation(s.table, mac) < |s.table| || i == |s.table| then s
    else s.(table := s.table[i := NewSlot(mac)], count := (s.count + 1) % 0x1_0000_0000)
  }

  function RemoveStation(s: OwnerState, mac: Mac): OwnerState {
    var i := FindStation(s.table, mac);
    if i == |s.table| then s
    else s.(table := s.table[i := CLEAR_SLOT], count := if s.count != 0 then s.count - 1 else s.count)
  }

  predicate AllStationsInLowPower(t: seq<Slot>) {
    forall i | 0 <= i < |t| :: !(t[i].active % 2 != 0 && t[i].sleepState == SLEEP_STATE_AWAKE)
  }

  /** The addresses of the active entries in table order. */
  function ActiveMacs(t: seq<Slot>): seq<Mac> {
    if t == [] then [] else (if t[0].active != 0 then [t[0].mac] else []) + ActiveMacs(t[1..])
  }

  // ---------- lifecycle ----------

  ghost function Reset(s: OwnerState): OwnerState {
    s.(apUp := 0, transition := 0, count := 0, table := CLEAR_TABLE,
       power := SetPowerSave(s.power, MODE_OFF, REASON_RESET).(stats := Zeros(STATS_SIZE)))
  }

  function StartLower(s: OwnerState, env: Env): Outcome {
    if !s.bound || !env.hal then Outcome(s.(lifecycle := LowerBlocked, apUp := 0), [], NotReady)
    else if !env.supportsAp then Outcome(s.(lifecycle := LowerBlocked, apUp := 0), [], Unsupported)
    else if env.startResult == Success then
      Outcome(s.(lifecycle := Running, apUp := 1, transition := 1, lowerUp := true), [], Success)
    else Outcome(s.(lifecycle := LowerBlocked, apUp := 0), [], env.startResult)
  }

  ghost function StopLower(s: OwnerState, env: Env): OwnerState {
    var r := Reset(s.(lowerUp := s.lowerUp && !(s.bound && env.hal)));
    r.(lifecycle := if s.lifecycle.Freed? then Freed else Terminal)
  }

  ghost function Teardown(s: OwnerState, env: Env): OwnerState {
    (if s.lifecycle.BeforeTerminal() then StopLower(s, env) else s).(bound := false)
  }

  // ---------- settings ----------

  datatype HostApNetwork = HostApNetwork(vendorIELength: uint32, ssidLength: uint32, ssid: SsidField)

  datatype ParamsInput = ParamsInput(enabled17: byte, param04: uint32, param08: uint32, param0c: uint32,
                                     param10: uint32, param14: uint16, param18: byte)

  const BEACON_SENTINEL: uint16 := 0xffff

  /** Whether a SET_HOST_AP_MODE request passes the checks and asks for the AP to stop. */
  predicate HostApModeStops(s: OwnerState, net: Option<HostApNetwork>, env: Env) {
    && (net.Some? ==> net.value.vendorIELength <= 0x100 && net.value.ssidLength <= 0x20)
    && s.IsApRunning() && s.bound && env.hal
    && (net.None? || net.value.ssidLength == 0)
  }

  ghost function SetHostApMode(s: OwnerState, net: Option<HostApNetwork>, env: Env): Outcome {
    if net.Some? && (net.value.vendorIELength > 0x100 || net.value.ssidLength > 0x20) then Outcome(s, [], EINVAL)
    else if !s.IsApRunning() || !s.bound || !env.hal then Outcome(s, [], SOFTAP_NOT_READY)
    else if net.None? || net.value.ssidLength == 0 then Outcome(StopLower(s, env), [], Success)
    else
      var n := net.value.ssidLength;
      Outcome(s.(ssidLength := n, ssid := net.value.ssid[..n] + Zeros(0x20 - n)), [], Success)
  }

  ghost function SetHidden(s: OwnerState, value: Option<uint32>, env: Env): Outcome {
    if !s.IsApRunning() || !s.bound || !env.hal then Outcome(s, [], SOFTAP_NOT_READY)
    else if value.None? || value.value > 1 then Outcome(s, [], EINVAL)
    else if env.hiddenResult != Success then Outcome(s, [], env.hiddenResult)
    else if value.value != 0 then Outcome(s.(hidden := 1), [], Success)
    else
      var p := SetPowerSave(s.power, MODE_OFF, REASON_HIDDEN);
      Outcome(s.(hidden := 0, power := p.(param0e := 0, assertion := 1)), [], Success)
  }

  /** Disabling while the AP is up turns power save off for good; any other request turns it on. */
  ghost function ParamsPower(s: OwnerState, in0: ParamsInput): Power {
    if s.power.Enabled() && in0.enabled17 == 0 then
      if s.apUp != 0 then SetPowerSave(s.power, MODE_OFF, REASON_PARAMS).(param0e := 0) else s.power
    else SetPowerSave(s.power, MODE_ON, REASON_PARAMS)
  }

  ghost function SetParams(s: OwnerState, in0: ParamsInput): Outcome {
    var newBeacon := in0.param14 != BEACON_SENTINEL && in0.param14 != s.appliedBeaconInterval;
    Outcome(s.(power := ParamsPower(s, in0),
               beaconInterval := if newBeacon then in0.param14 else s.beaconInterval,
               appliedBeaconInterval := if newBeacon then in0.param14 else s.appliedBeaconInterval,
               params := Params(in0.param04, in0.param08, in0.param0c, in0.param10, in0.param18)), [], Success)
  }

  function SetMaxAssoc(s: OwnerState, value: uint32): OwnerState {
    if s.maxAssoc == value || (s.count + value) % 0x1_0000_0000 > s.maxAssocLimit then s else s.(maxAssoc := value)
  }

  // ---------- station events ----------

  /** A station event after its (address, length) arguments are read; a null MAC is None. */
  datatype StationEvent = StationEvent(eventType: uint32, mac: Option<Mac>, ies: seq<byte>, status: uint32,
                                       reason: uint32, authType: uint32, data: seq<byte>)
  {
    predicate IsAuth() { eventType == 4 }
    predicate IsAssoc() { eventType == 8 || eventType == 10 }
    predicate IsLeave() { eventType == 5 || eventType == 6 || eventType == 11 || eventType == 12 }
    predicate IsAction() { eventType == 0x4b }
  }

  function Post(s: OwnerState, env: Env, m: Message): seq<Message> {
    if s.bound && env.netIf then [m] else []
  }

  ghost predicate Admitted(s: OwnerState, ev: StationEvent) {
    AssociationIsAdmitted(ev.status, ev.reason, HasAppleIE(ev.ies), s.hidden)
  }

  /** The authentication message before the chunks: type, status and MAC in a zeroed layout. */
  function AuthHeader(mac: Mac, reason: uint32): (m: seq<byte>)
    ensures |m| == MESSAGE_SIZE
  {
    ToLe32(5) + Zeros(4) + ToLe32(StatusFromReason(reason)) + mac + Zeros(MESSAGE_SIZE - 0x12)
  }

  ghost function AuthEvent(s: OwnerState, mac: Mac, ev: StationEvent, env: Env): Outcome {
    if ev.status != 0 || ev.authType != 3 then Outcome(s, [], Success)
    else
      Outcome(s, Post(s, env, AuthIndMessage(ApplyAll(AuthHeader(mac, ev.reason), Chunks(ev.data)))), Success)
  }

  ghost function MarkApple(slot: Slot, ies: seq<byte>): Slot {
    var flags := HotspotFlags(ies);
    slot.(aihs := if flags % 2 == 1 then 1 else 0,
          sharing := if flags / 2 % 2 == 1 then 1 else 0,
          apple := if HasAppleIE(ies) then 1 else slot.apple)
  }

  function SlotFlags(slot: Slot): byte {
    (if slot.aihs != 0 then FLAG_AIHS else 0) + (if slot.sharing != 0 then FLAG_SHARING else 0)
  }

  const RSNXE_CAPACITY: nat := 0x104

  ghost function RsnxeField(ies: seq<byte>): seq<byte> {
    var e := FirstFitting(Elements(ies), RSNXE_ELEMENT_ID, RSNXE_CAPACITY);
    if |e| <= RSNXE_CAPACITY then Splice(Zeros(RSNXE_CAPACITY), 0, e) else []
  }

  ghost function AssocEvent(s: OwnerState, mac: Mac, ev: StationEvent, env: Env): Outcome {
    if !Admitted(s, ev) then Outcome(s, [], Success)
    else
      var a := AllocateStation(s.(lastEvent := mac), mac);
      var i := AllocatedIndex(s.table, mac);
      var r := if i < |a.table| then a.(table := a.table[i := MarkApple(a.table[i], ev.ies)]) else a;
      var entryFlags := if i < |r.table| then SlotFlags(r.table[i]) else 0;
      var flags := entryFlags + if HasAppleIE(ev.ies) then FLAG_APPLE_STATION else 0;
      Outcome(r, Post(s, env, AssocMessage(mac, r.count, flags, RsnxeField(ev.ies))), Success)
  }

  function LeaveEvent(s: OwnerState, mac: Mac, env: Env): Outcome {
    var r := RemoveStation(s.(lastEvent := mac), mac);
    Outcome(r, Post(s, env, RemoveMessage(mac, r.count)), Success)
  }

  predicate ConcurrencyEnabled(s: OwnerState, env: Env) {
    s.bound && SoftApConcurrencyIsEnabled(env.feature46, env.corePrivateByte)
  }

  ghost function ActionEvent(s: OwnerState, mac: Mac, ev: StationEvent, env: Env): Outcome {
    var i, frame := FindStation(s.table, mac), ParseActionFrame(ev.data);
    if i == |s.table| || frame.Rejected? then Outcome(s, [], Success)
    else
      var t := if IsLphsStateAction(frame.category, frame.action)
               then s.table[i := s.table[i].(sleepState := frame.action)] else s.table;
      var p := if AllStationsInLowPower(t) && !ConcurrencyEnabled(s, env)
               then SetPowerSave(s.power, MODE_LOW_POWER, REASON_ALL_STATIONS) else s.power;
      Outcome(s.(table := t, power := p), [], Success)
  }

  ghost function PublishEvent(s: OwnerState, ev: StationEvent, env: Env): Outcome {
    if ev.mac.None? then Outcome(s, [], BadArgument)
    else if ev.IsAuth() then AuthEvent(s, ev.mac.value, ev, env)
    else if ev.IsAssoc() then AssocEvent(s, ev.mac.value, ev, env)
    else if ev.IsLeave() then LeaveEvent(s, ev.mac.value, env)
    else if ev.IsAction() then ActionEvent(s, ev.mac.value, ev, env)
    else Outcome(s, [], Unsupported)
  }

  // ---------- one call, and runs ----------

  datatype Op =
    | StartOp | StopOp | TeardownOp | FreeOp
    | HostApModeOp(net: Option<HostApNetwork>)
    | HiddenOp(value: Option<uint32>)
    | ParamsOp(in0: ParamsInput)
    | MaxAssocOp(max: uint32)
    | MisMaxStaOp(max: uint32)
    | EventOp(ev: StationEvent)

  datatype Call = Call(op: Op, env: Env)

  ghost function Step(s: OwnerState, c: Call): Outcome {
    match c.op
    case StartOp => StartLower(s, c.env)
    case StopOp => Outcome(StopLower(s, c.env), [], Success)
    case TeardownOp => Outcome(Teardown(s, c.env), [], Success)
    case FreeOp => Outcome(Teardown(s, c.env).(lifecycle := Freed), [], Success)
    case HostApModeOp(net) => SetHostApMode(s, net, c.env)
    case HiddenOp(value) => SetHidden(s, value, c.env)
    case ParamsOp(in0) => SetParams(s, in0)
    case MaxAssocOp(max) => Outcome(SetMaxAssoc(s, max), [], Success)
    case MisMaxStaOp(max) => Outcome(if s.IsApRunning() then SetMaxAssoc(s, max) else s, [], Success)
    case EventOp(ev) => PublishEvent(s, ev, c.env)
  }

  ghost function Run(s: OwnerState, calls: seq<Call>): OwnerState {
    if calls == [] then s else Step(Run(s, calls[..|calls| - 1]), calls[|calls| - 1]).state
  }
}
