/** What a station event does, in terms of the event itself: when a message is posted and what is in it,
    which entry an association leaves, and what an action frame stores. */
module EventProperties {
  import opened ApstaIeScanners
  import opened ApstaInvariant
  import opened ApstaState
  import opened AuthIndication
  import opened ByteBuffers
  import opened ElementList
  import opened EventContracts
  import opened MachineTypes
  import opened StationRefinement

  // ---------- when a message is posted ----------

  /** An association or reassociation that the rules admit: successful, and on a hidden network (bit 0)
      from a station with an Apple element. */
  ghost predicate Joins(s: OwnerState, ev: StationEvent) {
    && (ev.eventType == 8 || ev.eventType == 10) && ev.status == 0 && ev.reason == 0
    && (s.hidden % 2 == 0 || HasAppleIE(ev.ies))
  }

  /** The four ways to leave: two kinds each of deauthentication and disassociation. */
  predicate Leaves(ev: StationEvent) {
    ev.eventType in {5, 6, 11, 12}
  }

  predicate Authenticates(ev: StationEvent) {
    ev.eventType == 4 && ev.status == 0 && ev.authType == 3
  }

  lemma JoinsIffAdmitted(s: OwnerState, ev: StationEvent)
    ensures Joins(s, ev) <==> ev.IsAssoc() && Admitted(s, ev)
  {
  }

  /** A bound owner with an interface posts exactly one message for each of these events, of its kind, and
      none for any other event; an unbound one or one without an interface posts none. */
  lemma PostedExactly(s: OwnerState, ev: StationEvent, env: Env)
    ensures var posted := Step(s, Call(EventOp(ev), env)).posted;
            && |posted| == (if s.bound && env.netIf && ev.mac.Some?
                               && (Authenticates(ev) || Joins(s, ev) || Leaves(ev)) then 1 else 0)
            && (|posted| == 1 ==> && (posted[0].AuthIndMessage? <==> Authenticates(ev))
                                  && (posted[0].AssocMessage? <==> Joins(s, ev))
                                  && (posted[0].RemoveMessage? <==> Leaves(ev)))
  {
    hide Admitted, Joins, ApplyAll, Chunks, AuthHeader, AllocateStation, RemoveStation, MarkApple, RsnxeField;
    hide FindStation, AllocatedIndex, SetPowerSave, HasAppleIE, SlotFlags, AllStationsInLowPower;
    JoinsIffAdmitted(s, ev);
  }

  // ---------- associations and leaves ----------

  predicate IsKnown(t: seq<Slot>, mac: Mac) {
    mac != ZERO_MAC && exists k | 0 <= k < |t| :: t[k].active != 0 && t[k].mac == mac
  }

  lemma AllocatedIndexMeaning(s: OwnerState, mac: Mac)
    requires Inv(s)
    ensures FindStation(s.table, mac) < |s.table| <==> IsKnown(s.table, mac)
    ensures AllocatedIndex(s.table, mac) < |s.table| <==> IsKnown(s.table, mac) || s.count < 5
    ensures var i := AllocatedIndex(s.table, mac);
            && (IsKnown(s.table, mac) ==> s.table[i].active != 0 && s.table[i].mac == mac)
            && (!IsKnown(s.table, mac) ==> forall k | 0 <= k < i :: s.table[k].active != 0)
            && (!IsKnown(s.table, mac) && i < |s.table| ==> s.table[i].active == 0)
  {
    RoomMeansFree(s, mac);
    hide Inv;
  }

  /** Who is admitted gets an entry, if known or while there is room: its own, or the first free one, with the
      address, the hotspot flags of its elements and the Apple flag. A known station keeps its sleep state and
      an Apple flag, a new one is awake. No other entry changes, and the last event is its. */
  lemma JoinEffect(s: OwnerState, ev: StationEvent, env: Env) returns (i: nat)
    requires Inv(s) && ev.mac.Some? && Joins(s, ev)
    ensures var mac, r := ev.mac.value, Step(s, Call(EventOp(ev), env)).state;
            var known := IsKnown(s.table, mac);
            && r.lastEvent == mac
            && (known || s.count < 5 ==>
                  && i < |s.table|
                  && (if known then s.table[i].active != 0 && s.table[i].mac == mac
                      else s.table[i].active == 0 && forall k | 0 <= k < i :: s.table[k].active != 0)
                  && r.table == s.table[i := Slot(1, mac, if known then s.table[i].sleepState else 2,
                                                  HotspotFlags(ev.ies) % 2, HotspotFlags(ev.ies) / 2 % 2,
                                                  if HasAppleIE(ev.ies) then 1
                                                  else if known then s.table[i].apple else 0)])
            && (!known && s.count >= 5 ==> r.table == s.table)
            && r.count == (if !known && s.count < 5 then s.count + 1 else s.count)
  {
    hide AssocEvent, Step, Admitted, Joins, IsKnown, FindStation, AllocatedIndex, HasAppleIE, HotspotFlags, Inv;
    hide MarkApple, NewSlot;
    var mac := ev.mac.value;
    i := AllocatedIndex(s.table, mac);
    JoinsIffAdmitted(s, ev);
    AllocatedIndexMeaning(s, mac);
    AssocTable(s, mac, ev, env);
    RoomMeansFree(s, mac);
    AssocCount(s, mac, ev, env);
    AssocLastEvent(s, mac, ev, env);
    EventIsAssoc(s, ev, env);
    KnownIsOne(s, i);
    MarkedSlot(if i < |s.table| then s.table[i] else CLEAR_SLOT, ev.ies);
    MarkedSlot(NewSlot(mac), ev.ies);
    NewSlotFields(mac);
  }

  lemma NewSlotFields(mac: Mac)
    ensures NewSlot(mac) == Slot(1, mac, 2, 0, 0, 0)
  {
  }

  lemma MarkedSlot(x: Slot, ies: seq<byte>)
    ensures MarkApple(x, ies) == Slot(x.active, x.mac, x.sleepState, HotspotFlags(ies) % 2, HotspotFlags(ies) / 2 % 2,
                                      if HasAppleIE(ies) then 1 else x.apple)
  {
    HotspotFlagsImplyAppleIE(ies);
    hide HotspotFlags, HasAppleIE;
  }

  lemma KnownIsOne(s: OwnerState, i: nat)
    requires Inv(s)
    ensures i < |s.table| && s.table[i].active != 0 ==> s.table[i].active == 1
  {
    if i < |s.table| {
      assert SlotOk(s.table[i]);
    }
    hide PowerInv, LifecycleInv, NumActive, DistinctMacs;
  }

  lemma AssocLastEvent(s: OwnerState, mac: Mac, ev: StationEvent, env: Env)
    requires Admitted(s, ev)
    ensures AssocEvent(s, mac, ev, env).state.lastEvent == mac
  {
    hide Admitted, FindStation, AllocatedIndex, MarkApple, RsnxeField, HasAppleIE, SlotFlags;
  }

  lemma EventIsAssoc(s: OwnerState, ev: StationEvent, env: Env)
    requires ev.mac.Some? && ev.IsAssoc()
    ensures Step(s, Call(EventOp(ev), env)) == AssocEvent(s, ev.mac.value, ev, env)
  {
    hide AssocEvent;
  }

  /** So whoever is admitted while there is room is in the table afterwards, a hidden network included. */
  lemma AdmittedIsIn(s: OwnerState, ev: StationEvent, env: Env)
    requires Inv(s) && ev.mac.Some? && (ev.eventType == 8 || ev.eventType == 10) && ev.status == 0 && ev.reason == 0
    requires s.hidden % 2 == 0 || HasAppleIE(ev.ies)
    requires s.count < 5
    ensures ev.mac.value in StationSet(Step(s, Call(EventOp(ev), env)).state.table)
  {
    var i := JoinEffect(s, ev, env);
    hide Step, Inv, HasAppleIE, IsKnown, HotspotFlags;
    var r := Step(s, Call(EventOp(ev), env)).state;
    assert r.table[i].active == 1 && r.table[i].mac == ev.mac.value;
  }

  /** A leave clears the station's entry to zeros, and only that; the last event is the leaver's. */
  lemma LeaveClears(s: OwnerState, ev: StationEvent, env: Env) returns (i: nat)
    requires ev.mac.Some? && Leaves(ev)
    ensures var mac, r := ev.mac.value, Step(s, Call(EventOp(ev), env)).state;
            && r.lastEvent == mac
            && (!IsKnown(s.table, mac) ==> r.table == s.table && r.count == s.count)
            && (IsKnown(s.table, mac) ==>
                  && i < |s.table| && s.table[i].active != 0 && s.table[i].mac == mac
                  && r.table == s.table[i := Slot(0, [0, 0, 0, 0, 0, 0], 0, 0, 0, 0)])
  {
    i := FindStation(s.table, ev.mac.value);
    hide FindStation;
  }

  // ---------- action frames ----------

  /** A version-1 or version-2 frame of category 0x7f with this action, at the version's own offsets. */
  predicate FrameSays(data: seq<byte>, action: byte) {
    || (|data| >= 0x12 && data[0] == 0 && data[1] == 1 && data[0x10] == 0x7f && data[0x11] == action)
    || (|data| >= 0x1a && data[0] == 0 && data[1] == 2 && data[0x18] == 0x7f && data[0x19] == action)
  }

  /** A frame that is not dropped: long enough for its version, which is 0, 1 or 2. */
  predicate FrameCounts(data: seq<byte>) {
    |data| >= 0x12 && data[0] == 0 && data[1] <= 2 && (data[1] == 2 ==> |data| >= 0x1a)
  }

  lemma FrameMeaning(data: seq<byte>)
    ensures var f := ParseActionFrame(data);
            && (f.Parsed? <==> FrameCounts(data))
            && (f.Parsed? ==> forall a: byte | a == 1 || a == 2 ::
                  FrameSays(data, a) <==> IsLphsStateAction(f.category, f.action) && f.action == a)
            && (f.Parsed? && IsLphsStateAction(f.category, f.action) ==> f.action == 1 || f.action == 2)
  {
    if |data| >= 2 {
      ActionFrameVersions(data);
    }
  }

  /** An action frame stores sleep state 1 or 2 in its station's entry, and nothing else about the table; the
      count, the last event and the messages stay as they are. */
  lemma ActionEffect(s: OwnerState, ev: StationEvent, env: Env) returns (i: nat)
    requires ev.mac.Some? && ev.eventType == 0x4b
    ensures var mac, o := ev.mac.value, Step(s, Call(EventOp(ev), env));
            var known := IsKnown(s.table, mac);
            && o.posted == [] && o.state.count == s.count && o.state.lastEvent == s.lastEvent
            && (known ==> i < |s.table| && s.table[i].active != 0 && s.table[i].mac == mac)
            && o.state.table == (if known && FrameSays(ev.data, 1) then s.table[i := s.table[i].(sleepState := 1)]
                                 else if known && FrameSays(ev.data, 2) then s.table[i := s.table[i].(sleepState := 2)]
                                 else s.table)
  {
    FrameMeaning(ev.data);
    i := FindStation(s.table, ev.mac.value);
    hide ParseActionFrame, SetPowerSave, AllStationsInLowPower, IsLphsStateAction, FrameSays, ConcurrencyEnabled;
    hide FindStation, FrameCounts;
  }

  // ---------- the authentication message ----------

  /** The status of a reason: none for 0, the Apple base plus the reason below 0x2e, a fixed code from there. */
  predicate IsStatusOf(status: uint32, reason: uint32) {
    status == if reason == 0 then 0 else if reason <= 45 then 0xe082_3000 + reason else 0xe3ff_8100
  }

  lemma StatusMeaning(reason: uint32)
    ensures IsStatusOf(StatusFromReason(reason), reason)
  {
  }

  /** The bytes of the message before the chunks. */
  lemma HeaderBytes(mac: Mac, reason: uint32, k: nat)
    requires k < 0x6c
    ensures var h, status := AuthHeader(mac, reason), StatusFromReason(reason);
            h[k] == if k == 0 then 5
                    else if k == 8 then status % 0x100
                    else if k == 9 then status / 0x100 % 0x100
                    else if k == 10 then status / 0x1_0000 % 0x100
                    else if k == 11 then status / 0x100_0000
                    else if 0x0c <= k < 0x12 then mac[k - 0x0c] else 0
  {
    hide StatusFromReason;
  }

  /** Every byte of the message: what the last chunk that stores it says, else the type 5, the status of the
      reason and the address at their places, and zero everywhere else. */
  lemma AuthBytes(mac: Mac, reason: uint32, cs: seq<Chunk>, k: nat)
    requires k < 0x6c
    ensures var m, status := ApplyAll(AuthHeader(mac, reason), cs), StatusFromReason(reason);
            && IsStatusOf(status, reason)
            && (forall i | 0 <= i < |cs| && cs[i].Covers(k) && (forall j | i < j < |cs| :: !cs[j].Covers(k)) ::
                  m[k] == cs[i].ByteAt(k))
            && ((forall i | 0 <= i < |cs| :: !cs[i].Covers(k)) ==>
                  m[k] == if k == 0 then 5
                          else if k == 8 then status % 0x100
                          else if k == 9 then status / 0x100 % 0x100
                          else if k == 10 then status / 0x1_0000 % 0x100
                          else if k == 11 then status / 0x100_0000
                          else if 0x0c <= k < 0x12 then mac[k - 0x0c] else 0)
  {
    hide AuthHeader, ApplyAll, StatusFromReason, IsStatusOf, Chunk.Covers, Chunk.ByteAt;
    StatusMeaning(reason);
    HeaderBytes(mac, reason, k);
    LastWriterWins(AuthHeader(mac, reason), cs, k);
  }

  /** A posted authentication message holds exactly these bytes for the chunks of the event's data. */
  lemma AuthMessagePosted(s: OwnerState, ev: StationEvent, env: Env)
    requires ev.mac.Some? && Authenticates(ev) && s.bound && env.netIf
    ensures Step(s, Call(EventOp(ev), env)).posted
            == [AuthIndMessage(ApplyAll(AuthHeader(ev.mac.value, ev.reason), Chunks(ev.data)))]
    ensures |ApplyAll(AuthHeader(ev.mac.value, ev.reason), Chunks(ev.data))| == 0x6c
  {
    hide AuthHeader, ApplyAll, Chunks, StatusFromReason;
  }

  // ---------- the association message ----------

  /** The RSNXE field of a posted association message: 0x104 bytes, the first element with id 0xf4 and zeros
      behind it, or all zeros without one. */
  lemma AssocMessageRsnxe(s: OwnerState, ev: StationEvent, env: Env)
    requires ev.mac.Some? && Joins(s, ev) && s.bound && env.netIf
    ensures var posted, es := Step(s, Call(EventOp(ev), env)).posted, Elements(ev.ies);
            && |posted| == 1 && posted[0].AssocMessage? && |posted[0].rsnxe| == 0x104
            && (!HasId(es, 0xf4) ==> forall k | 0 <= k < 0x104 :: posted[0].rsnxe[k] == 0)
            && forall n: nat | n < |es| && es[n][0] == 0xf4 && (forall j: nat | j < n :: es[j][0] != 0xf4) ::
                 posted[0].rsnxe == es[n] + Zeros(0x104 - |es[n]|)
  {
    JoinsIffAdmitted(s, ev);
    EventIsAssoc(s, ev, env);
    AdmittedOutcome(s, ev.mac.value, ev, env);
    AdmittedKeepsBound(s, ev.mac.value, ev, env);
    RsnxeFieldMeaning(ev.ies);
    FirstFittingMeaning(Elements(ev.ies), 0xf4, 0x104);
    hide Step, AssocEvent, Joins, Admitted, RsnxeField, FirstFitting, Elements, HasId, HasAppleIE, SlotFlags;
    hide AllocateStation, AllocatedIndex, MarkApple;
  }

  lemma AdmittedKeepsBound(s: OwnerState, mac: Mac, ev: StationEvent, env: Env)
    ensures AssocEvent(s, mac, ev, env).state.bound == s.bound
  {
    hide Admitted, FindStation, AllocatedIndex, MarkApple, RsnxeField, HasAppleIE, SlotFlags;
  }
}
