/** The five-slot station table implements a bounded set of addresses. */
module StationRefinement {
  import opened ApstaIeScanners
  import opened ApstaInvariant
  import opened ApstaState
  import opened EventContracts
  import opened MachineTypes

  ghost function StationSet(t: seq<Slot>): set<Mac> {
    set i | 0 <= i < |t| && t[i].active != 0 :: t[i].mac
  }

  // ---------- the abstract machine ----------

  datatype Change = Join(mac: Mac) | Leave(mac: Mac) | Clear | Keep

  ghost function Apply(stations: set<Mac>, ch: Change): set<Mac> {
    match ch
    case Join(m) => if m in stations || |stations| < STATION_TABLE_ENTRY_COUNT then stations + {m} else stations
    case Leave(m) => stations - {m}
    case Clear => {}
    case Keep => stations
  }

  /** The calls that run `stopLower`, and with it the reset of the runtime state. */
  predicate Stops(s: OwnerState, c: Call) {
    match c.op
    case StopOp => true
    case TeardownOp => s.lifecycle.BeforeTerminal()
    case FreeOp => s.lifecycle.BeforeTerminal()
    case HostApModeOp(net) => HostApModeStops(s, net, c.env)
    case _ => false
  }

  /** What a call means for the set: refused associations and all other calls change nothing. */
  ghost function ChangeOf(s: OwnerState, c: Call): Change {
    if c.op.EventOp? then
      var ev := c.op.ev;
      if ev.mac.None? then Keep
      else if ev.IsAssoc() && Admitted(s, ev) then Join(ev.mac.value)
      else if ev.IsLeave() then Leave(ev.mac.value)
      else Keep
    else if Stops(s, c) then Clear
    else Keep
  }

  ghost function AbstractRun(s: OwnerState, calls: seq<Call>): set<Mac> {
    if calls == [] then {}
    else
      var before := calls[..|calls| - 1];
      Apply(AbstractRun(s, before), ChangeOf(Run(s, before), calls[|calls| - 1]))
  }

  /** The events the table gets wrong: the zero address joins again while there is room, or leaves. */
  ghost predicate ZeroBreaks(s: OwnerState, c: Call) {
    && c.op.EventOp? && c.op.ev.mac == Some(ZERO_MAC) && ZERO_MAC in StationSet(s.table)
    && (c.op.ev.IsLeave() || (c.op.ev.IsAssoc() && Admitted(s, c.op.ev) && s.count < STATION_TABLE_ENTRY_COUNT))
  }

  /** No call of the run is such an event. */
  ghost predicate NeverBreaks(s: OwnerState, calls: seq<Call>) {
    forall k | 0 <= k < |calls| :: !ZeroBreaks(Run(s, calls[..k]), calls[k])
  }

  // ---------- sets and tables ----------

  ghost predicate Represents(s: OwnerState, stations: set<Mac>) {
    Inv(s) && StationSet(s.table) == stations && s.count == |stations|
  }

  lemma RepresentedSize(s: OwnerState, stations: set<Mac>)
    requires Represents(s, stations)
    ensures |stations| == s.count <= STATION_TABLE_ENTRY_COUNT
  {
    NumActiveBounds(s.table);
  }

  /** The set of a table from the set of its tail. */
  lemma StationSetCons(t: seq<Slot>)
    requires t != []
    ensures StationSet(t) == (if t[0].active != 0 then {t[0].mac} else {}) + StationSet(t[1..])
  {
    var rest := t[1..];
    assert forall i | 0 < i < |t| :: t[i] == rest[i - 1];
    assert forall i | 0 <= i < |rest| :: rest[i] == t[i + 1];
    if t[0].active != 0 {
      assert t[0].mac in StationSet(t);
    }
  }

  lemma FindMeansMember(t: seq<Slot>, mac: Mac)
    requires mac != ZERO_MAC
    ensures FindStation(t, mac) < |t| <==> mac in StationSet(t)
  {
  }

  lemma StoreInactive(t: seq<Slot>, i: nat)
    requires DistinctMacs(t) && i < |t| && t[i].active != 0 && t[i].mac != ZERO_MAC
    ensures StationSet(t[i := CLEAR_SLOT]) == StationSet(t) - {t[i].mac}
  {
    var u := t[i := CLEAR_SLOT];
    assert forall k | 0 <= k < |t| && k != i :: u[k] == t[k];
    forall m | m in StationSet(t) - {t[i].mac} ensures m in StationSet(u) {
      var k :| 0 <= k < |t| && t[k].active != 0 && t[k].mac == m;
      assert u[k] == t[k];
    }
  }

  lemma StoreActive(t: seq<Slot>, i: nat, x: Slot)
    requires i < |t| && x.active != 0
    requires t[i].active == 0 || t[i].mac == x.mac
    ensures StationSet(t[i := x]) == StationSet(t) + {x.mac}
  {
    var u := t[i := x];
    assert u[i] == x;
    forall m | m in StationSet(t) ensures m in StationSet(u) {
      var k :| 0 <= k < |t| && t[k].active != 0 && t[k].mac == m;
      assert u[k] == if k == i then x else t[k];
    }
  }

  // ---------- refinement ----------

  /** The table after an admitted association, as one store. */
  lemma AssocTable(s: OwnerState, mac: Mac, ev: StationEvent, env: Env)
    requires Admitted(s, ev)
    ensures var i := AllocatedIndex(s.table, mac);
            var x := if FindStation(s.table, mac) < |s.table| then s.table[i] else NewSlot(mac);
            AssocEvent(s, mac, ev, env).state.table
            == if i < |s.table| then s.table[i := MarkApple(x, ev.ies)] else s.table
  {
    hide Admitted, FindStation, MarkApple, RsnxeField, NewSlot;
  }

  /** The count after an admitted association. */
  lemma AssocCount(s: OwnerState, mac: Mac, ev: StationEvent, env: Env)
    requires Admitted(s, ev) && s.count <= STATION_TABLE_ENTRY_COUNT
    ensures AssocEvent(s, mac, ev, env).state.count
            == if FindStation(s.table, mac) == |s.table| && AllocatedIndex(s.table, mac) < |s.table|
               then s.count + 1 else s.count
  {
    hide Admitted, FindStation, MarkApple, RsnxeField, NewSlot;
  }

  lemma RoomMeansFree(s: OwnerState, mac: Mac)
    requires Inv(s)
    ensures s.count <= STATION_TABLE_ENTRY_COUNT
    ensures FindStation(s.table, mac) == |s.table|
            ==> (AllocatedIndex(s.table, mac) < |s.table| <==> s.count < STATION_TABLE_ENTRY_COUNT)
  {
    NumActiveBounds(s.table);
    hide FindStation, PowerInv, LifecycleInv, NumActive, TableInv;
  }

  /** The set and count after an admitted association. */
  lemma AssocEffect(s: OwnerState, mac: Mac, ev: StationEvent, env: Env)
    requires Inv(s) && Admitted(s, ev)
    ensures var r, known := AssocEvent(s, mac, ev, env).state, FindStation(s.table, mac) < |s.table|;
            var joins := !known && s.count < STATION_TABLE_ENTRY_COUNT;
            && StationSet(r.table) == (if known || joins then StationSet(s.table) + {mac} else StationSet(s.table))
            && r.count == (if joins then s.count + 1 else s.count)
  {
    var i := AllocatedIndex(s.table, mac);
    RoomMeansFree(s, mac);
    AssocTable(s, mac, ev, env);
    AssocCount(s, mac, ev, env);
    hide AssocEvent, Admitted, Inv, StationSet;
    if i < |s.table| {
      var x := if FindStation(s.table, mac) < |s.table| then s.table[i] else NewSlot(mac);
      StoreActive(s.table, i, MarkApple(x, ev.ies));
    }
  }

  lemma AssocRefinesIff(s: OwnerState, mac: Mac, ev: StationEvent, env: Env)
    requires Represents(s, StationSet(s.table)) && Admitted(s, ev)
    ensures var r, stations := AssocEvent(s, mac, ev, env).state, StationSet(s.table);
            (StationSet(r.table) == Apply(stations, Join(mac)) && r.count == |StationSet(r.table)|)
            <==> !(mac == ZERO_MAC && mac in stations && s.count < STATION_TABLE_ENTRY_COUNT)
  {
    AssocEffect(s, mac, ev, env);
    RepresentedSize(s, StationSet(s.table));
    if mac != ZERO_MAC {
      FindMeansMember(s.table, mac);
    }
    hide AssocEvent, Admitted, Inv, StationSet;
    assert mac in StationSet(s.table) ==> StationSet(s.table) + {mac} == StationSet(s.table);
  }

  /** The set and count after a leave. */
  lemma LeaveEffect(s: OwnerState, mac: Mac, env: Env)
    requires Inv(s)
    ensures var r, known := LeaveEvent(s, mac, env).state, FindStation(s.table, mac) < |s.table|;
            && StationSet(r.table) == (if known then StationSet(s.table) - {mac} else StationSet(s.table))
            && r.count == (if known then s.count - 1 else s.count)
  {
    var i := FindStation(s.table, mac);
    if i < |s.table| {
      StoreInactive(s.table, i);
      RemovalAlwaysCounts(s, mac);
    }
    hide StationSet, PowerInv, LifecycleInv, NumActive;
  }

  lemma LeaveRefinesIff(s: OwnerState, mac: Mac, env: Env)
    requires Represents(s, StationSet(s.table))
    ensures var r, stations := LeaveEvent(s, mac, env).state, StationSet(s.table);
            (StationSet(r.table) == Apply(stations, Leave(mac)) && r.count == |StationSet(r.table)|)
            <==> !(mac == ZERO_MAC && mac in stations)
  {
    LeaveEffect(s, mac, env);
    if mac != ZERO_MAC {
      FindMeansMember(s.table, mac);
    }
    hide StationSet, LeaveEvent, Inv;
    assert mac !in StationSet(s.table) ==> StationSet(s.table) - {mac} == StationSet(s.table);
  }

  lemma ActionRefines(s: OwnerState, mac: Mac, ev: StationEvent, env: Env)
    ensures StationSet(ActionEvent(s, mac, ev, env).state.table) == StationSet(s.table)
    ensures ActionEvent(s, mac, ev, env).state.count == s.count
  {
    var i, frame := FindStation(s.table, mac), ParseActionFrame(ev.data);
    if i < |s.table| && frame.Parsed? {
      StoreActive(s.table, i, s.table[i].(sleepState := frame.action));
    }
  }

  lemma EventRefinesIff(s: OwnerState, c: Call)
    requires Represents(s, StationSet(s.table)) && c.op.EventOp?
    ensures var r := Step(s, c).state;
            (StationSet(r.table) == Apply(StationSet(s.table), ChangeOf(s, c)) && r.count == |StationSet(r.table)|)
            <==> !ZeroBreaks(s, c)
  {
    hide AuthEvent, AssocEvent, LeaveEvent, ActionEvent, Inv, StationSet, Admitted;
    var ev := c.op.ev;
    if ev.mac.Some? {
      var mac := ev.mac.value;
      AuthKeepsInv(s, ev, c.env);
      if ev.IsAssoc() && Admitted(s, ev) {
        AssocRefinesIff(s, mac, ev, c.env);
      } else if ev.IsAssoc() {
        RefusedAssocKeeps(s, mac, ev, c.env);
      } else if ev.IsLeave() {
        LeaveRefinesIff(s, mac, c.env);
      } else if ev.IsAction() {
        ActionRefines(s, mac, ev, c.env);
      }
    }
  }

  /** Every association event that is not admitted leaves the whole owner as it was, posts nothing and
      reports success: a wrong status or reason, or, on a hidden network, no Apple element. */
  lemma RefusedChangesNothing(s: OwnerState, ev: StationEvent, env: Env)
    requires ev.mac.Some? && ev.IsAssoc()
    requires ev.status != SUCCESS_STATUS || ev.reason != SUCCESS_REASON || (s.hidden % 2 == 1 && !HasAppleIE(ev.ies))
    ensures Step(s, Call(EventOp(ev), env)) == Outcome(s, [], Success)
  {
    RefusedAssocKeeps(s, ev.mac.value, ev, env);
    hide AssocEvent;
  }

  lemma StopClears(s: OwnerState, env: Env)
    ensures StationSet(StopLower(s, env).table) == {} && StopLower(s, env).count == 0
  {
  }

  lemma OthersRefine(s: OwnerState, c: Call)
    requires !c.op.EventOp?
    ensures StationSet(Step(s, c).state.table) == Apply(StationSet(s.table), ChangeOf(s, c))
    ensures Step(s, c).state.count == if Stops(s, c) then 0 else s.count
  {
    StopClears(s, c.env);
    hide PublishEvent, StopLower, StationSet;
  }

  /** One call of the owner is one step of the abstract set, and the count stays its size, exactly when
      the call is not one of the zero-address events above. */
  lemma StepRefinesIff(s: OwnerState, c: Call, stations: set<Mac>)
    requires Represents(s, stations)
    ensures Represents(Step(s, c).state, Apply(stations, ChangeOf(s, c))) <==> !ZeroBreaks(s, c)
  {
    hide Step, Inv, StationSet;
    StepKeepsInv(s, c);
    if c.op.EventOp? {
      EventRefinesIff(s, c);
    } else {
      OthersRefine(s, c);
    }
  }

  lemma NeverBreaksBefore(s: OwnerState, calls: seq<Call>, n: nat)
    requires NeverBreaks(s, calls) && n <= |calls|
    ensures NeverBreaks(s, calls[..n])
  {
    forall k | 0 <= k < n ensures !ZeroBreaks(Run(s, calls[..n][..k]), calls[..n][k]) {
      assert calls[..n][..k] == calls[..k];
    }
    hide ZeroBreaks, Run;
  }

  /** Over such a run the table represents the abstract set, and the associated count -- which every
      association and removal message carries -- is its size. */
  lemma {:induction false} RunRefines(s: OwnerState, calls: seq<Call>)
    requires Initial(s) && NeverBreaks(s, calls)
    ensures Represents(Run(s, calls), AbstractRun(s, calls))
    ensures Run(s, calls).count == |AbstractRun(s, calls)| <= STATION_TABLE_ENTRY_COUNT
    decreases |calls|
  {
    hide Step, Apply, Represents, ChangeOf, ZeroBreaks, Initial;
    if calls == [] {
      InitialRepresents(s);
    } else {
      var last := |calls| - 1;
      NeverBreaksBefore(s, calls, last);
      RunRefines(s, calls[..last]);
      StepRefinesIff(Run(s, calls[..last]), calls[last], AbstractRun(s, calls[..last]));
      assert calls[..last + 1] == calls;
      RunLast(s, calls, last);
    }
    RepresentedSize(Run(s, calls), AbstractRun(s, calls));
  }

  lemma InitialRepresents(s: OwnerState)
    requires Initial(s)
    ensures Represents(s, {})
  {
    InitialInv(s);
    NoneActive(CLEAR_TABLE);
  }

  /** The exact condition: the table represents the abstract set after every prefix of a run, if and only
      if no call of the run is a breaking zero-address event. */
  lemma RunRefinesIff(s: OwnerState, calls: seq<Call>)
    requires Initial(s)
    ensures (forall k | 0 <= k <= |calls| :: Represents(Run(s, calls[..k]), AbstractRun(s, calls[..k])))
            <==> NeverBreaks(s, calls)
  {
    hide Represents, ZeroBreaks, Initial;
    if NeverBreaks(s, calls) {
      forall k | 0 <= k <= |calls| ensures Represents(Run(s, calls[..k]), AbstractRun(s, calls[..k])) {
        NeverBreaksBefore(s, calls, k);
        RunRefines(s, calls[..k]);
      }
    }
    if forall k | 0 <= k <= |calls| :: Represents(Run(s, calls[..k]), AbstractRun(s, calls[..k])) {
      forall k | 0 <= k < |calls| ensures !ZeroBreaks(Run(s, calls[..k]), calls[k]) {
        StepRefinesIff(Run(s, calls[..k]), calls[k], AbstractRun(s, calls[..k]));
        RunLast(s, calls, k);
      }
    }
  }

  lemma RunLast(s: OwnerState, calls: seq<Call>, k: nat)
    requires k < |calls|
    ensures Run(s, calls[..k + 1]) == Step(Run(s, calls[..k]), calls[k]).state
    ensures AbstractRun(s, calls[..k + 1]) == Apply(AbstractRun(s, calls[..k]), ChangeOf(Run(s, calls[..k]), calls[k]))
  {
    assert calls[..k + 1][..k] == calls[..k];
    hide Step, Apply, ChangeOf;
  }

  /** Runs whose events never carry the zero address are such runs. */
  lemma NonZeroRunsNeverBreak(s: OwnerState, calls: seq<Call>)
    requires forall c | c in calls && c.op.EventOp? :: c.op.ev.mac != Some(ZERO_MAC)
    ensures NeverBreaks(s, calls)
  {
    hide Run, StationSet, Admitted;
  }

  /** Every association or removal message of a run carries the size of the set after the event. */
  lemma PostedCountIsSetSize(s: OwnerState, calls: seq<Call>, c: Call)
    requires Initial(s) && NeverBreaks(s, calls + [c])
    ensures forall m | m in Step(Run(s, calls), c).posted && !m.AuthIndMessage? ::
              m.associatedCount == |AbstractRun(s, calls + [c])|
  {
    var pre := Run(s, calls);
    InitialInv(s);
    RunKeepsInv(s, calls);
    PostedMessagesOk(pre, c);
    RunRefines(s, calls + [c]);
    assert (calls + [c])[..|calls|] == calls;
    RunLast(s, calls + [c], |calls|);
    assert (calls + [c])[..|calls| + 1] == calls + [c];
    hide Step, ChangeOf, Apply, Initial, NeverBreaks, TableInv, PowerInv, LifecycleInv;
  }

  // ---------- the station list ----------

  predicate NoDuplicates(ms: seq<Mac>) {
    forall i, j | 0 <= i < j < |ms| :: ms[i] != ms[j]
  }

  /** The list `getStationList` fills holds the stations of the set and no others. It never has fewer
      rows than the set has stations, and lists none twice exactly when the numbers agree. */
  lemma {:induction false} ActiveMacsMeaning(t: seq<Slot>)
    ensures forall m: Mac :: m in ActiveMacs(t) <==> m in StationSet(t)
    ensures |ActiveMacs(t)| == NumActive(t) >= |StationSet(t)|
    ensures NoDuplicates(ActiveMacs(t)) <==> NumActive(t) == |StationSet(t)|
  {
    if t != [] {
      var rest := t[1..];
      ActiveMacsMeaning(rest);
      StationSetCons(t);
      hide StationSet;
      if t[0].active != 0 {
        NoDuplicatesCons(t[0].mac, ActiveMacs(rest));
        assert t[0].mac in StationSet(rest) ==> {t[0].mac} + StationSet(rest) == StationSet(rest);
      } else {
        assert ActiveMacs(t) == ActiveMacs(rest) && StationSet(t) == StationSet(rest);
      }
    }
  }

  lemma NoDuplicatesCons(m: Mac, ms: seq<Mac>)
    ensures NoDuplicates([m] + ms) <==> m !in ms && NoDuplicates(ms)
  {
    var all := [m] + ms;
    assert forall i | 0 <= i < |ms| :: ms[i] == all[i + 1];
    assert forall j | 0 < j < |all| :: all[j] == ms[j - 1];
    if NoDuplicates(all) {
      forall i, j | 0 <= i < j < |ms| ensures ms[i] != ms[j] {
        assert all[i + 1] != all[j + 1];
      }
      forall j | 0 <= j < |ms| ensures ms[j] != m {
        assert all[0] != all[j + 1];
      }
    }
  }

  /** The list is in table order: an active entry's address stands behind those of the active entries before it. */
  lemma {:induction false} ActiveMacsOrder(t: seq<Slot>, i: nat)
    requires i < |t| && t[i].active != 0
    ensures NumActive(t[..i]) < |ActiveMacs(t)| && ActiveMacs(t)[NumActive(t[..i])] == t[i].mac
  {
    if i > 0 {
      assert t[..i][1..] == t[1..][..i - 1];
      ActiveMacsOrder(t[1..], i - 1);
    }
  }

  /** So after every such run the station list is the abstract set, each station once. */
  lemma StationListIsTheSet(s: OwnerState, calls: seq<Call>)
    requires Initial(s) && NeverBreaks(s, calls)
    ensures var ms := ActiveMacs(Run(s, calls).table);
            && (forall m: Mac :: m in ms <==> m in AbstractRun(s, calls))
            && NoDuplicates(ms) && |ms| == |AbstractRun(s, calls)|
  {
    RunRefines(s, calls);
    ActiveMacsMeaning(Run(s, calls).table);
  }
}
