/** The BSSID-changed publisher of the Skywalk interface with its reset on link-down. */
module BssidPublisher {
  import opened MachineTypes

  const REASON_INITIAL: nat := 0
  const REASON_SAME_BSS: nat := 1

  datatype LinkState = LinkUp | LinkDown | OtherLink

  /** What the interface finds when it publishes: a running BSS with this address, or something missing. */
  datatype Bss = NotRunning | RunningBss(bssid: Mac)

  datatype Op = PublishOp(bss: Bss) | LinkOp(accepted: bool, link: LinkState, bss: Bss)

  /** What an observer sees: published addresses with their reason, and accepted link-down edges. */
  datatype Entry = Published(bssid: Mac, reason: nat) | WentDown

  // ---------- specification ----------

  /** The address published last since the latest link-down, if any. */
  datatype Memory = Nothing | Last(bssid: Mac)

  ghost function Remembered(log: seq<Entry>): Memory {
    if log == [] then Nothing
    else match log[|log| - 1]
      case Published(b, _) => Last(b)
      case WentDown => Nothing
  }

  /** A running, non-zero BSS is published exactly when it is not the one published last. */
  ghost predicate Publishes(log: seq<Entry>, bss: Bss) {
    bss.RunningBss? && bss.bssid != ZERO_MAC && Remembered(log) != Last(bss.bssid)
  }

  ghost function LogAfterPublish(log: seq<Entry>, bss: Bss): seq<Entry> {
    if Publishes(log, bss) then log + [Published(bss.bssid, REASON_INITIAL)] else log
  }

  /** The observable log after one call; link-up publishes, link-down forgets. */
  ghost function LogAfter(log: seq<Entry>, op: Op): seq<Entry> {
    match op
    case PublishOp(bss) => LogAfterPublish(log, bss)
    case LinkOp(accepted, link, bss) =>
      if accepted && link.LinkUp? then LogAfterPublish(log, bss)
      else if accepted && link.LinkDown? then log + [WentDown]
      else log
  }

  ghost function Log(ops: seq<Op>): seq<Entry> {
    if ops == [] then [] else LogAfter(Log(ops[..|ops| - 1]), ops[|ops| - 1])
  }

  /** No zero address, every reason is "initial", and neighbours differ. */
  ghost predicate GoodLog(log: seq<Entry>) {
    && (forall i | 0 <= i < |log| && log[i].Published? :: log[i].bssid != ZERO_MAC && log[i].reason == 0)
    && (forall i | 0 <= i < |log| - 1 && log[i].Published? && log[i + 1].Published? :: log[i].bssid != log[i + 1].bssid)
  }

  // ---------- properties ----------

  /** Over every run: no zero address is published, none is published twice in a row without a link-down
      between, and the reason is always "initial" -- the same-BSS reason is computed but never sent. */
  lemma {:induction false} EveryLogIsGood(ops: seq<Op>)
    ensures GoodLog(Log(ops))
  {
    if ops != [] {
      var before := Log(ops[..|ops| - 1]);
      EveryLogIsGood(ops[..|ops| - 1]);
      var after := Log(ops);
      if |after| > |before| {
        assert after[..|before|] == before;
        assert forall i | 0 <= i < |before| :: after[i] == before[i];
      }
    }
  }

  /** The first publish after an accepted link-down is never suppressed: however many rejected link changes
      and attempts without a running, non-zero BSS come in between, the next attempt with one -- from an
      accepted link-up or a direct call -- publishes it, whatever was published before the link-down. */
  lemma FirstAfterDownIsPublished(ops: seq<Op>, down: Op, quiet: seq<Op>, last: Op, bss: Bss)
    requires down.LinkOp? && down.accepted && down.link.LinkDown?
    requires Log(ops + [down] + quiet) == Log(ops + [down])
    requires last == PublishOp(bss) || last == LinkOp(true, LinkUp, bss)
    requires bss.RunningBss? && bss.bssid != ZERO_MAC
    ensures Log(ops + [down] + quiet + [last]) == Log(ops) + [WentDown, Published(bss.bssid, 0)]
  {
    assert (ops + [down])[..|ops|] == ops;
    assert Log(ops + [down]) == Log(ops) + [WentDown];
    var before := ops + [down] + quiet;
    assert (before + [last])[..|before|] == before;
  }

  /** The call tries to publish this address: a direct call or an accepted link-up finds a running BSS. */
  predicate Attempts(op: Op, b: Mac) {
    op == PublishOp(RunningBss(b)) || op == LinkOp(true, LinkUp, RunningBss(b))
  }

  /** While the log ends with address a, an attempt with a non-zero b publishes it when b is another one, and
      changes nothing when it is the same -- whatever idle calls come in between. */
  lemma {:induction false} ChangeIsPublished(ops: seq<Op>, idle: seq<Op>, last: Op, a: Mac, b: Mac)
    requires Log(ops) != [] && Log(ops)[|Log(ops)| - 1] == Published(a, 0)
    requires forall op | op in idle :: Idle(op)
    requires Attempts(last, b) && b != ZERO_MAC
    ensures Log(ops + idle + [last]) == Log(ops) + (if b == a then [] else [Published(b, 0)])
  {
    IdleKeepsLog(ops, idle);
    assert (ops + idle + [last])[..|ops + idle|] == ops + idle;
  }

  /** And the first attempt of all with a non-zero address publishes it. */
  lemma {:induction false} FirstIsPublished(idle: seq<Op>, last: Op, b: Mac)
    requires forall op | op in idle :: Idle(op)
    requires Attempts(last, b) && b != ZERO_MAC
    ensures Log(idle + [last]) == [Published(b, 0)]
  {
    IdleKeepsLog([], idle);
    assert [] + idle == idle;
    assert (idle + [last])[..|idle|] == idle;
  }

  lemma {:induction false} IdleKeepsLog(ops: seq<Op>, idle: seq<Op>)
    requires forall op | op in idle :: Idle(op)
    ensures Log(ops + idle) == Log(ops)
  {
    if idle == [] {
      assert ops + idle == ops;
    } else {
      var before := idle[..|idle| - 1];
      IdleKeepsLog(ops, before);
      assert (ops + idle)[..|ops + before|] == ops + before;
      assert idle[|idle| - 1] in idle;
    }
  }

  /** A rejected or other link change, or an attempt without a running, non-zero BSS. */
  predicate Idle(op: Op) {
    match op
    case PublishOp(bss) => bss.NotRunning? || bss.bssid == ZERO_MAC
    case LinkOp(accepted, link, bss) =>
      !accepted || link.OtherLink? || (link.LinkUp? && (bss.NotRunning? || bss.bssid == ZERO_MAC))
  }

  /** After an accepted link-down the log stands still exactly while every call is one of these. */
  lemma {:induction false} QuietIff(ops: seq<Op>, down: Op, quiet: seq<Op>)
    requires down.LinkOp? && down.accepted && down.link.LinkDown?
    ensures Log(ops + [down] + quiet) == Log(ops + [down]) <==> forall op | op in quiet :: Idle(op)
    ensures Log(ops + [down]) <= Log(ops + [down] + quiet)
  {
    var start := ops + [down];
    assert start[..|ops|] == ops;
    assert Log(start) == Log(ops) + [WentDown];
    if quiet == [] {
      assert start + quiet == start;
    } else {
      var before, last := quiet[..|quiet| - 1], quiet[|quiet| - 1];
      QuietIff(ops, down, before);
      assert quiet == before + [last];
      assert (start + quiet)[..|start + before|] == start + before;
      LogStands(Log(start + before), last);
    }
  }

  /** The log only grows, and after a link-down it stands still exactly on an idle call. */
  lemma LogStands(log: seq<Entry>, op: Op)
    ensures log <= LogAfter(log, op)
    ensures Remembered(log) == Nothing ==> (LogAfter(log, op) == log <==> Idle(op))
  {
  }

  // ---------- the code ----------

  class Interface {
    var lastPublishedBssid: Mac
    var lastPublishedBssidValid: bool
    ghost var log: seq<Entry>

    /** The two fields remember exactly what the log says was published last. */
    ghost predicate Valid()
      reads this
    {
      && GoodLog(log)
      && (if lastPublishedBssidValid then Last(lastPublishedBssid) else Nothing) == Remembered(log)
    }

    constructor ()
      ensures Valid() && log == Log([])
    {
      lastPublishedBssid, lastPublishedBssidValid, log := ZERO_MAC, false, [];
    }

    method PublishBssidChangedFromCurrentBss(bss: Bss) returns (published: bool)
      requires Valid()
      modifies this
      ensures Valid()
      ensures published <==> bss.RunningBss? && bss.bssid != ZERO_MAC
                             && (old(log) == [] || match old(log)[|old(log)| - 1]
                                                   case Published(last, _) => last != bss.bssid
                                                   case WentDown => true)
      ensures log == LogAfterPublish(old(log), bss)
    {
      if bss.NotRunning? {
        return false;
      }
      var proposed := bss.bssid;
      var zeroRejected := true;
      for i := 0 to 6
        invariant zeroRejected <==> forall k | 0 <= k < i :: proposed[k] == 0
      {
        zeroRejected := zeroRejected && proposed[i] == 0;
      }
      if zeroRejected {
        return false;
      }
      assert proposed != ZERO_MAC;
      var same := lastPublishedBssidValid && proposed == lastPublishedBssid;
      var reason := if same then REASON_SAME_BSS else REASON_INITIAL;
      if reason == REASON_SAME_BSS && same {
        return false;
      }
      log := log + [Published(proposed, reason)];
      lastPublishedBssid := proposed;
      lastPublishedBssidValid := true;
      return true;
    }

    /** The part of `setLinkStateInternal` that touches the publisher; `accepted` is the parent's answer. */
    method SetLinkStateInternal(accepted: bool, link: LinkState, bss: Bss)
      requires Valid()
      modifies this
      ensures Valid()
      ensures log == LogAfter(old(log), LinkOp(accepted, link, bss))
    {
      if accepted && (link.LinkUp? || link.LinkDown?) {
        var isLinkDown := !link.LinkUp?;
        if !isLinkDown {
          var _ := PublishBssidChangedFromCurrentBss(bss);
        }
        if isLinkDown {
          lastPublishedBssidValid := false;
          log := log + [WentDown];
        }
      }
    }
  }
}
