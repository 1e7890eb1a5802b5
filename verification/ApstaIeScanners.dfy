/** The element scanners of the SoftAP owner, which run on the bytes a station sent. */
module ApstaIeScanners {
  import opened ByteBuffers
  import opened MachineTypes
  import opened ElementList
  import opened EventContracts

  const VENDOR_ELEMENT_ID: byte := 0xdd
  const RSNXE_ELEMENT_ID: byte := 0xf4
  const MIN_SCAN_REMAINING: nat := 6
  const INSTANT_HOTSPOT_SUBTYPE: byte := 0x0b

  const FLAG_AIHS: byte := 1
  const FLAG_SHARING: byte := 2
  const FLAG_APPLE_STATION: byte := 4

  // ---------- the boundary-walk specifications ----------

  /** What the Apple scan accepts at an element boundary: at least six bytes left, a complete vendor
      element, and a recognized OUI in the three bytes after the header -- which may lie beyond the
      element when its payload is shorter than three bytes. */
  predicate AppleHitAt(s: seq<byte>, off: nat) {
    && off + MIN_SCAN_REMAINING <= |s|
    && CompleteAt(s, off)
    && s[off] == VENDOR_ELEMENT_ID
    && IsRecognizedAppleOui(s[off + 2..off + 5])
  }

  ghost predicate HasAppleIE(s: seq<byte>) {
    exists off: nat :: Reaches(s, 0, off) && AppleHitAt(s, off)
  }

  predicate HotspotHitAt(s: seq<byte>, off: nat) {
    && off + MIN_SCAN_REMAINING <= |s|
    && CompleteAt(s, off)
    && s[off] == VENDOR_ELEMENT_ID
    && s[off + 2..off + 5] == APPLE_OUI
    && Next(s, off) - off > 9
    && s[off + 5] == INSTANT_HOTSPOT_SUBTYPE
  }

  function HotspotFlagsAt(s: seq<byte>, off: nat): byte
    requires HotspotHitAt(s, off)
  {
    (if s[off + 9] % 2 == 1 then FLAG_AIHS else 0) + (if s[off + 9] / 2 % 2 == 1 then FLAG_SHARING else 0)
  }

  /** The flags of the first instant-hotspot element of the walk. */
  function HotspotFlagsFrom(s: seq<byte>, off: nat): byte
    decreases |s| - off
  {
    if off + MIN_SCAN_REMAINING > |s| || !CompleteAt(s, off) then 0
    else if HotspotHitAt(s, off) then HotspotFlagsAt(s, off)
    else HotspotFlagsFrom(s, Next(s, off))
  }

  function HotspotFlags(s: seq<byte>): byte {
    HotspotFlagsFrom(s, 0)
  }

  /** The first element with this id that fits. */
  function FirstFitting(es: seq<Element>, id: byte, capacity: nat): seq<byte> {
    if es == [] then []
    else if es[0][0] == id && |es[0]| <= capacity then es[0]
    else FirstFitting(es[1..], id, capacity)
  }

  // ---------- properties ----------

  /** The flags come from one reachable hit that no reachable hit precedes, and are zero without a hit. */
  lemma {:induction false} HotspotFlagsMeaning(s: seq<byte>, from: nat)
    ensures (forall off: nat | Reaches(s, from, off) :: !HotspotHitAt(s, off)) ==> HotspotFlagsFrom(s, from) == 0
    ensures forall off: nat | Reaches(s, from, off) && HotspotHitAt(s, off)
              && (forall o: nat | Reaches(s, from, o) && o < off :: !HotspotHitAt(s, o)) ::
              HotspotFlagsFrom(s, from) == HotspotFlagsAt(s, off)
    decreases |s| - from
  {
    if from + MIN_SCAN_REMAINING > |s| || !CompleteAt(s, from) {
      forall off: nat | Reaches(s, from, off) ensures !HotspotHitAt(s, off) {
        ReachesMonotone(s, from, off);
      }
    } else if HotspotHitAt(s, from) {
      forall off: nat | Reaches(s, from, off) && off != from ensures from < off {
        ReachesMonotone(s, from, off);
      }
    } else {
      HotspotFlagsMeaning(s, Next(s, from));
      forall off: nat | Reaches(s, Next(s, from), off) ensures Reaches(s, from, off) {}
    }
  }

  /** Non-zero flags come from a hit on an Apple element. */
  lemma {:induction false} FlagsNeedHit(s: seq<byte>, from: nat) returns (off: nat)
    requires HotspotFlagsFrom(s, from) != 0
    ensures Reaches(s, from, off) && HotspotHitAt(s, off)
    decreases |s| - from
  {
    if HotspotHitAt(s, from) {
      off := from;
    } else {
      off := FlagsNeedHit(s, Next(s, from));
    }
  }

  /** The two independent Apple loops agree: whatever bytes a station sends, hotspot flags are only
      ever reported together with the Apple-element flag. */
  lemma HotspotFlagsImplyAppleIE(s: seq<byte>)
    ensures HotspotFlags(s) in {0, FLAG_AIHS, FLAG_SHARING, FLAG_AIHS + FLAG_SHARING}
    ensures HotspotFlags(s) != 0 ==> HasAppleIE(s)
  {
    if HotspotFlags(s) != 0 {
      var off := FlagsNeedHit(s, 0);
      HotspotFlagsMeaning(s, 0);
      assert AppleHitAt(s, off);
      FlagsAreFlags(s, 0);
    }
  }

  lemma {:induction false} FlagsAreFlags(s: seq<byte>, from: nat)
    ensures HotspotFlagsFrom(s, from) <= FLAG_AIHS + FLAG_SHARING
    decreases |s| - from
  {
    if from + MIN_SCAN_REMAINING > |s| || !CompleteAt(s, from) || HotspotHitAt(s, from) {
    } else {
      FlagsAreFlags(s, Next(s, from));
    }
  }

  /** An instant-hotspot element: Apple's OUI, the subtype, and a flags byte inside the element. */
  predicate IsHotspot(e: Element) {
    e[0] == VENDOR_ELEMENT_ID && |e| > 9 && e[2..5] == APPLE_OUI && e[5] == INSTANT_HOTSPOT_SUBTYPE
  }

  function FlagsOfFirstHotspot(es: seq<Element>): byte {
    if es == [] then 0
    else if IsHotspot(es[0]) then
      (if es[0][9] % 2 == 1 then FLAG_AIHS else 0) + (if es[0][9] / 2 % 2 == 1 then FLAG_SHARING else 0)
    else FlagsOfFirstHotspot(es[1..])
  }

  lemma {:induction false} NoHotspotInShortTail(s: seq<byte>, from: nat)
    requires from + MIN_SCAN_REMAINING > |s|
    ensures FlagsOfFirstHotspot(ElementsFrom(s, from)) == 0
    decreases |s| - from
  {
    if CompleteAt(s, from) {
      NoHotspotInShortTail(s, Next(s, from));
      assert ElementsFrom(s, from)[1..] == ElementsFrom(s, Next(s, from));
    }
  }

  lemma HotspotHitIsElement(s: seq<byte>, off: nat)
    requires CompleteAt(s, off) && off + MIN_SCAN_REMAINING <= |s|
    ensures HotspotHitAt(s, off) <==> IsHotspot(s[off..Next(s, off)])
  {
    var e := s[off..Next(s, off)];
    if |e| > 9 {
      SliceOfSlice(s, off, Next(s, off), 2, 5);
    }
  }

  /** Unlike the Apple scan, the hotspot loop never looks beyond an element: its flags are those of the
      first instant-hotspot element of the list. */
  lemma {:induction false} HotspotFlagsAreOfElements(s: seq<byte>, from: nat)
    ensures HotspotFlagsFrom(s, from) == FlagsOfFirstHotspot(ElementsFrom(s, from))
    decreases |s| - from
  {
    if from + MIN_SCAN_REMAINING > |s| {
      NoHotspotInShortTail(s, from);
    } else if CompleteAt(s, from) {
      HotspotHitIsElement(s, from);
      HotspotFlagsAreOfElements(s, Next(s, from));
      assert ElementsFrom(s, from)[1..] == ElementsFrom(s, Next(s, from));
    }
  }

  /** What one would expect the Apple scan to mean: some complete vendor element's payload starts with
      a recognized OUI. */
  ghost predicate SomePayloadIsApple(s: seq<byte>) {
    exists e :: e in Elements(s) && e[0] == VENDOR_ELEMENT_ID && |e| >= 5 && IsRecognizedAppleOui(e[2..5])
  }

  /** A vendor element at `off` with at least six bytes left, a payload that holds an OUI, and a
      recognized one. */
  predicate LongHitAt(s: seq<byte>, off: nat) {
    AppleHitAt(s, off) && Next(s, off) - off >= 5
  }

  /** A vendor element too short for an OUI, followed by bytes that complete a recognized one. */
  predicate ShortHitAt(s: seq<byte>, off: nat) {
    AppleHitAt(s, off) && Next(s, off) - off < 5
  }

  /** The last five bytes of the list: a vendor element of just a recognized OUI. */
  predicate TailAt(s: seq<byte>, off: nat) {
    && CompleteAt(s, off) && Next(s, off) == off + 5 == |s|
    && s[off] == VENDOR_ELEMENT_ID && IsRecognizedAppleOui(s[off + 2..off + 5])
  }

  ghost predicate Somewhere(s: seq<byte>, at: (seq<byte>, nat) -> bool) {
    exists off: nat :: Reaches(s, 0, off) && at(s, off)
  }

  lemma ApplePayloadAt(s: seq<byte>, off: nat)
    requires Reaches(s, 0, off) && (LongHitAt(s, off) || TailAt(s, off))
    ensures SomePayloadIsApple(s)
  {
    var e := s[off..Next(s, off)];
    ElementAtBoundary(s, 0, off);
    SliceOfSlice(s, off, Next(s, off), 2, 5);
  }

  lemma PayloadHasPlace(s: seq<byte>, e: Element) returns (off: nat)
    requires e in Elements(s) && e[0] == VENDOR_ELEMENT_ID && |e| >= 5 && IsRecognizedAppleOui(e[2..5])
    ensures Reaches(s, 0, off) && (LongHitAt(s, off) || TailAt(s, off))
  {
    off := BoundaryOfElement(s, 0, e);
    SliceOfSlice(s, off, Next(s, off), 2, 5);
  }

  /** When the Apple scan means what one expects: exactly when some vendor element with an OUI and a
      byte behind it is Apple's, or a short element completed by its neighbours and a bare Apple element
      at the very end are both there or both absent. */
  lemma AppleScanMeaning(s: seq<byte>)
    ensures (HasAppleIE(s) <==> SomePayloadIsApple(s))
            <==> || Somewhere(s, LongHitAt)
                 || (Somewhere(s, ShortHitAt) <==> Somewhere(s, TailAt))
  {
    assert HasAppleIE(s) <==> Somewhere(s, LongHitAt) || Somewhere(s, ShortHitAt) by {
      if off: nat :| Reaches(s, 0, off) && AppleHitAt(s, off) {
        assert LongHitAt(s, off) || ShortHitAt(s, off);
      }
    }
    assert SomePayloadIsApple(s) <==> Somewhere(s, LongHitAt) || Somewhere(s, TailAt) by {
      if off: nat :| Reaches(s, 0, off) && (LongHitAt(s, off) || TailAt(s, off)) {
        ApplePayloadAt(s, off);
      }
      if e :| e in Elements(s) && e[0] == VENDOR_ELEMENT_ID && |e| >= 5 && IsRecognizedAppleOui(e[2..5]) {
        var off := PayloadHasPlace(s, e);
      }
    }
  }

  /** Both ways it can fail: an empty vendor element followed by the OUI bytes is
      taken for an Apple element, and an Apple element of just the OUI at the end is missed. */
  lemma AppleScanSurprises()
    ensures var s := [0xdd, 0, 0x00, 0x17, 0xf2, 0]; HasAppleIE(s) && !SomePayloadIsApple(s)
    ensures var s := [0xdd, 3, 0x00, 0x17, 0xf2]; !HasAppleIE(s) && SomePayloadIsApple(s)
  {
    var s: seq<byte> := [0xdd, 0, 0x00, 0x17, 0xf2, 0];
    assert s[2..5] == APPLE_OUI;
    assert Reaches(s, 0, 0) && AppleHitAt(s, 0);
    assert ElementsFrom(s, 2) == [];
    var t: seq<byte> := [0xdd, 3, 0x00, 0x17, 0xf2];
    assert t[0..5] == t && ElementsFrom(t, 5) == [];
    assert Elements(t) == [t];
    assert t[2..5] == APPLE_OUI;
  }

  /** On a list of one element with four payload bytes: a vendor element with one of three OUIs. */
  lemma OneAppleElement(s: seq<byte>)
    requires |s| == 6 && s[1] == 4
    ensures HasAppleIE(s) <==> s[0] == 0xdd && s[2] == 0 && ((s[3] == 0x17 && s[4] == 0xf2)
                               || (s[3] == 0x03 && s[4] == 0x93) || (s[3] == 0xa0 && s[4] == 0x40))
  {
    assert Reaches(s, 0, 0);
    assert s[2..5] == [s[2], s[3], s[4]];
    forall off: nat | Reaches(s, 0, off) ensures off == 0 || off == 6 {
      assert off != 0 ==> Reaches(s, 6, off);
    }
  }

  /** An instant-hotspot element: Apple's OUI, subtype 0x0b and a flags byte at offset 9, of which bits 0 and 1
      count; without the byte, or with another subtype, there are no flags. */
  lemma HotspotElements(flags: byte)
    ensures HotspotFlags([0xdd, 8, 0x00, 0x17, 0xf2, 0x0b, 1, 2, 3, flags]) == flags % 4
    ensures HotspotFlags([0xdd, 7, 0x00, 0x17, 0xf2, 0x0b, 1, 2, 3]) == 0
    ensures HotspotFlags([0xdd, 8, 0x00, 0x17, 0xf2, 0x0a, 1, 2, 3, flags]) == 0
    ensures HotspotFlags([0xdc, 8, 0x00, 0x17, 0xf2, 0x0b, 1, 2, 3, flags]) == 0
  {
    var s: seq<byte> := [0xdd, 8, 0x00, 0x17, 0xf2, 0x0b, 1, 2, 3, flags];
    assert s[2..5] == APPLE_OUI;
    assert HotspotFlagsFrom(s, 0) == HotspotFlagsAt(s, 0);
    assert flags % 4 == flags % 2 + 2 * (flags / 2 % 2);
    assert HotspotFlagsFrom([0xdd, 7, 0x00, 0x17, 0xf2, 0x0b, 1, 2, 3], 9) == 0;
    assert HotspotFlagsFrom([0xdd, 8, 0x00, 0x17, 0xf2, 0x0a, 1, 2, 3, flags], 10) == 0;
    assert HotspotFlagsFrom([0xdc, 8, 0x00, 0x17, 0xf2, 0x0b, 1, 2, 3, flags], 10) == 0;
  }

  /** With the dispatcher's capacity every complete element fits, so the copy is the first RSNXE. */
  lemma {:induction false} FirstFittingMeaning(es: seq<Element>, id: byte, capacity: nat)
    requires capacity >= 257
    ensures FirstFitting(es, id, capacity) == [] <==> !HasId(es, id)
    ensures forall k: nat | k < |es| && es[k][0] == id && (forall j: nat | j < k :: es[j][0] != id) ::
              FirstFitting(es, id, capacity) == es[k]
  {
    if es != [] {
      FirstFittingMeaning(es[1..], id, capacity);
      if es[0][0] == id {
        assert es[0] in es;
      } else {
        forall k: nat | k < |es| && es[k][0] == id && (forall j: nat | j < k :: es[j][0] != id)
          ensures FirstFitting(es, id, capacity) == es[k]
        {
          assert es[k] == es[1..][k - 1];
        }
        assert forall e :: e in es <==> e == es[0] || e in es[1..];
      }
    }
  }

  // ---------- the code ----------

  method CheckForAppleIE(ies: ConstBytes, iesLength: uint32) returns (foundAppleIE: bool)
    requires ies.Holds(iesLength)
    ensures foundAppleIE <==> HasAppleIE(ies.Bytes(iesLength))
  {
    var s := ies.Bytes(iesLength);
    foundAppleIE := false;
    var at: uint32, remaining: uint32 := 0, iesLength;
    while ies.At? && remaining >= 6
      invariant ies.At? ==> at + remaining == |s|
      invariant ies.At? ==> Reaches(s, 0, at)
      invariant !foundAppleIE
      invariant forall off: nat | Reaches(s, 0, off) && off < at :: !AppleHitAt(s, off)
      decreases remaining
    {
      var elementLength: uint32 := s[at + 1];
      var totalLength: uint32 := elementLength + 2;
      if totalLength > remaining {
        break;
      }
      if s[at] == VENDOR_ELEMENT_ID {
        var isApple := MatchesRecognizedAppleOui(s, at + 2);
        if isApple {
          assert AppleHitAt(s, at);
          return true;
        }
      }
      NoBoundaryBetween(s, at);
      ReachesStep(s, 0, at);
      at := at + totalLength;
      remaining := remaining - totalLength;
    }
    if ies.At? {
      NothingBehind(s, at);
    }
  }

  /** Between a boundary and the next there is no other. */
  lemma NoBoundaryBetween(s: seq<byte>, at: nat)
    requires Reaches(s, 0, at) && CompleteAt(s, at)
    ensures forall off: nat | Reaches(s, 0, off) && off < Next(s, at) :: off <= at
  {
    forall off: nat | Reaches(s, 0, off) && off < Next(s, at) ensures off <= at {
      if at < off {
        ReachesLinear(s, 0, at, off);
        ReachesMonotone(s, Next(s, at), off);
      }
    }
  }

  /** When the walk stops, no later boundary is a hit. */
  lemma NothingBehind(s: seq<byte>, at: nat)
    requires Reaches(s, 0, at)
    requires at + MIN_SCAN_REMAINING > |s| || !CompleteAt(s, at)
    ensures forall off: nat | Reaches(s, 0, off) && at <= off :: !AppleHitAt(s, off)
  {
    forall off: nat | Reaches(s, 0, off) && at <= off ensures !AppleHitAt(s, off) {
      ReachesLinear(s, 0, at, off);
    }
  }

  method ExtractInstantHotspotFlags(ies: ConstBytes, iesLength: uint32) returns (flags: byte)
    requires ies.Holds(iesLength)
    ensures flags == HotspotFlags(ies.Bytes(iesLength))
  {
    var s := ies.Bytes(iesLength);
    flags := 0;
    var at: uint32, remaining: uint32 := 0, iesLength;
    while ies.At? && remaining >= 6
      invariant ies.At? ==> at + remaining == |s|
      invariant flags == 0
      invariant HotspotFlags(s) == HotspotFlagsFrom(s, at)
      decreases remaining
    {
      var elementLength: uint32 := s[at + 1];
      var totalLength: uint32 := elementLength + 2;
      if totalLength > remaining {
        break;
      }
      if s[at] == VENDOR_ELEMENT_ID {
        var hotspot := OuiMatches(s, at + 2, APPLE_OUI);
        if hotspot && totalLength > 9 && s[at + 5] == INSTANT_HOTSPOT_SUBTYPE {
          var appleFlags := s[at + 9];
          if appleFlags % 2 != 0 {
            flags := flags + FLAG_AIHS;
          }
          if appleFlags / 2 % 2 != 0 {
            flags := flags + FLAG_SHARING;
          }
          return;
        }
      }
      at := at + totalLength;
      remaining := remaining - totalLength;
    }
  }

  lemma FirstFittingStep(s: seq<byte>, at: nat, id: byte, capacity: nat)
    requires CompleteAt(s, at)
    ensures FirstFitting(ElementsFrom(s, at), id, capacity)
            == if s[at] == id && Next(s, at) - at <= capacity then s[at..Next(s, at)]
               else FirstFitting(ElementsFrom(s, Next(s, at)), id, capacity)
  {
    assert ElementsFrom(s, at)[1..] == ElementsFrom(s, Next(s, at));
  }

  lemma FirstFittingStop(s: seq<byte>, at: nat, id: byte, capacity: nat)
    requires !CompleteAt(s, at)
    ensures FirstFitting(ElementsFrom(s, at), id, capacity) == []
  {
  }

  /** Copies the first RSNXE that fits to the start of `output` and leaves the other bytes alone. */
  method CopyRsnxe(ies: ConstBytes, iesLength: uint32, output: array<byte>, outputCapacity: nat)
    requires ies.Holds(iesLength)
    requires outputCapacity <= output.Length
    modifies output
    ensures var e := FirstFitting(Elements(ies.Bytes(iesLength)), RSNXE_ELEMENT_ID, outputCapacity);
            |e| <= output.Length && output[..] == Splice(old(output[..]), 0, e)
  {
    hide Splice, FirstFitting, ElementsFrom;
    var s := ies.Bytes(iesLength);
    ghost var target := FirstFitting(Elements(s), RSNXE_ELEMENT_ID, outputCapacity);
    var at: uint32, remaining: uint32 := 0, iesLength;
    while ies.At? && remaining >= 2
      invariant ies.At? ==> at + remaining == |s|
      invariant target == FirstFitting(ElementsFrom(s, at), RSNXE_ELEMENT_ID, outputCapacity)
      invariant output[..] == old(output[..])
      decreases remaining
    {
      var elementLength: uint32 := s[at + 1];
      var totalLength: uint32 := elementLength + 2;
      if totalLength > remaining {
        break;
      }
      FirstFittingStep(s, at, RSNXE_ELEMENT_ID, outputCapacity);
      if s[at] == RSNXE_ELEMENT_ID && totalLength <= outputCapacity {
        CopyBytes(output, 0, s, at, totalLength);
        return;
      }
      at := at + totalLength;
      remaining := remaining - totalLength;
    }
    FirstFittingStop(s, at, RSNXE_ELEMENT_ID, outputCapacity);
    SpliceNothing(output[..], 0);
  }
}
