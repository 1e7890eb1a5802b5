/** AirportItlwmCountryCode: the country of the current BSS and the precedence of country sources. */
module CountryCode {
  import opened ElementList
  import opened MachineTypes

  const ELEMENT_ID_COUNTRY: byte := 7
  const UPPER_A: byte := 0x41
  const UPPER_X: byte := 0x58
  const LOWER_X: byte := 0x78
  const UPPER_Z: byte := 0x5a

  /** A C string argument: null, or its bytes up to what the callee may read. */
  datatype CString = NoString | Text(s: seq<byte>) {
    /** The second character is read only when the first is not NUL. */
    predicate Readable() { Text? ==> |s| >= 1 && (s[0] != 0 ==> |s| >= 2) }
  }

  predicate HasAlpha2(cc: CString)
    requires cc.Readable()
  {
    cc.Text? && cc.s[0] != 0 && cc.s[1] != 0
  }

  predicate IsFallbackPair(a: byte, b: byte) {
    (a == UPPER_Z && b == UPPER_Z) || a == UPPER_X || a == LOWER_X
  }

  predicate IsFallbackCountry(cc: CString)
    requires cc.Readable()
  {
    !HasAlpha2(cc) || IsFallbackPair(cc.s[0], cc.s[1])
  }

  predicate IsValid80211dAlpha2(a: byte, b: byte) {
    && UPPER_A <= a <= UPPER_Z && UPPER_A <= b <= UPPER_Z
    && !(a == UPPER_Z && b == UPPER_Z) && a != UPPER_X
  }

  // ---------- specification ----------

  predicate IsCountry(e: Element) {
    e[0] == ELEMENT_ID_COUNTRY && |e| >= 5 && IsValid80211dAlpha2(e[2], e[3])
  }

  /** The code of the first Country element (IEEE Std 802.11-2016, section 9.4.2.9) that carries a valid
      one, or nothing. */
  function FirstCountry(es: seq<Element>): (cc: seq<byte>)
    ensures cc == [] || (|cc| == 2 && IsValid80211dAlpha2(cc[0], cc[1]))
  {
    if es == [] then [] else if IsCountry(es[0]) then [es[0][2], es[0][3]] else FirstCountry(es[1..])
  }

  /** The BSS country; only a running BSS has one. */
  function BssCountry(bssRunning: bool, ies: seq<byte>): seq<byte> {
    if bssRunning then FirstCountry(Elements(ies)) else []
  }

  /** The two characters the selection ends with. */
  function Selected(userOverride: CString, firmware: CString, bss: seq<byte>, geo: CString): (cc: (byte, byte))
    requires userOverride.Readable() && firmware.Readable() && geo.Readable()
    requires bss == [] || |bss| == 2
  {
    if HasAlpha2(userOverride) then (userOverride.s[0], userOverride.s[1])
    else if !IsFallbackCountry(firmware) then (firmware.s[0], firmware.s[1])
    else if bss != [] then (bss[0], bss[1])
    else if HasAlpha2(geo) then (geo.s[0], geo.s[1])
    else if HasAlpha2(firmware) then (firmware.s[0], firmware.s[1])
    else (UPPER_Z, UPPER_Z)
  }

  // ---------- properties ----------

  /** An element with id 7, at least three payload bytes, and two capital letters that are not ZZ and do not
      start with X. */
  predicate CarriesCountry(e: Element) {
    && e[0] == 7 && e[1] >= 3
    && (forall k | 2 <= k < 4 :: 'A' as int <= e[k] <= 'Z' as int)
    && e[2] != 'X' as int && (e[2] == 'Z' as int ==> e[3] != 'Z' as int)
  }

  /** Invalid and short Country elements are skipped; the first valid one decides. */
  lemma {:induction false} FirstCountryMeaning(es: seq<Element>)
    ensures FirstCountry(es) == [] <==> forall k | 0 <= k < |es| :: !CarriesCountry(es[k])
    ensures forall k | 0 <= k < |es| && CarriesCountry(es[k]) && (forall j | 0 <= j < k :: !CarriesCountry(es[j])) ::
              FirstCountry(es) == [es[k][2], es[k][3]]
  {
    if es != [] {
      CountryMeaning(es[0]);
      FirstCountryMeaning(es[1..]);
      assert forall k | 0 < k < |es| :: es[k] == es[1..][k - 1];
      assert forall k | 0 <= k < |es| - 1 :: es[1..][k] == es[k + 1];
    }
  }

  lemma CountryMeaning(e: Element)
    ensures IsCountry(e) <==> CarriesCountry(e)
  {
  }

  /** The length-5 guard before the scan never hides a country. */
  lemma {:induction false} ShortListHasNoCountry(s: seq<byte>, from: nat)
    requires |s| < 5
    ensures FirstCountry(ElementsFrom(s, from)) == []
    decreases |s| - from
  {
    if CompleteAt(s, from) {
      ShortListHasNoCountry(s, Next(s, from));
      assert ElementsFrom(s, from)[1..] == ElementsFrom(s, Next(s, from));
    }
  }

  /** A code that stands for "no country": ZZ, or one that starts with X or x. */
  predicate NoCountryCode(a: byte, b: byte) {
    (a == 'Z' as int && b == 'Z' as int) || a == 'X' as int || a == 'x' as int
  }

  /** A source offers two characters. */
  predicate Offers(cc: CString, a: byte, b: byte)
    requires cc.Readable()
  {
    cc.Text? && cc.s[0] == a && a != 0 && cc.s[1] == b && b != 0
  }

  predicate OffersNothing(cc: CString)
    requires cc.Readable()
  {
    cc.Text? && cc.s[0] != 0 ==> cc.s[1] == 0
  }

  /** The precedence of the sources: an override decides whatever the others say; without one a firmware code
      that names a country decides for all BSS and geolocation values; then the BSS decides for all geolocation
      values; then the geolocation; then whatever two characters the firmware offers; then ZZ. */
  lemma Precedence(userOverride: CString, firmware: CString, bss: seq<byte>, geo: CString, a: byte, b: byte)
    requires userOverride.Readable() && firmware.Readable() && geo.Readable()
    requires bss == [] || |bss| == 2
    ensures var selected := Selected(userOverride, firmware, bss, geo);
            var firmwareNames := !OffersNothing(firmware) && !NoCountryCode(firmware.s[0], firmware.s[1]);
            && (Offers(userOverride, a, b) ==> selected == (a, b))
            && (OffersNothing(userOverride) ==>
                  && (Offers(firmware, a, b) && !NoCountryCode(a, b) ==> selected == (a, b))
                  && (!firmwareNames ==>
                        && (bss == [a, b] ==> selected == (a, b))
                        && (bss == [] ==>
                              && (Offers(geo, a, b) ==> selected == (a, b))
                              && (OffersNothing(geo) ==>
                                    && (Offers(firmware, a, b) ==> selected == (a, b))
                                    && (OffersNothing(firmware) ==> selected == ('Z' as int, 'Z' as int))))))
  {
  }

  /** The selection never ends in NUL characters, and it is a fallback code exactly when the override is
      one, or there is no override, the firmware code is a fallback, no BSS country is known and the
      geolocation code is absent or a fallback. */
  lemma SelectionMeaning(userOverride: CString, firmware: CString, bss: seq<byte>, geo: CString)
    requires userOverride.Readable() && firmware.Readable() && geo.Readable()
    requires bss == [] || (|bss| == 2 && IsValid80211dAlpha2(bss[0], bss[1]))
    ensures var (a, b) := Selected(userOverride, firmware, bss, geo);
            && a != 0 && b != 0
            && (IsFallbackPair(a, b) <==>
                if HasAlpha2(userOverride) then IsFallbackCountry(userOverride)
                else IsFallbackCountry(firmware) && bss == [] && IsFallbackCountry(geo))
  {
  }

  lemma CountryStep(s: seq<byte>, off: nat)
    requires CompleteAt(s, off)
    ensures FirstCountry(ElementsFrom(s, off))
            == if s[off] == ELEMENT_ID_COUNTRY && s[off + 1] >= 3 && IsValid80211dAlpha2(s[off + 2], s[off + 3])
               then [s[off + 2], s[off + 3]] else FirstCountry(ElementsFrom(s, Next(s, off)))
  {
    var es := ElementsFrom(s, off);
    assert es[0] == s[off..Next(s, off)] && es[1..] == ElementsFrom(s, Next(s, off));
  }

  lemma NoCountry(s: seq<byte>, off: nat)
    requires !CompleteAt(s, off)
    ensures FirstCountry(ElementsFrom(s, off)) == []
  {
  }

  // ---------- the code ----------

  method CopyAlpha2(out: array?<byte>, cc: CString)
    requires out != null ==> out.Length == 3
    requires cc.Readable()
    modifies out
    ensures out != null ==>
              out[..] == if HasAlpha2(cc) then [cc.s[0], cc.s[1], 0] else [UPPER_Z, UPPER_Z, 0]
  {
    if out == null {
      return;
    }
    out[0] := UPPER_Z;
    out[1] := UPPER_Z;
    out[2] := 0;
    if !HasAlpha2(cc) {
      return;
    }
    out[0] := cc.s[0];
    out[1] := cc.s[1];
  }

  /** The scan loop of `copyCurrentBss80211dCountry`. */
  method ScanForCountry(s: seq<byte>) returns (cc: seq<byte>)
    requires |s| < 0x1_0000_0000 && Walkable(s)
    ensures cc == FirstCountry(Elements(s))
  {
    hide FirstCountry, IsValid80211dAlpha2;
    var off: uint32 := 0;
    while off + 2 <= |s|
      invariant off <= |s| && Reaches(s, 0, off)
      invariant FirstCountry(Elements(s)) == FirstCountry(ElementsFrom(s, off))
      decreases |s| - off
    {
      var elemId := s[off];
      var elemLen: uint32 := s[off + 1];
      var next: uint32 := off + 2 + elemLen;
      if next > |s| {
        break;
      }
      CountryStep(s, off);
      if elemId == ELEMENT_ID_COUNTRY && elemLen >= 3 {
        if IsValid80211dAlpha2(s[off + 2], s[off + 3]) {
          return [s[off + 2], s[off + 3]];
        }
      }
      ReachesStep(s, 0, off);
      off := next;
    }
    NoCountry(s, off);
    return [];
  }

  method CopyCurrentBss80211dCountry(bssRunning: bool, ies: ConstBytes, iesLen: uint32, out: array?<byte>)
    returns (found: bool)
    requires ies.Holds(iesLen) && Walkable(ies.Bytes(iesLen))
    requires out != null ==> out.Length == 3
    modifies out
    ensures found <==> out != null && bssRunning && FirstCountry(Elements(ies.Bytes(iesLen))) != []
    ensures out != null ==>
              out[..] == if found then FirstCountry(Elements(ies.Bytes(iesLen))) + [0] else [0, 0, 0]
  {
    if out == null {
      return false;
    }
    out[0] := 0;
    out[1] := 0;
    out[2] := 0;
    if !bssRunning {
      return false;
    }
    var s := ies.Bytes(iesLen);
    if ies.Null? || iesLen < 5 {
      ShortListHasNoCountry(s, 0);
      return false;
    }
    var cc := ScanForCountry(s);
    if cc == [] {
      return false;
    }
    out[0] := cc[0];
    out[1] := cc[1];
    out[2] := 0;
    return true;
  }

  method SelectCountryCode(bssRunning: bool, ies: ConstBytes, iesLen: uint32, userOverride: CString,
                           firmware: CString, geo: CString, out: array?<byte>)
    requires ies.Holds(iesLen) && Walkable(ies.Bytes(iesLen))
    requires userOverride.Readable() && firmware.Readable() && geo.Readable()
    requires out != null ==> out.Length == 3
    modifies out
    ensures out != null ==>
              var (a, b) := Selected(userOverride, firmware, BssCountry(bssRunning, ies.Bytes(iesLen)), geo);
              out[..] == [a, b, 0]
    ensures out != null ==>
              var bss := if bssRunning then FirstCountry(Elements(ies.Bytes(iesLen))) else [];
              if !OffersNothing(userOverride) then Offers(userOverride, out[0], out[1])
              else if !OffersNothing(firmware) && !NoCountryCode(firmware.s[0], firmware.s[1])
              then Offers(firmware, out[0], out[1])
              else if bss != [] then out[..2] == bss
              else if !OffersNothing(geo) then Offers(geo, out[0], out[1])
              else if !OffersNothing(firmware) then Offers(firmware, out[0], out[1])
              else out[..2] == ['Z' as int, 'Z' as int]
  {
    hide FirstCountry, Elements, Walkable, ConstBytes.Bytes;
    var currentBssCc := new byte[3](_ => 0);
    var selectedCc := Text([UPPER_Z, UPPER_Z, 0]);
    var hasCurrentBssCountry := CopyCurrentBss80211dCountry(bssRunning, ies, iesLen, currentBssCc);
    if HasAlpha2(userOverride) {
      selectedCc := userOverride;
    } else if !IsFallbackCountry(firmware) {
      selectedCc := firmware;
    } else if hasCurrentBssCountry {
      selectedCc := Text(currentBssCc[..]);
    } else if HasAlpha2(geo) {
      selectedCc := geo;
    } else if HasAlpha2(firmware) {
      selectedCc := firmware;
    }
    CopyAlpha2(out, selectedCc);
  }
}
