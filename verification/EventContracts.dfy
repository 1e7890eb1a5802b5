/** AirportItlwmAPSTAEventContracts: admission of associations, OUI matching and action frames. */
module EventContracts {
  import opened MachineTypes

  const SUCCESS_STATUS: uint32 := 0
  const SUCCESS_REASON: uint32 := 0

  const APPLE_OUI: seq<byte> := [0x00, 0x17, 0xf2]
  const APPLE_BS_OUI: seq<byte> := [0x00, 0x03, 0x93]
  const APPLE_DEVICE_INFO_OUI: seq<byte> := [0x00, 0xa0, 0x40]

  const ACTION_FRAME_MINIMUM_LENGTH: nat := 0x12
  const ACTION_FRAME_VERSION2_MINIMUM_LENGTH: nat := 0x1a
  const ACTION_FRAME_UNKNOWN: byte := 0xaa
  const LPHS_CATEGORY: byte := 0x7f
  const LPHS_ACTION_SLEEP: byte := 1
  const LPHS_ACTION_AWAKE: byte := 2

  predicate AssociationStatusIsSuccessful(status: uint32, reason: uint32) {
    status == SUCCESS_STATUS && reason == SUCCESS_REASON
  }

  /** A hidden network (bit 0 of the flag) admits Apple stations only. */
  predicate AssociationIsAdmitted(status: uint32, reason: uint32, foundAppleIE: bool, hiddenNetworkFlag: byte) {
    AssociationStatusIsSuccessful(status, reason) && (foundAppleIE || hiddenNetworkFlag % 2 == 0)
  }

  method OuiMatches(s: seq<byte>, at: nat, expected: seq<byte>) returns (same: bool)
    requires at + 3 <= |s| && |expected| == 3
    ensures same <==> s[at..at + 3] == expected
  {
    ghost var oui := s[at..at + 3];
    assert forall k | 0 <= k < 3 :: oui[k] == s[at + k];
    var i := 0;
    while i < 3
      invariant i <= 3 && forall k | 0 <= k < i :: oui[k] == expected[k]
    {
      if s[at + i] != expected[i] {
        assert oui[i] != expected[i];
        return false;
      }
      i := i + 1;
    }
    return true;
  }

  predicate IsRecognizedAppleOui(oui: seq<byte>) {
    oui == APPLE_OUI || oui == APPLE_BS_OUI || oui == APPLE_DEVICE_INFO_OUI
  }

  method MatchesRecognizedAppleOui(s: seq<byte>, at: nat) returns (same: bool)
    requires at + 3 <= |s|
    ensures same <==> IsRecognizedAppleOui(s[at..at + 3])
  {
    same := OuiMatches(s, at, APPLE_OUI);
    if !same {
      same := OuiMatches(s, at, APPLE_BS_OUI);
    }
    if !same {
      same := OuiMatches(s, at, APPLE_DEVICE_INFO_OUI);
    }
  }

  predicate IsLphsStateAction(category: byte, action: byte) {
    category == LPHS_CATEGORY && (action == LPHS_ACTION_SLEEP || action == LPHS_ACTION_AWAKE)
  }

  /** The mask 0x1b selects bits 0, 1, 3 and 4. */
  predicate SoftApConcurrencyIsEnabled(feature46: bool, corePrivateFeatureByte: byte) {
    feature46 && (corePrivateFeatureByte % 4 != 0 || corePrivateFeatureByte / 8 % 4 != 0)
  }

  datatype ActionFrame = Rejected | Parsed(category: byte, action: byte)

  /** Category and action of an action frame; a version other than 1 and 2 keeps both unknown. */
  function ParseActionFrame(data: seq<byte>): ActionFrame {
    if |data| < ACTION_FRAME_MINIMUM_LENGTH then Rejected
    else
      var rawVersion: int := data[0] as int + 0x100 * (data[1] as int);
      var swappedVersion: int := 0x100 * (rawVersion % 0x100) + rawVersion / 0x100;
      if swappedVersion >= 3 then Rejected
      else if rawVersion == 0x0100 then Parsed(data[0x10], data[0x11])
      else if rawVersion == 0x0200 then
        if |data| < ACTION_FRAME_VERSION2_MINIMUM_LENGTH then Rejected else Parsed(data[0x18], data[0x19])
      else Parsed(ACTION_FRAME_UNKNOWN, ACTION_FRAME_UNKNOWN)
  }

  /** The version is the big-endian number in the first two bytes. A frame is accepted exactly when that
      number is 0, 1 or 2 and the frame is long enough for it; versions 1 and 2 carry category and action
      at their own offsets, version 0 carries none, so it can never change a sleep state. */
  lemma ActionFrameVersions(data: seq<byte>)
    requires |data| >= 2
    ensures var frame := ParseActionFrame(data);
            var version: int := 0x100 * (data[0] as int) + data[1] as int;
            && (frame.Parsed? <==> version <= 2 && |data| >= if version == 2 then 0x1a else 0x12)
            && (frame.Parsed? && version == 1 ==> frame == Parsed(data[0x10], data[0x11]))
            && (frame.Parsed? && version == 2 ==> frame == Parsed(data[0x18], data[0x19]))
            && (frame.Parsed? && version == 0 ==>
                  frame == Parsed(0xaa, 0xaa) && !IsLphsStateAction(frame.category, frame.action))
  {
    var rawVersion: int := data[0] as int + 0x100 * (data[1] as int);
    assert rawVersion % 0x100 == data[0] && rawVersion / 0x100 == data[1];
  }
}
