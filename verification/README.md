# Verification of the itlwm SoftAP owner and its 802.11 element code

A Dafny 4.11 model of the parts of the AirportItlwm driver that keep state or walk untrusted bytes,
with proofs about every run and every input. `dafny verify dfyconfig.toml` checks the whole project.

| file | models |
|---|---|
| MachineTypes.dfy | machine integers, MAC addresses and constant buffers |
| ElementList.dfy, ByteBuffers.dfy | the id/length/payload element list (IEEE Std 802.11-2016, section 9.4.2.1) every walker shares, and `memcpy` into buffers |
| BeaconIeBuilder.dfy | the builder that rebuilds the element stream of the current BSS (TIM: section 9.4.2.6) |
| ApstaIeScanners.dfy, EventContracts.dfy, AuthIndication.dfy | the scanners, admission rules and the chunk parser a SoftAP runs on what stations send |
| ApstaState.dfy | the SoftAP owner as a state machine: its fields and what each call does to them |
| ApstaOwner.dfy | the owner as an object with in-place updates, each method proved to take the step of the machine |
| ApstaInvariant.dfy, StationRefinement.dfy, PowerSaveProperties.dfy, LifecycleProperties.dfy | what every run of the owner keeps |
| EventProperties.dfy, CallProperties.dfy | what every event and every call does to each field, which messages it posts and what it returns |
| ApstaExamples.dfy | concrete runs of the owner |
| ScanCursor.dfy | the resumable scan-result cursor and the background-scan cache list |
| TxPower.dfy, TxPowerAccuracy.dfy | the milliwatt to quarter-dBm byte codec, and how exact it is |
| BssidPublisher.dfy | the BSSID-changed publisher and its reset on link-down |
| CountryCode.dfy | the country of the BSS and the precedence of country sources |

## How to read the model

- **Machine integers.** `byte`, `uint16` and `uint32` are range types, so Dafny proves at every
  assignment that the arithmetic of the code does not wrap; where the code relies on wrapping
  (transition counters, the association limit, the station counter) the `% 2^32` is written out.
- **Element lists** in the builder and the country scan are `Walkable`: no 32-bit offset of the walk
  wraps. Every list of at most 2^32 - 256 bytes is (`LengthMakesWalkable`).
- **Constant input buffers** are a `ConstBytes` value: null, or the readable bytes. Written buffers are
  arrays.
- **The HAL, the interface and the feature flags** appear as an `Env` value, one per call: whether each
  is there and what it answers. `lowerUp` is the lower AP: a successful `startAPMode` sets it, a
  `stopAPMode` that is reached clears it (the owner ignores the result, and
  `include/HAL/ItlHalService.hpp:169-172` asks backends to accept a repeated stop).
- **The enable bit** of power save (bit 0 of `softapParam0e`) is only ever cleared by this code, so runs
  start from any value of that byte (`FreshState(enable)`); otherwise the results would be vacuous.
- **The node tree** of the scan cache is a sequence in key order and the cursor an index into it.

## What turned out differently from what one might expect

- Low power does not mean that everyone sleeps. Entering it does, but a station that joins afterwards is
  awake, and so is one that sends an awake frame; neither leaves the mode. `LowPowerMeansAsleepIff` and
  `RunMeansAsleepIff` say that exactly these two events break it, `JoinInLowPower` and
  `AwakeFrameInLowPower` are concrete runs, and `LowPowerLeftIff` lists what leaves the mode.
- The Apple scan compares three bytes after the element header even if the payload is shorter, and stops
  with fewer than six bytes left (`AppleScanSurprises`); `AppleScanMeaning` says exactly on which
  lists it means what its name says.
- A null SSID argument with a non-zero length produces a header without a payload
  (`NullSsidSwallowsTim`). `OutputParses` gives the exact condition under which the output means what it
  should: the payload is there, or the raw list has an SSID, or the header does not fit.
- An accepted association limit exceeds the maximum exactly when the request wraps the 32-bit sum
  (`MaxAssocWithinLimitIff`; `MaxAssocWraps` is a concrete run).
- If the HAL is out of reach during a stop, a later teardown does not try again
  (`UnstableHalLeavesLowerUp`); `LowerSafeIff` and `RunSafeIff` say that exactly such stops lose it.
- A zero address is never found in the station table. While it is in the table, joining again counts it
  twice and leaving does not remove it; these are exactly the events that break the refinement to a set
  (`StepRefinesIff`, `RunRefinesIff`; `ZeroAddressCountsTwice` and `ZeroAddressStays` are concrete runs).
  The counter law covers them all the same.
- The only caller in the tree, the net80211 hook, leaves status, reason, authentication type and event data
  at their defaults (`AirportItlwm/AirportItlwmAPSTAOwner.cpp:1221-1235`). Through it every action frame is
  rejected, no authentication message is posted, no station ever sleeps and low power is never entered
  (`Net80211Event`, `Net80211RunsStayAwake`). The action-frame, low-power and authentication results are
  about the public method's own arguments.
- The power table is 10^(raw / 40) milliwatts, every entry correctly rounded, and the decoder keeps to that
  for all bytes below saturation but one: 0x85 decodes to 2114, because the rounded entry 21135 is rounded
  again, while the power is 2113.49 (`TableIsRounded`, `DecodeIsRoundedIff`).
- Two checks of the code are redundant: the `advance > remaining` test of the chunk loop and the
  length-5 guard of the country scan (`ShortListHasNoCountry`). The same-BSS reason of the BSSID
  publisher is computed but never sent (`EveryLogIsGood`).

## Model

| member | source | states |
|---|---|---|
| ElementList.ParseFlatten | AirportItlwm/TahoeBeaconIeBuilder.hpp:18-26 | the element grammar round-trips: writing any list of elements, followed by bytes that hold no complete element, parses back to exactly that list |
| ElementList.FlattenParse | AirportItlwm/TahoeBeaconIeBuilder.hpp:18-26 | parsing and writing back gives the longest prefix made of complete elements, and no complete element follows it |
| ElementList.ReachesIffBoundary | AirportItlwm/TahoeBeaconIeBuilder.hpp:18-26 | the offsets the walk visits are exactly the ends of the prefixes of the element list, in both directions |
| ElementList.LengthMakesWalkable | AirportItlwm/TahoeBeaconIeBuilder.hpp:18-26 | on every list of at most 2^32 - 256 bytes no 32-bit offset of the walk wraps, so the walkers' precondition excludes longer lists only |
| BeaconIeBuilder.ContainsElement | AirportItlwm/TahoeBeaconIeBuilder.hpp:13-29 | the loop answers true exactly when some complete element carries the id, for every buffer, null included |
| BeaconIeBuilder.AppendElement | AirportItlwm/TahoeBeaconIeBuilder.hpp:31-53 | an element that fits is written at the offset and the rest of the buffer kept; otherwise nothing changes; a null payload leaves a bare header |
| BeaconIeBuilder.AppendTaggedIeTail | AirportItlwm/TahoeBeaconIeBuilder.hpp:55-79 | copies exactly the elements that fit, in order, up to the first that does not, and touches no other byte |
| BeaconIeBuilder.AppendSynthesized | AirportItlwm/TahoeBeaconIeBuilder.hpp:95-115 | the missing SSID and TIM elements are written first, each only if the raw list lacks it and it fits |
| BeaconIeBuilder.BuildCurrentBssIeStream | AirportItlwm/TahoeBeaconIeBuilder.hpp:81-118 | for every raw tail, SSID, DTIM pair and capacity the buffer afterwards is the specified output over the old bytes, of the returned length, never beyond the capacity |
| BeaconIeBuilder.FitPrefixIsLongest | AirportItlwm/TahoeBeaconIeBuilder.hpp:64-76 | what the tail copier keeps is the longest prefix of the raw elements whose bytes fit the room |
| BeaconIeBuilder.OutputParses | AirportItlwm/TahoeBeaconIeBuilder.hpp:81-118 | exact meaning, for all arguments: the output fits, and it parses completely as SSID if missing and fitting, TIM if missing and fitting, then the longest fitting prefix of the raw elements, if and only if the SSID has its payload, or the raw list has an SSID, or the SSID header does not fit |
| BeaconIeBuilder.BufferAfterBuilder | AirportItlwm/TahoeBeaconIeBuilder.hpp:81-118 | the same for the buffer: the written part parses as intended under exactly that condition, and the part behind it is unchanged in every case |
| BeaconIeBuilder.NullSsidSwallowsTim | AirportItlwm/TahoeBeaconIeBuilder.hpp:102-115 | concrete input: a null SSID of length 3 makes the SSID element swallow the TIM header, and no TIM can be found |
| BeaconIeBuilder.FreshStream | AirportItlwm/TahoeBeaconIeBuilder.hpp:95-115 | concrete stream for an empty raw list and every DTIM pair: SSID, then a TIM whose zero DTIM period is replaced by 1 |
| BeaconIeBuilder.AmpleCapacityKeepsAll | AirportItlwm/TahoeBeaconIeBuilder.hpp:81-118 | with room for raw tail, SSID and 8 bytes no raw element is lost and both SSID and TIM are present |
| BeaconIeBuilder.FixedPointIff | AirportItlwm/TahoeBeaconIeBuilder.hpp:81-118 | for all byte streams and arguments, which streams the builder reproduces byte for byte: exactly the complete ones that fit and in which each of SSID and TIM is present or does not fit the capacity on its own, and a bare SSID header (with the TIM) whose length reaches beyond the end |
| BeaconIeBuilder.StableIff | AirportItlwm/TahoeBeaconIeBuilder.hpp:81-118 | a stream is reproduced under all arguments and every capacity that holds it exactly when it is complete and holds both an SSID and a TIM |
| BeaconIeBuilder.RebuildIff | AirportItlwm/TahoeBeaconIeBuilder.hpp:81-118 | feeding any built stream back: one with a whole SSID is reproduced exactly when it fits and nothing is to be added, one with a bare header exactly under the condition for arbitrary streams |
| BeaconIeBuilder.BuilderIdempotent | AirportItlwm/TahoeBeaconIeBuilder.hpp:81-118 | with room for everything the built stream is reproduced under all later arguments exactly when it is complete and holds both ids, and always if the SSID has its payload or the raw list has one; then the raw elements are its suffix in order |
| ApstaIeScanners.CheckForAppleIE | AirportItlwm/AirportItlwmAPSTAOwner.cpp:44-69 | true exactly when some reachable boundary with six bytes left holds a complete vendor element followed by a recognized OUI, for arbitrary bytes and lengths, reading only inside them |
| ApstaIeScanners.AppleScanMeaning | AirportItlwm/AirportItlwmAPSTAOwner.cpp:38-69 | the exact condition under which the scan agrees with "some vendor payload starts with a recognized OUI": a long Apple element, or a short element completed by its neighbours and a bare Apple element at the end both present or both absent |
| ApstaIeScanners.AppleScanSurprises | AirportItlwm/AirportItlwmAPSTAOwner.cpp:38-69 | concrete inputs where the scan is true without such a payload, and false with one |
| ApstaIeScanners.OneAppleElement | AirportItlwm/AirportItlwmAPSTAOwner.cpp:44-69 | a list of one element with four payload bytes is Apple's exactly when it is a vendor element with one of the three OUIs |
| ApstaIeScanners.ExtractInstantHotspotFlags | AirportItlwm/AirportItlwmAPSTAOwner.cpp:71-108 | computes the flags of the first instant-hotspot hit of the walk |
| ApstaIeScanners.HotspotFlagsMeaning | AirportItlwm/AirportItlwmAPSTAOwner.cpp:71-108 | the flags are zero without a reachable hit, and otherwise those of the reachable hit that no other precedes |
| ApstaIeScanners.HotspotFlagsAreOfElements | AirportItlwm/AirportItlwmAPSTAOwner.cpp:71-108 | the hotspot loop never looks beyond an element: its flags are those of the first instant-hotspot element of the parsed list |
| ApstaIeScanners.HotspotFlagsImplyAppleIE | AirportItlwm/AirportItlwmAPSTAOwner.cpp:44-108 | the two independent loops agree: non-zero hotspot flags imply that the Apple scan succeeds on the same bytes |
| ApstaIeScanners.HotspotElements | AirportItlwm/AirportItlwmAPSTAOwner.cpp:71-108 | concrete instant-hotspot elements: bits 0 and 1 of the byte at offset 9 are the flags; without that byte, with another subtype or id there are none |
| ApstaIeScanners.CopyRsnxe | AirportItlwm/AirportItlwmAPSTAOwner.cpp:110-130 | the output starts with the first complete RSNXE that fits and keeps every other byte |
| ApstaIeScanners.FirstFittingMeaning | AirportItlwm/AirportItlwmAPSTAOwner.cpp:110-130 | at the dispatcher's capacity every element fits, so the copy is the first RSNXE, and it is empty exactly when there is none |
| EventContracts.OuiMatches | AirportItlwm/AirportItlwmAPSTAEventContracts.hpp:28-39 | the loop compares exactly the three bytes |
| EventContracts.ActionFrameVersions | AirportItlwm/AirportItlwmAPSTAEventContracts.hpp:53-87 | a frame is accepted exactly when its big-endian version is at most 2 and it is long enough for it; versions 1 and 2 read category and action at their own offsets and version 0 yields 0xaa for both and can never carry a sleep state |
| AuthIndication.AlignedLengthMeaning | AirportItlwm/AirportItlwmAPSTAOwner.cpp:150-158 | the aligned length is the smallest positive multiple of four that covers the chunk |
| AuthIndication.CopyAuthIndChunks | AirportItlwm/AirportItlwmAPSTAOwner.cpp:160-226 | for every buffer and declared length the message afterwards is the left-to-right fold of the chunks inside the declared header length |
| AuthIndication.CopyChunks | AirportItlwm/AirportItlwmAPSTAOwner.cpp:184-225 | the chunk loop reads only the header-length slice and folds its chunks |
| AuthIndication.ParseEncode | AirportItlwm/AirportItlwmAPSTAOwner.cpp:184-225 | the chunk grammar round-trips: any encodable chunks are read back as they were written |
| AuthIndication.PayloadRoundTrip | AirportItlwm/AirportItlwmAPSTAOwner.cpp:165-184 | a whole payload round-trips: header type 1, a little-endian length that ends behind the chunks, any chunks, and whatever follows |
| AuthIndication.BadHeaderHasNoChunks | AirportItlwm/AirportItlwmAPSTAOwner.cpp:165-183 | a payload without type 1, or with a declared length below 4 or beyond the data, has no chunks |
| AuthIndication.ChunkAtIff | AirportItlwm/AirportItlwmAPSTAOwner.cpp:184-200 | which bytes hold a chunk: room for four header bytes, a length up to 0xfff8, and the payload rounded up to a positive multiple of four |
| AuthIndication.EncodedExamples | AirportItlwm/AirportItlwmAPSTAOwner.cpp:184-200 | concrete chunks: type and length little-endian, zero padding, an empty payload padded to four bytes |
| AuthIndication.LastWriterWins | AirportItlwm/AirportItlwmAPSTAOwner.cpp:201-216 | every message byte holds what the last accepted chunk covering it wrote, or its old value |
| AuthIndication.OnlyChunkAreaChanges | AirportItlwm/AirportItlwmAPSTAOwner.cpp:201-216 | bytes before 0x18 and from 0x64 on never change, whatever the chunks |
| AuthIndication.TypesCommuteIff | AirportItlwm/AirportItlwmAPSTAOwner.cpp:203-216 | a type-1 and a type-2 chunk may be exchanged exactly when their bytes agree on the overlap behind type-1 byte 0x3c |
| ApstaInvariant.StepKeepsInv | AirportItlwm/AirportItlwmAPSTAOwner.cpp:302-492 | every call keeps the invariant that ties counter, table, power save and lifecycle together |
| ApstaInvariant.RunKeepsInv | AirportItlwm/AirportItlwmAPSTAOwner.cpp:302-1219 | the invariant holds after every sequence of calls with arbitrary arguments and HAL answers |
| ApstaInvariant.StopKeepsInv | AirportItlwm/AirportItlwmAPSTAOwner.cpp:474-484 | stopping keeps the invariant and ends with the AP down and power save off |
| ApstaInvariant.AssocKeepsInv | AirportItlwm/AirportItlwmAPSTAOwner.cpp:1130-1175 | an association, with any bytes, keeps the invariant, zero addresses and full tables included |
| ApstaInvariant.ActionKeepsInv | AirportItlwm/AirportItlwmAPSTAOwner.cpp:1190-1214 | an action frame with arbitrary bytes keeps the invariant |
| ApstaInvariant.CounterLaw | AirportItlwm/AirportItlwmAPSTAOwner.cpp:999-1029 | in every reachable state the associated count equals the number of active entries and is at most 5, and no two active entries share a non-zero address |
| ApstaInvariant.RemovalAlwaysCounts | AirportItlwm/AirportItlwmAPSTAOwner.cpp:1020-1029 | removing a known station always lowers the count by one: the guard against zero never matters |
| ApstaInvariant.EntryLaw | AirportItlwm/AirportItlwmAPSTAOwner.cpp:1144-1155 | in every reachable state an active station is asleep or awake, and an entry with a hotspot flag has the Apple-station flag |
| ApstaInvariant.PostedMessagesOk | AirportItlwm/AirportItlwmAPSTAOwner.cpp:1115-1189 | every posted message carries the table size after the event, association flags lie in {0,4,5,6,7} and are determined by the station's bytes, and the authentication message keeps its type, status and MAC |
| ApstaInvariant.AuthFieldsSurvive | AirportItlwm/AirportItlwmAPSTAOwner.cpp:1119-1124 | type, status and MAC of the authentication message survive every chunk list |
| ApstaInvariant.RsnxeFieldMeaning | AirportItlwm/AirportItlwmAPSTAOwner.cpp:1171-1171 | the RSNXE field of the association message is the first complete RSNXE followed by zeros |
| EventProperties.PostedExactly | AirportItlwm/AirportItlwmAPSTAOwner.cpp:1044-1189 | a bound owner with an interface posts exactly one message, of the right kind, for a successful authentication, an admitted association and a leave, and none for any other event; otherwise none is posted |
| EventProperties.JoinEffect | AirportItlwm/AirportItlwmAPSTAOwner.cpp:1130-1175 | an admitted station, if known or while there is room, gets its own or the first free entry with its address, hotspot flags and Apple flag, new ones awake; no other entry changes |
| EventProperties.AdmittedIsIn | AirportItlwm/AirportItlwmAPSTAOwner.cpp:1130-1155 | an association with status and reason 0, on a visible network or with an Apple element, is in the table afterwards while there is room |
| EventProperties.LeaveClears | AirportItlwm/AirportItlwmAPSTAOwner.cpp:1020-1029 | a leave sets the station's entry to zeros and changes no other |
| EventProperties.ActionEffect | AirportItlwm/AirportItlwmAPSTAOwner.cpp:1190-1206 | a version-1 or -2 frame of category 0x7f with action 1 or 2 stores that sleep state in its station's entry; no other frame changes the table |
| EventProperties.AuthMessagePosted | AirportItlwm/AirportItlwmAPSTAOwner.cpp:1115-1129 | a successful authentication posts the message of these bytes |
| EventProperties.AuthBytes | AirportItlwm/AirportItlwmAPSTAOwner.cpp:1119-1125 | every byte of the authentication message: the last chunk that covers it, else type 5, the status of the reason, the address, or zero |
| EventProperties.AssocMessageRsnxe | AirportItlwm/AirportItlwmAPSTAOwner.cpp:1168-1174 | the association message carries 0x104 bytes: the first element with id 0xf4 and zeros, or all zeros without one |
| StationRefinement.StepRefinesIff | AirportItlwm/AirportItlwmAPSTAOwner.cpp:977-1029 | one call of the owner is one step of a set bounded by five (admitted stations join if known or there is room, leaving stations go, a stop empties it, everything else keeps it) and the count stays its size, if and only if the call is not an event of a zero address already in the table that leaves, or joins while there is room |
| StationRefinement.RunRefines | AirportItlwm/AirportItlwmAPSTAOwner.cpp:1099-1219 | over every run without such an event the table represents the abstract set and the count is its size |
| StationRefinement.RunRefinesIff | AirportItlwm/AirportItlwmAPSTAOwner.cpp:1099-1219 | the table represents the abstract set after every prefix of a run if and only if the run has no such event |
| StationRefinement.NonZeroRunsNeverBreak | AirportItlwm/AirportItlwmAPSTAOwner.cpp:984-989 | runs whose events never carry the zero address have no such event |
| StationRefinement.PostedCountIsSetSize | AirportItlwm/AirportItlwmAPSTAOwner.cpp:1163-1188 | every association or removal message of a run without a breaking zero-address event carries the size of the abstract set after its event |
| ApstaExamples.ZeroAddressCountsTwice | AirportItlwm/AirportItlwmAPSTAOwner.cpp:984-1018 | concrete run: the zero address joins twice, and the count is two with one address in the table |
| ApstaExamples.ZeroAddressStays | AirportItlwm/AirportItlwmAPSTAOwner.cpp:984-1029 | concrete run: the zero address joins and leaves, and is still counted and in the table |
| StationRefinement.RefusedChangesNothing | AirportItlwm/AirportItlwmAPSTAOwner.cpp:1132-1141 | a call with an association event of wrong status or reason, or without an Apple element while the network is hidden, changes no field of the owner, posts nothing and succeeds |
| StationRefinement.ActiveMacsMeaning | AirportItlwm/AirportItlwmAPSTAOwner.cpp:660-673 | for every table the station list holds the active addresses and no other, and lists none twice exactly when the number of active entries is the size of the set |
| StationRefinement.StationListIsTheSet | AirportItlwm/AirportItlwmAPSTAOwner.cpp:651-675 | after every run without a breaking zero-address event the station list is exactly the abstract set, without duplicates |
| StationRefinement.ActiveMacsOrder | AirportItlwm/AirportItlwmAPSTAOwner.cpp:660-673 | the station list is in table order |
| ApstaExamples.HiddenNetwork | AirportItlwm/AirportItlwmAPSTAOwner.cpp:1130-1141 | concrete run: after a start and a hide, a station with an Apple element is admitted and one without is refused |
| PowerSaveProperties.EnableNeverRises | AirportItlwm/AirportItlwmAPSTAOwner.cpp:398-439 | over every run, from any starting enable byte, the power-save invariant holds (mode 0, 1 or 3; disabled means 0; 3 holds and 1 releases the assertion), and where the enable bit is set it was set after every earlier call |
| PowerSaveProperties.StopEndsOff | AirportItlwm/AirportItlwmAPSTAOwner.cpp:379-396 | a reset always ends in mode 0 with cleared statistics |
| PowerSaveProperties.PowerOfCall | AirportItlwm/AirportItlwmAPSTAOwner.cpp:379-439 | which calls touch the power fields at all, and how; no other call does |
| PowerSaveProperties.LowPowerOnlyWhenAllSleep | AirportItlwm/AirportItlwmAPSTAOwner.cpp:1205-1213 | low power is entered only by an action frame, and then every active station sleeps and concurrency is disabled |
| PowerSaveProperties.LowPowerLeftIff | AirportItlwm/AirportItlwmAPSTAOwner.cpp:813-865 | low power is left exactly by a stop, an accepted un-hide, or a parameter request that enables or finds the AP up |
| PowerSaveProperties.LowPowerMeansAsleepIff | AirportItlwm/AirportItlwmAPSTAOwner.cpp:1130-1214 | a call keeps "in low power every active station sleeps" if and only if it does not, in low power, give a station a new entry or process an awake frame of a known one |
| PowerSaveProperties.RunMeansAsleepIff | AirportItlwm/AirportItlwmAPSTAOwner.cpp:1130-1214 | over runs: the property holds after every prefix if and only if the run has no such call |
| PowerSaveProperties.LowPowerOutlivesSleep | AirportItlwm/AirportItlwmAPSTAOwner.cpp:1130-1214 | such a call leaves the AP in low power with a station awake |
| ApstaExamples.JoinInLowPower | AirportItlwm/AirportItlwmAPSTAOwner.cpp:1130-1214 | concrete run: a station joins and sleeps, another joins, and low power goes on with a station awake |
| ApstaExamples.AwakeFrameInLowPower | AirportItlwm/AirportItlwmAPSTAOwner.cpp:1190-1214 | concrete run: a station joins, sleeps and says it is awake again, and low power goes on |
| PowerSaveProperties.BumpCounterMeaning | AirportItlwm/AirportItlwmAPSTAOwner.cpp:407-421 | updating one transition record raises that counter by one modulo 2^32, stays inside the 0x58-byte block and changes no other byte |
| PowerSaveProperties.CountersConserved | AirportItlwm/AirportItlwmAPSTAOwner.cpp:398-439 | in every reachable state each raw little-endian counter is, modulo 2^32, the number of observed mode changes into its state since the last clearing |
| PowerSaveProperties.ChangesAddUp | AirportItlwm/AirportItlwmAPSTAOwner.cpp:398-439 | the four numbers add up to the number of mode changes |
| PowerSaveProperties.CountersAddUp | AirportItlwm/AirportItlwmAPSTAOwner.cpp:398-439 | in every reachable state the four raw counters add up, modulo 2^32, to the number of mode changes |
| CallProperties.PowerLaw | AirportItlwm/AirportItlwmAPSTAOwner.cpp:398-439 | the whole power-save machine on every call: mode, enable byte, assertion and low-traffic counter, in terms of the call and the fields before it |
| CallProperties.RequestLaw | AirportItlwm/AirportItlwmAPSTAOwner.cpp:398-439 | one request to the machine for any target and reason: what is ignored, and what it does to mode, assertion, low-traffic counter and the four transition counters |
| CallProperties.RawCounters | AirportItlwm/AirportItlwmAPSTAOwner.cpp:407-421 | entry n of the statistics block, 0x10 bytes each from 0x18 on, starts with the little-endian number of changes into state n, modulo 2^32 |
| PowerSaveProperties.Net80211Event | AirportItlwm/AirportItlwmAPSTAOwner.cpp:1221-1235 | through the net80211 hook an action frame changes nothing, no authentication message is posted and power save is untouched |
| PowerSaveProperties.Net80211RunsStayAwake | AirportItlwm/AirportItlwmAPSTAOwner.cpp:1221-1235 | over runs whose events all come through the hook no station ever sleeps and the AP never enters low power |
| LifecycleProperties.LowerSafeIff | AirportItlwm/AirportItlwmAPSTAOwner.cpp:441-492 | a call breaks "the lower AP is up only in LowerBlocked or Running" exactly when it stops the owner without reaching the HAL |
| LifecycleProperties.StartEndsRunningIff | AirportItlwm/AirportItlwmAPSTAOwner.cpp:441-472 | a start ends with a running AP exactly when the owner is bound and the HAL is there, supports the role and starts; any other start ends blocked |
| LifecycleProperties.RunningMeansUp | AirportItlwm/AirportItlwmAPSTAOwner.cpp:441-492 | over every run, stable HAL or not, a running AP has its lower AP up |
| LifecycleProperties.RunSafeIff | AirportItlwm/AirportItlwmAPSTAOwner.cpp:441-492 | over runs: the lower AP is up only in LowerBlocked or Running after every prefix if and only if no call stops the owner while the lower AP is up and the HAL out of reach |
| LifecycleProperties.StableHalIsSafe | AirportItlwm/AirportItlwmAPSTAOwner.cpp:302-492 | with a stable HAL no call is such a stop, and in every reachable state the lifecycle is Running exactly when the AP-up word is set |
| LifecycleProperties.TeardownLeavesLowerDown | AirportItlwm/AirportItlwmAPSTAOwner.cpp:351-357 | after every run without such a stop a teardown or free leaves the lower AP down exactly when it was down already or the HAL can be reached, after failed restarts and restarts following a stop alike |
| LifecycleProperties.UnstableHalLeavesLowerUp | AirportItlwm/AirportItlwmAPSTAOwner.cpp:474-492 | concrete run: a stop that cannot reach the HAL, then a teardown that can, leave the lower AP up |
| LifecycleProperties.MaxAssocWithinLimitIff | AirportItlwm/AirportItlwmAPSTAOwner.cpp:776-795 | an accepted new limit respects the maximum exactly when the 32-bit sum does not wrap |
| CallProperties.LimitLaw | AirportItlwm/AirportItlwmAPSTAOwner.cpp:776-804 | the limit is stored by its own request, and by the MIS request only while the AP runs, if the 32-bit sum admits it; no other call touches it or the maximum |
| CallProperties.HiddenLaw | AirportItlwm/AirportItlwmAPSTAOwner.cpp:813-838 | the hidden flag is what the last accepted request said; no other call touches it |
| CallProperties.ParamsLaw | AirportItlwm/AirportItlwmAPSTAOwner.cpp:840-865 | every parameter request stores its five parameters and its beacon interval unless that is 0xffff or the applied one; no other call touches them |
| CallProperties.SsidLaw | AirportItlwm/AirportItlwmAPSTAOwner.cpp:568-593 | the SSID is stored zero-padded by a network request within the bounds while the AP runs; no other call touches it |
| CallProperties.StopLaw | AirportItlwm/AirportItlwmAPSTAOwner.cpp:379-396 | a stop clears table, count, AP-up and transition words and statistics and keeps the rest; only a teardown or free unbinds |
| CallProperties.LastEventLaw | AirportItlwm/AirportItlwmAPSTAOwner.cpp:1142-1178 | the last-event address is written by leaves and admitted associations only |
| CallProperties.ReturnCodes | AirportItlwm/AirportItlwmAPSTAOwner.cpp:441-1219 | the return code of every call |
| ApstaExamples.MaxAssocWraps | AirportItlwm/AirportItlwmAPSTAOwner.cpp:776-795 | concrete run: after one station joined the request 0xFFFFFFFF is accepted against the limit 1800 |
| ApstaOwner.MacIsZero | AirportItlwm/AirportItlwmAPSTAOwner.cpp:16-27 | the loop answers true exactly for the all-zero address |
| ApstaOwner.BuildAuthMessage | AirportItlwm/AirportItlwmAPSTAOwner.cpp:1119-1124 | the message bytes are the zeroed layout with type, status and MAC, under the fold of the chunks |
| ApstaOwner.BuildRsnxe | AirportItlwm/AirportItlwmAPSTAOwner.cpp:1171-1171 | the zeroed field with the first complete RSNXE copied to its start |
| ApstaOwner.Owner.InitWithController | AirportItlwm/AirportItlwmAPSTAOwner.cpp:302-349 | succeeds exactly with a base init, a controller and the SoftAP role, and leaves the specified fresh or failed state on each path |
| ApstaOwner.Owner.InitSoftApParameters | AirportItlwm/AirportItlwmAPSTAOwner.cpp:359-377 | statistics, table and defaults are set and every other field kept |
| ApstaOwner.Owner.CountTransition | AirportItlwm/AirportItlwmAPSTAOwner.cpp:407-421 | the in-place update of the statistics block is one counter step |
| ApstaOwner.Owner.SetSoftApPowerSaveState | AirportItlwm/AirportItlwmAPSTAOwner.cpp:398-439 | the power fields afterwards are one step of the power-save machine; no other field changes |
| ApstaOwner.Owner.ResetRuntimeState | AirportItlwm/AirportItlwmAPSTAOwner.cpp:379-396 | the reset of the whole state |
| ApstaOwner.Owner.StartLowerIfReady | AirportItlwm/AirportItlwmAPSTAOwner.cpp:441-472 | new state and return code on all four paths; the AP runs afterwards exactly when the owner is bound and the HAL is there, supports the role and starts; invariant kept |
| ApstaOwner.Owner.StopLowerAp | AirportItlwm/AirportItlwmAPSTAOwner.cpp:474-484 | the stop step of the machine, invariant kept |
| ApstaOwner.Owner.TeardownOwner | AirportItlwm/AirportItlwmAPSTAOwner.cpp:486-492 | stops only before Terminal, always unbinds, invariant kept |
| ApstaOwner.Owner.Free | AirportItlwm/AirportItlwmAPSTAOwner.cpp:351-357 | teardown, then Freed, invariant kept |
| ApstaOwner.Owner.SetHostApModeNetwork | AirportItlwm/AirportItlwmAPSTAOwner.cpp:568-593 | new state and return code for every request, stop requests included |
| ApstaOwner.Owner.SetHostApModeHidden | AirportItlwm/AirportItlwmAPSTAOwner.cpp:813-838 | new state and return code for every value and HAL answer |
| ApstaOwner.Owner.SetSoftApParams | AirportItlwm/AirportItlwmAPSTAOwner.cpp:840-865 | new state for every request, with the power-save step it causes |
| ApstaOwner.Owner.SetMaxAssociations | AirportItlwm/AirportItlwmAPSTAOwner.cpp:776-795 | the limit is stored exactly when the wrapping check admits it |
| ApstaOwner.Owner.SetMisMaxSta | AirportItlwm/AirportItlwmAPSTAOwner.cpp:797-804 | forwards to the limit only while the AP runs |
| ApstaOwner.Owner.FindEntry | AirportItlwm/AirportItlwmAPSTAOwner.cpp:984-997 | the loop returns the first active entry with the address; a zero address is never found |
| ApstaOwner.Owner.AllocateEntry | AirportItlwm/AirportItlwmAPSTAOwner.cpp:999-1018 | reuses the station's entry or fills the first free one and counts it; a full table stays as it is |
| ApstaOwner.Owner.RemoveEntry | AirportItlwm/AirportItlwmAPSTAOwner.cpp:1020-1029 | clears the station's entry and lowers the count, or changes nothing |
| ApstaOwner.Owner.AreAllStationsInLowPowerMode | AirportItlwm/AirportItlwmAPSTAOwner.cpp:1031-1042 | true exactly when no active station is awake |
| ApstaOwner.Owner.GetStationList | AirportItlwm/AirportItlwmAPSTAOwner.cpp:651-675 | error codes on the error paths with nothing written; otherwise the first rows are the active addresses in table order and the rest is untouched |
| ApstaOwner.Owner.PostStationMessage | AirportItlwm/AirportItlwmAPSTAOwner.cpp:1044-1056 | posts only with a bound owner and an interface |
| ApstaOwner.Owner.MarkEntry | AirportItlwm/AirportItlwmAPSTAOwner.cpp:1146-1155 | the Apple flags of the entry follow the station's bytes; the Apple-station flag is only ever set |
| ApstaOwner.Owner.HandleAssociation | AirportItlwm/AirportItlwmAPSTAOwner.cpp:1130-1175 | the association step; with status and reason 0, on a visible network or with an Apple element, the station becomes the last event and a message is posted; otherwise nothing changes |
| ApstaOwner.Owner.HandleLeave | AirportItlwm/AirportItlwmAPSTAOwner.cpp:1176-1189 | the removal step and its message |
| ApstaOwner.Owner.HandleActionFrame | AirportItlwm/AirportItlwmAPSTAOwner.cpp:1190-1214 | the action-frame step on table and power save |
| ApstaOwner.Owner.PublishStationEventFromNet80211 | AirportItlwm/AirportItlwmAPSTAOwner.cpp:1099-1219 | state, posted messages and return code for every event type and argument, invariant kept |
| ApstaExamples.SleepingOwner | AirportItlwm/AirportItlwmAPSTAOwner.cpp:1099-1219 | a sequence of calls on the object ends in the state of the run of the machine, in low power |
| ScanCursor.NextRenderableScanNode | AirportItlwm/AirportItlwmSkywalkInterface.cpp:6909-6924 | the loop returns the first renderable node from its start |
| ScanCursor.IsRenderableScanNode | AirportItlwm/AirportItlwmSkywalkInterface.cpp:6909-6916 | true exactly for a node with a channel and a non-zero BSSID |
| ScanCursor.Interface.GetScanResult | AirportItlwm/AirportItlwmSkywalkInterface.cpp:7084-7112 | one get on any cursor: result and new cursor; the wrapping flag still implies a null cursor |
| ScanCursor.Interface.SetWclScanAbort | AirportItlwm/AirportItlwmSkywalkInterface.cpp:5327-5363 | an abort resets the cursor |
| ScanCursor.Interface.SetWclConfigBgNetwork | AirportItlwm/AirportItlwmSkywalkInterface.cpp:6225-6243 | a new background network resets the cursor; a null request changes nothing |
| ScanCursor.Interface.SetScanReq | AirportItlwm/AirportItlwmSkywalkInterface.cpp:4944-4963 | refused while the end code is still to come or before the interface is up, else resets the cursor |
| ScanCursor.Interface.SetWclScanReq | AirportItlwm/AirportItlwmSkywalkInterface.cpp:5120-5141 | the same for the WCL request, with its null check first |
| ScanCursor.CursorRunRefines | AirportItlwm/AirportItlwmSkywalkInterface.cpp:7084-7112 | over every interleaving of gets, aborts, new networks and scan requests on an unchanged tree the cursor stands for a position among the renderable nodes |
| ScanCursor.StepAtPosition | AirportItlwm/AirportItlwmSkywalkInterface.cpp:7084-7112 | at each position a get delivers exactly the node there, or code 5 past the last; a scan request is refused with 22 exactly while that code is still to come or before init |
| ScanCursor.GetsCycle | AirportItlwm/AirportItlwmSkywalkInterface.cpp:7084-7112 | repeated gets go round: every renderable node once in tree order, then one end code, then reset, for every round |
| ScanCursor.RenderableNodesMeaning | AirportItlwm/AirportItlwmSkywalkInterface.cpp:6909-6924 | the list holds each node with a channel and a non-zero BSSID byte once, ascending, and no other |
| ScanCursor.WrappingMeansNull | AirportItlwm/AirportItlwmSkywalkInterface.cpp:7084-7112 | whatever happens to the tree between calls, the wrapping flag comes with a null cursor |
| ScanCursor.GetBgscanCacheResult | AirportItlwm/AirportItlwmSkywalkInterface.cpp:7114-7148 | an error without a list to fill; otherwise the cache list is the first renderable nodes up to 140 |
| ScanCursor.EnumerationsAgree | AirportItlwm/AirportItlwmSkywalkInterface.cpp:7084-7148 | the cache list is exactly what the first gets of a cursor cycle deliver, in the same order |
| TxPower.FindDecade | AirportItlwm/AirportItlwmSkywalkInterface.cpp:424-431 | from any start below -40 the loop ends with a table index and a power of ten, one factor for every 40 steps, at most 10000 from the decoder's starts |
| TxPower.DecodeQTxpowerRaw | AirportItlwm/AirportItlwmSkywalkInterface.cpp:418-437 | the loop computes the closed form: the entry of the decade, divided by the power of ten and rounded |
| TxPower.EncodeQTxpowerFromMw | AirportItlwm/AirportItlwmSkywalkInterface.cpp:452-469 | the loop picks the first nearest table entry for every 32-bit value |
| TxPower.DecodeEncodeIsNearest | AirportItlwm/AirportItlwmSkywalkInterface.cpp:418-469 | decoding an encoded value gives the nearest table entry, the smaller on a tie |
| TxPower.EncodeMonotone | AirportItlwm/AirportItlwmSkywalkInterface.cpp:452-469 | more milliwatts never encode to a smaller byte |
| TxPower.DecodeMonotone | AirportItlwm/AirportItlwmSkywalkInterface.cpp:418-437 | a larger byte never decodes to fewer milliwatts, across decades and saturation |
| TxPower.EncodeDecodeIff | AirportItlwm/AirportItlwmSkywalkInterface.cpp:418-469 | a byte survives decoding and encoding exactly when it lies in 0x99..0xc0 |
| TxPower.EncodeIsStable | AirportItlwm/AirportItlwmSkywalkInterface.cpp:418-469 | encoding a decoded encoding changes nothing |
| TxPower.DecodeFits | AirportItlwm/AirportItlwmSkywalkInterface.cpp:434-434 | every decoded value fits 16 bits, so the final mask changes nothing |
| TxPowerAccuracy.TableIsRounded | AirportItlwm/AirportItlwmSkywalkInterface.cpp:410-416 | what the table is: entry i is 10^((0x99 + i) / 40) rounded to the nearest integer, a quarter of a decibel per step |
| TxPowerAccuracy.DecodeIsRoundedIff | AirportItlwm/AirportItlwmSkywalkInterface.cpp:418-437 | the decoder gives 10^(raw / 40) milliwatts correctly rounded for every byte below saturation exactly when the byte is not 0x85 |
| TxPowerAccuracy.SaturationIsNeeded | AirportItlwm/AirportItlwmSkywalkInterface.cpp:418-437 | from 0xc1 on the decoder gives 65535, and the power lies above what 16 bits can hold |
| BssidPublisher.Interface.PublishBssidChangedFromCurrentBss | AirportItlwm/AirportItlwmSkywalkInterface.cpp:725-764 | publishes exactly a running, non-zero BSS, unless the last entry of the log is the same address |
| BssidPublisher.Interface.SetLinkStateInternal | AirportItlwm/AirportItlwmSkywalkInterface.cpp:2751-2796 | an accepted link-up publishes, an accepted link-down forgets, everything else changes nothing |
| BssidPublisher.EveryLogIsGood | AirportItlwm/AirportItlwmSkywalkInterface.cpp:725-764 | over every run no zero address is published, no address twice in a row without a link-down between, and the reason is always the initial one |
| BssidPublisher.ChangeIsPublished | AirportItlwm/AirportItlwmSkywalkInterface.cpp:742-752 | after address a was published, an attempt with a non-zero b, by link-up or directly and after any idle calls, publishes b exactly when it is another address |
| BssidPublisher.FirstIsPublished | AirportItlwm/AirportItlwmSkywalkInterface.cpp:742-764 | the first attempt of all with a non-zero address publishes it |
| BssidPublisher.FirstAfterDownIsPublished | AirportItlwm/AirportItlwmSkywalkInterface.cpp:2751-2796 | the first attempt with a running non-zero BSS after an accepted link-down is published, from an accepted link-up or a direct call, whatever quiet calls come in between and whatever was published before |
| BssidPublisher.QuietIff | AirportItlwm/AirportItlwmSkywalkInterface.cpp:725-764 | after an accepted link-down the log stands still exactly while every call is a rejected or other link change or an attempt without a running non-zero BSS |
| CountryCode.CopyCurrentBss80211dCountry | AirportItlwm/AirportItlwmCountryCode.hpp:75-121 | returns the first valid Country element of a running BSS and zeros otherwise |
| CountryCode.ScanForCountry | AirportItlwm/AirportItlwmCountryCode.hpp:100-118 | the loop finds the first valid Country element |
| CountryCode.FirstCountryMeaning | AirportItlwm/AirportItlwmCountryCode.hpp:100-118 | short and invalid Country elements are skipped; the first valid one decides |
| CountryCode.ShortListHasNoCountry | AirportItlwm/AirportItlwmCountryCode.hpp:97-98 | the length guard before the loop never hides a country |
| CountryCode.CopyAlpha2 | AirportItlwm/AirportItlwmCountryCode.hpp:37-50 | the output is the two characters and NUL, or ZZ and NUL |
| CountryCode.SelectCountryCode | AirportItlwm/AirportItlwmCountryCode.hpp:123-148 | the output is the selected pair and NUL, the sources tried in the stated order, for every combination of them |
| CountryCode.SelectionMeaning | AirportItlwm/AirportItlwmCountryCode.hpp:123-148 | the selected characters are never NUL, and they are a fallback code exactly when the override is one, or without override firmware, BSS and geolocation offer nothing else |
| CountryCode.Precedence | AirportItlwm/AirportItlwmCountryCode.hpp:123-148 | an override decides whatever the others say; without one a firmware code that names a country, then the BSS, then geolocation, then whatever the firmware offers, then ZZ |

## Left out

- Writes by other files through `stateBlock()`: assumed absent, except for the starting enable byte.
- IOKit object lifetime, PCI set-up, timers, thread calls, queues, registry properties and logging: foreign calls whose effect is not visible here.
- HAL and net80211 internals: only presence, answers and the up/down state of the lower AP are modelled; the configuration passed to `startAPMode` is not.
- Owner fields that no modelled branch reads (`resetFlag329`, the runtime words, queue and resource addresses, reserved bytes of a station entry) and the interface name and role kept after `initWithController`.
- Owner calls that only pass data to the HAL or return constants (`setCipherKey`, `setChannel`, `triggerCSA`, `setSoftAPExtCaps`, `setBeaconTemplate`, `getStaStats` and similar): they do not write the table, counter, power-save or lifecycle fields.
- The RSN cipher and authentication masks (`setRsnConf`): bounded table look-ups without state.
- Overlap of source and destination in `memcpy`: constant input is a value, so a caller that passes overlapping buffers is not modelled.
- Node removal from the scan tree while the cursor points into it: gets require the cursor's node to be in the tree they run on.
- The contents of scan results, link-changed and BSSID-changed messages beyond node, address and reason.
- `encodeAppleTahoeQTxpowerBootstrap` and the raw-byte cache: a clamp and a store.
- The duplicated decoder and cursor in `AirportItlwm/AirportSTAIOCTL.cpp`, and the SSID, STA and AWDL ioctl tables.
- BeaconIeBuilder.ContainsElement: asks that no 32-bit offset of the walk wraps, because beyond that the code reads behind the list or walks it again from near the start.
- BeaconIeBuilder.AppendTaggedIeTail: the same.
- BeaconIeBuilder.BuildCurrentBssIeStream: the same, for the raw tail.
- CountryCode.CopyCurrentBss80211dCountry: the same.
- CountryCode.ScanForCountry: the same.
- CountryCode.SelectCountryCode: the same.
- BssidPublisher.Interface.PublishBssidChangedFromCurrentBss: does not model that filling the channel may fail, because the code ignores the result.
