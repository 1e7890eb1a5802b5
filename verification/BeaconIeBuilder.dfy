/** TahoeBeaconIeBuilder: rebuilds the information-element stream of the current BSS. */
module BeaconIeBuilder {
  import opened ByteBuffers
  import opened MachineTypes
  import opened ElementList

  const ELEMENT_ID_SSID: byte := 0
  const ELEMENT_ID_TIM: byte := 5
  const DEFAULT_DTIM_PERIOD: byte := 1

  // ---------- specification ----------

  /** The arguments that fill the synthesized SSID and TIM elements. `ssid` is empty for a null
      argument, whatever `ssidLen` says. */
  datatype Fill = Fill(ssid: seq<byte>, ssidLen: byte, dtimCount: byte, dtimPeriod: byte) {
    predicate Valid() { ssid == [] || |ssid| == ssidLen }

    /** A length byte without its payload is written only for a null SSID of non-zero length. */
    predicate HasPayload() { |ssid| == ssidLen }

    function SsidBytes(): seq<byte> { [ELEMENT_ID_SSID, ssidLen] + ssid }

    function Tim(): Element {
      [ELEMENT_ID_TIM, 4, dtimCount, if dtimPeriod != 0 then dtimPeriod else DEFAULT_DTIM_PERIOD, 0, 0]
    }
  }

  /** Elements are kept in order until the first that does not fit. */
  function FitPrefix(es: seq<Element>, room: int): seq<Element> {
    if es == [] || |es[0]| > room then [] else [es[0]] + FitPrefix(es[1..], room - |es[0]|)
  }

  /** A synthesized element is written if the raw list lacks it and it fits. */
  function SsidPart(hasSsid: bool, f: Fill, room: int): seq<byte> {
    if hasSsid || room < 2 + f.ssidLen then [] else f.SsidBytes()
  }

  function TimPart(hasTim: bool, f: Fill, room: int): seq<byte> {
    if hasTim || room < 6 then [] else f.Tim()
  }

  function SynthesizedBytes(hasSsid: bool, hasTim: bool, f: Fill, capacity: nat): seq<byte> {
    var ssid := SsidPart(hasSsid, f, capacity);
    ssid + TimPart(hasTim, f, capacity - |ssid|)
  }

  ghost function HeadBytes(raw: seq<byte>, f: Fill, capacity: nat): seq<byte> {
    SynthesizedBytes(HasId(Elements(raw), ELEMENT_ID_SSID), HasId(Elements(raw), ELEMENT_ID_TIM), f, capacity)
  }

  ghost function OutputBytes(raw: seq<byte>, f: Fill, capacity: nat): seq<byte> {
    var head := HeadBytes(raw, f, capacity);
    head + TailBytes(raw, 0, capacity - |head|)
  }

  /** The synthesized pieces: the SSID if missing and fitting, then the TIM likewise. */
  ghost function HeadPieces(raw: seq<byte>, f: Fill, capacity: nat): seq<seq<byte>> {
    var noSsid := HasId(Elements(raw), ELEMENT_ID_SSID) || capacity < 2 + f.ssidLen;
    var used := if noSsid then 0 else |f.SsidBytes()|;
    var noTim := HasId(Elements(raw), ELEMENT_ID_TIM) || capacity - used < 6;
    (if noSsid then [] else [f.SsidBytes()]) + (if noTim then [] else [f.Tim()])
  }

  /** What the stream is meant to hold: SSID if missing and fitting, TIM if missing and fitting, then
      as many of the raw elements as still fit. */
  ghost function Pieces(raw: seq<byte>, f: Fill, capacity: nat): seq<seq<byte>> {
    HeadPieces(raw, f, capacity) + FitPrefix(Elements(raw), capacity - |HeadBytes(raw, f, capacity)|)
  }

  /** No SSID header is written without its payload: the payload is there, or the raw list has an SSID,
      or the header does not fit. */
  ghost predicate SsidIsWhole(raw: seq<byte>, f: Fill, capacity: nat) {
    f.HasPayload() || HasId(Elements(raw), ELEMENT_ID_SSID) || capacity < 2 + f.ssidLen
  }

  /** Then the pieces are elements. */
  ghost function BuiltElements(raw: seq<byte>, f: Fill, capacity: nat): seq<Element>
    requires SsidIsWhole(raw, f, capacity)
  {
    HeadElements(raw, f, capacity) + FitPrefix(Elements(raw), capacity - |HeadBytes(raw, f, capacity)|)
  }

  ghost function HeadElements(raw: seq<byte>, f: Fill, capacity: nat): (es: seq<Element>)
    requires SsidIsWhole(raw, f, capacity)
    ensures es == HeadPieces(raw, f, capacity)
  {
    var pieces := HeadPieces(raw, f, capacity);
    assert forall i | 0 <= i < |pieces| :: |pieces[i]| >= 2 && |pieces[i]| - 2 == pieces[i][1];
    pieces
  }

  /** What the tail copier writes from the element boundary `off` on. */
  ghost function TailBytes(s: seq<byte>, off: nat, room: int): seq<byte> {
    Flatten(FitPrefix(ElementsFrom(s, off), room))
  }

  // ---------- properties of the specification ----------

  lemma PrefixLength(es: seq<Element>, j: nat)
    requires 0 < j <= |es|
    ensures |Flatten(es[..j])| == |es[0]| + |Flatten(es[1..][..j - 1])|
  {
    assert es[..j][1..] == es[1..][..j - 1];
  }

  /** `FitPrefix` is the longest prefix whose bytes fit. */
  lemma {:induction false} FitPrefixIsLongest(es: seq<Element>, room: nat)
    ensures var k := |FitPrefix(es, room)|;
            && k <= |es|
            && FitPrefix(es, room) == es[..k]
            && |Flatten(es[..k])| <= room
            && forall j: nat | j <= |es| && |Flatten(es[..j])| <= room :: j <= k
  {
    assert Flatten([]) == [];
    if es != [] && |es[0]| <= room {
      var k := |FitPrefix(es[1..], room - |es[0]|)|;
      FitPrefixIsLongest(es[1..], room - |es[0]|);
      PrefixLength(es, k + 1);
    }
    forall j: nat | 0 < j <= |es| ensures |Flatten(es[..j])| == |es[0]| + |Flatten(es[1..][..j - 1])| {
      PrefixLength(es, j);
    }
  }

  lemma FitPrefixWhole(es: seq<Element>, room: nat)
    requires |Flatten(es)| <= room
    ensures FitPrefix(es, room) == es
  {
    FitPrefixIsLongest(es, room);
    assert es[..|es|] == es;
  }

  lemma HeadIsFlat(raw: seq<byte>, f: Fill, capacity: nat)
    requires SsidIsWhole(raw, f, capacity)
    ensures HeadBytes(raw, f, capacity) == Flatten(HeadElements(raw, f, capacity))
    ensures |HeadBytes(raw, f, capacity)| <= capacity
  {
    var tim, head := f.Tim(), HeadElements(raw, f, capacity);
    assert Flatten([tim]) == tim;
    if HasId(Elements(raw), ELEMENT_ID_SSID) || capacity < 2 + f.ssidLen {
      assert head == [] || head == [tim];
    } else {
      var ssid: Element := f.SsidBytes();
      assert Flatten([ssid]) == ssid;
      FlattenAppend([ssid], [tim]);
      assert head == [ssid] || head == [ssid] + [tim];
    }
  }

  lemma OutputFits(raw: seq<byte>, f: Fill, capacity: nat)
    requires f.Valid()
    ensures |HeadBytes(raw, f, capacity)| <= capacity && |OutputBytes(raw, f, capacity)| <= capacity
  {
    TailFits(raw, 0, capacity - |HeadBytes(raw, f, capacity)|);
  }

  /** With a whole SSID the output is the pieces, one after the other, and parses back to them. */
  lemma WholeOutputParses(raw: seq<byte>, f: Fill, capacity: nat)
    requires SsidIsWhole(raw, f, capacity)
    ensures OutputBytes(raw, f, capacity) == Flatten(BuiltElements(raw, f, capacity))
    ensures Elements(OutputBytes(raw, f, capacity)) == BuiltElements(raw, f, capacity) == Pieces(raw, f, capacity)
  {
    HeadIsFlat(raw, f, capacity);
    FlattenAppend(HeadElements(raw, f, capacity),
                  FitPrefix(Elements(raw), capacity - |HeadBytes(raw, f, capacity)|));
    ParseFlatten(BuiltElements(raw, f, capacity), []);
  }

  /** A header without its payload is no element, so no parse can give it back. */
  lemma BareHeaderIsNoElement(raw: seq<byte>, f: Fill, capacity: nat, es: seq<Element>)
    requires f.Valid() && !SsidIsWhole(raw, f, capacity)
    ensures es != Pieces(raw, f, capacity)
  {
    assert Pieces(raw, f, capacity)[0] == [ELEMENT_ID_SSID, f.ssidLen];
    if es != [] {
      var e := es[0];
      assert |e| - 2 == e[1];
      assert e != [ELEMENT_ID_SSID, f.ssidLen];
    }
  }

  /** Exact meaning of the builder, for all arguments: the output fits, and it parses completely into the
      intended pieces exactly when no SSID header is written without its payload. */
  lemma OutputParses(raw: seq<byte>, f: Fill, capacity: nat)
    requires f.Valid()
    ensures |OutputBytes(raw, f, capacity)| <= capacity
    ensures Elements(OutputBytes(raw, f, capacity)) == Pieces(raw, f, capacity)
            <==> f.HasPayload() || HasId(Elements(raw), ELEMENT_ID_SSID) || capacity < 2 + f.ssidLen
  {
    OutputFits(raw, f, capacity);
    if SsidIsWhole(raw, f, capacity) {
      WholeOutputParses(raw, f, capacity);
    } else {
      BareHeaderIsNoElement(raw, f, capacity, Elements(OutputBytes(raw, f, capacity)));
    }
  }

  /** The stream for an empty raw list: SSID "ab", then a TIM with the DTIM count, a zero DTIM period replaced
      by 1, and an empty bitmap. */
  lemma FreshStream(dtimCount: byte, dtimPeriod: byte)
    ensures OutputBytes([], Fill(['a' as int, 'b' as int], 2, dtimCount, dtimPeriod), 64)
            == [0, 2, 97, 98, 5, 4, dtimCount, if dtimPeriod == 0 then 1 else dtimPeriod, 0, 0]
  {
    assert Elements([]) == [];
  }

  /** A null SSID of length 3 makes the SSID element swallow the first bytes of the TIM element. */
  lemma NullSsidSwallowsTim()
    ensures var f := Fill([], 3, 7, 1);
            var out := OutputBytes([], f, 64);
            out == [0, 3, 5, 4, 7, 1, 0, 0] && !HasId(Elements(out), ELEMENT_ID_TIM)
  {
    var f := Fill([], 3, 7, 1);
    var out := OutputBytes([], f, 64);
    assert Elements([]) == [];
    assert HeadBytes([], f, 64) == [0, 3] + f.Tim();
    assert out == [0, 3, 5, 4, 7, 1, 0, 0];
    assert ElementsFrom(out, 7) == [];
    assert ElementsFrom(out, 5) == [out[5..7]] + ElementsFrom(out, 7);
  }

  /** With enough room nothing of the raw list is lost, and both ids are there. */
  lemma AmpleCapacityKeepsAll(raw: seq<byte>, f: Fill, capacity: nat)
    requires f.HasPayload() || HasId(Elements(raw), ELEMENT_ID_SSID)
    requires capacity >= |raw| + |f.ssid| + 8
    ensures BuiltElements(raw, f, capacity) == HeadElements(raw, f, capacity) + Elements(raw)
    ensures HasId(BuiltElements(raw, f, capacity), ELEMENT_ID_SSID)
    ensures HasId(BuiltElements(raw, f, capacity), ELEMENT_ID_TIM)
  {
    AmpleTail(raw, f, capacity);
    AmpleHead(raw, f, capacity);
    var head, es := HeadElements(raw, f, capacity), Elements(raw);
    var built := BuiltElements(raw, f, capacity);
    hide *;
    HasIdInConcat(head, es, ELEMENT_ID_SSID);
    HasIdInConcat(head, es, ELEMENT_ID_TIM);
  }

  lemma AmpleTail(raw: seq<byte>, f: Fill, capacity: nat)
    requires f.HasPayload() || HasId(Elements(raw), ELEMENT_ID_SSID)
    requires capacity >= |raw| + |f.ssid| + 8
    ensures BuiltElements(raw, f, capacity) == HeadElements(raw, f, capacity) + Elements(raw)
  {
    hide Elements, HasId, FitPrefix;
    FlattenParse(raw);
    FitPrefixWhole(Elements(raw), capacity - |HeadBytes(raw, f, capacity)|);
  }

  lemma AmpleHead(raw: seq<byte>, f: Fill, capacity: nat)
    requires f.HasPayload() || HasId(Elements(raw), ELEMENT_ID_SSID)
    requires capacity >= |raw| + |f.ssid| + 8
    ensures var head := HeadElements(raw, f, capacity);
            && (HasId(head, ELEMENT_ID_SSID) || HasId(Elements(raw), ELEMENT_ID_SSID))
            && (HasId(head, ELEMENT_ID_TIM) || HasId(Elements(raw), ELEMENT_ID_TIM))
  {
    hide Elements;
    var head := HeadElements(raw, f, capacity);
    if !HasId(Elements(raw), ELEMENT_ID_SSID) {
      assert head[0] == f.SsidBytes() && head[0] in head;
    }
    if !HasId(Elements(raw), ELEMENT_ID_TIM) {
      assert head[|head| - 1] == f.Tim() && head[|head| - 1] in head;
    }
  }

  lemma HasIdInConcat(a: seq<Element>, b: seq<Element>, id: byte)
    ensures HasId(a + b, id) <==> HasId(a, id) || HasId(b, id)
  {
    if e :| e in a && e[0] == id {
      assert e in a + b;
    }
    if e :| e in b && e[0] == id {
      assert e in a + b;
    }
  }

  /** The two ids are in the stream, or their elements would not fit the capacity on their own. */
  ghost predicate NothingToAdd(x: seq<byte>, f: Fill, capacity: nat) {
    && (HasId(Elements(x), ELEMENT_ID_SSID) || capacity < 2 + f.ssidLen)
    && (HasId(Elements(x), ELEMENT_ID_TIM) || capacity < 6)
  }

  /** The stream is just what a null SSID of non-zero length makes the builder write, and its length byte
      reaches beyond the end, so it holds no complete element. */
  predicate IsBareHead(x: seq<byte>, f: Fill, capacity: nat) {
    && !f.HasPayload() && 2 + f.ssidLen <= capacity && |x| < 2 + f.ssidLen
    && x == f.SsidBytes() + (if capacity < 8 then [] else f.Tim())
  }

  lemma NoHeadMeansNothingToAdd(x: seq<byte>, f: Fill, capacity: nat)
    ensures HeadBytes(x, f, capacity) == [] <==> NothingToAdd(x, f, capacity)
  {
  }

  lemma BareHeadIsFixed(x: seq<byte>, f: Fill, capacity: nat)
    requires f.Valid() && IsBareHead(x, f, capacity)
    ensures HeadBytes(x, f, capacity) == x == OutputBytes(x, f, capacity) && Elements(x) == []
  {
    assert Elements(x) == [];
  }

  lemma FirstElementId(x: seq<byte>)
    requires x != []
    ensures Elements(x) == [] || HasId(Elements(x), x[0])
  {
    if CompleteAt(x, 0) {
      assert x[..Next(x, 0)] in Elements(x);
    }
  }

  /** A stream that starts with its own synthesized head is a bare head. */
  lemma FixedHeadIsBare(x: seq<byte>, f: Fill, capacity: nat)
    requires f.Valid() && HeadBytes(x, f, capacity) != [] && OutputBytes(x, f, capacity) == x
    ensures IsBareHead(x, f, capacity)
  {
    var es, head := Elements(x), HeadBytes(x, f, capacity);
    assert x[0] == head[0];
    assert head[0] == ELEMENT_ID_SSID || head[0] == ELEMENT_ID_TIM;
    assert !HasId(es, head[0]);
    FirstElementId(x);
    assert es == [] && !CompleteAt(x, 0);
    assert x == head;
    hide HasId, Elements;
  }

  lemma WholeTailIsFixed(x: seq<byte>, capacity: nat)
    ensures TailBytes(x, 0, capacity) == x <==> |x| <= capacity && Flatten(Elements(x)) == x
  {
    var es := Elements(x);
    FlattenParse(x);
    FitPrefixIsLongest(es, capacity);
    var k := |FitPrefix(es, capacity)|;
    assert es == es[..k] + es[k..];
    FlattenAppend(es[..k], es[k..]);
    if |Flatten(es)| <= capacity {
      FitPrefixWhole(es, capacity);
    }
  }

  /** Which byte streams the builder reproduces, for all streams and arguments: the complete ones that fit
      and to which nothing is to be added, and the bare heads. */
  lemma FixedPointIff(x: seq<byte>, f: Fill, capacity: nat)
    requires f.Valid()
    ensures OutputBytes(x, f, capacity) == x
            <==> || (|x| <= capacity && Flatten(Elements(x)) == x && NothingToAdd(x, f, capacity))
                 || IsBareHead(x, f, capacity)
  {
    NoHeadMeansNothingToAdd(x, f, capacity);
    WholeTailIsFixed(x, capacity);
    if IsBareHead(x, f, capacity) {
      BareHeadIsFixed(x, f, capacity);
    } else if HeadBytes(x, f, capacity) == [] {
      assert OutputBytes(x, f, capacity) == TailBytes(x, 0, capacity);
    } else if OutputBytes(x, f, capacity) == x {
      FixedHeadIsBare(x, f, capacity);
    }
    hide HeadBytes, TailBytes, NothingToAdd, Elements, IsBareHead;
  }

  /** The builder reproduces the stream whatever the arguments, given a capacity that holds it. */
  ghost predicate Stable(x: seq<byte>) {
    forall f: Fill, capacity: nat | f.Valid() && |x| <= capacity :: OutputBytes(x, f, capacity) == x
  }

  lemma StableIff(x: seq<byte>)
    ensures Stable(x)
            <==> && Flatten(Elements(x)) == x
                 && HasId(Elements(x), ELEMENT_ID_SSID) && HasId(Elements(x), ELEMENT_ID_TIM)
  {
    hide Elements, HasId, OutputBytes, Flatten;
    var f0, room := Fill([], 0, 0, 0), |x| + 8;
    FixedPointIff(x, f0, room);
    assert f0.Valid() && !IsBareHead(x, f0, room);
    if Flatten(Elements(x)) == x && HasId(Elements(x), ELEMENT_ID_SSID) && HasId(Elements(x), ELEMENT_ID_TIM) {
      forall f: Fill, capacity: nat | f.Valid() && |x| <= capacity ensures OutputBytes(x, f, capacity) == x {
        FixedPointIff(x, f, capacity);
      }
    }
  }

  /** A built stream with a whole SSID, fed back with any other arguments, is reproduced exactly when it
      fits and each of SSID and TIM is among its pieces or would not fit on its own. One with a bare SSID
      header is a stream like any other. */
  lemma RebuildIff(raw: seq<byte>, f: Fill, capacity: nat, f': Fill, capacity': nat)
    requires f.Valid() && f'.Valid()
    ensures var out := OutputBytes(raw, f, capacity);
            OutputBytes(out, f', capacity') == out
            <==> if SsidIsWhole(raw, f, capacity) then
                   Elements(out) == Pieces(raw, f, capacity) && |out| <= capacity' && NothingToAdd(out, f', capacity')
                 else
                   || (|out| <= capacity' && Flatten(Elements(out)) == out && NothingToAdd(out, f', capacity'))
                   || IsBareHead(out, f', capacity')
  {
    var out := OutputBytes(raw, f, capacity);
    FixedPointIff(out, f', capacity');
    if SsidIsWhole(raw, f, capacity) {
      WholeOutputParses(raw, f, capacity);
      if IsBareHead(out, f', capacity') {
        BareHeadIsFixed(out, f', capacity');
      }
    }
    hide OutputBytes, Elements, Pieces, NothingToAdd, SsidIsWhole;
  }

  /** Idempotence: with room for everything, and an SSID payload or an SSID in the raw list, the built
      stream reproduces itself for all later arguments, and the raw list's complete elements are its
      suffix. Whatever the arguments, it does so exactly when it is complete and holds both ids. */
  lemma BuilderIdempotent(raw: seq<byte>, f: Fill, capacity: nat)
    requires f.Valid() && capacity >= |raw| + |f.ssid| + 8
    ensures var out := OutputBytes(raw, f, capacity);
            var es := Elements(out);
            && (f.HasPayload() || HasId(Elements(raw), ELEMENT_ID_SSID) ==>
                  Stable(out) && |Elements(raw)| <= |es| && es[|es| - |Elements(raw)|..] == Elements(raw))
            && (Stable(out) <==> Flatten(es) == out && HasId(es, ELEMENT_ID_SSID) && HasId(es, ELEMENT_ID_TIM))
  {
    StableIff(OutputBytes(raw, f, capacity));
    if f.HasPayload() || HasId(Elements(raw), ELEMENT_ID_SSID) {
      AmpleCapacityKeepsAll(raw, f, capacity);
      WholeOutputParses(raw, f, capacity);
    }
    hide OutputBytes, Stable, HasId, Flatten, HeadElements, FitPrefix;
  }

  /** The buffer after the builder: the part behind the stream is untouched, and the stream parses into
      the intended pieces exactly when no SSID header is written without its payload. */
  lemma BufferAfterBuilder(d: seq<byte>, raw: seq<byte>, f: Fill, capacity: nat)
    requires f.Valid() && capacity <= |d|
    ensures var out := OutputBytes(raw, f, capacity);
            && |out| <= capacity
            && Splice(d, 0, out)[|out|..] == d[|out|..]
            && (Elements(Splice(d, 0, out)[..|out|]) == Pieces(raw, f, capacity)
                <==> SsidIsWhole(raw, f, capacity))
  {
    var out := OutputBytes(raw, f, capacity);
    hide Splice, OutputBytes, Elements, HasId, Pieces;
    OutputParses(raw, f, capacity);
    SpliceMeaning(d, 0, out);
    assert Splice(d, 0, out)[..|out|] == out;
  }

  lemma TailWrite(d: seq<byte>, at: nat, s: seq<byte>, off: nat, room: int, e: seq<byte>, rest: seq<byte>)
    requires CompleteAt(s, off) && e == s[off..Next(s, off)] && |e| <= room
    requires rest == TailBytes(s, Next(s, off), room - |e|)
    requires at + |TailBytes(s, off, room)| <= |d|
    ensures |TailBytes(s, off, room)| == |e| + |rest|
    ensures Splice(Splice(d, at, e), at + |e|, rest) == Splice(d, at, TailBytes(s, off, room))
  {
    hide Splice, TailBytes, ElementsFrom;
    TailStep(s, off, room);
    SpliceAppend(d, at, e, rest);
  }

  /** The output in terms of what the two searches of the raw list found. */
  lemma OutputSplit(raw: seq<byte>, f: Fill, capacity: nat, hasSsid: bool, hasTim: bool, head: seq<byte>,
                    tail: seq<byte>)
    requires f.Valid()
    requires hasSsid <==> HasId(Elements(raw), ELEMENT_ID_SSID)
    requires hasTim <==> HasId(Elements(raw), ELEMENT_ID_TIM)
    requires head == SynthesizedBytes(hasSsid, hasTim, f, capacity) && tail == TailBytes(raw, 0, capacity - |head|)
    ensures OutputBytes(raw, f, capacity) == head + tail && |head| + |tail| <= capacity
  {
    OutputFits(raw, f, capacity);
    hide TailBytes, HasId, Elements;
  }

  /** Writing the head and then the tail writes the output. */
  lemma {:induction false} OutputWritten(was: seq<byte>, raw: seq<byte>, f: Fill, capacity: nat, hasSsid: bool,
                                         hasTim: bool, head: seq<byte>, tail: seq<byte>)
    requires f.Valid() && capacity <= |was|
    requires hasSsid <==> HasId(Elements(raw), ELEMENT_ID_SSID)
    requires hasTim <==> HasId(Elements(raw), ELEMENT_ID_TIM)
    requires head == SynthesizedBytes(hasSsid, hasTim, f, capacity) && tail == TailBytes(raw, 0, capacity - |head|)
    ensures |OutputBytes(raw, f, capacity)| == |head| + |tail| <= capacity
    ensures Splice(Splice(was, 0, head), |head|, tail) == Splice(was, 0, OutputBytes(raw, f, capacity))
  {
    hide *;
    OutputSplit(raw, f, capacity, hasSsid, hasTim, head, tail);
    SpliceAppend(was, 0, head, tail);
  }

  lemma NothingMissing(f: Fill, capacity: nat)
    ensures SynthesizedBytes(true, true, f, capacity) == []
  {
  }

  lemma SsidArgumentIsValid(ssid: ConstBytes, ssidLen: byte, f: Fill)
    requires ssid.Holds(ssidLen) && f.ssid == ssid.Bytes(ssidLen) && f.ssidLen == ssidLen
    ensures f.Valid()
  {
  }

  lemma PartsFit(f: Fill, capacity: nat, hasSsid: bool, hasTim: bool, ssid: seq<byte>, tim: seq<byte>)
    requires f.Valid()
    requires ssid == SsidPart(hasSsid, f, capacity) && tim == TimPart(hasTim, f, capacity - |ssid|)
    ensures SynthesizedBytes(hasSsid, hasTim, f, capacity) == ssid + tim && |ssid| + |tim| <= capacity
  {
  }

  lemma TimWritten(f: Fill, tim: seq<byte>)
    requires tim == [f.dtimCount, if f.dtimPeriod != 0 then f.dtimPeriod else DEFAULT_DTIM_PERIOD, 0, 0]
    ensures [ELEMENT_ID_TIM, 4] + At(tim).Bytes(4) == f.Tim()
  {
    assert tim[..4] == tim;
  }

  lemma HeaderThenBody(d: seq<byte>, at: nat, id: byte, len: byte, body: seq<byte>)
    requires at + 2 + |body| <= |d|
    ensures Splice(d, at, [id, len] + body) == Splice(d[at := id][at + 1 := len], at + 2, body)
  {
    assert ([id, len] + body)[1..] == [len] + body;
    assert ([len] + body)[1..] == body;
  }

  lemma TailFits(s: seq<byte>, off: nat, room: nat)
    ensures |TailBytes(s, off, room)| <= room
  {
    FitPrefixIsLongest(ElementsFrom(s, off), room);
  }

  lemma TailStop(s: seq<byte>, off: nat, room: int)
    requires !CompleteAt(s, off)
    ensures TailBytes(s, off, room) == []
  {
  }

  lemma TailStep(s: seq<byte>, off: nat, room: int)
    requires CompleteAt(s, off)
    ensures var e := s[off..Next(s, off)];
            TailBytes(s, off, room) == if |e| > room then [] else e + TailBytes(s, Next(s, off), room - |e|)
  {
    assert ElementsFrom(s, off)[1..] == ElementsFrom(s, Next(s, off));
  }

  lemma HasIdStep(s: seq<byte>, off: nat, id: byte)
    requires CompleteAt(s, off)
    ensures HasId(ElementsFrom(s, off), id) <==> s[off] == id || HasId(ElementsFrom(s, Next(s, off)), id)
  {
    assert ElementsFrom(s, off) == [s[off..Next(s, off)]] + ElementsFrom(s, Next(s, off));
    HasIdInConcat([s[off..Next(s, off)]], ElementsFrom(s, Next(s, off)), id);
    assert s[off..Next(s, off)] in [s[off..Next(s, off)]];
  }

  lemma NoElementsAtEnd(s: seq<byte>, off: nat, id: byte)
    requires !CompleteAt(s, off)
    ensures !HasId(ElementsFrom(s, off), id)
  {
  }

  // ---------- the code ----------

  method ContainsElement(ies: ConstBytes, iesLen: uint32, elementId: byte) returns (found: bool)
    requires ies.Holds(iesLen)
    requires Walkable(ies.Bytes(iesLen))
    ensures found <==> HasId(Elements(ies.Bytes(iesLen)), elementId)
  {
    hide HasId, ElementsFrom;
    NoElementsAtEnd([], 0, elementId);
    if ies.Null? {
      return false;
    }
    var s := ies.Bytes(iesLen);
    var off: uint32 := 0;
    while off + 2 <= iesLen
      invariant off <= iesLen && Reaches(s, 0, off)
      invariant HasId(Elements(s), elementId) <==> HasId(ElementsFrom(s, off), elementId)
      decreases iesLen - off
    {
      var elemLen := s[off + 1];
      var next: uint32 := off + 2 + elemLen;
      if next > iesLen {
        break;
      }
      HasIdStep(s, off, elementId);
      if s[off] == elementId {
        return true;
      }
      ReachesStep(s, 0, off);
      off := next;
    }
    NoElementsAtEnd(s, off, elementId);
    return false;
  }

  method AppendElement(dst: array?<byte>, capacity: uint32, offset: uint32, elementId: byte,
                       payload: ConstBytes, payloadLen: byte)
    returns (end: uint32)
    requires dst != null ==> capacity <= dst.Length
    requires payload.Holds(payloadLen)
    modifies dst
    ensures dst == null || offset > capacity || capacity - offset < 2 + payloadLen
            ==> end == offset && (dst != null ==> dst[..] == old(dst[..]))
    ensures dst != null && offset <= capacity && capacity - offset >= 2 + payloadLen
            ==> var written := [elementId, payloadLen] + payload.Bytes(payloadLen);
                end == offset + |written| <= capacity && dst[..] == Splice(old(dst[..]), offset, written)
  {
    if dst == null || offset > capacity {
      return offset;
    }
    var totalLen: uint32 := 2 + payloadLen;
    if capacity - offset < totalLen {
      return offset;
    }
    end := offset;
    ghost var was: seq<byte>, body := dst[..], payload.Bytes(payloadLen);
    HeaderThenBody(was, offset, elementId, payloadLen, body);
    dst[end] := elementId;
    end := end + 1;
    dst[end] := payloadLen;
    end := end + 1;
    assert dst[..] == was[offset := elementId][offset + 1 := payloadLen];
    if payloadLen != 0 && payload.At? {
      assert payload.bytes[0..0 + payloadLen] == body;
      CopyBytes(dst, end, payload.bytes, 0, payloadLen);
      end := end + payloadLen;
    } else {
      assert body == [];
    }
  }

  /** The first half of the builder: the missing SSID and TIM elements. */
  method AppendSynthesized(dst: array<byte>, capacity: uint32, ssid: ConstBytes, ssidLen: byte,
                           dtimCount: byte, dtimPeriod: byte, rawHasSsid: bool, rawHasTim: bool)
    returns (offset: uint32)
    requires capacity <= dst.Length && ssid.Holds(ssidLen)
    modifies dst
    ensures var f := Fill(ssid.Bytes(ssidLen), ssidLen, dtimCount, dtimPeriod);
            var head := SynthesizedBytes(rawHasSsid, rawHasTim, f, capacity);
            offset == |head| <= capacity && dst[..] == Splice(old(dst[..]), 0, head)
  {
    hide Splice, SynthesizedBytes, ConstBytes.Bytes, Fill.Tim;
    ghost var f := Fill(ssid.Bytes(ssidLen), ssidLen, dtimCount, dtimPeriod);
    SsidArgumentIsValid(ssid, ssidLen, f);
    ghost var ssidPart := SsidPart(rawHasSsid, f, capacity);
    ghost var timPart := TimPart(rawHasTim, f, capacity - |ssidPart|);
    PartsFit(f, capacity, rawHasSsid, rawHasTim, ssidPart, timPart);
    SpliceAppend(dst[..], 0, ssidPart, timPart);
    SpliceNothing(dst[..], 0);
    offset := 0;
    if !rawHasSsid {
      offset := AppendElement(dst, capacity, offset, ELEMENT_ID_SSID, ssid, ssidLen);
    }
    SpliceNothing(dst[..], offset);
    if !rawHasTim {
      var tim := [dtimCount, if dtimPeriod != 0 then dtimPeriod else DEFAULT_DTIM_PERIOD, 0, 0];
      TimWritten(f, tim);
      offset := AppendElement(dst, capacity, offset, ELEMENT_ID_TIM, At(tim), 4);
    }
  }

  /** The copy loop of `appendTaggedIeTail`. */
  method CopyTail(dst: array<byte>, capacity: uint32, offset: uint32, s: seq<byte>) returns (end: uint32)
    requires offset <= capacity <= dst.Length && |s| < 0x1_0000_0000 && Walkable(s)
    modifies dst
    ensures var kept := TailBytes(s, 0, capacity - offset);
            end == offset + |kept| <= capacity && dst[..] == Splice(old(dst[..]), offset, kept)
  {
    hide Splice, TailBytes;
    end := offset;
    ghost var rest := TailBytes(s, 0, capacity - offset);
    TailFits(s, 0, capacity - offset);
    ghost var goal := Splice(dst[..], offset, rest);
    ghost var goalEnd := offset + |rest|;
    var off: uint32 := 0;
    while off + 2 <= |s|
      invariant off <= |s| && Reaches(s, 0, off) && offset <= end <= capacity
      invariant rest == TailBytes(s, off, capacity - end)
      invariant end + |rest| == goalEnd <= capacity
      invariant Splice(dst[..], end, rest) == goal
      decreases |s| - off
    {
      var elemLen: uint32 := s[off + 1];
      var totalLen: uint32 := 2 + elemLen;
      var next: uint32 := off + totalLen;
      if next > |s| {
        break;
      }
      if capacity - end < totalLen {
        TailStep(s, off, capacity - end);
        SpliceNothing(dst[..], end);
        return;
      }
      ghost var e, d := s[off..next], dst[..];
      rest := TailBytes(s, next, capacity - end - totalLen);
      TailWrite(d, end, s, off, capacity - end, e, rest);
      CopyBytes(dst, end, s, off, totalLen);
      end := end + totalLen;
      ReachesStep(s, 0, off);
      off := next;
    }
    TailStop(s, off, capacity - end);
    SpliceNothing(dst[..], end);
  }

  method AppendTaggedIeTail(dst: array?<byte>, capacity: uint32, offset: uint32, ies: ConstBytes, iesLen: uint32)
    returns (end: uint32)
    requires dst != null ==> capacity <= dst.Length
    requires ies.Holds(iesLen)
    requires Walkable(ies.Bytes(iesLen))
    modifies dst
    ensures dst == null || offset > capacity ==> end == offset && (dst != null ==> dst[..] == old(dst[..]))
    ensures dst != null && offset <= capacity
            ==> var kept := TailBytes(ies.Bytes(iesLen), 0, capacity - offset);
                end == offset + |kept| <= capacity && dst[..] == Splice(old(dst[..]), offset, kept)
  {
    if dst == null || ies.Null? || offset > capacity {
      assert dst != null && offset <= capacity ==> dst[..] == Splice(dst[..], offset, []);
      return offset;
    }
    end := CopyTail(dst, capacity, offset, ies.Bytes(iesLen));
  }

  /** The whole builder writes exactly `OutputBytes` at the start of `dst` and nothing else. */
  method BuildCurrentBssIeStream(ssid: ConstBytes, ssidLen: byte, dtimCount: byte, dtimPeriod: byte,
                                 rawTail: ConstBytes, rawTailLen: uint32,
                                 dst: array?<byte>, capacity: uint32)
    returns (end: uint32)
    requires dst != null ==> capacity <= dst.Length
    requires ssid.Holds(ssidLen)
    requires rawTail.Holds(rawTailLen)
    requires Walkable(rawTail.Bytes(rawTailLen))
    modifies dst
    ensures dst == null ==> end == 0
    ensures dst != null ==>
              var f := Fill(ssid.Bytes(ssidLen), ssidLen, dtimCount, dtimPeriod);
              var out := OutputBytes(rawTail.Bytes(rawTailLen), f, capacity);
              end == |out| <= capacity && dst[..] == Splice(old(dst[..]), 0, out)
  {
    hide Splice, OutputBytes, TailBytes, SynthesizedBytes, HasId, Elements, Walkable, ConstBytes.Bytes;
    if dst == null {
      return 0;
    }
    ghost var raw, was := rawTail.Bytes(rawTailLen), dst[..];
    ghost var f := Fill(ssid.Bytes(ssidLen), ssidLen, dtimCount, dtimPeriod);
    SsidArgumentIsValid(ssid, ssidLen, f);
    var rawHasSsid := ContainsElement(rawTail, rawTailLen, ELEMENT_ID_SSID);
    var rawHasTim := ContainsElement(rawTail, rawTailLen, ELEMENT_ID_TIM);
    ghost var head := SynthesizedBytes(rawHasSsid, rawHasTim, f, capacity);
    ghost var tail := TailBytes(raw, 0, capacity - |head|);
    OutputWritten(was, raw, f, capacity, rawHasSsid, rawHasTim, head, tail);
    if rawHasSsid && rawHasTim {
      NothingMissing(f, capacity);
      SpliceNothing(was, 0);
      end := AppendTaggedIeTail(dst, capacity, 0, rawTail, rawTailLen);
      return;
    }
    var offset := AppendSynthesized(dst, capacity, ssid, ssidLen, dtimCount, dtimPeriod, rawHasSsid, rawHasTim);
    end := AppendTaggedIeTail(dst, capacity, offset, rawTail, rawTailLen);
  }
}
