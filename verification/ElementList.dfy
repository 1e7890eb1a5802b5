/** The 802.11 element list (IEEE Std 802.11-2016, section 9.4.2.1): records of one id byte, one
    length byte and that many payload bytes. Every scanner and builder loop is related to `Elements`. */
module ElementList {
  import opened MachineTypes

  type Element = e: seq<byte> | |e| >= 2 && |e| - 2 == e[1] witness [0, 0]

  predicate CompleteAt(s: seq<byte>, off: nat) {
    off + 2 <= |s| && off + 2 + s[off + 1] <= |s|
  }

  function Next(s: seq<byte>, off: nat): nat
    requires CompleteAt(s, off)
  {
    off + 2 + s[off + 1]
  }

  /** The complete elements from `off` on; a truncated element ends the list. */
  function ElementsFrom(s: seq<byte>, off: nat): seq<Element>
    decreases |s| - off
  {
    if CompleteAt(s, off) then [s[off..Next(s, off)]] + ElementsFrom(s, Next(s, off)) else []
  }

  function Elements(s: seq<byte>): seq<Element> {
    ElementsFrom(s, 0)
  }

  function Flatten(es: seq<Element>): seq<byte> {
    if es == [] then [] else es[0] + Flatten(es[1..])
  }

  ghost predicate HasId(es: seq<Element>, id: byte) {
    exists e :: e in es && e[0] == id
  }

  /** `to` is an element boundary of the walk that starts at `from`. */
  ghost predicate Reaches(s: seq<byte>, from: nat, to: nat)
    decreases |s| - from
  {
    from == to || (CompleteAt(s, from) && Reaches(s, Next(s, from), to))
  }

  /** No 32-bit offset of a walk over `s` wraps: at every boundary the header, and the element behind it,
      end below 2^32. */
  ghost predicate Walkable(s: seq<byte>) {
    forall off: nat | Reaches(s, 0, off) ::
      off + 2 < 0x1_0000_0000 && (off + 2 <= |s| ==> off + 2 + s[off + 1] < 0x1_0000_0000)
  }

  lemma {:induction false} FlattenAppend(a: seq<Element>, b: seq<Element>)
    ensures Flatten(a + b) == Flatten(a) + Flatten(b)
  {
    if a == [] {
      assert a + b == b;
    } else {
      assert (a + b)[1..] == a[1..] + b;
      FlattenAppend(a[1..], b);
    }
  }

  /** Elements are found again at any offset they were written to. */
  lemma {:induction false} ParseAt(prefix: seq<byte>, es: seq<Element>, junk: seq<byte>)
    requires !CompleteAt(junk, 0)
    ensures ElementsFrom(prefix + Flatten(es) + junk, |prefix|) == es
    decreases es
  {
    var s := prefix + Flatten(es) + junk;
    if es == [] {
      assert s[|prefix|..] == junk;
      assert !CompleteAt(s, |prefix|);
    } else {
      var e := es[0];
      assert s == (prefix + e) + Flatten(es[1..]) + junk;
      assert s[|prefix|..|prefix| + |e|] == e;
      assert s[|prefix| + 1] == e[1];
      ParseAt(prefix + e, es[1..], junk);
    }
  }

  /** Writing a list of elements and parsing it gives the list back. */
  lemma ParseFlatten(es: seq<Element>, junk: seq<byte>)
    requires !CompleteAt(junk, 0)
    ensures Elements(Flatten(es) + junk) == es
    ensures Elements(Flatten(es)) == es
  {
    assert [] + Flatten(es) + junk == Flatten(es) + junk;
    ParseAt([], es, junk);
    assert [] + Flatten(es) + [] == Flatten(es);
    ParseAt([], es, []);
  }

  lemma {:induction false} FlattenFrom(s: seq<byte>, off: nat)
    requires off <= |s|
    ensures var n := |Flatten(ElementsFrom(s, off))|;
            && off + n <= |s|
            && Flatten(ElementsFrom(s, off)) == s[off..off + n]
            && !CompleteAt(s, off + n)
            && Reaches(s, off, off + n)
    decreases |s| - off
  {
    if CompleteAt(s, off) {
      FlattenFrom(s, Next(s, off));
      assert ElementsFrom(s, off)[1..] == ElementsFrom(s, Next(s, off));
    }
  }

  /** Parsing and writing back gives exactly the prefix that precedes the first incomplete element. */
  lemma FlattenParse(s: seq<byte>)
    ensures var n := |Flatten(Elements(s))|;
            n <= |s| && Flatten(Elements(s)) == s[..n] && !CompleteAt(s, n)
  {
    FlattenFrom(s, 0);
  }

  /** The boundary after the first k elements of the list that starts at `from`. */
  function BoundaryOf(s: seq<byte>, from: nat, k: nat): nat
    requires k <= |ElementsFrom(s, from)|
  {
    from + |Flatten(ElementsFrom(s, from)[..k])|
  }

  /** The boundaries of the walk are exactly the ends of the prefixes of the element list. */
  lemma {:induction false} ReachesIffBoundary(s: seq<byte>, from: nat, to: nat)
    requires from <= |s|
    ensures Reaches(s, from, to) <==>
            exists k: nat :: k <= |ElementsFrom(s, from)| && to == BoundaryOf(s, from, k)
    decreases |s| - from
  {
    var es := ElementsFrom(s, from);
    assert BoundaryOf(s, from, 0) == from;
    if CompleteAt(s, from) {
      var next := Next(s, from);
      ReachesIffBoundary(s, next, to);
      assert es[1..] == ElementsFrom(s, next);
      forall k: nat | k < |es| ensures BoundaryOf(s, from, k + 1) == BoundaryOf(s, next, k) {
        assert es[..k + 1][1..] == es[1..][..k];
      }
      if Reaches(s, from, to) && from != to {
        var k: nat :| k <= |ElementsFrom(s, next)| && to == BoundaryOf(s, next, k);
        assert to == BoundaryOf(s, from, k + 1);
      }
      if k: nat :| k <= |es| && to == BoundaryOf(s, from, k) {
        if k > 0 {
          assert BoundaryOf(s, from, (k - 1) + 1) == BoundaryOf(s, next, k - 1);
          assert Reaches(s, next, to);
        }
      }
    }
  }

  lemma {:induction false} ReachesMonotone(s: seq<byte>, from: nat, to: nat)
    requires Reaches(s, from, to)
    ensures from <= to
    ensures from <= |s| ==> to <= |s|
    decreases |s| - from
  {
    if from != to {
      ReachesMonotone(s, Next(s, from), to);
    }
  }

  /** A header inside the list advances by at most 2 + 255, so length alone settles it up to 2^32 - 256. */
  lemma LengthMakesWalkable(s: seq<byte>)
    requires |s| <= 0xFFFF_FF00
    ensures Walkable(s)
  {
    forall off: nat | Reaches(s, 0, off) ensures off <= |s| {
      ReachesMonotone(s, 0, off);
    }
  }

  lemma {:induction false} ReachesStep(s: seq<byte>, from: nat, to: nat)
    requires Reaches(s, from, to) && CompleteAt(s, to)
    ensures Reaches(s, from, Next(s, to))
    decreases |s| - from
  {
    if from != to {
      ReachesStep(s, Next(s, from), to);
    }
  }

  /** Two boundaries of one walk are on one path. */
  lemma {:induction false} ReachesLinear(s: seq<byte>, from: nat, a: nat, b: nat)
    requires Reaches(s, from, a) && Reaches(s, from, b) && a <= b
    ensures Reaches(s, a, b)
    decreases |s| - from
  {
    if from != a {
      ReachesMonotone(s, Next(s, from), a);
      ReachesLinear(s, Next(s, from), a, b);
    }
  }

  /** The element found at a boundary is one of the list. */
  lemma {:induction false} ElementAtBoundary(s: seq<byte>, from: nat, to: nat)
    requires Reaches(s, from, to) && CompleteAt(s, to)
    ensures s[to..Next(s, to)] in ElementsFrom(s, from)
    decreases |s| - from
  {
    if from != to {
      ElementAtBoundary(s, Next(s, from), to);
    }
  }

  /** Every element of the list stands at some boundary. */
  lemma {:induction false} BoundaryOfElement(s: seq<byte>, from: nat, e: Element) returns (to: nat)
    requires e in ElementsFrom(s, from)
    ensures Reaches(s, from, to) && CompleteAt(s, to) && e == s[to..Next(s, to)]
    decreases |s| - from
  {
    if e == s[from..Next(s, from)] {
      to := from;
    } else {
      to := BoundaryOfElement(s, Next(s, from), e);
    }
  }
}
