/** The one-byte quarter-dBm transport of transmit power and its conversion to and from milliwatts. */
module TxPower {
  import opened MachineTypes

  const QTXPOWER_TABLE: seq<uint16> := [
    0x1a1b, 0x1ba7, 0x1d4b, 0x1f07, 0x20de, 0x22d1, 0x24e1, 0x2710,
    0x2961, 0x2bd4, 0x2e6d, 0x312d, 0x3417, 0x372d, 0x3a72, 0x3de9,
    0x4194, 0x4577, 0x4994, 0x4df1, 0x528f, 0x5773, 0x5ca2, 0x621f,
    0x67ef, 0x6e18, 0x749e, 0x7b87, 0x82d9, 0x8a99, 0x92d0, 0x9b83,
    0xa4ba, 0xae7c, 0xb8d3, 0xc3c7, 0xcf60, 0xdbaa, 0xe8ae, 0xf678]

  const TABLE_SIZE: nat := 40
  const TABLE_FIRST: int := 0x99
  const TABLE_END: int := 0xc1
  const SATURATED: uint32 := 0xffff

  // ---------- specification ----------

  function Entry(i: int): uint16
    requires 0 <= i < TABLE_SIZE
  {
    QTXPOWER_TABLE[i]
  }

  function Pow10(k: nat): nat {
    if k == 0 then 1 else 10 * Pow10(k - 1)
  }

  /** The table covers one decade; a byte k decades below it is the rounded entry over 10^k. */
  function Decode(raw: byte): nat {
    if raw >= TABLE_END then SATURATED
    else
      var decades := -((raw - TABLE_FIRST) / TABLE_SIZE);
      var scale := Pow10(decades);
      RoundedQuotient(Entry((raw - TABLE_FIRST) % TABLE_SIZE), scale)
  }

  function RoundedQuotient(x: uint16, scale: nat): nat {
    if scale == 0 then 0 else (scale / 2 + x) / scale
  }

  function Distance(mw: int, i: int): nat
    requires 0 <= i < TABLE_SIZE
  {
    if Entry(i) > mw then Entry(i) - mw else mw - Entry(i)
  }

  /** The first index among the first n whose entry is nearest. */
  function NearestAmong(mw: int, n: int): (best: int)
    requires 1 <= n <= TABLE_SIZE
    ensures 0 <= best < n
  {
    if n == 1 then 0
    else
      var best := NearestAmong(mw, n - 1);
      if Distance(mw, n - 1) < Distance(mw, best) then n - 1 else best
  }

  function Encode(mw: uint32): byte {
    TABLE_FIRST + NearestAmong(mw, TABLE_SIZE)
  }

  // ---------- properties ----------

  lemma {:induction false} Ascending(i: int, j: int)
    requires 0 <= i <= j < TABLE_SIZE
    ensures Entry(i) <= Entry(j) && (i < j ==> Entry(i) < Entry(j))
    ensures 6683 <= Entry(i) && Entry(j) <= 63096
    decreases j - i
  {
    assert Entry(0) == 6683 && Entry(39) == 63096;
    if i < j {
      Adjacent(i);
      Ascending(i + 1, j);
    }
  }

  lemma Adjacent(i: int)
    requires 0 <= i < TABLE_SIZE - 1
    ensures Entry(i) < Entry(i + 1)
  {
  }

  /** Inside the table decoding is looking up. */
  lemma DecodeInTable(raw: byte)
    requires TABLE_FIRST <= raw < TABLE_END
    ensures Decode(raw) == Entry(raw - TABLE_FIRST)
  {
  }

  /** `NearestAmong` is nearest, and no earlier entry is as near. */
  lemma {:induction false} NearestFacts(mw: int, n: int, k: int)
    requires 0 <= k < n <= TABLE_SIZE
    ensures var best := NearestAmong(mw, n);
            Distance(mw, best) <= Distance(mw, k) && (k < best ==> Distance(mw, best) < Distance(mw, k))
  {
    hide Distance;
    if n > 1 {
      NearestFacts(mw, n - 1, if k < n - 1 then k else 0);
    }
  }

  /** Decoding an encoded value gives the nearest table entry, the smaller on a tie. */
  lemma DecodeEncodeIsNearest(mw: uint32)
    ensures var v := Decode(Encode(mw));
            var error := if v > mw then v - mw else mw - v;
            && (exists i | 0 <= i < TABLE_SIZE :: v == Entry(i))
            && forall i | 0 <= i < TABLE_SIZE ::
                 error <= Distance(mw, i) && (error == Distance(mw, i) ==> v <= Entry(i))
  {
    var b := NearestAmong(mw, TABLE_SIZE);
    DecodeInTable(Encode(mw));
    forall i | 0 <= i < TABLE_SIZE
      ensures Distance(mw, b) <= Distance(mw, i) && (Distance(mw, b) == Distance(mw, i) ==> Entry(b) <= Entry(i))
    {
      NearestFacts(mw, TABLE_SIZE, i);
      if b <= i {
        Ascending(b, i);
      }
    }
  }

  /** Growing values never turn from a larger entry back to a smaller one. */
  lemma NoCrossing(a: int, b: int, lo: int, hi: int)
    requires a <= b && 0 <= lo < hi < TABLE_SIZE && Distance(a, hi) < Distance(a, lo)
    ensures Distance(b, hi) < Distance(b, lo)
  {
    hide Entry;
    Ascending(lo, hi);
  }

  lemma EncodeMonotone(a: uint32, b: uint32)
    requires a <= b
    ensures Encode(a) <= Encode(b)
  {
    var i, j := NearestAmong(a, TABLE_SIZE), NearestAmong(b, TABLE_SIZE);
    NearestFacts(a, TABLE_SIZE, j);
    NearestFacts(b, TABLE_SIZE, i);
    hide Distance, NearestAmong;
    if j < i {
      NoCrossing(a, b, j, i);
    }
  }

  /** An entry of the table is nearest to itself only. */
  lemma EncodeOfEntry(i: int)
    requires 0 <= i < TABLE_SIZE
    ensures Encode(Entry(i)) == TABLE_FIRST + i
  {
    var b := NearestAmong(Entry(i), TABLE_SIZE);
    assert Distance(Entry(i), i) == 0;
    NearestFacts(Entry(i), TABLE_SIZE, i);
    if b < i {
      Ascending(b, i);
    } else {
      Ascending(i, b);
    }
  }

  lemma DecodeFits(raw: byte)
    ensures Decode(raw) <= SATURATED
  {
    if raw < TABLE_END {
      var i := (raw - TABLE_FIRST) % TABLE_SIZE;
      Decades(raw);
      Ascending(i, i);
      QuotientFits(Entry(i), Pow10(-((raw - TABLE_FIRST) / TABLE_SIZE)));
    }
    hide Entry, RoundedQuotient, Pow10;
  }

  /** The byte survives decoding and encoding exactly when it lies in the table's decade. */
  lemma EncodeDecodeIff(raw: byte)
    ensures Decode(raw) <= SATURATED
    ensures Encode(Decode(raw)) == raw <==> TABLE_FIRST <= raw < TABLE_END
  {
    DecodeFits(raw);
    if TABLE_FIRST <= raw < TABLE_END {
      DecodeInTable(raw);
      EncodeOfEntry(raw - TABLE_FIRST);
    }
  }

  /** Encoding again changes nothing. */
  lemma EncodeIsStable(mw: uint32)
    ensures Decode(Encode(mw)) <= SATURATED && Encode(Decode(Encode(mw))) == Encode(mw)
  {
    EncodeDecodeIff(Encode(mw));
  }

  lemma {:induction false} ProductMonotone(p: nat, q: nat, m: nat)
    requires p <= q
    ensures p * m <= q * m
    decreases q - p
  {
    if p < q {
      ProductMonotone(p, q - 1, m);
      assert q * m == (q - 1) * m + m;
    }
  }

  lemma DivMonotone(a: nat, b: nat, m: nat)
    requires a <= b && m > 0
    ensures a / m <= b / m
  {
    assert a == a / m * m + a % m && b == b / m * m + b % m;
    if b / m < a / m {
      ProductMonotone(b / m + 1, a / m, m);
    }
  }

  lemma QuotientMonotone(x: uint16, y: uint16, scale: nat)
    requires x <= y && scale > 0
    ensures RoundedQuotient(x, scale) <= RoundedQuotient(y, scale)
  {
    DivMonotone(scale / 2 + x, scale / 2 + y, scale);
  }

  /** A quotient of a table entry fits 16 bits, so the decoder's final mask changes nothing. */
  lemma QuotientFits(x: uint16, scale: nat)
    requires x <= 63096 && scale in {1, 10, 100, 1000, 10000}
    ensures RoundedQuotient(x, scale) <= 63096
  {
  }

  lemma Decades(raw: byte)
    requires raw < TABLE_END
    ensures var d := -((raw - TABLE_FIRST) / TABLE_SIZE);
            0 <= d <= 4 && Pow10(d) in {1, 10, 100, 1000, 10000}
  {
    assert Pow10(1) == 10 && Pow10(2) == 100;
    assert Pow10(3) == 1000;
    assert Pow10(4) == 10 * Pow10(3);
  }

  /** The last entry one decade down is below the first entry. */
  lemma DecadeBoundary(scale: nat)
    requires scale in {1, 10, 100, 1000}
    ensures RoundedQuotient(63096, 10 * scale) <= RoundedQuotient(6683, scale)
  {
  }

  lemma DecodeStep(raw: byte)
    requires raw + 1 < TABLE_END
    ensures Decode(raw) <= Decode(raw + 1)
  {
    hide Entry, RoundedQuotient, Pow10;
    Decades(raw);
    Decades(raw + 1);
    var i, d := (raw - TABLE_FIRST) % TABLE_SIZE, -((raw - TABLE_FIRST) / TABLE_SIZE);
    if i < TABLE_SIZE - 1 {
      assert (raw + 1 - TABLE_FIRST) % TABLE_SIZE == i + 1 && -((raw + 1 - TABLE_FIRST) / TABLE_SIZE) == d;
      Ascending(i, i + 1);
      QuotientMonotone(Entry(i), Entry(i + 1), Pow10(d));
    } else {
      assert (raw + 1 - TABLE_FIRST) % TABLE_SIZE == 0 && -((raw + 1 - TABLE_FIRST) / TABLE_SIZE) == d - 1;
      EndsOfTable();
      PowerStep(d - 1);
      DecadeBoundary(Pow10(d - 1));
    }
  }

  lemma EndsOfTable()
    ensures Entry(0) == 6683 && Entry(TABLE_SIZE - 1) == 63096
  {
  }

  lemma PowerStep(k: nat)
    ensures Pow10(k + 1) == 10 * Pow10(k)
    ensures k <= 3 ==> Pow10(k) in {1, 10, 100, 1000}
  {
    if k <= 3 {
      assert Pow10(1) == 10;
      assert Pow10(2) == 10 * Pow10(1);
      assert Pow10(3) == 10 * Pow10(2);
    }
  }

  lemma {:induction false} PowerPositive(k: nat)
    ensures Pow10(k) > 0
  {
    if k > 0 {
      PowerPositive(k - 1);
    }
  }

  /** More quarter-dBm never decode to fewer milliwatts, across decades and saturation. */
  lemma {:induction false} DecodeMonotone(a: byte, b: byte)
    requires a <= b
    ensures Decode(a) <= Decode(b)
    decreases b - a
  {
    if a < b {
      DecodeMonotone(a + 1, b);
      if a + 1 < TABLE_END {
        DecodeStep(a);
      } else if a < TABLE_END {
        DecodeInTable(a);
        Ascending(a - TABLE_FIRST, a - TABLE_FIRST);
      }
    }
  }

  // ---------- the code ----------

  /** The do-while loop of the decoder, from any start below -0x28: it ends with an index into the table
      and a power of ten, one for every 40 steps. From the starts of the decoder, -0xc1 and above, the
      scale stays far below 2^32. */
  method FindDecade(start: int) returns (tableIndex: int, scale: nat)
    requires start < -0x28
    ensures 0 <= tableIndex < TABLE_SIZE
    ensures -0xc1 <= start ==> scale <= 10000
    ensures exists k: nat :: k >= 1 && scale == Pow10(k) && tableIndex == start + 0x50 + TABLE_SIZE * (k - 1)
    ensures scale == Pow10(-((start + 0x28) / TABLE_SIZE)) && tableIndex == (start + 0x28) % TABLE_SIZE
  {
    var current, last := start, start;
    scale := 1;
    ghost var k := 0;
    // do { ... } while (current < -0x28), with its first pass unrolled
    last := current;
    scale := scale * 10;
    current := last + 0x28;
    k := 1;
    while current < -0x28
      invariant k >= 1 && scale == Pow10(k)
      invariant last == start + TABLE_SIZE * (k - 1) && current == last + 0x28
      invariant last < -0x28
      decreases -current
    {
      last := current;
      scale := scale * 10;
      current := last + 0x28;
      k := k + 1;
    }
    tableIndex := last + 0x50;
    assert -0xc1 <= start ==> k in {1, 2, 3, 4};
    assert start + 0x28 == tableIndex - TABLE_SIZE * k;
  }

  lemma DecodeSaturates(raw: byte)
    ensures raw >= TABLE_END ==> Decode(raw) == SATURATED
    ensures Pow10(0) == 1
  {
  }

  lemma DecodeFormula(raw: byte, tableIndex: int, scale: nat)
    requires raw < TABLE_END && scale > 0
    requires tableIndex == (raw - TABLE_FIRST) % TABLE_SIZE && scale == Pow10(-((raw - TABLE_FIRST) / TABLE_SIZE))
    ensures Decode(raw) == (scale / 2 + Entry(tableIndex)) / scale
  {
    hide Entry, Pow10;
  }

  method DecodeQTxpowerRaw(raw: byte) returns (mw: uint32)
    ensures mw == Decode(raw)
  {
    hide Entry, Decode, Pow10;
    DecodeSaturates(raw);
    mw := SATURATED;
    if raw < TABLE_END {
      DecodeFits(raw);
      var tableIndex: int, scale: uint32 := raw - TABLE_FIRST, 1;
      PowerPositive(-((raw - TABLE_FIRST) / TABLE_SIZE));
      if raw < TABLE_FIRST {
        tableIndex, scale := FindDecade(raw - TABLE_END);
      }
      DecodeFormula(raw, tableIndex, scale);
      mw := (scale / 2 + Entry(tableIndex)) / scale % 0x1_0000;
    }
  }

  lemma NearestStep(mw: int, n: int)
    requires 1 <= n < TABLE_SIZE
    ensures var best := NearestAmong(mw, n);
            NearestAmong(mw, n + 1) == if Distance(mw, n) < Distance(mw, best) then n else best
    ensures NearestAmong(mw, 1) == 0
  {
    hide Distance;
  }

  method EncodeQTxpowerFromMw(mw: uint32) returns (raw: byte)
    ensures raw == Encode(mw)
  {
    hide Entry, NearestAmong;
    NearestStep(mw, 1);
    var bestIndex, bestDelta: uint32 := 0, 0xffff_ffff;
    var i := 0;
    while i < TABLE_SIZE
      invariant 0 <= i <= TABLE_SIZE && 0 <= bestIndex < TABLE_SIZE
      invariant i == 0 ==> bestDelta == 0xffff_ffff
      invariant i > 0 ==> bestIndex == NearestAmong(mw, i) && bestDelta == Distance(mw, bestIndex)
    {
      Ascending(i, i);
      if i > 0 {
        NearestStep(mw, i);
      }
      var tableValue := Entry(i);
      var delta: uint32 := if tableValue > mw then tableValue - mw else mw - tableValue;
      if delta < bestDelta {
        bestDelta := delta;
        bestIndex := i;
      }
      i := i + 1;
    }
    raw := TABLE_FIRST + bestIndex;
  }
}
