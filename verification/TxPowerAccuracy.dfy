/** What the table of the power codec means: entry i is 10^((0x99 + i) / 40) milliwatts, rounded -- one step
    of a byte is a quarter of a decibel -- and how exactly the decoder keeps to that below the table. */
module TxPowerAccuracy {
  import opened MachineTypes
  import opened TxPower

  function Power40(x: nat): nat {
    var x2 := x * x;
    var x4 := x2 * x2;
    var x8 := x4 * x4;
    var x16 := x8 * x8;
    x16 * x16 * x8
  }

  /** `mw` is the real number 10^(raw / 40) rounded to the nearest integer: twice it differs from twice the
      power by at most one. Both sides are raised to the 40th. */
  predicate IsRounded(mw: nat, raw: nat) {
    mw >= 1 && Power40(2 * mw - 1) <= Power40(2) * Pow10(raw) < Power40(2 * mw + 1)
  }

  // ---------- powers ----------

  lemma {:induction false} Pow10Add(a: nat, b: nat)
    ensures Pow10(a + b) == Pow10(a) * Pow10(b)
  {
    if a > 0 {
      Pow10Add(a - 1, b);
      assert 10 * (Pow10(a - 1) * Pow10(b)) == (10 * Pow10(a - 1)) * Pow10(b);
    }
  }

  lemma SquareOfProduct(a: nat, b: nat)
    ensures (a * b) * (a * b) == (a * a) * (b * b)
  {
  }

  lemma Power40OfProduct(a: nat, b: nat)
    ensures Power40(a * b) == Power40(a) * Power40(b)
  {
    var a2, b2 := a * a, b * b;
    var a4, b4 := a2 * a2, b2 * b2;
    var a8, b8 := a4 * a4, b4 * b4;
    var a16, b16 := a8 * a8, b8 * b8;
    SquareOfProduct(a, b);
    SquareOfProduct(a2, b2);
    SquareOfProduct(a4, b4);
    SquareOfProduct(a8, b8);
    SquareOfProduct(a16, b16);
    ProductOfProducts(a16 * a16, b16 * b16, a8, b8);
  }

  lemma ProductOfProducts(a: nat, b: nat, c: nat, d: nat)
    ensures (a * b) * (c * d) == (a * c) * (b * d)
  {
  }

  lemma ProductMonotone2(a: nat, b: nat, c: nat, d: nat)
    requires a <= b && c <= d
    ensures a * c <= b * d
  {
  }

  lemma Power40Monotone(a: nat, b: nat)
    requires a <= b
    ensures Power40(a) <= Power40(b)
  {
    var a2, b2 := a * a, b * b;
    var a4, b4 := a2 * a2, b2 * b2;
    var a8, b8 := a4 * a4, b4 * b4;
    var a16, b16 := a8 * a8, b8 * b8;
    ProductMonotone2(a, b, a, b);
    ProductMonotone2(a2, b2, a2, b2);
    ProductMonotone2(a4, b4, a4, b4);
    ProductMonotone2(a8, b8, a8, b8);
    ProductMonotone2(a16, b16, a16, b16);
    ProductMonotone2(a16 * a16, b16 * b16, a8, b8);
  }

  lemma PowTimes(a: nat, b: nat, x: nat, y: nat)
    requires Pow10(a) == x && Pow10(b) == y
    ensures Pow10(a + b) == x * y
  {
    Pow10Add(a, b);
  }

  lemma Power40OfTen(d: nat)
    ensures Power40(Pow10(d)) == Pow10(40 * d)
  {
    hide Pow10;
    var x := Pow10(d);
    Pow10Add(d, d);
    Pow10Add(2 * d, 2 * d);
    Pow10Add(4 * d, 4 * d);
    Pow10Add(8 * d, 8 * d);
    Pow10Add(16 * d, 16 * d);
    Pow10Add(32 * d, 8 * d);
  }

  // ---------- the table ----------

  const TEN_33: nat := 10_0000_0000_0000_0000_0000_0000_0000_0000
  const TEN_41: nat := 10_0000_0000_0000_0000_0000_0000_0000_0000_0000_0000
  const TEN_49: nat := 10_0000_0000_0000_0000_0000_0000_0000_0000_0000_0000_0000_0000
  const TEN_57: nat := 10_0000_0000_0000_0000_0000_0000_0000_0000_0000_0000_0000_0000_0000_0000
  const TEN_65: nat := 10_0000_0000_0000_0000_0000_0000_0000_0000_0000_0000_0000_0000_0000_0000_0000_0000

  lemma Anchors()
    ensures Pow10(4) == 10000 && Pow10(33) == TEN_33 && Pow10(41) == TEN_41 && Pow10(49) == TEN_49
            && Pow10(57) == TEN_57 && Pow10(65) == TEN_65
  {
    assert Pow10(1) == 10 && Pow10(4) == 10000;
    hide Pow10;
    PowTimes(4, 4, 10000, 10000);
    PowTimes(8, 8, 1_0000_0000, 1_0000_0000);
    PowTimes(16, 16, 1_0000_0000_0000_0000, 1_0000_0000_0000_0000);
    PowTimes(1, 32, 10, 1_0000_0000_0000_0000_0000_0000_0000_0000);
    PowTimes(8, 33, 1_0000_0000, TEN_33);
    PowTimes(8, 41, 1_0000_0000, TEN_41);
    PowTimes(8, 49, 1_0000_0000, TEN_49);
    PowTimes(8, 57, 1_0000_0000, TEN_57);
  }

  /** Comparing with 10^(120 + n), given 10^n as a number. */
  lemma Compared(n: nat, ten: nat)
    requires ten == Pow10(n)
    ensures Power40(2) * Pow10(120 + n) == Power40(2000) * ten
  {
    assert Pow10(3) == 1000;
    hide Power40, Pow10;
    Power40OfTen(3);
    Power40OfProduct(2, 1000);
    Pow10Add(120, n);
    Associative(Power40(2), Power40(1000), ten);
  }

  /** The check of one entry against an explicit power of ten, and the next power. */
  lemma Certify(mw: nat, n: nat, ten: nat)
    requires mw >= 1 && ten == Pow10(n)
    requires Power40(2 * mw - 1) <= Power40(2000) * ten < Power40(2 * mw + 1)
    ensures IsRounded(mw, 120 + n) && 10 * ten == Pow10(n + 1)
  {
    assert Pow10(n + 1) == 10 * Pow10(n);
    Compared(n, ten);
    hide Power40, Pow10;
  }

  lemma Associative(a: nat, b: nat, c: nat)
    ensures (a * b) * c == a * (b * c)
  {
  }

  lemma Entries0(i: nat)
    requires 0 <= i < 8
    ensures IsRounded(Entry(i), 0x99 + i)
  {
    hide IsRounded, Pow10;
    Anchors();
    Certify(0x1a1b, 33, 10_0000_0000_0000_0000_0000_0000_0000_0000);
    Certify(0x1ba7, 34, 100_0000_0000_0000_0000_0000_0000_0000_0000);
    Certify(0x1d4b, 35, 1000_0000_0000_0000_0000_0000_0000_0000_0000);
    Certify(0x1f07, 36, 1_0000_0000_0000_0000_0000_0000_0000_0000_0000);
    Certify(0x20de, 37, 10_0000_0000_0000_0000_0000_0000_0000_0000_0000);
    Certify(0x22d1, 38, 100_0000_0000_0000_0000_0000_0000_0000_0000_0000);
    Certify(0x24e1, 39, 1000_0000_0000_0000_0000_0000_0000_0000_0000_0000);
    Certify(0x2710, 40, 1_0000_0000_0000_0000_0000_0000_0000_0000_0000_0000);
  }

  lemma Entries8(i: nat)
    requires 8 <= i < 16
    ensures IsRounded(Entry(i), 0x99 + i)
  {
    hide IsRounded, Pow10;
    Anchors();
    Certify(0x2961, 41, 10_0000_0000_0000_0000_0000_0000_0000_0000_0000_0000);
    Certify(0x2bd4, 42, 100_0000_0000_0000_0000_0000_0000_0000_0000_0000_0000);
    Certify(0x2e6d, 43, 1000_0000_0000_0000_0000_0000_0000_0000_0000_0000_0000);
    Certify(0x312d, 44, 1_0000_0000_0000_0000_0000_0000_0000_0000_0000_0000_0000);
    Certify(0x3417, 45, 10_0000_0000_0000_0000_0000_0000_0000_0000_0000_0000_0000);
    Certify(0x372d, 46, 100_0000_0000_0000_0000_0000_0000_0000_0000_0000_0000_0000);
    Certify(0x3a72, 47, 1000_0000_0000_0000_0000_0000_0000_0000_0000_0000_0000_0000);
    Certify(0x3de9, 48, 1_0000_0000_0000_0000_0000_0000_0000_0000_0000_0000_0000_0000);
  }

  lemma Entries16(i: nat)
    requires 16 <= i < 24
    ensures IsRounded(Entry(i), 0x99 + i)
  {
    hide IsRounded, Pow10;
    Anchors();
    Certify(0x4194, 49, 10_0000_0000_0000_0000_0000_0000_0000_0000_0000_0000_0000_0000);
    Certify(0x4577, 50, 100_0000_0000_0000_0000_0000_0000_0000_0000_0000_0000_0000_0000);
    Certify(0x4994, 51, 1000_0000_0000_0000_0000_0000_0000_0000_0000_0000_0000_0000_0000);
    Certify(0x4df1, 52, 1_0000_0000_0000_0000_0000_0000_0000_0000_0000_0000_0000_0000_0000);
    Certify(0x528f, 53, 10_0000_0000_0000_0000_0000_0000_0000_0000_0000_0000_0000_0000_0000);
    Certify(0x5773, 54, 100_0000_0000_0000_0000_0000_0000_0000_0000_0000_0000_0000_0000_0000);
    Certify(0x5ca2, 55, 1000_0000_0000_0000_0000_0000_0000_0000_0000_0000_0000_0000_0000_0000);
    Certify(0x621f, 56, 1_0000_0000_0000_0000_0000_0000_0000_0000_0000_0000_0000_0000_0000_0000);
  }

  lemma Entries24(i: nat)
    requires 24 <= i < 32
    ensures IsRounded(Entry(i), 0x99 + i)
  {
    hide IsRounded, Pow10;
    Anchors();
    Certify(0x67ef, 57, 10_0000_0000_0000_0000_0000_0000_0000_0000_0000_0000_0000_0000_0000_0000);
    Certify(0x6e18, 58, 100_0000_0000_0000_0000_0000_0000_0000_0000_0000_0000_0000_0000_0000_0000);
    Certify(0x749e, 59, 1000_0000_0000_0000_0000_0000_0000_0000_0000_0000_0000_0000_0000_0000_0000);
    Certify(0x7b87, 60, 1_0000_0000_0000_0000_0000_0000_0000_0000_0000_0000_0000_0000_0000_0000_0000);
    Certify(0x82d9, 61, 10_0000_0000_0000_0000_0000_0000_0000_0000_0000_0000_0000_0000_0000_0000_0000);
    Certify(0x8a99, 62, 100_0000_0000_0000_0000_0000_0000_0000_0000_0000_0000_0000_0000_0000_0000_0000);
    Certify(0x92d0, 63, 1000_0000_0000_0000_0000_0000_0000_0000_0000_0000_0000_0000_0000_0000_0000_0000);
    Certify(0x9b83, 64, 1_0000_0000_0000_0000_0000_0000_0000_0000_0000_0000_0000_0000_0000_0000_0000_0000);
  }

  lemma Entries32(i: nat)
    requires 32 <= i < 40
    ensures IsRounded(Entry(i), 0x99 + i)
  {
    hide IsRounded, Pow10;
    Anchors();
    Certify(0xa4ba, 65, 10_0000_0000_0000_0000_0000_0000_0000_0000_0000_0000_0000_0000_0000_0000_0000_0000);
    Certify(0xae7c, 66, 100_0000_0000_0000_0000_0000_0000_0000_0000_0000_0000_0000_0000_0000_0000_0000_0000);
    Certify(0xb8d3, 67, 1000_0000_0000_0000_0000_0000_0000_0000_0000_0000_0000_0000_0000_0000_0000_0000_0000);
    Certify(0xc3c7, 68, 1_0000_0000_0000_0000_0000_0000_0000_0000_0000_0000_0000_0000_0000_0000_0000_0000_0000);
    Certify(0xcf60, 69, 10_0000_0000_0000_0000_0000_0000_0000_0000_0000_0000_0000_0000_0000_0000_0000_0000_0000);
    Certify(0xdbaa, 70, 100_0000_0000_0000_0000_0000_0000_0000_0000_0000_0000_0000_0000_0000_0000_0000_0000_0000);
    Certify(0xe8ae, 71, 1000_0000_0000_0000_0000_0000_0000_0000_0000_0000_0000_0000_0000_0000_0000_0000_0000_0000);
    Certify(0xf678, 72, 1_0000_0000_0000_0000_0000_0000_0000_0000_0000_0000_0000_0000_0000_0000_0000_0000_0000_0000);
  }

  /** Every entry of the table is the rounded power. */
  lemma TableIsRounded(i: nat)
    requires i < 40
    ensures IsRounded(Entry(i), 0x99 + i)
  {
    hide IsRounded, Entry;
    if i < 8 {
      Entries0(i);
    } else if i < 16 {
      Entries8(i);
    } else if i < 24 {
      Entries16(i);
    } else if i < 32 {
      Entries24(i);
    } else {
      Entries32(i);
    }
  }

  // ---------- the decoder ----------

  lemma Cancel(a: nat, b: nat, c: nat)
    requires c > 0
    ensures a * c <= b * c <==> a <= b
  {
  }

  /** Comparing a power decades up is comparing it here. */
  lemma Scaled(x: nat, raw: nat, d: nat)
    ensures Power40(Pow10(d) * x) <= Power40(2) * Pow10(raw + 40 * d) <==> Power40(x) <= Power40(2) * Pow10(raw)
  {
    var s := Pow10(d);
    PowerPositive(40 * d);
    hide Pow10, Power40;
    Power40OfTen(d);
    Power40OfProduct(s, x);
    Pow10Add(raw, 40 * d);
    Associative(Power40(2), Pow10(raw), Power40(s));
    Cancel(Power40(x), Power40(2) * Pow10(raw), Power40(s));
    assert Power40(s) * Power40(x) == Power40(x) * Power40(s);
  }

  lemma LastDigits(i: nat)
    requires i < 40
    ensures Entry(i) % 10 == 5 <==> i in {10, 12, 13, 20, 34}
    ensures Entry(i) % 100 != 50 && (Entry(i) % 100 == 0 ==> Entry(i) == 10000)
  {
  }

  /** Where an entry lies exactly half-way between two multiples of its scale. */
  lemma Ties(i: nat, s: nat)
    requires i < 40 && s in {10, 100, 1000, 10000}
    ensures Entry(i) % s == s / 2 <==> s == 10 && i in {10, 12, 13, 20, 34}
  {
    LastDigits(i);
    ModOfMod(Entry(i));
    hide Entry;
  }

  lemma ModOfMod(e: nat)
    ensures e % 1000 % 100 == e % 100 && e % 10000 % 100 == e % 100
  {
    var q, r := e / 1000, e % 1000;
    assert e == 1000 * q + r;
    assert e / 100 == 10 * q + r / 100;
    var q', r' := e / 10000, e % 10000;
    assert e == 10000 * q' + r';
    assert e / 100 == 100 * q' + r' / 100;
  }

  lemma TiePowers()
    ensures Pow10(43) == 1000_0000_0000_0000_0000_0000_0000_0000_0000_0000_0000
    ensures Pow10(45) == 10_0000_0000_0000_0000_0000_0000_0000_0000_0000_0000_0000
    ensures Pow10(46) == 100_0000_0000_0000_0000_0000_0000_0000_0000_0000_0000_0000
    ensures Pow10(53) == 10_0000_0000_0000_0000_0000_0000_0000_0000_0000_0000_0000_0000_0000
    ensures Pow10(67)
            == 1000_0000_0000_0000_0000_0000_0000_0000_0000_0000_0000_0000_0000_0000_0000_0000_0000
  {
    Anchors();
    assert Pow10(1) == 10 && Pow10(2) == 100;
    hide Pow10;
    PowTimes(2, 41, 100, TEN_41);
    PowTimes(4, 41, 10000, TEN_41);
    PowTimes(1, 45, 10, 10000 * TEN_41);
    PowTimes(4, 49, 10000, TEN_49);
    PowTimes(2, 65, 100, TEN_65);
  }

  /** At four of them the power reaches the entry, so rounding up is right; at one it stays below. */
  lemma TiesResolved(i: nat)
    requires i in {10, 12, 13, 20, 34}
    ensures Power40(2 * Entry(i)) <= Power40(2) * Pow10(0x99 + i) <==> i != 20
  {
    hide Pow10;
    TiePowers();
    if i == 10 {
      Compared(43, 1000_0000_0000_0000_0000_0000_0000_0000_0000_0000_0000);
      assert Power40(2 * 11885) <= Power40(2000) * 1000_0000_0000_0000_0000_0000_0000_0000_0000_0000_0000;
    } else if i == 12 {
      Compared(45, 10_0000_0000_0000_0000_0000_0000_0000_0000_0000_0000_0000);
      assert Power40(2 * 13335) <= Power40(2000) * 10_0000_0000_0000_0000_0000_0000_0000_0000_0000_0000_0000;
    } else if i == 13 {
      Compared(46, 100_0000_0000_0000_0000_0000_0000_0000_0000_0000_0000_0000);
      assert Power40(2 * 14125) <= Power40(2000) * 100_0000_0000_0000_0000_0000_0000_0000_0000_0000_0000_0000;
    } else if i == 20 {
      Compared(53, 10_0000_0000_0000_0000_0000_0000_0000_0000_0000_0000_0000_0000_0000);
      assert Power40(2 * 21135) > Power40(2000) * 10_0000_0000_0000_0000_0000_0000_0000_0000_0000_0000_0000_0000_0000;
    } else {
      Compared(67, 1000_0000_0000_0000_0000_0000_0000_0000_0000_0000_0000_0000_0000_0000_0000_0000_0000);
      assert Power40(2 * 47315)
             <= Power40(2000) * 1000_0000_0000_0000_0000_0000_0000_0000_0000_0000_0000_0000_0000_0000_0000_0000_0000;
    }
  }

  lemma PositiveFactor(s: nat, v: nat)
    requires s > 0 && v >= 1
    ensures s * (2 * v - 1) == 2 * (s * v) - s && s * (2 * v + 1) == 2 * (s * v) + s && s * v >= s
  {
  }

  /** Rounding a rounded entry by a whole decade is right exactly when it is no tie or the power reaches it. */
  lemma RoundedQuotientIsRounded(e: uint16, raw: nat, d: nat)
    requires 1 <= d <= 4 && Pow10(d) in {10, 100, 1000, 10000} && e >= 6683
    requires IsRounded(e, raw + 40 * d)
    ensures var s := Pow10(d);
            IsRounded(RoundedQuotient(e, s), raw)
            <==> e % s != s / 2 || Power40(2 * e) <= Power40(2) * Pow10(raw + 40 * d)
  {
    var s := Pow10(d);
    var v := RoundedQuotient(e, s);
    QuotientBounds(e, s);
    PositiveFactor(s, v);
    Scaled(2 * v - 1, raw, d);
    Scaled(2 * v + 1, raw, d);
    hide Power40, Pow10, RoundedQuotient;
    if e % s == s / 2 {
      assert s * (2 * v - 1) == 2 * e;
    } else {
      Power40Monotone(s * (2 * v - 1), 2 * e - 1);
    }
    Power40Monotone(2 * e + 1, s * (2 * v + 1));
  }

  lemma QuotientIs(a: nat, s: nat, q: nat)
    requires s > 0 && s * q <= a < s * q + s
    ensures a / s == q
  {
    var p := a / s;
    assert a == p * s + a % s;
    if p < q {
      ProductMonotone(p + 1, q, s);
    } else if p > q {
      ProductMonotone(q + 1, p, s);
    }
  }

  lemma QuotientBounds(e: uint16, s: nat)
    requires s in {10, 100, 1000, 10000} && e >= 6683
    ensures var v := RoundedQuotient(e, s);
            && v >= 1
            && 2 * (s * v) - s <= 2 * e < 2 * (s * v) + s
            && (2 * (s * v) - s == 2 * e <==> e % s == s / 2)
            && (2 * (s * v) - s != 2 * e ==> 2 * (s * v) - s <= 2 * e - 1)
            && 2 * e + 1 <= 2 * (s * v) + s
  {
    var h, k, m := s / 2, e / s, e % s;
    assert s == 2 * h && h <= 5000;
    Division(e, s);
    var v := if m < h then k else k + 1;
    assert s * (k + 1) == s * k + s;
    QuotientIs(h + e, s, v);
    PositiveQuotient(h + e, s, v);
  }

  lemma PositiveQuotient(a: nat, s: nat, v: nat)
    requires s <= a < s * v + s
    ensures v >= 1
  {
  }

  lemma Division(e: nat, s: nat)
    requires s > 0
    ensures e == s * (e / s) + e % s && 0 <= e % s < s
  {
  }

  /** The decoder gives 10^(raw / 40) milliwatts, correctly rounded, for every byte below saturation but one:
      0x85, where rounding the rounded table entry 21135 again gives 2114 although the power is 2113.49. */
  lemma DecodeIsRoundedIff(raw: byte)
    requires raw < 0xc1
    ensures IsRounded(Decode(raw), raw) <==> raw != 0x85
  {
    var i, d := (raw - 0x99) % 40, -((raw - 0x99) / 40);
    TableIsRounded(i);
    Decades(raw);
    Ascending(i, i);
    if d == 0 {
      DecodeInTable(raw);
    } else {
      assert raw + 40 * d == 0x99 + i && Decode(raw) == RoundedQuotient(Entry(i), Pow10(d));
      ScaleOf(d);
      RoundedQuotientIsRounded(Entry(i), raw, d);
      Ties(i, Pow10(d));
      if i in {10, 12, 13, 20, 34} {
        TiesResolved(i);
      }
      hide IsRounded, Entry, Decode, RoundedQuotient, Power40;
    }
  }

  lemma ScaleOf(d: nat)
    requires 1 <= d <= 4
    ensures Pow10(d) in {10, 100, 1000, 10000} && (Pow10(d) == 10 <==> d == 1)
  {
    assert Pow10(1) == 10 && Pow10(2) == 100 && Pow10(3) == 1000 && Pow10(4) == 10000;
  }

  lemma {:induction false} Pow10Monotone(a: nat, b: nat)
    requires a <= b
    ensures Pow10(a) <= Pow10(b)
  {
    if a < b {
      Pow10Monotone(a, b - 1);
    }
  }

  /** From 0xc1 on the decoder gives 65535, and the power is more than 16 bits can hold: it lies above 65535.5. */
  lemma SaturationIsNeeded(raw: byte)
    requires raw >= 0xc1
    ensures Decode(raw) == 65535 && Power40(2 * 65535 + 1) < Power40(2) * Pow10(raw)
  {
    Anchors();
    hide Pow10;
    PowTimes(4, 4, 10000, 10000);
    PowTimes(8, 65, 1_0000_0000, TEN_65);
    Compared(73, 10_0000_0000_0000_0000_0000_0000_0000_0000_0000_0000_0000_0000_0000_0000_0000_0000_0000_0000);
    Pow10Monotone(193, raw);
    ProductMonotone2(Power40(2), Power40(2), Pow10(193), Pow10(raw));
  }
}
