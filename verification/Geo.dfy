/**
 Geohash codes (src/storage/geo.rs): 26 bits of longitude and 26 of latitude, interleaved in
 one word with longitude on the odd places. Words are 64-bit vectors, coordinates exact
 reals. Facts about words come from small lemmas without recursion; everything else sees a
 word only through its lowest bit and the rest.
 */
module Geo {
  import opened Words

  // ---- Words bit by bit -------------------------------------------------------------

  function Half(w: bv64): bv64 {
    w >> 1
  }

  function Sixteenth(w: bv64): bv64 {
    w >> 4
  }

  predicate Odd(w: bv64) {
    w & 1 == 1
  }

  function Append(w: bv64, low: bool): bv64 {
    (w << 1) | (if low then 1 else 0)
  }

  /** `w >> j`, one place at a time. */
  function Shr(w: bv64, j: nat): bv64 {
    if j == 0 then w else Half(Shr(w, j - 1))
  }

  /** The word fits in `k` bits. */
  predicate Narrow(w: bv64, k: nat) {
    if k == 0 then w == 0 else Narrow(Half(w), k - 1)
  }

  lemma HalfOfAppend(w: bv64, low: bool)
    requires w < 0x8000_0000_0000_0000
    ensures Half(Append(w, low)) == w && Odd(Append(w, low)) == low
  {
  }

  lemma SameHalves(a: bv64, b: bv64)
    requires Half(a) == Half(b) && (Odd(a) <==> Odd(b))
    ensures a == b
  {
  }

  lemma FourHalves(w: bv64)
    ensures Half(Half(Half(Half(w)))) == Sixteenth(w)
  {
  }

  lemma HalfOfZero()
    ensures Half(0) == 0
  {
  }

  lemma SixteenthsOf26(w: bv64)
    ensures Half(Half(Sixteenth(Sixteenth(Sixteenth(Sixteenth(Sixteenth(Sixteenth(w)))))))) == 0 <==> w < 0x400_0000
  {
  }

  lemma SixteenthsOf52(w: bv64)
    ensures Sixteenth(Sixteenth(Sixteenth(Sixteenth(Sixteenth(Sixteenth(Sixteenth(Sixteenth(Sixteenth(Sixteenth(Sixteenth(Sixteenth(Sixteenth(w))))))))))))) == 0
       <==> w < 0x10_0000_0000_0000
  {
  }

  lemma NarrowFour(w: bv64, k: nat)
    ensures Narrow(w, k + 4) == Narrow(Sixteenth(w), k)
  {
    hide Half;
    hide Sixteenth;
    FourHalves(w);
    assert Narrow(w, k + 4) == Narrow(Half(w), k + 3);
    assert Narrow(Half(w), k + 3) == Narrow(Half(Half(w)), k + 2);
    assert Narrow(Half(Half(w)), k + 2) == Narrow(Half(Half(Half(w))), k + 1);
  }

  lemma NarrowTwo(w: bv64)
    ensures Narrow(w, 2) <==> Half(Half(w)) == 0
  {
    hide Half;
    assert Narrow(Half(w), 1) == Narrow(Half(Half(w)), 0);
  }

  lemma Narrow26(w: bv64)
    ensures Narrow(w, 26) <==> w < 0x400_0000
  {
    hide Half;
    hide Sixteenth;
    hide Narrow;
    var a := Sixteenth(w);
    var b := Sixteenth(a);
    var c := Sixteenth(b);
    var d := Sixteenth(c);
    var e := Sixteenth(d);
    NarrowFour(w, 22);
    NarrowFour(a, 18);
    NarrowFour(b, 14);
    NarrowFour(c, 10);
    NarrowFour(d, 6);
    NarrowFour(e, 2);
    NarrowTwo(Sixteenth(e));
    SixteenthsOf26(w);
  }

  lemma Narrow52(w: bv64)
    ensures Narrow(w, 52) <==> w < 0x10_0000_0000_0000
  {
    hide Half;
    hide Sixteenth;
    var a := Sixteenth(Sixteenth(Sixteenth(Sixteenth(w))));
    var b := Sixteenth(Sixteenth(Sixteenth(Sixteenth(a))));
    var c := Sixteenth(Sixteenth(Sixteenth(Sixteenth(b))));
    assert Narrow(Sixteenth(c), 0) <==> Sixteenth(c) == 0;
    hide Narrow;
    NarrowSixteen(w, 36);
    NarrowSixteen(a, 20);
    NarrowSixteen(b, 4);
    NarrowFour(c, 0);
    SixteenthsOf52(w);
  }

  lemma NarrowSixteen(w: bv64, k: nat)
    ensures Narrow(w, k + 16) == Narrow(Sixteenth(Sixteenth(Sixteenth(Sixteenth(w)))), k)
  {
    hide Half;
    hide Sixteenth;
    hide Narrow;
    NarrowFour(w, k + 12);
    NarrowFour(Sixteenth(w), k + 8);
    NarrowFour(Sixteenth(Sixteenth(w)), k + 4);
    NarrowFour(Sixteenth(Sixteenth(Sixteenth(w))), k);
  }

  lemma {:induction false} NarrowMore(w: bv64, k: nat)
    requires Narrow(w, k) && k <= 26
    ensures w < 0x400_0000
    decreases 26 - k
  {
    hide Half;
    if k == 26 {
      Narrow26(w);
    } else {
      NarrowNext(w, k);
      NarrowMore(w, k + 1);
    }
  }

  lemma {:induction false} NarrowNext(w: bv64, k: nat)
    requires Narrow(w, k)
    ensures Narrow(w, k + 1)
    decreases k
  {
    hide Half;
    HalfOfZero();
    if k > 0 {
      NarrowNext(Half(w), k - 1);
    } else {
      assert Narrow(Half(w), 0);
    }
  }

  /** The number in the lowest `k` bits. */
  function Number(w: bv64, k: nat): nat {
    if k == 0 then 0 else 2 * Number(Half(w), k - 1) + (if Odd(w) then 1 else 0)
  }

  /** The word that holds a number of at most 26 bits; `as u64`. */
  function Word(n: nat, k: nat): bv64
    requires n < Pow2(k)
  {
    if k == 0 then 0 else Append(Word(n / 2, k - 1), n % 2 == 1)
  }

  lemma {:induction false} WordHolds(n: nat, k: nat)
    requires n < Pow2(k) && k <= 26
    ensures Narrow(Word(n, k), k) && Number(Word(n, k), k) == n
  {
    hide Half;
    hide Odd;
    hide Append;
    if k > 0 {
      WordHolds(n / 2, k - 1);
      NarrowMore(Word(n / 2, k - 1), k - 1);
      SmallerThanTop(Word(n / 2, k - 1));
      HalfOfAppend(Word(n / 2, k - 1), n % 2 == 1);
    }
  }

  lemma SmallerThanTop(w: bv64)
    requires w < 0x400_0000
    ensures w < 0x8000_0000_0000_0000 && Half(w) < 0x400_0000
  {
  }

  // ---- Interleaving -----------------------------------------------------------------

  /** `spread26`: a zero between any two of the low 26 bits, in five steps. */
  function Spread26(x0: bv64): bv64 {
    var x1 := (x0 | (x0 << 16)) & 0x0000_FFFF_0000_FFFF;
    var x2 := (x1 | (x1 << 8)) & 0x00FF_00FF_00FF_00FF;
    var x3 := (x2 | (x2 << 4)) & 0x0F0F_0F0F_0F0F_0F0F;
    var x4 := (x3 | (x3 << 2)) & 0x3333_3333_3333_3333;
    (x4 | (x4 << 1)) & 0x5555_5555_5555_5555
  }

  function Interleave(x: bv64, y: bv64): bv64 {
    (Spread26(x) << 1) | Spread26(y)
  }

  /** The two lowest bits of a code are the lowest of latitude and of longitude; the rest is a code again. */
  lemma InterleaveHalves(x: bv64, y: bv64)
    requires x < 0x400_0000 && y < 0x400_0000
    ensures Half(Half(Interleave(x, y))) == Interleave(Half(x), Half(y))
  {
  }

  lemma InterleaveBits(x: bv64, y: bv64)
    requires x < 0x400_0000 && y < 0x400_0000
    ensures Odd(Interleave(x, y)) == Odd(y) && Odd(Half(Interleave(x, y))) == Odd(x)
    ensures Interleave(x, y) < 0x10_0000_0000_0000
  {
  }

  /** The number whose bits are every other bit of the word, from its lowest place. */
  function EveryOther(w: bv64, n: nat): (r: nat)
    ensures r < Pow2(n)
  {
    if n == 0 then 0 else 2 * EveryOther(Half(Half(w)), n - 1) + (if Odd(w) then 1 else 0)
  }

  /** Taking a code apart gives back what was interleaved. */
  lemma {:induction false} Uninterleave(x: bv64, y: bv64, n: nat)
    requires x < 0x400_0000 && y < 0x400_0000
    ensures EveryOther(Interleave(x, y), n) == Number(y, n)
    ensures EveryOther(Half(Interleave(x, y)), n) == Number(x, n)
    decreases n
  {
    hide Interleave;
    hide Half;
    hide Odd;
    if n > 0 {
      SmallerThanTop(x);
      SmallerThanTop(y);
      Uninterleave(Half(x), Half(y), n - 1);
      InterleaveHalves(x, y);
      InterleaveBits(x, y);
    }
  }

  /** A word of 2n bits is fixed by its even and its odd bits. */
  lemma {:induction false} SameBitsSameWord(a: bv64, b: bv64, n: nat)
    requires Narrow(a, 2 * n) && Narrow(b, 2 * n)
    requires EveryOther(a, n) == EveryOther(b, n) && EveryOther(Half(a), n) == EveryOther(Half(b), n)
    ensures a == b
    decreases n
  {
    hide Half;
    hide Odd;
    if n > 0 {
      assert Narrow(Half(Half(a)), 2 * n - 2) && Narrow(Half(Half(b)), 2 * n - 2) by {
        assert Narrow(Half(a), 2 * n - 1) && Narrow(Half(b), 2 * n - 1);
      }
      SameBitsSameWord(Half(Half(a)), Half(Half(b)), n - 1);
      SameHalves(Half(a), Half(b));
      SameHalves(a, b);
    }
  }

  // ---- Coordinates ------------------------------------------------------------------

  const CELLS: nat := 0x400_0000
  const SCALE: real := 67108864.0

  lemma CellsArePow2()
    ensures Pow2(26) == CELLS
  {
    assert Pow2(10) == 1024;
    Pow2Add(10, 10);
    Pow2Add(20, 6);
    assert Pow2(6) == 64;
  }

  datatype Axis = Axis(min: real, range: real) {
    predicate Ok() {
      range > 0.0
    }

    /** Where the cell's centre lies. */
    function Centre(cell: nat): real {
      min + (cell as real + 0.5) * (range / SCALE)
    }

    /** `encode`'s index: scaled, truncated toward zero, and clamped to 26 bits. */
    function Index(x: real): (i: nat)
      requires Ok()
      ensures i < CELLS
    {
      Clamp(Truncate((x - min) / range * SCALE))
    }
  }

  const LON: Axis := Axis(-180.0, 360.0)
  const LAT: Axis := Axis(-85.05112878, 85.05112878 * 2.0)

  /** A cast to `i64`: toward zero, and saturating. */
  function Truncate(x: real): int {
    var t := if x >= 0.0 then x.Floor else -(-x).Floor;
    if t < -0x8000_0000_0000_0000 then -0x8000_0000_0000_0000 else if t > 0x7fff_ffff_ffff_ffff then 0x7fff_ffff_ffff_ffff else t
  }

  function Clamp(i: int): (r: nat)
    ensures r < CELLS
  {
    if i < 0 then 0 else if i > CELLS - 1 then CELLS - 1 else i
  }

  function Encode(lon: real, lat: real): bv64 {
    CellsArePow2();
    Interleave(Word(LON.Index(lon), 26), Word(LAT.Index(lat), 26))
  }

  /** The centre of the cell that a code names. */
  function Decoded(bits: bv64): (real, real) {
    (LON.Centre(EveryOther(Half(bits), 26)), LAT.Centre(EveryOther(bits, 26)))
  }

  /** An axis after `m` halvings: the part of it that the first `m` bits name. */
  ghost predicate Narrowed(axis: Axis, lo: real, hi: real, cell: nat, m: nat) {
    (hi - lo) * Pow2(m) as real == axis.range && lo == axis.min + cell as real * (hi - lo)
  }

  lemma Halve(axis: Axis, lo: real, hi: real, cell: nat, m: nat)
    requires Narrowed(axis, lo, hi, cell, m)
    ensures Narrowed(axis, lo, (lo + hi) / 2.0, 2 * cell, m + 1)
    ensures Narrowed(axis, (lo + hi) / 2.0, hi, 2 * cell + 1, m + 1)
  {
    var w := (hi - lo) / 2.0;
    var p := Pow2(m) as real;
    assert Pow2(m + 1) as real == 2.0 * p;
    assert w * (2.0 * p) == (hi - lo) * p;
    assert (2 * cell) as real * w == cell as real * (hi - lo);
    assert (2 * cell + 1) as real * w == (2 * cell) as real * w + w;
  }

  lemma NarrowedCentre(axis: Axis, lo: real, hi: real, cell: nat)
    requires Narrowed(axis, lo, hi, cell, 26)
    ensures (lo + hi) / 2.0 == axis.Centre(cell)
  {
    CellsArePow2();
    var w := hi - lo;
    assert w * SCALE == axis.range;
    assert axis.range / SCALE == w;
    assert (cell as real + 0.5) * w == cell as real * w + 0.5 * w;
  }

  /** The number that the highest `m` of 26 interleaved bits spell, those of longitude for `odd`. */
  ghost function Top(bits: bv64, odd: nat, m: nat): nat
    requires m <= 26
  {
    EveryOther(Shr(bits, odd + 52 - 2 * m), m)
  }

  lemma TopNext(bits: bv64, odd: nat, m: nat)
    requires m < 26
    ensures Top(bits, odd, m + 1) == 2 * Top(bits, odd, m) + (if Odd(Shr(bits, odd + 50 - 2 * m)) then 1 else 0)
  {
    hide Half;
    hide Odd;
    var j := odd + 50 - 2 * m;
    assert Shr(bits, j + 2) == Half(Shr(bits, j + 1)) == Half(Half(Shr(bits, j)));
  }

  /** `geohash_decode`: 52 halvings, longitude first, each towards the half its bit names. */
  method Decode(bits: bv64) returns (lon: real, lat: real)
    ensures (lon, lat) == Decoded(bits)
  {
    hide Narrowed;
    hide Top;
    hide Shr;
    hide Odd;
    hide Half;
    var lonLo, lonHi := -180.0, 180.0;
    var latLo, latHi := -85.05112878, 85.05112878;
    Start(bits);
    for i := 0 to 52
      invariant Narrowed(LON, lonLo, lonHi, Top(bits, 1, (i + 1) / 2), (i + 1) / 2)
      invariant Narrowed(LAT, latLo, latHi, Top(bits, 0, i / 2), i / 2)
    {
      var bit := Odd(Shr(bits, 51 - i));
      if i % 2 == 0 {
        var mid := (lonLo + lonHi) / 2.0;
        TopNext(bits, 1, i / 2);
        Halve(LON, lonLo, lonHi, Top(bits, 1, i / 2), i / 2);
        if bit {
          lonLo := mid;
        } else {
          lonHi := mid;
        }
      } else {
        var mid := (latLo + latHi) / 2.0;
        TopNext(bits, 0, i / 2);
        Halve(LAT, latLo, latHi, Top(bits, 0, i / 2), i / 2);
        if bit {
          latLo := mid;
        } else {
          latHi := mid;
        }
      }
    }
    NarrowedCentre(LON, lonLo, lonHi, Top(bits, 1, 26));
    NarrowedCentre(LAT, latLo, latHi, Top(bits, 0, 26));
    lon, lat := (lonLo + lonHi) / 2.0, (latLo + latHi) / 2.0;
    TopIsAll(bits);
  }

  lemma Start(bits: bv64)
    ensures Narrowed(LON, -180.0, 180.0, Top(bits, 1, 0), 0)
    ensures Narrowed(LAT, -85.05112878, 85.05112878, Top(bits, 0, 0), 0)
  {
  }

  lemma TopIsAll(bits: bv64)
    ensures Top(bits, 1, 26) == EveryOther(Half(bits), 26) && Top(bits, 0, 26) == EveryOther(bits, 26)
  {
    hide Half;
    hide Odd;
    assert Shr(bits, 1) == Half(Shr(bits, 0));
  }

  // ---- Round trips ------------------------------------------------------------------

  lemma CentreIndex(axis: Axis, cell: nat)
    requires axis.Ok() && cell < CELLS
    ensures axis.Index(axis.Centre(cell)) == cell
  {
    var u := cell as real + 0.5;
    var w := axis.range / SCALE;
    assert axis.Centre(cell) - axis.min == u * w;
    assert u * w / axis.range * SCALE == u by {
      assert w * SCALE == axis.range;
      Cancel(u, w, axis.range, SCALE);
    }
  }

  lemma Cancel(u: real, w: real, range: real, scale: real)
    requires w * scale == range && range > 0.0
    ensures u * w / range * scale == u
  {
    var q := u * w / range;
    assert q * range == u * w;
    assert (q * scale) * w == u * w;
    assert w != 0.0;
    assert (q * scale - u) * w == 0.0;
  }

  /** A code of 52 bits survives decoding and encoding. */
  lemma EncodeUndoesDecode(bits: bv64)
    requires bits < 0x10_0000_0000_0000
    ensures Encode(Decoded(bits).0, Decoded(bits).1) == bits
  {
    hide Interleave;
    hide Half;
    hide Odd;
    hide Axis.Centre;
    hide Axis.Index;
    hide EveryOther;
    hide Number;
    hide Word;
    hide Narrow;
    CellsArePow2();
    var i, j := EveryOther(Half(bits), 26), EveryOther(bits, 26);
    CentreIndex(LON, i);
    CentreIndex(LAT, j);
    WordHolds(i, 26);
    WordHolds(j, 26);
    InterleavedIs(Word(i, 26), Word(j, 26), bits);
  }

  /** The one code of 52 bits that comes apart into two given words. */
  lemma InterleavedIs(x: bv64, y: bv64, bits: bv64)
    requires Narrow(x, 26) && Narrow(y, 26) && bits < 0x10_0000_0000_0000
    requires Number(x, 26) == EveryOther(Half(bits), 26) && Number(y, 26) == EveryOther(bits, 26)
    ensures Interleave(x, y) == bits
  {
    hide Interleave;
    hide Half;
    hide Odd;
    hide EveryOther;
    hide Number;
    hide Narrow;
    Narrow26(x);
    Narrow26(y);
    Uninterleave(x, y, 26);
    InterleaveBits(x, y);
    Narrow52(bits);
    Narrow52(Interleave(x, y));
    SameBitsSameWord(Interleave(x, y), bits, 26);
  }

  /** Longitude is on the odd places of a code and latitude on the even ones, lowest place zero. */
  lemma EncodePlaces(lon: real, lat: real)
    ensures EveryOther(Half(Encode(lon, lat)), 26) == LON.Index(lon) && EveryOther(Encode(lon, lat), 26) == LAT.Index(lat)
    ensures Encode(lon, lat) < 0x10_0000_0000_0000
  {
    hide Interleave;
    hide Half;
    hide Odd;
    hide Axis.Index;
    hide EveryOther;
    hide Number;
    hide Word;
    hide Narrow;
    CellsArePow2();
    var x, y := Word(LON.Index(lon), 26), Word(LAT.Index(lat), 26);
    WordHolds(LON.Index(lon), 26);
    WordHolds(LAT.Index(lat), 26);
    Narrow26(x);
    Narrow26(y);
    Uninterleave(x, y, 26);
    InterleaveBits(x, y);
  }

  /** A point off the axis falls in the first or the last cell. */
  lemma OffAxis(axis: Axis, x: real)
    requires axis.Ok()
    ensures x <= axis.min ==> axis.Index(x) == 0
    ensures x >= axis.min + axis.range ==> axis.Index(x) == CELLS - 1
  {
    var q := (x - axis.min) / axis.range;
    assert q * axis.range == x - axis.min;
    Scaled(q, 0.0, axis.range);
    Scaled(1.0, q, axis.range);
    Truncated(q * SCALE);
  }

  lemma Truncated(u: real)
    ensures u <= 0.0 ==> Truncate(u) <= 0
    ensures u >= SCALE ==> Truncate(u) >= CELLS
  {
  }

  predicate Near(a: real, b: real, d: real) {
    -d <= a - b <= d
  }

  /** The cell's centre is within half a cell of a point exactly if the point is on the axis, both ends included. */
  lemma WithinHalfCell(axis: Axis, x: real)
    requires axis.Ok()
    ensures Near(axis.Centre(axis.Index(x)), x, axis.range / SCALE / 2.0) <==> axis.min <= x <= axis.min + axis.range
  {
    hide Truncate;
    hide Clamp;
    hide Axis.Centre;
    hide Near;
    var w := axis.range / SCALE;
    var u := (x - axis.min) / axis.range * SCALE;
    Rescale(x - axis.min, axis.range, SCALE);
    ClampedIndex(u);
    OnAxis(axis, x, u, w, SCALE);
    OffCentre(axis, x, u, w, axis.Index(x));
  }

  lemma OnAxis(axis: Axis, x: real, u: real, w: real, scale: real)
    requires w > 0.0 && u * w == x - axis.min && scale * w == axis.range
    ensures 0.0 <= u <= scale <==> axis.min <= x <= axis.min + axis.range
  {
    Scaled(u, scale, w);
    Scaled(0.0, u, w);
  }

  lemma OffCentre(axis: Axis, x: real, u: real, w: real, i: nat)
    requires w > 0.0 && u * w == x - axis.min && w == axis.range / SCALE
    ensures Near(axis.Centre(i), x, w / 2.0) <==> -0.5 <= i as real + 0.5 - u <= 0.5
  {
    var e := i as real + 0.5 - u;
    assert e * w == (i as real + 0.5) * w - u * w;
    Scaled(e, 0.5, w);
    Scaled(-0.5, e, w);
    assert axis.Centre(i) - x == e * w;
    assert -0.5 <= e <==> -(w / 2.0) <= e * w;
    assert e <= 0.5 <==> e * w <= w / 2.0;
  }

  lemma Rescale(d: real, range: real, scale: real)
    requires range > 0.0 && scale > 0.0
    ensures d / range * scale * (range / scale) == d
  {
    var q, w := d / range, range / scale;
    assert q * range == d && w * scale == range;
    assert q * scale * w == q * (w * scale);
  }

  lemma Scaled(a: real, b: real, w: real)
    requires w > 0.0
    ensures a <= b <==> a * w <= b * w
  {
    assert (b - a) * w == b * w - a * w;
    if a <= b {
      assert (b - a) * w >= 0.0;
    } else {
      assert (a - b) * w > 0.0;
    }
  }

  lemma ClampedIndex(u: real)
    ensures -0.5 <= Clamp(Truncate(u)) as real + 0.5 - u <= 0.5 <==> 0.0 <= u <= SCALE
  {
  }

  /** Decoding an encoded point errs by at most half a cell on both axes exactly for the points in range. */
  lemma DecodeNearEncoded(lon: real, lat: real)
    ensures Near(Decoded(Encode(lon, lat)).0, lon, 360.0 / 134217728.0) <==> -180.0 <= lon <= 180.0
    ensures Near(Decoded(Encode(lon, lat)).1, lat, 170.10225756 / 134217728.0) <==> -85.05112878 <= lat <= 85.05112878
  {
    hide Interleave;
    hide Half;
    hide Odd;
    hide EveryOther;
    hide Number;
    hide Word;
    hide Narrow;
    hide Axis.Centre;
    hide Axis.Index;
    CellsArePow2();
    var i, j := LON.Index(lon), LAT.Index(lat);
    WordHolds(i, 26);
    WordHolds(j, 26);
    Narrow26(Word(i, 26));
    Narrow26(Word(j, 26));
    Uninterleave(Word(i, 26), Word(j, 26), 26);
    WithinHalfCell(LON, lon);
    WithinHalfCell(LAT, lat);
  }
}
