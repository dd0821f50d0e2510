/**
 Integers of any width inside a byte string (src/storage/bitmap.rs, src/commands/bitmap.rs):
 single bits, big-endian fields of 1 to 64 bits over them, and BITFIELD INCRBY with its three
 overflow policies. Arithmetic on `i64` wraps, as in a release build.
 */
module Bitfield {
  import opened Wrappers
  import opened Words

  // ---- Bits of a number -------------------------------------------------------------

  /** `w >> k`. */
  function Shr(w: nat, k: nat): nat {
    if k == 0 then w else Shr(w, k - 1) / 2
  }

  predicate TestBit(w: nat, k: nat) {
    if k == 0 then w % 2 == 1 else TestBit(w / 2, k - 1)
  }

  /** The word with bit `k` set or cleared. */
  function WithBit(w: nat, k: nat, on: bool): nat {
    if k == 0 then 2 * (w / 2) + (if on then 1 else 0) else 2 * WithBit(w / 2, k - 1, on) + w % 2
  }

  lemma {:induction false} WithBitTests(w: nat, k: nat, on: bool, j: nat)
    ensures TestBit(WithBit(w, k, on), j) == if j == k then on else TestBit(w, j)
  {
    if k > 0 && j > 0 {
      WithBitTests(w / 2, k - 1, on, j - 1);
    }
  }

  lemma {:induction false} WithBitBound(w: nat, k: nat, on: bool, n: nat)
    requires w < Pow2(n) && k < n
    ensures WithBit(w, k, on) < Pow2(n)
  {
    if k > 0 {
      WithBitBound(w / 2, k - 1, on, n - 1);
    }
  }

  lemma {:induction false} ZeroTests(k: nat)
    ensures !TestBit(0, k)
  {
    if k > 0 {
      ZeroTests(k - 1);
    }
  }

  /** The lowest `k` bits. */
  function Low(w: nat, k: nat): (r: nat)
    ensures r < Pow2(k)
  {
    if k == 0 then 0 else 2 * Low(w / 2, k - 1) + w % 2
  }

  lemma {:induction false} LowIsMod(w: nat, k: nat)
    ensures Low(w, k) == Mod(w, Pow2(k))
  {
    if k > 0 {
      LowIsMod(w / 2, k - 1);
      HalfMod(w, Pow2(k - 1));
    }
  }

  lemma HalfMod(w: nat, m: nat)
    requires m > 0
    ensures Mod(w, 2 * m) == 2 * Mod(w / 2, m) + w % 2
  {
    var q, r := (w / 2) / m, (w / 2) % m;
    assert w == 2 * (q * m + r) + w % 2;
    assert q * (2 * m) == 2 * (q * m);
    Remainder(w, 2 * m, q, 2 * r + w % 2);
  }

  /** The remainder by a modulus that is not a constant. */
  function Mod(x: int, m: nat): (r: nat)
    requires m > 0
    ensures r < m
  {
    x % m
  }

  /** Division with remainder has one answer. */
  lemma Remainder(x: int, m: nat, q: int, r: nat)
    requires x == q * m + r && r < m
    ensures Mod(x, m) == r
  {
    var q', r' := x / m, x % m;
    assert q' * m + r' == x;
    assert (q - q') * m == r' - r && (q' - q) * m == r - r';
    if q > q' {
      AtLeastOne(q - q', m);
    } else if q < q' {
      AtLeastOne(q' - q, m);
    }
  }

  lemma AtLeastOne(d: int, m: nat)
    requires d >= 1
    ensures d * m >= m
  {
  }

  lemma {:induction false} TopBit(w: nat, k: nat)
    requires w < 2 * Pow2(k)
    ensures Shr(w, k) == if w >= Pow2(k) then 1 else 0
  {
    if k > 0 {
      TopBit(w / 2, k - 1);
      ShrHalf(w, k - 1);
    }
  }

  lemma {:induction false} ShrHalf(w: nat, k: nat)
    ensures Shr(w, k + 1) == Shr(w / 2, k)
  {
    if k > 0 {
      ShrHalf(w, k - 1);
    }
  }

  // ---- The key's value --------------------------------------------------------------

  /** What the store holds under the key. */
  datatype Cell = Absent | Str(bytes: seq<byte>, expired: bool) | Other(expired: bool)

  /** A live value that is not a string. */
  predicate WrongType(c: Cell) {
    c.Other? && !c.expired
  }

  /** Bit `o` of the value, most significant bit of each byte first; everything past the end is zero. */
  predicate BitAt(c: Cell, o: nat) {
    c.Str? && !c.expired && o / 8 < |c.bytes| && TestBit(c.bytes[o / 8], 7 - o % 8)
  }

  function Zeros(n: nat): seq<byte> {
    seq(n, _ => 0)
  }

  /** `ensure_len`. */
  function Padded(bytes: seq<byte>, n: nat): seq<byte> {
    if |bytes| >= n then bytes else bytes + Zeros(n - |bytes|)
  }

  lemma PaddedBits(bytes: seq<byte>, n: nat, o: nat)
    ensures BitAt(Str(Padded(bytes, n), false), o) <==> BitAt(Str(bytes, false), o)
  {
    ZeroTests(7 - o % 8);
  }

  /** The bytes with one bit changed. */
  function Written(bytes: seq<byte>, offset: nat, on: bool): seq<byte>
    requires offset / 8 < |bytes|
  {
    assert Pow2(8) == 256;
    WithBitBound(bytes[offset / 8], 7 - offset % 8, on, 8);
    bytes[offset / 8 := WithBit(bytes[offset / 8], 7 - offset % 8, on)]
  }

  lemma WrittenBits(bytes: seq<byte>, offset: nat, on: bool, o: nat)
    requires offset / 8 < |bytes|
    ensures BitAt(Str(Written(bytes, offset, on), false), o) == if o == offset then on else BitAt(Str(bytes, false), o)
  {
    hide WithBit;
    hide TestBit;
    WithBitTests(bytes[offset / 8], 7 - offset % 8, on, 7 - o % 8);
  }

  /** What `setbit` does to the cell. */
  ghost predicate SetTo(before: Cell, offset: nat, on: bool, after: Cell) {
    && after.Str? && !after.expired
    && |after.bytes| == Max(if before.Str? && !before.expired then |before.bytes| else 0, offset / 8 + 1)
    && forall o: nat :: BitAt(after, o) == if o == offset then on else BitAt(before, o)
  }

  /** The number in `bits` bits from `offset`, most significant first. */
  function Field(c: Cell, offset: nat, bits: nat): (r: nat)
    ensures r < Pow2(bits)
  {
    if bits == 0 then 0 else 2 * Field(c, offset, bits - 1) + if BitAt(c, offset + bits - 1) then 1 else 0
  }

  lemma {:induction false} FieldOfSameBits(c: Cell, d: Cell, offset: nat, bits: nat)
    requires forall o: nat :: offset <= o < offset + bits ==> BitAt(c, o) == BitAt(d, o)
    ensures Field(c, offset, bits) == Field(d, offset, bits)
  {
    hide BitAt;
    if bits > 0 {
      FieldOfSameBits(c, d, offset, bits - 1);
    }
  }

  // ---- Fields that are whole bytes --------------------------------------------------

  lemma {:induction false} ShrBit(w: nat, k: nat)
    ensures Shr(w, k) == 2 * Shr(w, k + 1) + if TestBit(w, k) then 1 else 0
  {
    if k > 0 {
      ShrBit(w / 2, k - 1);
      ShrHalf(w, k - 1);
      ShrHalf(w, k);
    }
  }

  lemma {:induction false} ShrSmall(w: nat, k: nat)
    requires w < Pow2(k)
    ensures Shr(w, k) == 0
  {
    if k > 0 {
      ShrSmall(w / 2, k - 1);
      ShrHalf(w, k - 1);
    }
  }

  /** The first bits of a byte of the value are its most significant ones. */
  lemma {:induction false} ByteBits(bytes: seq<byte>, i: nat, n: nat)
    requires i < |bytes| && n <= 8
    ensures Field(Str(bytes, false), 8 * i, n) == Shr(bytes[i], 8 - n)
  {
    if n == 0 {
      assert Pow2(8) == 256;
      ShrSmall(bytes[i], 8);
    } else {
      ByteBits(bytes, i, n - 1);
      ShrBit(bytes[i], 8 - n);
      var o := 8 * i + n - 1;
      assert o / 8 == i && 7 - o % 8 == 8 - n;
    }
  }

  /** `f` followed by `g` in `b` more bits. */
  function Joined(f: nat, g: nat, b: nat): nat {
    f * Pow2(b) + g
  }

  lemma JoinedStep(f: nat, g: nat, b: nat, bit: nat)
    requires b > 0
    ensures 2 * Joined(f, g, b - 1) + bit == Joined(f, 2 * g + bit, b)
  {
    TwiceThePlace(f, Pow2(b - 1), Pow2(b));
  }

  lemma JoinedNothing(f: nat)
    ensures Joined(f, 0, 0) == f
  {
  }

  lemma {:induction false} FieldJoins(c: Cell, offset: nat, a: nat, b: nat)
    ensures Field(c, offset, a + b) == Joined(Field(c, offset, a), Field(c, offset + a, b), b)
  {
    hide Field;
    hide BitAt;
    hide Joined;
    hide Pow2;
    var f := Field(c, offset, a);
    if b == 0 {
      NoField(c, offset + a);
      JoinedNothing(f);
    } else {
      var g := Field(c, offset + a, b - 1);
      var bit := if BitAt(c, offset + a + b - 1) then 1 else 0;
      FieldJoins(c, offset, a, b - 1);
      assert Field(c, offset, a + b) == 2 * Joined(f, g, b - 1) + bit by { LastBit(c, offset, a + b); }
      assert Field(c, offset + a, b) == 2 * g + bit by { LastBit(c, offset + a, b); }
      JoinedStep(f, g, b, bit);
    }
  }

  lemma LastBit(c: Cell, offset: nat, n: nat)
    requires n > 0
    ensures Field(c, offset, n) == 2 * Field(c, offset, n - 1) + if BitAt(c, offset + n - 1) then 1 else 0
  {
  }

  lemma TwiceThePlace(f: nat, p: nat, q: nat)
    requires q == 2 * p
    ensures f * q == 2 * (f * p)
  {
  }

  /** Bytes as one number, first byte highest. */
  function OfBytes(bytes: seq<byte>): nat {
    if bytes == [] then 0 else 256 * OfBytes(bytes[..|bytes| - 1]) + bytes[|bytes| - 1]
  }

  /** A field of whole bytes is those bytes as a number, first byte highest. */
  lemma {:induction false} FieldOfBytes(bytes: seq<byte>, i: nat, n: nat)
    requires i + n <= |bytes|
    ensures Field(Str(bytes, false), 8 * i, 8 * n) == OfBytes(bytes[i..i + n])
  {
    hide Field;
    if n == 0 {
      FieldJoins(Str(bytes, false), 8 * i, 0, 0);
      NoField(Str(bytes, false), 8 * i);
    } else {
      FieldOfBytes(bytes, i, n - 1);
      FieldJoins(Str(bytes, false), 8 * i, 8 * (n - 1), 8);
      ByteBits(bytes, i + n - 1, 8);
      assert Pow2(8) == 256;
      assert bytes[i..i + n][..n - 1] == bytes[i..i + n - 1];
    }
  }

  lemma NoField(c: Cell, offset: nat)
    ensures Field(c, offset, 0) == 0
  {
  }

  // ---- 64-bit integers --------------------------------------------------------------

  const TWO63: int := 0x8000_0000_0000_0000
  const TWO64: int := 0x1_0000_0000_0000_0000

  type i64 = x: int | -TWO63 <= x < TWO63

  /** `as i64`, and the result of wrapping arithmetic. */
  function ToI64(x: int): i64 {
    (x + TWO63) % TWO64 - TWO63
  }

  /** `as u64`. */
  function ToU64(x: int): nat {
    x % TWO64
  }

  /** Within one turn either way, wrapping adds or subtracts one turn. */
  lemma I64Cases(x: int)
    ensures -TWO63 <= x < TWO63 ==> ToI64(x) == x
    ensures TWO63 <= x < TWO63 + TWO64 ==> ToI64(x) == x - TWO64
    ensures -TWO63 - TWO64 <= x < -TWO63 ==> ToI64(x) == x + TWO64
  {
  }

  lemma U64Cases(x: int)
    ensures 0 <= x < TWO64 ==> ToU64(x) == x
    ensures -TWO64 <= x < 0 ==> ToU64(x) == x + TWO64
    ensures TWO64 <= x < 2 * TWO64 ==> ToU64(x) == x - TWO64
  {
  }

  function SaturatingAdd(a: i64, b: i64): i64 {
    Max(-TWO63, Min(TWO63 - 1, a + b))
  }

  // ---- Reading and writing ----------------------------------------------------------

  /** What `bf_get` makes of the bits it read. */
  function Reading(field: nat, bits: nat, signed: bool): i64
    requires 1 <= bits <= 64 && field < Pow2(bits)
  {
    if signed && bits < 64 && Shr(field, bits - 1) % 2 == 1 then ToI64(field + (TWO64 - Pow2(bits))) else ToI64(field)
  }

  class Entry {
    var cell: Cell

    method SetBit(offset: nat, on: bool) returns (r: Result<bool, string>)
      modifies this
      ensures WrongType(old(cell)) ==> r.Err? && cell == old(cell)
      ensures !WrongType(old(cell)) ==> r == Ok(BitAt(old(cell), offset)) && SetTo(old(cell), offset, on, cell)
    {
      hide TestBit;
      var n := offset / 8 + 1;
      match cell {
        case Other(false) =>
          return Err("WRONGTYPE");
        case Str(bytes, false) =>
          ghost var before := cell;
          var padded := Padded(bytes, n);
          r := Ok(TestBit(padded[offset / 8], 7 - offset % 8));
          cell := Str(Written(padded, offset, on), false);
          PaddedBits(bytes, n, offset);
          forall o: nat ensures BitAt(cell, o) == if o == offset then on else BitAt(before, o) {
            PaddedBits(bytes, n, o);
            WrittenBits(padded, offset, on, o);
          }
        case _ =>
          ghost var before := cell;
          r := Ok(false);
          cell := Str(if on then Written(Zeros(n), offset, true) else Zeros(n), false);
          forall o: nat ensures BitAt(cell, o) == if o == offset then on else BitAt(before, o) {
            ZeroTests(7 - o % 8);
            WrittenBits(Zeros(n), offset, true, o);
          }
      }
    }

    method GetBit(offset: nat) returns (r: Result<bool, string>)
      ensures WrongType(cell) ==> r.Err?
      ensures !WrongType(cell) ==> r == Ok(BitAt(cell, offset))
    {
      match cell {
        case Other(false) => r := Err("WRONGTYPE");
        case Str(bytes, false) =>
          if offset / 8 >= |bytes| {
            r := Ok(false);
          } else {
            r := Ok(TestBit(bytes[offset / 8], 7 - offset % 8));
          }
        case _ => r := Ok(false);
      }
    }

    /** `bf_get`. The shifted bits are disjoint, so collecting them is addition. */
    method Get(offset: nat, bits: nat, signed: bool) returns (r: i64)
      requires 1 <= bits <= 64
      ensures r == Reading(Field(cell, offset, bits), bits, signed)
    {
      hide BitAt;
      hide ToI64;
      hide Shr;
      hide Field;
      hide Pow2;
      var val := 0;
      FieldStarts(cell, offset, bits);
      for i := 0 to bits
        invariant val == Field(cell, offset, i) * Pow2(bits - i)
      {
        var got := GetBit(offset + i);
        var bit := got == Ok(true);
        assert bit == BitAt(cell, offset + i) by { WrongTypeReadsZero(cell, offset + i); }
        FieldStep(cell, offset, bits, i);
        val := val + if bit then Pow2(bits - 1 - i) else 0;
      }
      if signed && bits < 64 && Shr(val, bits - 1) % 2 == 1 {
        r := ToI64(val + (TWO64 - Pow2(bits)));
      } else {
        r := ToI64(val);
      }
    }

    /** `bf_set`: the low bits of the value, and no other bit of the string changes. */
    method Set(offset: nat, bits: nat, value: i64)
      requires bits <= 64
      modifies this
      ensures WrongType(old(cell)) ==> cell == old(cell)
      ensures !WrongType(old(cell)) ==> Field(cell, offset, bits) == Low(ToU64(value), bits)
      ensures forall o: nat :: !(offset <= o < offset + bits) ==> BitAt(cell, o) == BitAt(old(cell), o)
      ensures WrongType(cell) == WrongType(old(cell))
    {
      hide BitAt;
      hide ToU64;
      hide Field;
      hide Low;
      hide Shr;
      var val := ToU64(value);
      FieldBegins(cell, offset, val, bits);
      for i := 0 to bits
        invariant WrongType(cell) == WrongType(old(cell))
        invariant WrongType(cell) ==> cell == old(cell)
        invariant !WrongType(cell) ==> Field(cell, offset, i) == Low(Shr(val, bits - i), i)
        invariant !WrongType(cell) ==> forall o: nat :: !(offset <= o < offset + i) ==> BitAt(cell, o) == BitAt(old(cell), o)
      {
        ghost var before := cell;
        var bit := Shr(val, bits - 1 - i) % 2 == 1;
        var _ := SetBit(offset + i, bit);
        if !WrongType(cell) {
          FieldGrows(before, cell, offset, i, val, bits);
        }
      }
    }

    /** The INCRBY arm of `bitfield`: read, add, apply the policy, write unless it refuses. */
    method IncrBy(policy: Overflow, signed: bool, bits: nat, offset: nat, increment: i64) returns (reply: Option<i64>)
      requires 1 <= bits <= 64
      modifies this
      ensures reply == Policy(policy, signed, bits, Reading(Field(old(cell), offset, bits), bits, signed), increment)
      ensures bits < 64 ==> reply == Ideal(policy, signed, bits, Meaning(Field(old(cell), offset, bits), bits, signed) + increment)
      ensures bits < 64 && reply.Some? && !WrongType(old(cell)) ==> Meaning(Field(cell, offset, bits), bits, signed) == reply.value
      ensures reply.None? || WrongType(old(cell)) ==> cell == old(cell)
      ensures reply.Some? && !WrongType(old(cell)) ==> Field(cell, offset, bits) == Low(ToU64(reply.value), bits)
      ensures forall o: nat :: !(offset <= o < offset + bits) ==> BitAt(cell, o) == BitAt(old(cell), o)
    {
      hide BitAt;
      hide Field;
      hide Low;
      hide Policy;
      hide Ideal;
      hide Meaning;
      hide Reading;
      var before := Get(offset, bits, signed);
      if bits < 64 {
        IncrementIsIdeal(policy, signed, bits, Field(cell, offset, bits), increment);
        if Policy(policy, signed, bits, before, increment).Some? {
          ReplyIsStored(policy, signed, bits, Field(cell, offset, bits), increment);
        }
      }
      reply := Policy(policy, signed, bits, before, increment);
      if reply.Some? {
        Set(offset, bits, reply.value);
      }
    }
  }

  lemma WrongTypeReadsZero(c: Cell, o: nat)
    ensures WrongType(c) ==> !BitAt(c, o)
  {
  }

  lemma FieldBegins(c: Cell, offset: nat, val: nat, bits: nat)
    ensures Field(c, offset, 0) == Low(Shr(val, bits), 0) && Shr(val, 0) == val
  {
  }

  /** One more bit written: the field is the next more significant part of the value. */
  lemma FieldGrows(before: Cell, after: Cell, offset: nat, i: nat, val: nat, bits: nat)
    requires i < bits && SetTo(before, offset + i, Shr(val, bits - 1 - i) % 2 == 1, after)
    requires Field(before, offset, i) == Low(Shr(val, bits - i), i)
    ensures Field(after, offset, i + 1) == Low(Shr(val, bits - (i + 1)), i + 1)
  {
    hide BitAt;
    FieldOfSameBits(before, after, offset, i);
    assert Shr(val, bits - i) == Shr(val, bits - 1 - i) / 2;
  }

  lemma FieldStarts(c: Cell, offset: nat, bits: nat)
    ensures Field(c, offset, 0) * Pow2(bits) == 0 && Field(c, offset, bits) * Pow2(0) == Field(c, offset, bits)
  {
  }

  lemma FieldStep(c: Cell, offset: nat, bits: nat, i: nat)
    requires i < bits
    ensures Field(c, offset, i + 1) * Pow2(bits - (i + 1)) == Field(c, offset, i) * Pow2(bits - i) + if BitAt(c, offset + i) then Pow2(bits - 1 - i) else 0
  {
    hide BitAt;
    assert Field(c, offset, i + 1) == 2 * Field(c, offset, i) + if BitAt(c, offset + i) then 1 else 0;
    assert Pow2(bits - i) == 2 * Pow2(bits - 1 - i);
    hide Field;
    hide Pow2;
    Collect(Field(c, offset, i), Pow2(bits - 1 - i), BitAt(c, offset + i));
  }

  lemma Collect(field: nat, place: nat, bit: bool)
    ensures (2 * field + if bit then 1 else 0) * place == field * (2 * place) + if bit then place else 0
  {
  }

  // ---- Overflow policies ------------------------------------------------------------

  datatype Overflow = Wrap | Sat | Fail

  /** `1i64 << k`. */
  function Shl1(k: nat): i64
    requires k < 64
  {
    ToI64(Pow2(k))
  }

  /** `val & ((1 << bits) - 1)`: the mask is all ones. */
  function LowBits(val: i64, bits: nat): nat {
    Mod(val, Pow2(bits))
  }

  function ClampSigned(val: i64, bits: nat): int
    requires bits >= 1
  {
    if bits >= 64 then val
    else
      var v := LowBits(val, bits);
      if Shr(v, bits - 1) % 2 == 1 then v - Pow2(bits) else v
  }

  function ClampUnsigned(val: i64, bits: nat): int {
    if bits >= 64 then val else LowBits(val, bits)
  }

  function SignedMin(bits: nat): i64
    requires 1 <= bits <= 64
  {
    ToI64(0 - Shl1(bits - 1))
  }

  function SignedMax(bits: nat): i64
    requires 1 <= bits <= 64
  {
    ToI64(Shl1(bits - 1) - 1)
  }

  function UnsignedMax(bits: nat): i64 {
    if bits >= 64 then TWO63 - 1 else ToI64(Shl1(bits) - 1)
  }

  /** The value that INCRBY writes and replies, if any, given the value it read. */
  function Policy(policy: Overflow, signed: bool, bits: nat, before: i64, increment: i64): Option<i64>
    requires 1 <= bits <= 64
  {
    var sum := ToI64(before + increment);
    match policy
    case Wrap =>
      ClampIsI64(sum, bits);
      Some(if signed then ClampSigned(sum, bits) else ClampUnsigned(sum, bits))
    case Sat =>
      var sat := SaturatingAdd(before, increment);
      Some(if signed then Min(Max(sat, SignedMin(bits)), SignedMax(bits)) else Min(Max(sat, 0), UnsignedMax(bits)))
    case Fail =>
      if (if signed then SignedMin(bits) <= sum <= SignedMax(bits) else 0 <= sum <= UnsignedMax(bits)) then Some(sum) else None
  }

  lemma Powers()
    ensures Pow2(63) == TWO63 && Pow2(64) == TWO64
  {
    Power32();
    Pow2Add(32, 32);
  }

  lemma PowersBelow(bits: nat)
    requires 1 <= bits <= 63
    ensures 2 * Pow2(bits - 1) == Pow2(bits) <= TWO63
  {
    Powers();
    Pow2Monotone(bits, 63);
  }

  lemma ClampIsI64(val: i64, bits: nat)
    requires bits >= 1
    ensures -TWO63 <= ClampSigned(val, bits) < TWO63 && -TWO63 <= ClampUnsigned(val, bits) < TWO63
  {
    hide Shr;
    if bits < 64 {
      PowersBelow(bits);
      hide Pow2;
      TopBit(LowBits(val, bits), bits - 1);
    }
  }

  /** The limits the code computes by shifting are the limits of the type, up to the sign bit of the 64-bit word. */
  lemma Limits(bits: nat)
    requires 1 <= bits <= 64
    ensures SignedMin(bits) == 0 - Pow2(bits - 1) && SignedMax(bits) == Pow2(bits - 1) - 1
    ensures bits < 64 ==> UnsignedMax(bits) == Pow2(bits) - 1
  {
    Shl1Is(bits - 1);
    if bits < 64 {
      Shl1Is(bits);
    }
    hide Shl1;
    hide ToI64;
  }

  lemma Shl1Is(k: nat)
    requires k < 64
    ensures ToI64(Shl1(k) - 1) == Pow2(k) - 1 && ToI64(0 - Shl1(k)) == 0 - Pow2(k)
  {
    hide Pow2;
    hide ToI64;
    Powers();
    Pow2Monotone(k, 63);
    TurnedLimits(Pow2(k));
  }

  lemma TurnedLimits(p: nat)
    requires 1 <= p <= TWO63
    ensures ToI64(ToI64(p) - 1) == p - 1 && ToI64(0 - ToI64(p)) == 0 - p
  {
    I64Cases(p);
    I64Cases(ToI64(p) - 1);
    I64Cases(0 - ToI64(p));
    hide ToI64;
  }

  // ---- What a field stands for ------------------------------------------------------

  /** The integer that a field of this type stands for. */
  function Meaning(field: nat, bits: nat, signed: bool): int
    requires bits >= 1
  {
    if signed && field >= Pow2(bits - 1) then field - Pow2(bits) else field
  }

  /** The integer of this type that is congruent to `v`. */
  function Wrapped(v: int, bits: nat, signed: bool): int
    requires bits >= 1
  {
    if signed then Mod(v + Pow2(bits - 1), Pow2(bits)) - Pow2(bits - 1) else Mod(v, Pow2(bits))
  }

  function Least(bits: nat, signed: bool): int
    requires bits >= 1
  {
    if signed then 0 - Pow2(bits - 1) else 0
  }

  function Greatest(bits: nat, signed: bool): int
    requires bits >= 1
  {
    if signed then Pow2(bits - 1) - 1 else Pow2(bits) - 1
  }

  /** What the policy promises for the true sum. */
  function Ideal(policy: Overflow, signed: bool, bits: nat, sum: int): Option<int>
    requires bits >= 1
  {
    match policy
    case Wrap => Some(Wrapped(sum, bits, signed))
    case Sat => Some(Min(Max(sum, Least(bits, signed)), Greatest(bits, signed)))
    case Fail => if Least(bits, signed) <= sum <= Greatest(bits, signed) then Some(sum) else None
  }

  /** `bf_get` reads what the field stands for, except an unsigned 64-bit value with its top bit set. */
  lemma ReadingIsMeaning(field: nat, bits: nat, signed: bool)
    requires 1 <= bits <= 64 && field < Pow2(bits)
    ensures Reading(field, bits, signed) == Meaning(field, bits, signed) <==> signed || bits < 64 || field < TWO63
    ensures !signed && bits == 64 && field >= TWO63 ==> Reading(field, bits, signed) == field - TWO64
  {
    hide Pow2;
    hide Shr;
    I64Cases(field);
    Powers();
    if bits < 64 {
      PowersBelow(bits);
      TopBit(field, bits - 1);
      I64Cases(field + (TWO64 - Pow2(bits)));
    }
    hide ToI64;
  }

  lemma AddMultiple(x: int, c: int, m: nat)
    requires m > 0
    ensures Mod(x + c * m, m) == Mod(x, m)
  {
    assert x + c * m == (x / m + c) * m + x % m;
    Remainder(x + c * m, m, x / m + c, x % m);
  }

  /** Wrapping at 64 bits loses nothing for a narrower reduction. */
  lemma NarrowerMod(v: int, bits: nat)
    requires bits <= 64
    ensures Mod(ToI64(v), Pow2(bits)) == Mod(v, Pow2(bits)) == Mod(ToU64(v), Pow2(bits))
  {
    Powers();
    Pow2Add(64 - bits, bits);
    hide Pow2;
    OffByTurns(v, ToI64(v), -((v + TWO63) / TWO64), Pow2(64 - bits), Pow2(bits));
    OffByTurns(v, ToU64(v), -(v / TWO64), Pow2(64 - bits), Pow2(bits));
  }

  lemma OffByTurns(v: int, w: int, turns: int, k: nat, m: nat)
    requires m > 0 && TWO64 == k * m && w == v + turns * TWO64
    ensures Mod(w, m) == Mod(v, m)
  {
    assert turns * (k * m) == (turns * k) * m;
    AddMultiple(v, turns * k, m);
  }

  lemma StoredIsMod(v: int, bits: nat)
    requires bits <= 64
    ensures Low(ToU64(v), bits) == Mod(v, Pow2(bits))
  {
    LowIsMod(ToU64(v), bits);
    NarrowerMod(v, bits);
  }

  /** Two's complement, both ways: the residue read as signed is the signed wrap. */
  lemma MeaningOfResidue(v: int, bits: nat, signed: bool)
    requires bits >= 1
    ensures Meaning(Mod(v, Pow2(bits)), bits, signed) == Wrapped(v, bits, signed)
  {
    HalfTurn(v, Pow2(bits - 1), Pow2(bits));
    SignedResidue(v, bits, Pow2(bits - 1), Pow2(bits));
  }

  lemma SignedResidue(v: int, bits: nat, h: nat, m: nat)
    requires bits >= 1 && h == Pow2(bits - 1) && m == Pow2(bits)
    requires Mod(v + h, m) - h == if Mod(v, m) >= h then Mod(v, m) - m else Mod(v, m)
    ensures Meaning(Mod(v, m), bits, true) == Wrapped(v, bits, true)
  {
    hide Pow2;
    hide Mod;
  }

  lemma HalfTurn(v: int, h: nat, m: nat)
    requires h > 0 && m == 2 * h
    ensures Mod(v + h, m) - h == if Mod(v, m) >= h then Mod(v, m) - m else Mod(v, m)
  {
    var q, r := v / m, v % m;
    Remainder(v, m, q, r);
    if r < h {
      Remainder(v + h, m, q, r + h);
    } else {
      assert (q + 1) * m == q * m + m;
      Remainder(v + h, m, q + 1, r - h);
    }
  }

  /** What was set is read back, reduced to the width; the value of type u64 comes back as the i64 it was given as. */
  lemma ReadAfterSet(value: i64, bits: nat, signed: bool)
    requires 1 <= bits <= 64
    ensures signed || bits < 64 ==> Reading(Low(ToU64(value), bits), bits, signed) == Wrapped(value, bits, signed)
    ensures !signed && bits == 64 ==> Reading(Low(ToU64(value), bits), bits, signed) == value
  {
    hide Reading;
    hide Low;
    StoredIsMod(value, bits);
    MeaningOfResidue(value, bits, signed);
    ReadingIsMeaning(Low(ToU64(value), bits), bits, signed);
    Powers();
  }

  /** Values of the type wrap to themselves. */
  lemma WrappedInRange(v: int, bits: nat, signed: bool)
    requires bits >= 1 && Least(bits, signed) <= v <= Greatest(bits, signed)
    ensures Wrapped(v, bits, signed) == v
  {
    var h := Pow2(bits - 1);
    assert Pow2(bits) == 2 * h;
    hide Pow2;
    if signed {
      Remainder(v + h, 2 * h, 0, v + h);
    } else {
      Remainder(v, 2 * h, 0, v);
    }
  }

  // ---- INCRBY keeps its promises ----------------------------------------------------

  lemma ClampIsWrapped(v: i64, bits: nat)
    requires 1 <= bits < 64
    ensures ClampSigned(v, bits) == Wrapped(v, bits, true) && ClampUnsigned(v, bits) == Wrapped(v, bits, false)
  {
    hide Shr;
    hide Wrapped;
    MeaningOfResidue(v, bits, true);
    MeaningOfResidue(v, bits, false);
    TopBit(LowBits(v, bits), bits - 1);
  }

  lemma WrappedModTurns(v: int, bits: nat, signed: bool)
    requires 1 <= bits < 64
    ensures Wrapped(ToI64(v), bits, signed) == Wrapped(v, bits, signed)
  {
    hide Wrapped;
    hide Meaning;
    hide ToI64;
    NarrowerMod(v, bits);
    MeaningOfResidue(v, bits, signed);
    MeaningOfResidue(ToI64(v), bits, signed);
  }

  lemma WrapIsIdeal(signed: bool, bits: nat, before: i64, increment: i64)
    requires 1 <= bits < 64 || (signed && bits == 64)
    ensures Policy(Wrap, signed, bits, before, increment) == Ideal(Wrap, signed, bits, before + increment)
  {
    var sum := before + increment;
    if bits < 64 {
      hide Wrapped;
      hide ClampSigned;
      hide ClampUnsigned;
      hide ToI64;
      ClampIsWrapped(ToI64(sum), bits);
      WrappedModTurns(sum, bits, signed);
    } else {
      Powers();
      hide Pow2;
    }
  }

  lemma SatIsIdeal(signed: bool, bits: nat, before: i64, increment: i64)
    requires 1 <= bits < 64 || (signed && bits == 64)
    ensures Policy(Sat, signed, bits, before, increment) == Ideal(Sat, signed, bits, before + increment)
  {
    hide Pow2;
    Limits(bits);
    Powers();
    if bits < 64 {
      PowersBelow(bits);
    }
    hide SignedMin;
    hide SignedMax;
    hide UnsignedMax;
  }

  /** The test on the wrapped sum is a test on the true sum: what wraps around lands outside the narrower range. */
  lemma WrappedTest(lo: int, hi: int, before: i64, increment: i64)
    requires lo <= before <= hi && hi - lo < TWO63 && -TWO63 <= lo && hi < TWO63
    ensures lo <= ToI64(before + increment) <= hi <==> lo <= before + increment <= hi
    ensures lo <= before + increment <= hi ==> ToI64(before + increment) == before + increment
  {
    I64Cases(before + increment);
    hide ToI64;
  }

  lemma FailIsIdeal(signed: bool, bits: nat, before: i64, increment: i64)
    requires 1 <= bits < 64 && Least(bits, signed) <= before <= Greatest(bits, signed)
    ensures Policy(Fail, signed, bits, before, increment) == Ideal(Fail, signed, bits, before + increment)
  {
    hide Pow2;
    Limits(bits);
    PowersBelow(bits);
    hide ToI64;
    hide SignedMin;
    hide SignedMax;
    hide UnsignedMax;
    WrappedTest(Least(bits, signed), Greatest(bits, signed), before, increment);
  }

  /** INCRBY on a field of up to 63 bits writes and replies what the policy promises for the true sum. */
  lemma IncrementIsIdeal(policy: Overflow, signed: bool, bits: nat, field: nat, increment: i64)
    requires 1 <= bits < 64 && field < Pow2(bits)
    ensures Policy(policy, signed, bits, Reading(field, bits, signed), increment)
         == Ideal(policy, signed, bits, Meaning(field, bits, signed) + increment)
  {
    ReadingIsMeaning(field, bits, signed);
    assert Pow2(bits) == 2 * Pow2(bits - 1);
    hide Policy;
    hide Ideal;
    hide Reading;
    match policy {
      case Wrap => WrapIsIdeal(signed, bits, Reading(field, bits, signed), increment);
      case Sat => SatIsIdeal(signed, bits, Reading(field, bits, signed), increment);
      case Fail => FailIsIdeal(signed, bits, Reading(field, bits, signed), increment);
    }
  }

  /** The reply is what the field then stands for. */
  lemma ReplyIsStored(policy: Overflow, signed: bool, bits: nat, field: nat, increment: i64)
    requires 1 <= bits < 64 && field < Pow2(bits)
    requires Policy(policy, signed, bits, Reading(field, bits, signed), increment).Some?
    ensures var v := Policy(policy, signed, bits, Reading(field, bits, signed), increment).value;
            Meaning(Low(ToU64(v), bits), bits, signed) == v
  {
    hide Policy;
    hide Reading;
    hide Low;
    IncrementIsIdeal(policy, signed, bits, field, increment);
    var v := Policy(policy, signed, bits, Reading(field, bits, signed), increment).value;
    IdealInRange(policy, signed, bits, Meaning(field, bits, signed) + increment);
    StoredIsMod(v, bits);
    MeaningOfResidue(v, bits, signed);
    WrappedInRange(v, bits, signed);
  }

  lemma IdealInRange(policy: Overflow, signed: bool, bits: nat, sum: int)
    requires bits >= 1
    ensures Ideal(policy, signed, bits, sum).Some? ==> Least(bits, signed) <= Ideal(policy, signed, bits, sum).value <= Greatest(bits, signed)
  {
    assert Pow2(bits) == 2 * Pow2(bits - 1);
  }

  // ---- The full width ---------------------------------------------------------------

  /** i64: WRAP and SAT are right. */
  lemma Signed64(field: nat, increment: i64)
    requires field < TWO64
    ensures Pow2(64) == TWO64
    ensures Policy(Wrap, true, 64, Reading(field, 64, true), increment) == Ideal(Wrap, true, 64, Meaning(field, 64, true) + increment)
    ensures Policy(Sat, true, 64, Reading(field, 64, true), increment) == Ideal(Sat, true, 64, Meaning(field, 64, true) + increment)
  {
    hide Policy;
    hide Ideal;
    hide Reading;
    Powers();
    ReadingIsMeaning(field, 64, true);
    WrapIsIdeal(true, 64, Reading(field, 64, true), increment);
    SatIsIdeal(true, 64, Reading(field, 64, true), increment);
  }

  /** i64: FAIL never refuses, so it is right exactly if the sum fits. */
  lemma Signed64Fail(before: i64, increment: i64)
    ensures Policy(Fail, true, 64, before, increment) == Ideal(Fail, true, 64, before + increment) <==> -TWO63 <= before + increment < TWO63
  {
    hide Pow2;
    Powers();
    Limits(64);
    I64Cases(before + increment);
    hide SignedMin;
    hide SignedMax;
    hide ToI64;
  }

  /** u64: the field is read as an i64, yet WRAP stores the right residue. */
  lemma Unsigned64Wrap(field: nat, increment: i64)
    requires field < TWO64
    ensures Pow2(64) == TWO64
    ensures ToU64(Policy(Wrap, false, 64, Reading(field, 64, false), increment).value) == (field + increment) % TWO64
  {
    hide Pow2;
    Powers();
    ReadingIsMeaning(field, 64, false);
    var before := Reading(field, 64, false);
    var sum := before + increment;
    I64Cases(sum);
    U64Cases(ToI64(sum));
    U64Cases(field + increment);
    hide ToI64;
    hide Reading;
  }

  /** u64: SAT stores the clamped sum exactly if neither the field nor the sum reaches 2^63, or the sum is zero. */
  lemma Unsigned64Sat(field: nat, increment: i64)
    requires field < TWO64
    ensures Pow2(64) == TWO64
    ensures ToU64(Policy(Sat, false, 64, Reading(field, 64, false), increment).value) == Min(Max(field + increment, 0), TWO64 - 1)
       <==> (field < TWO63 && field + increment < TWO63) || field + increment == 0
  {
    hide Pow2;
    Powers();
    ReadingIsMeaning(field, 64, false);
    U64Cases(Policy(Sat, false, 64, Reading(field, 64, false), increment).value);
    hide Reading;
    hide ToI64;
    hide ToU64;
  }

  /** u64: FAIL writes exactly when it should if and only if the sum stays below 2^63. */
  lemma Unsigned64Fail(field: nat, increment: i64)
    requires field < TWO64
    ensures Pow2(64) == TWO64
    ensures Policy(Fail, false, 64, Reading(field, 64, false), increment).Some? == (0 <= field + increment < TWO64) <==> field + increment < TWO63
  {
    hide Pow2;
    Powers();
    ReadingIsMeaning(field, 64, false);
    I64Cases(Reading(field, 64, false) + increment);
    hide Reading;
    hide ToI64;
  }

  /** An i64 at its maximum and a u64 at its maximum, incremented under FAIL: both wrap round and are written. */
  lemma FullWidthFails()
    ensures Pow2(64) == TWO64
    ensures Policy(Fail, true, 64, TWO63 - 1, 1) == Some(-TWO63)
    ensures Policy(Fail, false, 64, Reading(TWO64 - 1, 64, false), 1) == Some(0)
  {
    hide Pow2;
    Powers();
    Limits(64);
    ReadingIsMeaning(TWO64 - 1, 64, false);
    I64Cases(TWO63);
    I64Cases(0);
    hide SignedMin;
    hide SignedMax;
    hide Reading;
    hide ToI64;
  }
}
