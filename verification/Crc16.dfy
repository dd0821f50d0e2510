/**
 Key hashing (src/cluster/hash.rs): the slicing-by-8 CRC16 against the bit-by-bit
 CRC of the Redis Cluster Specification (polynomial 0x1021, initial value 0), and
 the hash-tag rule that picks which bytes of a key are hashed.
 */
module Crc16 {
  import opened Words
  import opened Wrappers
  import Slots

  lemma Pow2Values()
    ensures Pow2(8) == 256 && Pow2(15) == 32768 && Pow2(16) == 65536
  {
    assert Pow2(4) == 16;
    Pow2Add(4, 4);
    Pow2Add(8, 8);
    Pow2Add(8, 7);
    assert Pow2(7) == 128;
  }

  function Xor16(a: u16, b: u16): u16 {
    Pow2Values();
    XorBound(a, b, 16);
    Xor(a, b)
  }

  function Xor8(a: byte, b: byte): byte {
    Pow2Values();
    XorBound(a, b, 8);
    Xor(a, b)
  }

  // ---- Reference: one bit at a time -------------------------------------------------

  /** Shifts one bit out of the register. */
  function ShiftBit(crc: u16): u16 {
    if crc >= 0x8000 then Xor16((2 * crc) % 65536, 0x1021) else 2 * crc
  }

  function ShiftBits(crc: u16, n: nat): u16 {
    if n == 0 then crc else ShiftBit(ShiftBits(crc, n - 1))
  }

  /** The register after `n` zero bytes of message. */
  function ShiftBytes(crc: u16, n: nat): u16 {
    if n == 0 then crc else ShiftBits(ShiftBytes(crc, n - 1), 8)
  }

  /** A message byte enters at the top of the register. */
  function Top(b: byte): u16 {
    var n: nat := b;
    n * 256
  }

  /** The register after one message byte. */
  function Absorb(crc: u16, b: byte): u16 {
    ShiftBits(Xor16(crc, Top(b)), 8)
  }

  function AbsorbAll(crc: u16, bytes: seq<byte>): u16
    decreases |bytes|
  {
    if |bytes| == 0 then crc else AbsorbAll(Absorb(crc, bytes[0]), bytes[1..])
  }

  /** CRC-16/XMODEM, bit by bit. */
  function Crc(bytes: seq<byte>): u16 {
    AbsorbAll(0, bytes)
  }

  lemma {:induction false} AbsorbAllConcat(crc: u16, a: seq<byte>, b: seq<byte>)
    ensures AbsorbAll(crc, a + b) == AbsorbAll(AbsorbAll(crc, a), b)
    decreases |a|
  {
    if |a| == 0 {
      assert a + b == b;
    } else {
      assert (a + b)[1..] == a[1..] + b;
      AbsorbAllConcat(Absorb(crc, a[0]), a[1..], b);
    }
  }

  // ---- Linearity --------------------------------------------------------------------

  /** One shift, with the top bit `t` split off: the low bits move up, the polynomial enters iff `t`. */
  lemma ShiftBitSplit(t: nat, low: nat)
    requires t < 2 && low < 32768
    ensures ShiftBit(t * 32768 + low) == Xor(2 * low, if t == 1 then 0x1021 else 0)
  {
    hide Xor;
    XorZero(2 * low);
  }

  lemma TopBit(a: u16, b: u16)
    ensures Xor(a, b) == Xor(a / 32768, b / 32768) * 32768 + Xor(a % 32768, b % 32768)
    ensures Xor(a % 32768, b % 32768) < 32768
  {
    hide Xor;
    Pow2Values();
    XorSplit(a / 32768, a % 32768, b / 32768, b % 32768, 15);
    XorBound(a % 32768, b % 32768, 15);
  }

  lemma XorBit(t: nat, u: nat)
    requires t < 2 && u < 2
    ensures Xor(t, u) == if t != u then 1 else 0
  {
  }

  lemma ShiftBitLinear(a: u16, b: u16)
    ensures ShiftBit(Xor16(a, b)) == Xor16(ShiftBit(a), ShiftBit(b))
  {
    hide Xor;
    var t, u := a / 32768, b / 32768;
    var x, y := a % 32768, b % 32768;
    TopBit(a, b);
    XorBit(t, u);
    ShiftBitSplit(t, x);
    ShiftBitSplit(u, y);
    ShiftBitSplit(Xor(t, u), Xor(x, y));
    XorLowBit(x, 0, y, 0);
    var p, q := if t == 1 then 0x1021 else 0, if u == 1 then 0x1021 else 0;
    XorRegroup(2 * x, p, 2 * y, q);
    XorSelf(0x1021);
    XorZero(0x1021);
    XorZero(0);
  }

  lemma {:induction false} ShiftBitsLinear(a: u16, b: u16, n: nat)
    ensures ShiftBits(Xor16(a, b), n) == Xor16(ShiftBits(a, n), ShiftBits(b, n))
  {
    if n > 0 {
      ShiftBitsLinear(a, b, n - 1);
      ShiftBitLinear(ShiftBits(a, n - 1), ShiftBits(b, n - 1));
    }
  }

  /** XOR-linearity of the step: xor distributes over any number of zero bytes. */
  lemma {:induction false} ShiftBytesLinear(a: u16, b: u16, n: nat)
    ensures ShiftBytes(Xor16(a, b), n) == Xor16(ShiftBytes(a, n), ShiftBytes(b, n))
  {
    if n > 0 {
      ShiftBytesLinear(a, b, n - 1);
      ShiftBitsLinear(ShiftBytes(a, n - 1), ShiftBytes(b, n - 1), 8);
    }
  }

  lemma {:induction false} ShiftBytesPeel(crc: u16, n: nat)
    ensures ShiftBytes(crc, n + 1) == ShiftBytes(ShiftBits(crc, 8), n)
  {
    if n > 0 {
      ShiftBytesPeel(crc, n - 1);
    }
  }

  /** A register whose top byte is clear just moves up by a byte. */
  lemma LowByteShifts(low: byte)
    ensures ShiftBits(low, 8) == low * 256
  {
    assert ShiftBits(low, 1) == 2 * low;
    assert ShiftBits(low, 2) == 4 * low;
    assert ShiftBits(low, 3) == 8 * low;
    assert ShiftBits(low, 4) == 16 * low;
    assert ShiftBits(low, 5) == 32 * low;
    assert ShiftBits(low, 6) == 64 * low;
    assert ShiftBits(low, 7) == 128 * low;
  }

  lemma BytesOf(crc: u16)
    ensures crc == Xor16((crc / 256) * 256, crc % 256)
  {
    Pow2Values();
    hide Xor;
    XorSplit(crc / 256, 0, 0, crc % 256, 8);
    XorZero(crc / 256);
    XorZero(crc % 256);
  }

  /** The lookup value of byte `b` in table `k`: that byte followed by `k` zero bytes. */
  function Table(k: nat, b: byte): u16 {
    ShiftBytes(Top(b), k + 1)
  }

  /** Absorbing a byte, one table lookup at a time (the remainder loop). */
  lemma AbsorbByTable(crc: u16, b: byte)
    ensures Absorb(crc, b) == Xor16((crc % 256) * 256, Table(0, Xor8(crc / 256, b)))
  {
    hide Xor;
    var high: byte, low: byte := Xor8(crc / 256, b), crc % 256;
    Pow2Values();
    XorSplit(crc / 256, low, b, 0, 8);
    XorZero(low);
    assert Xor16(crc, Top(b)) == high * 256 + low;
    BytesOf(high * 256 + low);
    ShiftBitsLinear(high * 256, low, 8);
    LowByteShifts(low);
    XorCommutes(ShiftBits(high * 256, 8), low * 256);
    assert ShiftBytes(Top(high), 0) == Top(high);
  }

  // ---- Slicing: a block of bytes is a xor of independent contributions --------------

  /** Each byte followed by the zero bytes that stand for the rest of the block. */
  function Contributions(bytes: seq<byte>): u16 {
    if |bytes| == 0 then 0
    else Xor16(ShiftBytes(Top(bytes[0]), |bytes|), Contributions(bytes[1..]))
  }

  lemma {:induction false} BlockIsXorOfContributions(crc: u16, bytes: seq<byte>)
    ensures AbsorbAll(crc, bytes) == Xor16(ShiftBytes(crc, |bytes|), Contributions(bytes))
    decreases |bytes|
  {
    hide Xor;
    if |bytes| == 0 {
      XorZero(crc);
    } else {
      var n := |bytes| - 1;
      BlockIsXorOfContributions(Absorb(crc, bytes[0]), bytes[1..]);
      ShiftBytesPeel(Xor16(crc, Top(bytes[0])), n);
      ShiftBytesLinear(crc, Top(bytes[0]), n + 1);
      XorAssociates(ShiftBytes(crc, n + 1), ShiftBytes(Top(bytes[0]), n + 1), Contributions(bytes[1..]));
    }
  }

  /** The register's own two bytes join the first two message bytes of the block. */
  lemma RegisterJoinsHead(crc: u16, a: byte, b: byte)
    ensures Xor16(ShiftBytes(crc, 8), Xor16(Table(7, a), Table(6, b)))
         == Xor16(Table(7, Xor8(crc / 256, a)), Table(6, Xor8(crc % 256, b)))
  {
    hide Xor;
    var high: byte, low: byte := crc / 256, crc % 256;
    BytesOf(crc);
    ShiftBytesLinear(Top(high), low, 8);
    ShiftBytesPeel(low, 7);
    LowByteShifts(low);
    assert ShiftBytes(crc, 8) == Xor16(Table(7, high), Table(6, low));
    XorRegroup(Table(7, high), Table(6, low), Table(7, a), Table(6, b));
    TopXor(high, a);
    TopXor(low, b);
    ShiftBytesLinear(Top(high), Top(a), 8);
    ShiftBytesLinear(Top(low), Top(b), 7);
  }

  lemma TopXor(a: byte, b: byte)
    ensures Top(Xor8(a, b)) == Xor16(Top(a), Top(b))
  {
    hide Xor;
    Pow2Values();
    XorSplit(a, 0, b, 0, 8);
    XorZero(0);
  }

  /** One step of the slicing loop: eight lookups xored from the left. */
  function SliceStep(crc: u16, c: seq<byte>): u16
    requires |c| == 8
  {
    var head := Xor16(crc, 256 * (c[0] as nat) + c[1]);
    Xor16(Xor16(Xor16(Xor16(Xor16(Xor16(Xor16(
      Table(7, head / 256), Table(6, head % 256)), Table(5, c[2])), Table(4, c[3])),
      Table(3, c[4])), Table(2, c[5])), Table(1, c[6])), Table(0, c[7]))
  }

  lemma HeadBytes(crc: u16, a: byte, b: byte)
    ensures Xor16(crc, 256 * (a as nat) + b) / 256 == Xor8(crc / 256, a)
    ensures Xor16(crc, 256 * (a as nat) + b) % 256 == Xor8(crc % 256, b)
  {
    hide Xor;
    Pow2Values();
    XorSplit(crc / 256, crc % 256, a, b, 8);
    XorBound(crc % 256, b, 8);
  }

  lemma LeftToRight(x: nat, y: nat, a: nat, b: nat, c: nat, d: nat, e: nat, f: nat)
    ensures Xor(Xor(Xor(Xor(Xor(Xor(Xor(x, y), a), b), c), d), e), f)
         == Xor(Xor(x, y), Xor(a, Xor(b, Xor(c, Xor(d, Xor(e, f))))))
  {
    hide Xor;
    var h := Xor(x, y);
    XorAssociates(Xor(Xor(Xor(Xor(h, a), b), c), d), e, f);
    XorAssociates(Xor(Xor(Xor(h, a), b), c), d, Xor(e, f));
    XorAssociates(Xor(Xor(h, a), b), c, Xor(d, Xor(e, f)));
    XorAssociates(Xor(h, a), b, Xor(c, Xor(d, Xor(e, f))));
    XorAssociates(h, a, Xor(b, Xor(c, Xor(d, Xor(e, f)))));
  }

  lemma {:induction false} ContributionsOf(c: seq<byte>)
    requires |c| > 0
    ensures Contributions(c) == Xor16(Table(|c| - 1, c[0]), Contributions(c[1..]))
  {
  }

  lemma BlockContributions(c: seq<byte>)
    requires |c| == 8
    ensures Contributions(c)
         == Xor16(Table(7, c[0]), Xor16(Table(6, c[1]), Xor16(Table(5, c[2]), Xor16(Table(4, c[3]),
            Xor16(Table(3, c[4]), Xor16(Table(2, c[5]), Xor16(Table(1, c[6]), Table(0, c[7]))))))))
  {
    hide Xor;
    hide ShiftBytes;
    ContributionsOf(c);
    ContributionsOf(c[1..]);
    ContributionsOf(c[2..]);
    ContributionsOf(c[3..]);
    ContributionsOf(c[4..]);
    ContributionsOf(c[5..]);
    ContributionsOf(c[6..]);
    ContributionsOf(c[7..]);
    assert c[1..][1..] == c[2..] && c[2..][1..] == c[3..] && c[3..][1..] == c[4..];
    assert c[4..][1..] == c[5..] && c[5..][1..] == c[6..] && c[6..][1..] == c[7..] && c[7..][1..] == [];
    XorZero(Table(0, c[7]));
  }

  /** Eight lookups absorb eight bytes. */
  lemma SliceStepAbsorbsBlock(crc: u16, c: seq<byte>)
    requires |c| == 8
    ensures SliceStep(crc, c) == AbsorbAll(crc, c)
  {
    hide Xor;
    hide Contributions;
    hide ShiftBytes;
    BlockIsXorOfContributions(crc, c);
    BlockContributions(c);
    RegisterJoinsHead(crc, c[0], c[1]);
    HeadBytes(crc, c[0], c[1]);
    var rest := Xor16(Table(5, c[2]), Xor16(Table(4, c[3]),
                Xor16(Table(3, c[4]), Xor16(Table(2, c[5]), Xor16(Table(1, c[6]), Table(0, c[7]))))));
    XorAssociates(Table(7, c[0]), Table(6, c[1]), rest);
    XorAssociates(ShiftBytes(crc, 8), Xor16(Table(7, c[0]), Table(6, c[1])), rest);
    LeftToRight(Table(7, Xor8(crc / 256, c[0])), Table(6, Xor8(crc % 256, c[1])),
                Table(5, c[2]), Table(4, c[3]), Table(3, c[4]), Table(2, c[5]), Table(1, c[6]), Table(0, c[7]));
  }

  // ---- The implementation -----------------------------------------------------------

  /** Each table follows from the one before it and the first. */
  lemma NextTable(k: nat, i: byte)
    ensures var previous := Table(k, i);
            Xor16((previous % 256) * 256, Table(0, previous / 256)) == Table(k + 1, i)
  {
    hide Xor;
    var previous := Table(k, i);
    AbsorbByTable(previous, 0);
    XorZero(previous);
    XorZero(previous / 256);
    assert Absorb(previous, 0) == ShiftBits(previous, 8);
  }

  ghost predicate AreTables(t: array2<u16>)
    reads t
  {
    && t.Length0 == 8 && t.Length1 == 256
    && forall k, i :: 0 <= k < 8 && 0 <= i < 256 ==> t[k, i] == Table(k, i)
  }

  /** The first table, byte by byte and bit by bit. */
  method BuildFirstTable(t: array2<u16>)
    requires t.Length0 == 8 && t.Length1 == 256
    modifies t
    ensures forall i :: 0 <= i < 256 ==> t[0, i] == Table(0, i)
  {
    hide Xor;
    for index := 0 to 256
      invariant forall i :: 0 <= i < index ==> t[0, i] == Table(0, i)
    {
      var crc: u16 := index * 256;
      for bit := 0 to 8
        invariant crc == ShiftBits(index * 256, bit)
      {
        crc := if crc >= 0x8000 then Xor16((2 * crc) % 65536, 0x1021) else 2 * crc;
      }
      assert Table(0, index) == ShiftBits(ShiftBytes(Top(index), 0), 8);
      t[0, index] := crc;
    }
  }

  method BuildTables() returns (t: array2<u16>)
    ensures fresh(t) && AreTables(t)
  {
    hide Xor;
    hide ShiftBytes;
    hide ShiftBits;
    t := new u16[8, 256]((_, _) => 0);
    BuildFirstTable(t);
    for slice := 1 to 8
      invariant forall k, i :: 0 <= k < slice && 0 <= i < 256 ==> t[k, i] == Table(k, i)
    {
      for i := 0 to 256
        invariant forall k, i :: 0 <= k < slice && 0 <= i < 256 ==> t[k, i] == Table(k, i)
        invariant forall j :: 0 <= j < i ==> t[slice, j] == Table(slice, j)
      {
        var previous := t[slice - 1, i];
        NextTable(slice - 1, i);
        t[slice, i] := Xor16((previous % 256) * 256, t[0, previous / 256]);
      }
    }
  }

  /** Slicing-by-8, then byte by byte on the remainder, computes the bit-by-bit CRC and divides by the generator. */
  method ComputeCrc16(bytes: seq<byte>) returns (crc: u16)
    ensures crc == Crc(bytes) && IsRemainder(65536 * Message(bytes), crc)
  {
    hide Xor;
    hide ShiftBytes;
    var t := BuildTables();
    crc := 0;
    var at := 0;
    while at + 8 <= |bytes|
      invariant 0 <= at <= |bytes|
      invariant crc == Crc(bytes[..at])
      invariant AreTables(t)
    {
      var c := bytes[at..at + 8];
      SliceStepAbsorbsBlock(crc, c);
      AbsorbAllConcat(0, bytes[..at], c);
      assert bytes[..at] + c == bytes[..at + 8];
      var head := Xor16(crc, 256 * (c[0] as nat) + c[1]);
      crc := Xor16(Xor16(Xor16(Xor16(Xor16(Xor16(Xor16(
        t[7, head / 256], t[6, head % 256]), t[5, c[2]]), t[4, c[3]]),
        t[3, c[4]]), t[2, c[5]]), t[1, c[6]]), t[0, c[7]]);
      at := at + 8;
    }
    while at < |bytes|
      invariant 0 <= at <= |bytes|
      invariant crc == Crc(bytes[..at])
      invariant AreTables(t)
    {
      AbsorbByTable(crc, bytes[at]);
      AbsorbOne(bytes, at);
      var index := Xor8(crc / 256, bytes[at]);
      crc := Xor16((crc % 256) * 256, t[0, index]);
      at := at + 1;
    }
    assert bytes[..at] == bytes;
    CrcIsRemainder(bytes, crc);
  }

  lemma AbsorbOne(bytes: seq<byte>, at: nat)
    requires at < |bytes|
    ensures Crc(bytes[..at + 1]) == Absorb(Crc(bytes[..at]), bytes[at])
  {
    hide Xor;
    assert bytes[..at + 1] == bytes[..at] + [bytes[at]];
    AbsorbAllConcat(0, bytes[..at], [bytes[at]]);
  }

  // ---- What the code is: the remainder of a division -------------------------------

  /** The generator x^16 + x^12 + x^5 + 1, coefficients as bits. */
  const POLYNOMIAL: nat := 0x11021

  /** Product of two polynomials over the field of two elements. */
  function Product(a: nat, b: nat): nat {
    if a == 0 then 0 else Xor(2 * Product(a / 2, b), if a % 2 == 1 then b else 0)
  }

  /** The message as one number, first byte highest. */
  function Message(bytes: seq<byte>): nat {
    if |bytes| == 0 then 0 else 256 * Message(bytes[..|bytes| - 1]) + bytes[|bytes| - 1]
  }

  /** `r` is what is left of `n` after division by the generator. */
  ghost predicate IsRemainder(n: nat, r: u16) {
    exists q: nat :: Xor(Product(q, POLYNOMIAL), r) == n
  }

  lemma XorDouble(a: nat, b: nat)
    ensures Xor(2 * a, 2 * b) == 2 * Xor(a, b)
  {
    XorLowBit(a, 0, b, 0);
  }

  lemma {:induction false} XorScaled(a: nat, b: nat, k: nat)
    ensures Xor(Pow2(k) * a, Pow2(k) * b) == Pow2(k) * Xor(a, b)
  {
    hide Xor;
    if k > 0 {
      XorScaled(a, b, k - 1);
      var p, q := Pow2(k - 1) * a, Pow2(k - 1) * b;
      XorDouble(p, q);
      assert Pow2(k) * a == 2 * p && Pow2(k) * b == 2 * q;
    }
  }

  lemma ProductDouble(q: nat, b: nat)
    ensures Product(2 * q, b) == 2 * Product(q, b)
  {
    hide Xor;
    XorZero(2 * Product(q, b));
  }

  lemma {:induction false} ProductScaled(q: nat, b: nat, k: nat)
    ensures Product(Pow2(k) * q, b) == Pow2(k) * Product(q, b)
  {
    hide Product;
    if k > 0 {
      ProductScaled(q, b, k - 1);
      ProductDouble(Pow2(k - 1) * q, b);
      assert Pow2(k) * q == 2 * (Pow2(k - 1) * q);
      assert Pow2(k) * Product(q, b) == 2 * (Pow2(k - 1) * Product(q, b));
    }
  }

  lemma ProductStep(a: nat, b: nat)
    ensures Product(a, b) == Xor(2 * Product(a / 2, b), if a % 2 == 1 then b else 0)
  {
    if a == 0 {
      XorZero(0);
    }
  }

  lemma {:induction false} ProductXor(p: nat, q: nat, b: nat)
    ensures Product(Xor(p, q), b) == Xor(Product(p, b), Product(q, b))
    decreases p + q
  {
    hide Xor;
    hide Product;
    if p == 0 && q == 0 {
      XorZero(0);
      ProductOfZero(b);
    } else {
      ProductXor(p / 2, q / 2, b);
      ProductStep(p, b);
      ProductStep(q, b);
      ProductStep(Xor(p, q), b);
      XorHalf(p, q);
      var u, v := if p % 2 == 1 then b else 0, if q % 2 == 1 then b else 0;
      XorRegroup(2 * Product(p / 2, b), u, 2 * Product(q / 2, b), v);
      XorDouble(Product(p / 2, b), Product(q / 2, b));
      XorZero(b);
      XorSelf(b);
      XorZero(0);
    }
  }

  lemma ProductOfZero(b: nat)
    ensures Product(0, b) == 0
  {
  }

  lemma ProductOfOne(b: nat)
    ensures Product(1, b) == b
  {
    hide Xor;
    ProductStep(1, b);
    ProductOfZero(b);
    XorZero(b);
  }

  /** One shift multiplies by x and takes the generator off when it fits. */
  lemma ShiftBitDivides(crc: u16) returns (q: nat)
    ensures q < 2 && Xor(Product(q, POLYNOMIAL), ShiftBit(crc)) == 2 * crc
  {
    hide Xor;
    hide Product;
    var t, low := crc / 32768, crc % 32768;
    ShiftBitSplit(t, low);
    ProductOfZero(POLYNOMIAL);
    ProductOfOne(POLYNOMIAL);
    XorZero(2 * low);
    q := t;
    if t == 1 {
      Pow2Values();
      XorSplit(1, 0x1021, 0, 2 * low, 16);
      XorCommutes(2 * low, 0x1021);
      XorZero(1);
      var g := 0x1021;
      XorAssociates(POLYNOMIAL, g, 2 * low);
      XorSplit(1, g, 0, g, 16);
      XorSelf(g);
      XorSplit(1, 0, 0, 2 * low, 16);
      XorZero(2 * low);
      calc {
        Xor(Product(1, POLYNOMIAL), ShiftBit(crc));
        Xor(POLYNOMIAL, Xor(g, 2 * low));
        Xor(Xor(POLYNOMIAL, g), 2 * low);
        Xor(65536, 2 * low);
        65536 + 2 * low;
      }
    }
  }

  lemma {:induction false} ShiftBitsDivide(crc: u16, n: nat) returns (q: nat)
    ensures Xor(Product(q, POLYNOMIAL), ShiftBits(crc, n)) == Pow2(n) * crc
  {
    hide Xor;
    hide Product;
    hide ShiftBit;
    if n == 0 {
      q := 0;
      ProductOfZero(POLYNOMIAL);
      XorZero(crc);
    } else {
      var p := ShiftBitsDivide(crc, n - 1);
      var before := ShiftBits(crc, n - 1);
      var bit := ShiftBitDivides(before);
      q := Xor(2 * p, bit);
      ProductXor(2 * p, bit, POLYNOMIAL);
      ProductDouble(p, POLYNOMIAL);
      XorAssociates(2 * Product(p, POLYNOMIAL), Product(bit, POLYNOMIAL), ShiftBit(before));
      XorDouble(Product(p, POLYNOMIAL), before);
      assert Pow2(n) * crc == 2 * (Pow2(n - 1) * crc);
    }
  }

  /** A message is divided byte by byte. */
  lemma {:induction false} CrcDivides(bytes: seq<byte>) returns (q: nat)
    ensures Xor(Product(q, POLYNOMIAL), Crc(bytes)) == 65536 * Message(bytes)
    decreases |bytes|
  {
    hide Xor;
    hide Product;
    hide ShiftBits;
    if |bytes| == 0 {
      q := 0;
      ProductOfZero(POLYNOMIAL);
      XorZero(0);
    } else {
      var n := |bytes| - 1;
      var p := CrcDivides(bytes[..n]);
      var before, b := Crc(bytes[..n]), bytes[n];
      AbsorbOne(bytes, n);
      assert bytes[..n + 1] == bytes;
      var joined := Xor16(before, Top(b));
      var r := ShiftBitsDivide(joined, 8);
      q := JoinQuotients(p, r, before, b, Absorb(before, b), Message(bytes[..n]));
    }
  }

  lemma JoinQuotients(p: nat, r: nat, before: u16, b: byte, after: u16, m: nat) returns (q: nat)
    requires Xor(Product(p, POLYNOMIAL), before) == 65536 * m
    requires Xor(Product(r, POLYNOMIAL), after) == Pow2(8) * Xor(before, Top(b))
    ensures Xor(Product(q, POLYNOMIAL), after) == 65536 * (256 * m + b)
  {
    hide Xor;
    hide Product;
    Pow2Values();
    q := Xor(Pow2(8) * p, r);
    ProductXor(Pow2(8) * p, r, POLYNOMIAL);
    ProductScaled(p, POLYNOMIAL, 8);
    var P := Product(p, POLYNOMIAL);
    XorAssociates(256 * P, Product(r, POLYNOMIAL), after);
    XorScaled(P, Xor(before, Top(b)), 8);
    XorAssociates(P, before, Top(b));
    XorSplit(m, 0, 0, Top(b), 16);
    XorZero(m);
    XorZero(Top(b));
    assert 65536 * (256 * m + b) == 256 * (65536 * m + 256 * b);
  }

  /** No multiple of the generator but zero fits in sixteen bits. */
  lemma {:induction false} ProductIsLong(q: nat) returns (n: nat)
    requires q > 0
    ensures n >= 16 && Pow2(n) <= Product(q, POLYNOMIAL) < Pow2(n + 1)
  {
    hide Xor;
    hide Product;
    hide Pow2;
    Pow2Values();
    assert Pow2(17) == 131072 by {
      assert Pow2(17) == 2 * Pow2(16) by {
        Pow2Step(16);
      }
    }
    if q == 1 {
      ProductOfOne(POLYNOMIAL);
      n := 16;
    } else {
      var m := ProductIsLong(q / 2);
      ProductStep(q, POLYNOMIAL);
      n := m + 1;
      Pow2Step(m);
      Pow2Step(n);
      Pow2Monotone(17, n);
      TopStays(2 * Product(q / 2, POLYNOMIAL), if q % 2 == 1 then POLYNOMIAL else 0, n);
    }
  }

  lemma Pow2Step(n: nat)
    ensures Pow2(n + 1) == 2 * Pow2(n)
  {
  }

  lemma TopStays(a: nat, b: nat, n: nat)
    requires Pow2(n) <= a < Pow2(n + 1) && b < Pow2(n)
    ensures Pow2(n) <= Xor(a, b) < Pow2(n + 1)
  {
    hide Xor;
    hide Pow2;
    Pow2Step(n);
    XorSplit(1, a - Pow2(n), 0, b, n);
    XorZero(1);
    XorBound(a - Pow2(n), b, n);
  }

  lemma RemainderUnique(n: nat, r: u16, r': u16)
    requires IsRemainder(n, r) && IsRemainder(n, r')
    ensures r == r'
  {
    hide Xor;
    hide Product;
    var q: nat :| Xor(Product(q, POLYNOMIAL), r) == n;
    var q': nat :| Xor(Product(q', POLYNOMIAL), r') == n;
    var A, B := Product(q, POLYNOMIAL), Product(q', POLYNOMIAL);
    ProductXor(q, q', POLYNOMIAL);
    XorRegroup(A, r, B, r');
    XorSelf(n);
    XorIsZero(Xor(A, B), Xor(r, r'));
    Pow2Values();
    XorBound(r, r', 16);
    if Xor(q, q') > 0 {
      var k := ProductIsLong(Xor(q, q'));
      Pow2Monotone(16, k);
    }
    ProductOfZero(POLYNOMIAL);
    XorIsZero(r, r');
  }

  lemma XorIsZero(a: nat, b: nat)
    ensures Xor(a, b) == 0 <==> a == b
  {
    hide Xor;
    XorSelf(a);
    if Xor(a, b) == 0 {
      XorAssociates(a, a, b);
      XorZero(a);
      XorZero(b);
    }
  }

  /** The code of a message is the remainder of the message, with sixteen zero bits appended, on division by the generator. */
  lemma CrcIsRemainder(bytes: seq<byte>, r: u16)
    ensures IsRemainder(65536 * Message(bytes), r) <==> r == Crc(bytes)
  {
    hide Xor;
    hide Product;
    hide Crc;
    var q := CrcDivides(bytes);
    assert IsRemainder(65536 * Message(bytes), Crc(bytes));
    if IsRemainder(65536 * Message(bytes), r) {
      RemainderUnique(65536 * Message(bytes), r, Crc(bytes));
    }
  }

  function XorBytes(a: seq<byte>, b: seq<byte>): seq<byte>
    requires |a| == |b|
  {
    seq(|a|, i requires 0 <= i < |a| => Xor8(a[i], b[i]))
  }

  /** The whole code is linear: messages of one length and their codes are added alike. */
  lemma {:induction false} CrcLinear(a: seq<byte>, b: seq<byte>)
    requires |a| == |b|
    ensures Crc(XorBytes(a, b)) == Xor16(Crc(a), Crc(b))
    decreases |a|
  {
    hide Xor;
    hide ShiftBits;
    if |a| == 0 {
      XorZero(0);
    } else {
      var n := |a| - 1;
      CrcLinear(a[..n], b[..n]);
      assert XorBytes(a, b)[..n] == XorBytes(a[..n], b[..n]);
      AbsorbOne(a, n);
      AbsorbOne(b, n);
      AbsorbOne(XorBytes(a, b), n);
      assert a[..n + 1] == a && b[..n + 1] == b && XorBytes(a, b)[..n + 1] == XorBytes(a, b);
      TopXor(a[n], b[n]);
      XorRegroup(Crc(a[..n]), Crc(b[..n]), Top(a[n]), Top(b[n]));
      ShiftBitsLinear(Xor16(Crc(a[..n]), Top(a[n])), Xor16(Crc(b[..n]), Top(b[n])), 8);
    }
  }

  // ---- Hash tags --------------------------------------------------------------------

  const OPEN: byte := 123   // '{'
  const CLOSE: byte := 125  // '}'

  /** Position of the first `b` in `s`. */
  function Find(b: byte, s: seq<byte>): (r: Option<nat>)
    ensures r.Some? ==> r.value < |s| && s[r.value] == b && b !in s[..r.value]
    ensures r.None? ==> b !in s
  {
    if |s| == 0 then None
    else if s[0] == b then Some(0)
    else match Find(b, s[1..])
      case None => None
      case Some(i) => assert s[..i + 1] == [s[0]] + s[1..][..i]; Some(i + 1)
  }

  function Hashtag(key: seq<byte>): seq<byte> {
    match Find(OPEN, key)
    case None => key
    case Some(open) =>
      match Find(CLOSE, key[open + 1..])
      case None => key
      case Some(len) => if len == 0 then key else key[open + 1..open + 1 + len]
  }

  function HashSlot(key: seq<byte>): Slots.Slot {
    Crc(Hashtag(key)) % Slots.HASH_SLOTS
  }

  /** `t` is the non-empty text between the key's first '{' and the first '}' after it. */
  predicate Tagged(key: seq<byte>, before: seq<byte>, t: seq<byte>, after: seq<byte>) {
    && key == before + [OPEN] + t + [CLOSE] + after
    && OPEN !in before && CLOSE !in t && t != []
  }

  lemma {:induction false} FindFirst(b: byte, s: seq<byte>, i: nat)
    requires i < |s| && s[i] == b && b !in s[..i]
    ensures Find(b, s) == Some(i)
  {
    if i > 0 {
      assert s[0] == s[..i][0];
      assert s[1..][..i - 1] == s[..i][1..];
      FindFirst(b, s[1..], i - 1);
    }
  }

  /** "Hash tags", Redis Cluster Specification: only the tag is hashed. */
  lemma TagIsHashed(key: seq<byte>, before: seq<byte>, t: seq<byte>, after: seq<byte>)
    requires Tagged(key, before, t, after)
    ensures Hashtag(key) == t
  {
    assert key[..|before|] == before;
    FindFirst(OPEN, key, |before|);
    var rest := key[|before| + 1..];
    assert rest == t + [CLOSE] + after && rest[..|t|] == t;
    FindFirst(CLOSE, rest, |t|);
  }

  lemma CutOut(s: seq<byte>, i: nat, len: nat)
    requires i + len + 1 < |s|
    ensures s == s[..i] + [s[i]] + s[i + 1..i + 1 + len] + [s[i + 1 + len]] + s[i + 2 + len..]
    ensures s[i + 1..][..len] == s[i + 1..i + 1 + len]
  {
  }

  /** Nothing else is ever cut out: a key without such a tag is hashed whole. */
  lemma HashtagIsTagOrKey(key: seq<byte>) returns (before: seq<byte>, after: seq<byte>)
    ensures Hashtag(key) == key || Tagged(key, before, Hashtag(key), after)
  {
    hide Find;
    hide Tagged;
    before, after := [], [];
    if Hashtag(key) != key {
      var open := Find(OPEN, key).value;
      var len := Find(CLOSE, key[open + 1..]).value;
      CutIsTagged(key, open, len);
      before, after := key[..open], key[open + 2 + len..];
    }
  }

  lemma CutIsTagged(key: seq<byte>, open: nat, len: nat)
    requires len > 0 && open + len + 1 < |key| && key[open] == OPEN && key[open + 1 + len] == CLOSE
    requires OPEN !in key[..open] && CLOSE !in key[open + 1..][..len]
    ensures Tagged(key, key[..open], key[open + 1..open + 1 + len], key[open + 2 + len..])
  {
    CutOut(key, open, len);
  }

  /** The slot of a key without a tag, and of a tag wherever it stands, is the remainder's low fourteen bits. */
  lemma SlotIsRemainder(key: seq<byte>, before: seq<byte>, hashed: seq<byte>, after: seq<byte>, r: u16)
    requires Tagged(key, before, hashed, after) || (hashed == key && forall b, t, a :: !Tagged(key, b, t, a))
    requires IsRemainder(65536 * Message(hashed), r)
    ensures HashSlot(key) == r % 16384
  {
    hide Tagged;
    hide IsRemainder;
    hide Hashtag;
    hide Crc;
    CrcIsRemainder(hashed, r);
    if Tagged(key, before, hashed, after) {
      TagIsHashed(key, before, hashed, after);
    } else {
      var b, a := HashtagIsTagOrKey(key);
    }
  }

  /** Keys that carry the same tag land in the same slot, wherever the tag stands. */
  lemma SameTagSameSlot(k1: seq<byte>, b1: seq<byte>, a1: seq<byte>,
                        k2: seq<byte>, b2: seq<byte>, a2: seq<byte>, t: seq<byte>)
    requires Tagged(k1, b1, t, a1) && Tagged(k2, b2, t, a2)
    ensures HashSlot(k1) == HashSlot(k2) == Crc(t) % Slots.HASH_SLOTS
  {
    TagIsHashed(k1, b1, t, a1);
    TagIsHashed(k2, b2, t, a2);
  }
}
