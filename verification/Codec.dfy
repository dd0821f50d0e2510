/**
 The wire form of a mutation and of a batch of mutations (src/cluster/replication.rs):
 fixed-width big-endian numbers, then the key, then the value.
 */
module Codec {
  import opened Wrappers
  import opened Words
  import Slots

  type bytes = seq<byte>

  const MAX_FIELD: nat := 16 * 1024 * 1024
  const MUTATION_HEADER_LEN: nat := 27
  const MAX_RECORD_LEN: nat := 2 * MAX_FIELD + 64
  const MAX_BATCH: nat := 0x10_0000

  datatype MutationKind = Set | Delete | Expire | Replace

  datatype MutationRecord = MutationRecord(
    offset: u64, slot: Slots.Slot, kind: MutationKind, key: bytes, value: bytes, expireAtMs: Option<u64>)

  datatype CodecError = Truncated | Invalid | TooLarge

  // ---- Fixed-width numbers ----------------------------------------------------------

  function Pow256(w: nat): (p: nat)
    ensures p > 0
  {
    if w == 0 then 1 else 256 * Pow256(w - 1)
  }

  /** The low `w` bytes of `n`, most significant first. */
  function BigEndian(n: nat, w: nat): (b: bytes)
    ensures |b| == w
  {
    if w == 0 then [] else BigEndian(n / 256, w - 1) + [n % 256]
  }

  function FromBigEndian(b: bytes): nat {
    if b == [] then 0 else 256 * FromBigEndian(b[..|b| - 1]) + b[|b| - 1]
  }

  lemma DivideTwice(n: nat, i: nat)
    requires i > 0
    ensures n / 256 / Pow256(i - 1) == n / Pow256(i)
  {
    var p := Pow256(i - 1);
    var m := 256 * p;
    assert Pow256(i) == m;
    DivideInSteps(n, p, m);
  }

  lemma DivideInSteps(n: nat, p: nat, m: nat)
    requires p > 0 && m == 256 * p
    ensures n / 256 / p == n / m
  {
    var q, r := n / m, n % m;
    var x := p * q;
    assert m * q == 256 * x;
    assert n == 256 * (x + r / 256) + r % 256;
    QuotientOf(256, x + r / 256, r % 256);
    QuotientOf(p, q, r / 256);
  }

  lemma QuotientOf(p: nat, q: nat, r: nat)
    requires r < p
    ensures (p * q + r) / p == q
  {
    var m := p * q + r;
    var x := m / p - q;
    assert p * x == p * (m / p) - p * q == r - m % p;
    Multiple(p, x);
  }

  lemma Multiple(p: nat, x: int)
    ensures x >= 1 ==> p * x >= p
    ensures x <= -1 ==> p * x + p <= 0
  {
  }

  /** The byte at each position, most significant first. */
  lemma {:induction false} BigEndianAt(n: nat, w: nat, i: nat)
    requires i < w
    ensures BigEndian(n, w)[i] == n / Pow256(w - 1 - i) % 256
  {
    if i < w - 1 {
      BigEndianAt(n / 256, w - 1, i);
      DivideTwice(n, w - 1 - i);
    }
  }

  lemma {:induction false} NumberRoundTrip(n: nat, w: nat)
    requires n < Pow256(w)
    ensures FromBigEndian(BigEndian(n, w)) == n
  {
    if w > 0 {
      NumberRoundTrip(n / 256, w - 1);
      var b := BigEndian(n, w);
      assert b[..w - 1] == BigEndian(n / 256, w - 1);
    }
  }

  lemma {:induction false} BytesRoundTrip(b: bytes)
    ensures FromBigEndian(b) < Pow256(|b|)
    ensures BigEndian(FromBigEndian(b), |b|) == b
  {
    if b != [] {
      var n := |b| - 1;
      BytesRoundTrip(b[..n]);
      assert b == b[..n] + [b[n]];
    }
  }

  lemma Pow256Values()
    ensures Pow256(2) == 65536
    ensures Pow256(4) == 0x1_0000_0000
    ensures Pow256(8) == 0x1_0000_0000_0000_0000
  {
    assert Pow256(3) == 256 * Pow256(2);
    assert Pow256(5) == 256 * Pow256(4);
    assert Pow256(6) == 256 * Pow256(5);
    assert Pow256(7) == 256 * Pow256(6);
  }

  // ---- One mutation -----------------------------------------------------------------

  function KindByte(k: MutationKind): byte {
    match k
    case Set => 1
    case Delete => 2
    case Expire => 3
    case Replace => 4
  }

  function KindOf(b: byte): Option<MutationKind> {
    match b
    case 1 => Some(Set)
    case 2 => Some(Delete)
    case 3 => Some(Expire)
    case 4 => Some(Replace)
    case _ => None
  }

  predicate WithinLimits(r: MutationRecord) {
    |r.key| <= MAX_FIELD && |r.value| <= MAX_FIELD
  }

  function ExpiryWord(r: MutationRecord): u64 {
    if r.expireAtMs.Some? then r.expireAtMs.value else 0
  }

  function Header(r: MutationRecord): (b: bytes)
    ensures |b| == MUTATION_HEADER_LEN
  {
    BigEndian(r.offset, 8) + BigEndian(r.slot, 2) + [KindByte(r.kind)]
    + BigEndian(|r.key|, 4) + BigEndian(|r.value|, 4) + BigEndian(ExpiryWord(r), 8)
  }

  function Encoded(r: MutationRecord): (b: bytes)
    ensures |b| == MUTATION_HEADER_LEN + |r.key| + |r.value|
  {
    Header(r) + r.key + r.value
  }

  /** `encode_mutation`. */
  function EncodeMutation(r: MutationRecord): Result<bytes, CodecError> {
    if WithinLimits(r) then Ok(Encoded(r)) else Err(TooLarge)
  }

  predicate ValueAllowed(kind: MutationKind, value: bytes) {
    kind == Delete || kind == Expire ==> value == []
  }

  /** `decode_mutation`, with its checks in the order the code makes them. */
  function DecodeMutation(b: bytes): Result<MutationRecord, CodecError> {
    if |b| < 10 then Err(Truncated)
    else
      var slot := FromBigEndian(b[8..10]);
      if slot >= 16384 then Err(Invalid)
      else if |b| < 11 then Err(Truncated)
      else if KindOf(b[10]).None? then Err(Invalid)
      else if |b| < 27 then Err(Truncated)
      else
        Pow256Values(); BytesRoundTrip(b[..8]); BytesRoundTrip(b[19..27]);
        var offset: u64 := FromBigEndian(b[..8]);
        var keyLen, valueLen := FromBigEndian(b[11..15]), FromBigEndian(b[15..19]);
        var expire: u64 := FromBigEndian(b[19..27]);
        var kind := KindOf(b[10]).value;
        if keyLen > MAX_FIELD || valueLen > MAX_FIELD then Err(TooLarge)
        else if |b| < 27 + keyLen + valueLen then Err(Truncated)
        else
          var key, value := b[27..27 + keyLen], b[27 + keyLen..27 + keyLen + valueLen];
          if |b| != 27 + keyLen + valueLen || key == [] || !ValueAllowed(kind, value) then Err(Invalid)
          else Ok(MutationRecord(offset, slot, kind, key, value, if expire != 0 then Some(expire) else None))
  }

  /** The records the format can carry: a key, no value where none belongs, no zero expiry. */
  predicate Carriable(r: MutationRecord) {
    WithinLimits(r) && r.key != [] && ValueAllowed(r.kind, r.value) && r.expireAtMs != Some(0)
  }

  /** The pieces of an encoded record, where the decoder looks for them. */
  lemma HeaderFields(r: MutationRecord, tail: bytes)
    ensures var b := Header(r) + tail;
            && b[..8] == BigEndian(r.offset, 8)
            && b[8..10] == BigEndian(r.slot, 2)
            && b[10] == KindByte(r.kind)
            && b[11..15] == BigEndian(|r.key|, 4)
            && b[15..19] == BigEndian(|r.value|, 4)
            && b[19..27] == BigEndian(ExpiryWord(r), 8)
            && b[27..] == tail
  {
    hide BigEndian;
  }

  lemma HeaderNumbers(r: MutationRecord)
    requires WithinLimits(r)
    ensures FromBigEndian(BigEndian(r.offset, 8)) == r.offset
    ensures FromBigEndian(BigEndian(r.slot, 2)) == r.slot
    ensures FromBigEndian(BigEndian(|r.key|, 4)) == |r.key|
    ensures FromBigEndian(BigEndian(|r.value|, 4)) == |r.value|
    ensures FromBigEndian(BigEndian(ExpiryWord(r), 8)) == ExpiryWord(r)
  {
    hide BigEndian;
    hide FromBigEndian;
    Pow256Values();
    hide Pow256;
    NumberRoundTrip(r.offset, 8);
    NumberRoundTrip(r.slot, 2);
    NumberRoundTrip(|r.key|, 4);
    NumberRoundTrip(|r.value|, 4);
    NumberRoundTrip(ExpiryWord(r), 8);
  }

  /** What the decoder makes of an encoded record within the limits. */
  lemma DecodeOfEncoded(r: MutationRecord)
    requires WithinLimits(r)
    ensures DecodeMutation(Encoded(r)) ==
      if r.key == [] || !ValueAllowed(r.kind, r.value) then Err(Invalid)
      else Ok(r.(expireAtMs := if ExpiryWord(r) != 0 then Some(ExpiryWord(r)) else None))
  {
    hide BigEndian;
    hide FromBigEndian;
    hide Header;
    var b := Encoded(r);
    assert b == Header(r) + (r.key + r.value);
    HeaderFields(r, r.key + r.value);
    HeaderNumbers(r);
    assert b[27..27 + |r.key|] == r.key;
    assert b[27 + |r.key|..27 + |r.key| + |r.value|] == r.value;
    assert KindOf(KindByte(r.kind)) == Some(r.kind);
  }

  /** The layout of an encoded record: numbers most significant byte first, then the kind by its number, then key and value. */
  lemma WireLayout(r: MutationRecord, i: nat)
    requires WithinLimits(r)
    ensures var b := Encoded(r);
            && |b| == 27 + |r.key| + |r.value|
            && (i < 8 ==> b[i] == r.offset / Pow256(7 - i) % 256)
            && (8 <= i < 10 ==> b[i] == r.slot / Pow256(9 - i) % 256)
            && b[10] == (match r.kind case Set => 1 case Delete => 2 case Expire => 3 case Replace => 4)
            && (11 <= i < 15 ==> b[i] == |r.key| / Pow256(14 - i) % 256)
            && (15 <= i < 19 ==> b[i] == |r.value| / Pow256(18 - i) % 256)
            && (19 <= i < 27 ==> b[i] == (if r.expireAtMs.Some? then r.expireAtMs.value else 0) / Pow256(26 - i) % 256)
            && b[27..27 + |r.key|] == r.key && b[27 + |r.key|..] == r.value
  {
    hide BigEndian;
    hide Pow256;
    hide Header;
    var b := Encoded(r);
    assert b == Header(r) + (r.key + r.value);
    HeaderFields(r, r.key + r.value);
    if i < 8 {
      BigEndianAt(r.offset, 8, i);
      assert b[i] == b[..8][i];
    } else if 8 <= i < 10 {
      BigEndianAt(r.slot, 2, i - 8);
      assert b[i] == b[8..10][i - 8];
    } else if 11 <= i < 15 {
      BigEndianAt(|r.key|, 4, i - 11);
      assert b[i] == b[11..15][i - 11];
    } else if 15 <= i < 19 {
      BigEndianAt(|r.value|, 4, i - 15);
      assert b[i] == b[15..19][i - 15];
    } else if 19 <= i < 27 {
      BigEndianAt(ExpiryWord(r), 8, i - 19);
      assert b[i] == b[19..27][i - 19];
    }
  }

  /** The records the format carries, spelled out. */
  lemma CarriableIff(r: MutationRecord)
    ensures Carriable(r) <==>
            && 0 < |r.key| <= 16777216 && |r.value| <= 16777216 && r.expireAtMs != Some(0)
            && (r.kind == Delete || r.kind == Expire ==> r.value == [])
    ensures EncodeMutation(r) == Err(TooLarge) <==> |r.key| > 16777216 || |r.value| > 16777216
  {
  }

  /** Decoding undoes encoding on exactly the carriable records. */
  lemma MutationRoundTrip(r: MutationRecord)
    ensures EncodeMutation(r).Ok? && DecodeMutation(EncodeMutation(r).value) == Ok(r) <==> Carriable(r)
  {
    hide DecodeMutation;
    hide Encoded;
    if WithinLimits(r) {
      DecodeOfEncoded(r);
    }
  }

  /** Accepted bytes are the encoding of the record they were read as. */
  lemma AcceptedBytesReencode(b: bytes)
    requires DecodeMutation(b).Ok?
    ensures Carriable(DecodeMutation(b).value)
    ensures EncodeMutation(DecodeMutation(b).value) == Ok(b)
  {
    hide BigEndian;
    hide FromBigEndian;
    hide DecodeMutation;
    var r := DecodeMutation(b).value;
    AcceptedFields(b);
    BytesRoundTrip(b[..8]);
    BytesRoundTrip(b[8..10]);
    BytesRoundTrip(b[11..15]);
    BytesRoundTrip(b[15..19]);
    BytesRoundTrip(b[19..27]);
    assert Header(r) == b[..27];
    assert b == b[..27] + r.key + r.value;
  }

  /** A record cut short anywhere is reported as truncated. */
  lemma PrefixIsTruncated(r: MutationRecord, n: nat)
    requires WithinLimits(r) && n < |Encoded(r)|
    ensures DecodeMutation(Encoded(r)[..n]) == Err(Truncated)
  {
    hide BigEndian;
    hide FromBigEndian;
    hide Header;
    var b := Encoded(r);
    var p := b[..n];
    assert b == Header(r) + (r.key + r.value);
    HeaderFields(r, r.key + r.value);
    HeaderNumbers(r);
    assert KindOf(KindByte(r.kind)) == Some(r.kind);
    assert n >= 10 ==> p[8..10] == b[8..10];
    assert n >= 27 ==> p[11..15] == b[11..15] && p[15..19] == b[15..19];
  }

  /** What is refused, and as what, by the bytes themselves. */
  lemma DecodeRefuses(b: bytes)
    ensures |b| < 10 ==> DecodeMutation(b) == Err(Truncated)
    ensures |b| >= 10 && 256 * (b[8] as nat) + b[9] >= 16384 ==> DecodeMutation(b) == Err(Invalid)
    ensures |b| >= 11 && (b[10] == 0 || b[10] > 4) ==> DecodeMutation(b) == Err(Invalid)
    ensures |b| >= 27 && 256 * (b[8] as nat) + b[9] < 16384 && 1 <= b[10] <= 4 ==>
              (FromBigEndian(b[11..15]) > 16777216 || FromBigEndian(b[15..19]) > 16777216 <==> DecodeMutation(b) == Err(TooLarge))
    ensures DecodeMutation(b).Ok? ==> |b| == 27 + FromBigEndian(b[11..15]) + FromBigEndian(b[15..19])
  {
    if |b| >= 10 {
      TwoBytes(b[8..10]);
    }
  }

  lemma TwoBytes(b: bytes)
    requires |b| == 2
    ensures FromBigEndian(b) == 256 * (b[0] as nat) + b[1]
  {
    assert b[..1] == [b[0]] && [b[0]][..0] == [];
    assert FromBigEndian([b[0]]) == b[0];
  }

  lemma AcceptedFields(b: bytes)
    requires DecodeMutation(b).Ok?
    ensures var r := DecodeMutation(b).value;
            && |b| == 27 + |r.key| + |r.value|
            && r.offset == FromBigEndian(b[..8]) && r.slot == FromBigEndian(b[8..10]) && KindByte(r.kind) == b[10]
            && |r.key| == FromBigEndian(b[11..15]) && |r.value| == FromBigEndian(b[15..19])
            && ExpiryWord(r) == FromBigEndian(b[19..27])
            && r.key == b[27..27 + |r.key|] && r.value == b[27 + |r.key|..]
            && Carriable(r)
  {
    hide BigEndian;
    hide FromBigEndian;
  }
}
