/**
 Migration batches (src/cluster/replication.rs): a count, then each mutation behind its length.
 */
module BatchCodec {
  import opened Wrappers
  import opened Codec

  function Framed(r: MutationRecord): (b: bytes)
    ensures |b| >= 4 + MUTATION_HEADER_LEN
  {
    BigEndian(|Encoded(r)|, 4) + Encoded(r)
  }

  function FramedAll(rs: seq<MutationRecord>): bytes {
    if rs == [] then [] else Framed(rs[0]) + FramedAll(rs[1..])
  }

  ghost predicate AllWithinLimits(rs: seq<MutationRecord>) {
    forall r :: r in rs ==> WithinLimits(r)
  }

  ghost predicate AllCarriable(rs: seq<MutationRecord>) {
    forall r :: r in rs ==> Carriable(r)
  }

  lemma {:induction false} FramedAllAppend(rs: seq<MutationRecord>, r: MutationRecord)
    ensures FramedAll(rs + [r]) == FramedAll(rs) + Framed(r)
  {
    hide Framed;
    if rs == [] {
      assert rs + [r] == [r] && [r][1..] == [];
    } else {
      assert (rs + [r])[1..] == rs[1..] + [r];
      FramedAllAppend(rs[1..], r);
    }
  }

  lemma {:induction false} FramedAllLength(rs: seq<MutationRecord>)
    ensures |FramedAll(rs)| >= 31 * |rs|
  {
    hide Framed;
    if rs != [] {
      FramedAllLength(rs[1..]);
    }
  }

  /** The batch a list of records within the limits is sent as. */
  function EncodedBatch(rs: seq<MutationRecord>): bytes {
    BigEndian(|rs|, 4) + FramedAll(rs)
  }

  /** A batch is its count in four bytes, most significant first, and then its frames. */
  lemma BatchLayout(rs: seq<MutationRecord>, i: nat)
    requires i < 4
    ensures EncodedBatch(rs)[i] == |rs| / Pow256(3 - i) % 256 && EncodedBatch(rs)[4..] == FramedAll(rs)
  {
    hide FramedAll;
    hide BigEndian;
    hide Pow256;
    BigEndianAt(|rs|, 4, i);
    assert EncodedBatch(rs)[i] == BigEndian(|rs|, 4)[i];
  }

  /** `encode_mutation_batch`: the loop appends frame by frame and stops at the first oversized record. */
  method EncodeBatch(rs: seq<MutationRecord>) returns (r: Result<bytes, CodecError>)
    ensures AllWithinLimits(rs) ==> r == Ok(EncodedBatch(rs))
    ensures !AllWithinLimits(rs) ==> r == Err(TooLarge)
  {
    hide Framed;
    hide FramedAll;
    hide WithinLimits;
    var out := BigEndian(|rs|, 4);
    FramedAllNil();
    for i := 0 to |rs|
      invariant out == BigEndian(|rs|, 4) + FramedAll(rs[..i])
      invariant AllWithinLimits(rs[..i])
    {
      assert rs[..i + 1] == rs[..i] + [rs[i]];
      if !WithinLimits(rs[i]) {
        assert rs[i] in rs;
        return Err(TooLarge);
      }
      FramedAllAppend(rs[..i], rs[i]);
      FramedIs(rs[i]);
      out := out + BigEndian(|Encoded(rs[i])|, 4);
      out := out + Encoded(rs[i]);
    }
    assert rs[..|rs|] == rs;
    r := Ok(out);
  }

  lemma FramedAllNil()
    ensures FramedAll([]) == []
  {
  }

  lemma FramedIs(r: MutationRecord)
    ensures Framed(r) == BigEndian(|Encoded(r)|, 4) + Encoded(r)
  {
  }

  /** What the decoder's loop reads from `b` when `n` frames are still expected. */
  function DecodeFrames(b: bytes, n: nat): Result<seq<MutationRecord>, CodecError>
    decreases n
  {
    if n == 0 then (if b == [] then Ok([]) else Err(Invalid))
    else if |b| < 4 then Err(Truncated)
    else
      var len := FromBigEndian(b[..4]);
      if len > MAX_RECORD_LEN then Err(TooLarge)
      else if |b| < 4 + len then Err(Truncated)
      else
        match DecodeMutation(b[4..4 + len])
        case Err(e) => Err(e)
        case Ok(r) =>
          match DecodeFrames(b[4 + len..], n - 1)
          case Err(e) => Err(e)
          case Ok(rs) => Ok([r] + rs)
  }

  function DecodedBatch(b: bytes): Result<seq<MutationRecord>, CodecError> {
    if |b| < 4 then Err(Truncated)
    else
      var count := FromBigEndian(b[..4]);
      if count > MAX_BATCH || count > (|b| - 4) / (4 + MUTATION_HEADER_LEN) then Err(Invalid)
      else DecodeFrames(b[4..], count)
  }

  function Joined(got: seq<MutationRecord>, rest: Result<seq<MutationRecord>, CodecError>): Result<seq<MutationRecord>, CodecError> {
    match rest
    case Err(e) => Err(e)
    case Ok(rs) => Ok(got + rs)
  }

  /** `decode_mutation_batch`: the loop that takes frame after frame from the rest of the input. */
  method DecodeBatch(b: bytes) returns (r: Result<seq<MutationRecord>, CodecError>)
    ensures r == DecodedBatch(b)
  {
    hide DecodeMutation;
    hide FromBigEndian;
    if |b| < 4 {
      return Err(Truncated);
    }
    var count := FromBigEndian(b[..4]);
    if count > MAX_BATCH || count > (|b| - 4) / (4 + MUTATION_HEADER_LEN) {
      return Err(Invalid);
    }
    var rest := b[4..];
    var records: seq<MutationRecord> := [];
    var i := 0;
    assert forall rs: seq<MutationRecord> :: records + rs == rs;
    while i < count
      invariant 0 <= i <= count
      invariant DecodedBatch(b) == Joined(records, DecodeFrames(rest, count - i))
    {
      if |rest| < 4 {
        return Err(Truncated);
      }
      var len := FromBigEndian(rest[..4]);
      if len > MAX_RECORD_LEN {
        return Err(TooLarge);
      }
      if |rest| < 4 + len {
        return Err(Truncated);
      }
      match DecodeMutation(rest[4..4 + len]) {
        case Err(e) =>
          return Err(e);
        case Ok(record) =>
          assert forall rs: seq<MutationRecord> :: records + ([record] + rs) == records + [record] + rs;
          records := records + [record];
      }
      rest := rest[4 + len..];
      i := i + 1;
    }
    if rest != [] {
      return Err(Invalid);
    }
    assert records + [] == records;
    r := Ok(records);
  }

  // ---- Round trips ------------------------------------------------------------------

  lemma FrameHead(r: MutationRecord, tail: bytes)
    requires WithinLimits(r)
    ensures var b := Framed(r) + tail; var len := |Encoded(r)|;
            && |b| >= 4 + len && b[..4] == BigEndian(len, 4) && b[4..4 + len] == Encoded(r) && b[4 + len..] == tail
            && FromBigEndian(b[..4]) == len <= MAX_RECORD_LEN
  {
    hide Encoded;
    hide BigEndian;
    hide FromBigEndian;
    Pow256Values();
    hide Pow256;
    NumberRoundTrip(|Encoded(r)|, 4);
    var b := Framed(r) + tail;
    assert b[..4] == BigEndian(|Encoded(r)|, 4);
  }

  /** The frames of records within the limits read back as the same records exactly when all are carriable. */
  lemma {:induction false} FramesRoundTrip(rs: seq<MutationRecord>)
    requires AllWithinLimits(rs)
    ensures DecodeFrames(FramedAll(rs), |rs|) == Ok(rs) <==> AllCarriable(rs)
  {
    hide Framed;
    hide Encoded;
    hide DecodeMutation;
    hide FromBigEndian;
    hide Carriable;
    hide WithinLimits;
    if rs != [] {
      var r, tail := rs[0], rs[1..];
      assert rs == [r] + tail;
      FrameHead(r, FramedAll(tail));
      FramesRoundTrip(tail);
      MutationRoundTrip(r);
      EncodeOk(r);
    }
  }

  lemma EncodeOk(r: MutationRecord)
    requires WithinLimits(r)
    ensures EncodeMutation(r) == Ok(Encoded(r))
  {
  }

  lemma {:induction false} DecodedCount(b: bytes, n: nat)
    requires DecodeFrames(b, n).Ok?
    ensures |DecodeFrames(b, n).value| == n
  {
    if n > 0 {
      DecodedCount(b[4 + FromBigEndian(b[..4])..], n - 1);
    }
  }

  /** A batch is recovered from its encoding exactly when every record is carriable and the count is within bounds. */
  lemma BatchRoundTrip(rs: seq<MutationRecord>)
    requires AllWithinLimits(rs)
    ensures DecodedBatch(EncodedBatch(rs)) == Ok(rs) <==> AllCarriable(rs) && |rs| <= MAX_BATCH
  {
    hide DecodeFrames;
    hide FramedAll;
    hide FromBigEndian;
    hide BigEndian;
    hide Carriable;
    var b := EncodedBatch(rs);
    assert b[..4] == BigEndian(|rs|, 4) && b[4..] == FramedAll(rs);
    var count := FromBigEndian(b[..4]);
    FramedAllLength(rs);
    FramesRoundTrip(rs);
    if |rs| <= MAX_BATCH {
      Pow256Values();
      hide Pow256;
      NumberRoundTrip(|rs|, 4);
    } else if DecodedBatch(b).Ok? {
      DecodedCount(b[4..], count);
    }
  }

  lemma {:induction false} AcceptedFramesReencode(b: bytes, n: nat)
    requires DecodeFrames(b, n).Ok?
    ensures var rs := DecodeFrames(b, n).value; AllCarriable(rs) && FramedAll(rs) == b
  {
    hide DecodeMutation;
    hide FromBigEndian;
    hide BigEndian;
    hide Encoded;
    hide Carriable;
    if n > 0 {
      var len := FromBigEndian(b[..4]);
      var r := DecodeMutation(b[4..4 + len]).value;
      AcceptedFramesReencode(b[4 + len..], n - 1);
      AcceptedBytesReencode(b[4..4 + len]);
      BytesRoundTrip(b[..4]);
      CarriableEncodes(r);
      var rs := DecodeFrames(b, n).value;
      assert rs[0] == r && rs[1..] == DecodeFrames(b[4 + len..], n - 1).value;
      assert |Encoded(r)| == len;
      assert b == b[..4] + b[4..4 + len] + b[4 + len..];
    }
  }

  lemma CarriableEncodes(r: MutationRecord)
    requires Carriable(r)
    ensures EncodeMutation(r) == Ok(Encoded(r)) && WithinLimits(r)
  {
  }

  /** Accepted batch bytes are the encoding of the batch they were read as. */
  lemma AcceptedBatchReencodes(b: bytes)
    requires DecodedBatch(b).Ok?
    ensures AllCarriable(DecodedBatch(b).value) && EncodedBatch(DecodedBatch(b).value) == b
  {
    hide DecodeFrames;
    hide FramedAll;
    hide FromBigEndian;
    hide BigEndian;
    hide Carriable;
    var count := FromBigEndian(b[..4]);
    AcceptedFramesReencode(b[4..], count);
    DecodedCount(b[4..], count);
    BytesRoundTrip(b[..4]);
    assert b == b[..4] + b[4..];
  }
}
