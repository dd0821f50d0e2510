/**
 The replication coordinator and its journal file (src/cluster/replication.rs): every append
 is also written to the journal, and opening a journal replays it into an empty log. The
 file is its byte contents; reading and writing them are the model's only I/O.
 */
module Journal {
  import opened Wrappers
  import opened Words
  import opened Codec
  import opened MutationLog

  datatype JournalError = ShortHeader | IdentityMismatch | OversizedRecord | ShortRecord | InvalidRecord

  type Identity = s: bytes | |s| == 16 witness seq(16, _ => 0)

  /** "FLRJ", then the format version. */
  const MAGIC: bytes := [70, 76, 82, 74, 1]

  // ---- Entries ----------------------------------------------------------------------

  function LittleEndian(n: nat, w: nat): (b: bytes)
    ensures |b| == w
  {
    if w == 0 then [] else [n % 256] + LittleEndian(n / 256, w - 1)
  }

  function FromLittleEndian(b: bytes): nat {
    if b == [] then 0 else (b[0] as nat) + 256 * FromLittleEndian(b[1..])
  }

  /** The byte at each position. */
  lemma {:induction false} LittleEndianAt(n: nat, w: nat, i: nat)
    requires i < w
    ensures LittleEndian(n, w)[i] == n / Pow256(i) % 256
  {
    if i > 0 {
      LittleEndianAt(n / 256, w - 1, i - 1);
      DivideTwice(n, i);
    }
  }

  lemma {:induction false} FromLittleEndianRoundTrip(b: bytes)
    ensures FromLittleEndian(b) < Pow256(|b|)
    ensures LittleEndian(FromLittleEndian(b), |b|) == b
  {
    if b != [] {
      FromLittleEndianRoundTrip(b[1..]);
      LowByte(b[0], FromLittleEndian(b[1..]));
      assert b == [b[0]] + b[1..];
    }
  }

  lemma LowByte(b: byte, m: nat)
    ensures ((b as nat) + 256 * m) % 256 == b && ((b as nat) + 256 * m) / 256 == m
  {
  }

  lemma {:induction false} LittleEndianRoundTrip(n: nat, w: nat)
    requires n < Pow256(w)
    ensures FromLittleEndian(LittleEndian(n, w)) == n
  {
    if w > 0 {
      LittleEndianRoundTrip(n / 256, w - 1);
      assert LittleEndian(n, w)[1..] == LittleEndian(n / 256, w - 1);
    }
  }

  function JournalEntry(r: MutationRecord): bytes {
    LittleEndian(|Encoded(r)|, 4) + Encoded(r)
  }

  /** `write_journal_entry`: a record over the limits is silently skipped. */
  function WithEntry(file: bytes, r: MutationRecord): bytes {
    if WithinLimits(r) then file + JournalEntry(r) else file
  }

  /** What the appends of `rs` leave in the file: a record over the limits is skipped. */
  function Entries(rs: seq<MutationRecord>): bytes {
    if rs == [] then [] else (if WithinLimits(rs[0]) then JournalEntry(rs[0]) else []) + Entries(rs[1..])
  }

  lemma {:induction false} EntriesAppend(rs: seq<MutationRecord>, r: MutationRecord)
    ensures Entries(rs + [r]) == Entries(rs) + (if WithinLimits(r) then JournalEntry(r) else [])
  {
    hide JournalEntry;
    hide WithinLimits;
    if rs == [] {
      assert rs + [r] == [r] && [r][1..] == [];
    } else {
      assert (rs + [r])[1..] == rs[1..] + [r];
      EntriesAppend(rs[1..], r);
    }
  }

  /** What the reading loop makes of the file after its header. */
  function ReadEntries(b: bytes): Result<seq<MutationRecord>, JournalError>
    decreases |b|
  {
    if |b| < 4 then Ok([])
    else
      var len := FromLittleEndian(b[..4]);
      if len > MAX_RECORD_LEN then Err(OversizedRecord)
      else if |b| < 4 + len then Err(ShortRecord)
      else if DecodeMutation(b[4..4 + len]).Err? then Err(InvalidRecord)
      else
        match ReadEntries(b[4 + len..])
        case Err(e) => Err(e)
        case Ok(rs) => Ok([DecodeMutation(b[4..4 + len]).value] + rs)
  }

  function Joined(got: seq<MutationRecord>, rest: Result<seq<MutationRecord>, JournalError>): Result<seq<MutationRecord>, JournalError> {
    match rest
    case Err(e) => Err(e)
    case Ok(rs) => Ok(got + rs)
  }

  /** The reading loop of `open_journal`. */
  method ParseEntries(b: bytes) returns (r: Result<seq<MutationRecord>, JournalError>)
    ensures r == ReadEntries(b)
  {
    hide DecodeMutation;
    hide FromLittleEndian;
    var rest := b;
    var restored: seq<MutationRecord> := [];
    assert forall rs: seq<MutationRecord> :: restored + rs == rs;
    while |rest| >= 4
      invariant ReadEntries(b) == Joined(restored, ReadEntries(rest))
      decreases |rest|
    {
      var len := FromLittleEndian(rest[..4]);
      if len > MAX_RECORD_LEN {
        return Err(OversizedRecord);
      }
      if |rest| < 4 + len {
        return Err(ShortRecord);
      }
      match DecodeMutation(rest[4..4 + len]) {
        case Err(_) =>
          return Err(InvalidRecord);
        case Ok(record) =>
          assert forall rs: seq<MutationRecord> :: restored + ([record] + rs) == restored + [record] + rs;
          restored := restored + [record];
      }
      rest := rest[4 + len..];
    }
    assert restored + [] == restored;
    r := Ok(restored);
  }

  // ---- Reading back what was written ------------------------------------------------

  /** A record that the journal both writes and accepts. */
  predicate Storable(r: MutationRecord) {
    WithinLimits(r) && r.key != [] && ValueAllowed(r.kind, r.value)
  }

  /** The record as it reads back: an expiry of zero means none. */
  function Canonical(r: MutationRecord): MutationRecord {
    r.(expireAtMs := if ExpiryWord(r) != 0 then Some(ExpiryWord(r)) else None)
  }

  /** The records that reach the file. */
  function Written(rs: seq<MutationRecord>): seq<MutationRecord> {
    if rs == [] then [] else (if WithinLimits(rs[0]) then [Canonical(rs[0])] else []) + Written(rs[1..])
  }

  ghost predicate AllAccepted(rs: seq<MutationRecord>) {
    forall r :: r in rs && WithinLimits(r) ==> Storable(r)
  }

  lemma EntryHead(r: MutationRecord, tail: bytes)
    requires WithinLimits(r)
    ensures var b := JournalEntry(r) + tail; var len := |Encoded(r)|;
            && |b| >= 4 + len && len > 0 && b[4..4 + len] == Encoded(r) && b[4 + len..] == tail
            && FromLittleEndian(b[..4]) == len <= MAX_RECORD_LEN
  {
    hide Encoded;
    hide LittleEndian;
    hide FromLittleEndian;
    Pow256Values();
    hide Pow256;
    LittleEndianRoundTrip(|Encoded(r)|, 4);
    var b := JournalEntry(r) + tail;
    assert b[..4] == LittleEndian(|Encoded(r)|, 4);
  }

  /** Reading a journal returns the written records in order, or fails if one of them is not acceptable. */
  lemma {:induction false} ReadBack(rs: seq<MutationRecord>)
    ensures ReadEntries(Entries(rs)) == if AllAccepted(rs) then Ok(Written(rs)) else Err(InvalidRecord)
  {
    hide Encoded;
    hide DecodeMutation;
    hide FromLittleEndian;
    hide JournalEntry;
    hide WithinLimits;
    hide Canonical;
    if rs != [] {
      var r, tail := rs[0], rs[1..];
      assert rs == [r] + tail;
      ReadBack(tail);
      if WithinLimits(r) {
        EntryHead(r, Entries(tail));
        DecodeOfEncoded(r);
        CanonicalIs(r);
      } else {
        assert Entries(rs) == Entries(tail) && Written(rs) == Written(tail);
      }
    }
  }

  /** The file begins with an entry that the reading loop takes. */
  lemma EntryTaken(b: bytes, len: nat)
    requires |b| >= 4 + len && len == FromLittleEndian(b[..4]) && DecodeMutation(b[4..4 + len]).Ok?
    ensures var r := DecodeMutation(b[4..4 + len]).value; Carriable(r) && b[..4 + len] == JournalEntry(r)
  {
    hide DecodeMutation;
    hide Encoded;
    hide Carriable;
    hide FromLittleEndian;
    hide LittleEndian;
    var frame := b[4..4 + len];
    AcceptedBytesReencode(frame);
    CarriableWithin(DecodeMutation(frame).value);
    FromLittleEndianRoundTrip(b[..4]);
    assert b[..4 + len] == b[..4] + frame;
  }

  lemma CarriableWithin(r: MutationRecord)
    requires Carriable(r)
    ensures WithinLimits(r) && Canonical(r) == r && Storable(r)
  {
  }

  lemma {:induction false} ReadWithTail(rs: seq<MutationRecord>, tail: bytes)
    requires |tail| < 4 && forall r :: r in rs ==> Carriable(r)
    ensures ReadEntries(Entries(rs) + tail) == Ok(rs)
  {
    hide Encoded;
    hide DecodeMutation;
    hide FromLittleEndian;
    hide JournalEntry;
    hide WithinLimits;
    hide Carriable;
    if rs == [] {
      assert Entries(rs) + tail == tail;
    } else {
      var r, rest := rs[0], Entries(rs[1..]) + tail;
      ReadWithTail(rs[1..], tail);
      CarriableWithin(r);
      EntryHead(r, rest);
      DecodeOfEncoded(r);
      CanonicalIs(r);
      var b := JournalEntry(r) + rest;
      assert Entries(rs) + tail == b;
      assert DecodeMutation(b[4..4 + |Encoded(r)|]) == Ok(r);
      assert ReadEntries(b) == Ok([r] + rs[1..]) && [r] + rs[1..] == rs;
    }
  }

  lemma {:induction false} ReadParts(b: bytes) returns (tail: bytes)
    requires ReadEntries(b).Ok?
    ensures |tail| < 4 && b == Entries(ReadEntries(b).value) + tail && forall r :: r in ReadEntries(b).value ==> Carriable(r)
    decreases |b|
  {
    hide DecodeMutation;
    hide FromLittleEndian;
    hide JournalEntry;
    hide WithinLimits;
    hide Carriable;
    if |b| < 4 {
      tail := b;
    } else {
      var len := FromLittleEndian(b[..4]);
      EntryTaken(b, len);
      var r := DecodeMutation(b[4..4 + len]).value;
      CarriableWithin(r);
      tail := ReadParts(b[4 + len..]);
      var rest := ReadEntries(b[4 + len..]).value;
      assert ReadEntries(b) == Ok([r] + rest);
      assert Entries([r] + rest) == JournalEntry(r) + Entries(rest);
      assert b == b[..4 + len] + b[4 + len..];
    }
  }

  /** Exactly what the reading loop accepts: entries of carriable records, and less than a length prefix after them. */
  lemma ReadsIff(b: bytes, rs: seq<MutationRecord>)
    ensures ReadEntries(b) == Ok(rs) <==>
            (forall r :: r in rs ==> Carriable(r)) && exists tail: bytes :: |tail| < 4 && b == Entries(rs) + tail
  {
    hide ReadEntries;
    hide Entries;
    hide Carriable;
    if ReadEntries(b) == Ok(rs) {
      var tail := ReadParts(b);
    }
    if (forall r :: r in rs ==> Carriable(r)) && exists tail: bytes :: |tail| < 4 && b == Entries(rs) + tail {
      var tail: bytes :| |tail| < 4 && b == Entries(rs) + tail;
      ReadWithTail(rs, tail);
    }
  }

  lemma CanonicalIs(r: MutationRecord)
    ensures Canonical(r) == r.(expireAtMs := if ExpiryWord(r) != 0 then Some(ExpiryWord(r)) else None)
  {
  }

  /** Nothing is lost on the way to the file exactly when every record is within the limits. */
  lemma {:induction false} WrittenCount(rs: seq<MutationRecord>)
    ensures |Written(rs)| <= |rs|
    ensures |Written(rs)| == |rs| <==> forall r :: r in rs ==> WithinLimits(r)
  {
    hide Canonical;
    hide WithinLimits;
    if rs != [] {
      WrittenCount(rs[1..]);
      assert rs == [rs[0]] + rs[1..];
    }
  }

  function CanonicalAll(rs: seq<MutationRecord>): (out: seq<MutationRecord>)
    ensures |out| == |rs| && forall i :: 0 <= i < |rs| ==> out[i] == Canonical(rs[i])
  {
    seq(|rs|, i requires 0 <= i < |rs| => Canonical(rs[i]))
  }

  lemma {:induction false} WrittenIsCanonical(rs: seq<MutationRecord>)
    requires forall r :: r in rs ==> WithinLimits(r)
    ensures Written(rs) == CanonicalAll(rs)
  {
    hide Canonical;
    hide WithinLimits;
    if rs != [] {
      assert rs[0] in rs;
      WrittenIsCanonical(rs[1..]);
    }
  }

  /** Reading back leaves a record as it is unless its expiry was zero. */
  lemma CanonicalIff(r: MutationRecord)
    ensures Canonical(r) == r <==> r.expireAtMs != Some(0)
    ensures RecordBytes(Canonical(r)) == RecordBytes(r)
  {
  }

  lemma {:induction false} CanonicalBytes(rs: seq<MutationRecord>)
    ensures SumBytes(CanonicalAll(rs)) == SumBytes(rs)
  {
    hide Canonical;
    hide RecordBytes;
    if rs != [] {
      CanonicalIff(rs[0]);
      assert CanonicalAll(rs)[1..] == CanonicalAll(rs[1..]);
      CanonicalBytes(rs[1..]);
    }
  }

  /** Bounds on count and bytes retain the same tail of a history and of what it reads back as. */
  lemma CanonicalFit(all: seq<MutationRecord>, kept: seq<MutationRecord>, capacity: nat)
    requires KeepsLongestFit(all, kept, capacity)
    ensures KeepsLongestFit(CanonicalAll(all), CanonicalAll(kept), capacity)
  {
    hide Canonical;
    hide SumBytes;
    var c := CanonicalAll(all);
    CanonicalBytes(kept);
    assert CanonicalAll(kept) == c[|all| - |kept|..];
    forall from | 0 <= from < |all| - |kept| ensures |c| - from > capacity || SumBytes(c[from..]) > MAX_LOG_BYTES {
      assert c[from..] == CanonicalAll(all[from..]);
      CanonicalBytes(all[from..]);
    }
  }

  // ---- The coordinator --------------------------------------------------------------

  class Coordinator {
    const log: Log
    var nextOffset: u64
    var appended: nat
    /** Contents of the open journal file. */
    var journal: Option<bytes>

    ghost predicate Valid()
      reads this, log
    {
      log.Valid() && nextOffset == log.nextOffset
    }

    constructor (capacity: nat)
      ensures Valid() && fresh(log) && log.capacity == Max(capacity, 1) && log.history == [] && journal == None && appended == 0
    {
      log := new Log(capacity);
      nextOffset, appended, journal := 1, 0, None;
    }

    /** `append`: the record is given the next offset, written to the journal, and logged. */
    method Append(record: MutationRecord) returns (r: Result<u64, LogError>)
      requires Valid()
      modifies this, log
      ensures Valid() && r.Ok?
      ensures r.value == if old(log.nextOffset) < U64_MAX then old(log.nextOffset) else U64_MAX - 1
      ensures log.history == old(log.history) + [record.(offset := old(log.nextOffset))]
      ensures appended == old(appended) + 1
      ensures journal == if old(journal).None? then None
                         else Some(WithEntry(old(journal).value, record.(offset := old(log.nextOffset))))
    {
      hide WithEntry;
      hide LogOk;
      OffsetPositive();
      var stamped := record.(offset := log.nextOffset);
      if journal.Some? {
        journal := Some(WithEntry(journal.value, stamped));
      }
      r := log.Append(stamped);
      nextOffset := log.nextOffset;
      appended := appended + 1;
    }

    lemma OffsetPositive()
      requires Valid()
      ensures log.nextOffset > 0
    {
    }

    /** `open_journal`: a missing file is created with its header; an existing one is checked and replayed. */
    method OpenJournal(file: Option<bytes>, identity: Identity) returns (r: Result<(), JournalError>)
      requires Valid()
      modifies this, log
      ensures Valid() && appended == old(appended)
      ensures r.Err? ==> journal == old(journal) && log.history == old(log.history)
      ensures file.None? ==> r.Ok? && journal == Some(MAGIC + identity) && log.history == old(log.history)
      ensures file.Some? && |file.value| < 21 ==> r == Err(ShortHeader)
      ensures file.Some? && |file.value| >= 21 && file.value[..5] != [70, 76, 82, 74, 1] ==> r == Err(IdentityMismatch)
      ensures file.Some? && |file.value| >= 21 && identity != seq(16, _ => 0) && file.value[5..21] != identity ==> r == Err(IdentityMismatch)
      ensures file.Some? && HeaderAccepted(file.value, identity) && ReadEntries(file.value[21..]).Err? ==> r == Err(ReadEntries(file.value[21..]).error)
      ensures file.Some? ==> (r.Ok? <==> HeaderAccepted(file.value, identity) && ReadEntries(file.value[21..]).Ok?)
      ensures file.Some? && r.Ok? ==> journal == file
      ensures file.Some? && r.Ok? && old(log.history) == [] && NeverBehind(ReadEntries(file.value[21..]).value) ==>
                log.history == Restamped(ReadEntries(file.value[21..]).value)
    {
      hide ReadEntries;
      hide LogOk;
      hide Restamped;
      hide NeverBehind;
      if file.None? {
        journal := Some(MAGIC + identity);
        return Ok(());
      }
      var contents := file.value;
      if |contents| < 21 {
        return Err(ShortHeader);
      }
      if contents[..5] != MAGIC || (identity != seq(16, _ => 0) && contents[5..21] != identity) {
        return Err(IdentityMismatch);
      }
      var restored := ParseEntries(contents[21..]);
      if restored.Err? {
        return Err(restored.error);
      }
      Replay(restored.value);
      journal := file;
      r := Ok(());
    }

    /** Appends the restored records one by one; the log refuses an offset behind its own. */
    method Replay(restored: seq<MutationRecord>)
      requires Valid()
      modifies this`nextOffset, log
      ensures Valid()
      ensures old(log.history) == [] && NeverBehind(restored) ==> log.history == Restamped(restored)
    {
      hide KeepsLongestFit;
      ghost var apply := old(log.history) == [] && NeverBehind(restored);
      for n := 0 to |restored|
        invariant Valid()
        invariant apply ==> log.history == Restamped(restored)[..n]
      {
        var _ := log.Append(restored[n]);
        nextOffset := log.nextOffset;
      }
    }
  }

  /** No record claims an offset below the position it is replayed at. */
  ghost predicate NeverBehind(rs: seq<MutationRecord>) {
    |rs| < U64_MAX && forall i :: 0 <= i < |rs| ==> rs[i].offset == 0 || rs[i].offset >= i + 1
  }

  /** The offsets 1, 2, 3, ... in the order of replay. */
  ghost function Restamped(rs: seq<MutationRecord>): (out: seq<MutationRecord>)
    requires |rs| < U64_MAX
    ensures |out| == |rs| && forall i :: 0 <= i < |rs| ==> out[i] == rs[i].(offset := i + 1)
  {
    seq(|rs|, i requires 0 <= i < |rs| => rs[i].(offset := i + 1))
  }

  predicate HeaderAccepted(file: bytes, identity: Identity) {
    && |file| >= 21
    && file[..5] == MAGIC
    && (identity == seq(16, _ => 0) || file[5..21] == identity)
  }

  // ---- The file ---------------------------------------------------------------------

  /** A journal file that holds the entries of `rs`. */
  function FileOf(identity: Identity, rs: seq<MutationRecord>): bytes {
    MAGIC + identity + Entries(rs)
  }

  lemma FileAppend(identity: Identity, rs: seq<MutationRecord>, r: MutationRecord)
    ensures FileOf(identity, rs + [r]) == WithEntry(FileOf(identity, rs), r)
    ensures FileOf(identity, []) == MAGIC + identity
  {
    hide Entries;
    hide JournalEntry;
    hide WithinLimits;
    EntriesAppend(rs, r);
    EntriesNil();
  }

  lemma EntriesNil()
    ensures Entries([]) == []
  {
  }

  lemma NextOffsetIs(log: Log)
    requires log.Valid()
    ensures log.nextOffset == Min(|log.history| + 1, U64_MAX)
  {
  }

  lemma FileParts(identity: Identity, rs: seq<MutationRecord>)
    ensures var file := FileOf(identity, rs); HeaderAccepted(file, identity) && file[21..] == Entries(rs)
  {
    hide Entries;
  }
}
