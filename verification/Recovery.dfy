/**
 The life of a journal (src/cluster/replication.rs): appends and restarts in any order, each
 restart re-opening the file with a new, empty coordinator. A record over the limits is
 skipped by the file but not by the log, so after a restart offsets are given out again.
 */
module Recovery {
  import opened Wrappers
  import opened Words
  import opened Codec
  import opened MutationLog
  import opened Journal

  datatype Op = Append(record: MutationRecord) | Reopen

  /** What the log has seen since the last restart or restored then, what the file holds, and whether the last restart succeeded. */
  datatype Life = Life(history: seq<MutationRecord>, written: seq<MutationRecord>, alive: bool)

  ghost predicate LifeOk(life: Life) {
    && |life.history| < U64_MAX && Consecutive(life.history, 1) && |life.written| <= |life.history|
    && forall i :: 0 <= i < |life.written| ==> WithinLimits(life.written[i]) && life.written[i].offset >= i + 1
  }

  function NewLife(): Life {
    Life([], [], true)
  }

  function Stamp(life: Life, r: MutationRecord): MutationRecord
    requires |life.history| + 1 < U64_MAX
  {
    r.(offset := |life.history| + 1)
  }

  ghost function Lived(life: Life, op: Op): (after: Life)
    requires LifeOk(life) && |life.history| + 1 < U64_MAX
    ensures LifeOk(after) && |after.history| <= |life.history| + 1
  {
    if !life.alive then life
    else match op
      case Append(r) =>
        StampKeeps(life, r);
        life.(history := life.history + [Stamp(life, r)], written := if WithinLimits(r) then life.written + [Stamp(life, r)] else life.written)
      case Reopen =>
        if AllAccepted(life.written) then life.(history := Restamped(CanonicalAll(life.written))) else life.(alive := false)
  }

  lemma StampKeeps(life: Life, r: MutationRecord)
    requires |life.history| + 1 < U64_MAX
    ensures (WithinLimits(Stamp(life, r)) <==> WithinLimits(r)) && (Storable(Stamp(life, r)) <==> Storable(r))
  {
  }

  ghost function LivedAll(life: Life, ops: seq<Op>): (after: Life)
    requires LifeOk(life) && |life.history| + |ops| < U64_MAX
    ensures LifeOk(after) && |after.history| <= |life.history| + |ops|
  {
    if ops == [] then life else Lived(LivedAll(life, ops[..|ops| - 1]), ops[|ops| - 1])
  }

  /** Reading the file of a life: no entry is behind its place, however often offsets were given out again. */
  lemma FileReads(life: Life)
    requires LifeOk(life)
    ensures ReadEntries(Entries(life.written)) == if AllAccepted(life.written) then Ok(CanonicalAll(life.written)) else Err(InvalidRecord)
    ensures NeverBehind(CanonicalAll(life.written))
  {
    hide Entries;
    hide ReadEntries;
    hide Written;
    hide WithinLimits;
    ReadBack(life.written);
    forall r | r in life.written ensures WithinLimits(r) {
      var i :| 0 <= i < |life.written| && life.written[i] == r;
    }
    WrittenIsCanonical(life.written);
  }

  // ---- The coordinator through its lives --------------------------------------------

  /** Appends and restarts through the coordinator: log and file are those of the life, restarts failing exactly when it does. */
  method Live(capacity: nat, identity: Identity, ops: seq<Op>) returns (c: Coordinator, alive: bool)
    requires |ops| < U64_MAX
    ensures fresh(c) && fresh(c.log) && c.Valid() && c.log.capacity == Max(capacity, 1)
    ensures var life := LivedAll(NewLife(), ops);
            alive == life.alive && c.log.history == life.history && c.journal == Some(FileOf(identity, life.written))
  {
    hide Lived;
    hide LifeOk;
    hide FileOf;
    hide LogOk;
    NewLifeOk(identity);
    c := new Coordinator(capacity);
    var _ := c.OpenJournal(None, identity);
    alive := true;
    ghost var life := NewLife();
    for n := 0 to |ops|
      invariant fresh(c) && fresh(c.log) && c.Valid() && c.log.capacity == Max(capacity, 1)
      invariant LifeOk(NewLife()) && life == LivedAll(NewLife(), ops[..n])
      invariant alive == life.alive && c.log.history == life.history && c.journal == Some(FileOf(identity, life.written))
    {
      assert ops[..n + 1][..n] == ops[..n];
      if alive {
        match ops[n] {
          case Append(r) =>
            LogAppended(identity, life, r, c.log);
            var _ := c.Append(r);
          case Reopen =>
            FileReopened(identity, life);
            var b := new Coordinator(capacity);
            var result := b.OpenJournal(c.journal, identity);
            if result.Ok? {
              c := b;
            } else {
              alive := false;
            }
        }
      } else {
        DeadStaysDead(life, ops[n]);
      }
      life := Lived(life, ops[n]);
    }
    assert ops[..|ops|] == ops;
  }

  lemma NewLifeOk(identity: Identity)
    ensures LifeOk(NewLife()) && FileOf(identity, NewLife().written) == MAGIC + identity
  {
  }

  lemma DeadStaysDead(life: Life, op: Op)
    requires LifeOk(life) && |life.history| + 1 < U64_MAX && !life.alive
    ensures Lived(life, op) == life
  {
  }

  lemma LogAppended(identity: Identity, life: Life, r: MutationRecord, log: Log)
    requires LifeOk(life) && life.alive && |life.history| + 1 < U64_MAX && log.Valid() && log.history == life.history
    ensures var after := Lived(life, Append(r));
            && after.alive && after.history == life.history + [r.(offset := log.nextOffset)]
            && FileOf(identity, after.written) == WithEntry(FileOf(identity, life.written), r.(offset := log.nextOffset))
  {
    hide FileOf;
    hide WithinLimits;
    NextOffsetIs(log);
    hide LogOk;
    StampKeeps(life, r);
    FileAppend(identity, life.written, Stamp(life, r));
  }

  lemma FileReopened(identity: Identity, life: Life)
    requires LifeOk(life) && life.alive && |life.history| + 1 < U64_MAX
    ensures var file := FileOf(identity, life.written); var after := Lived(life, Reopen);
            && after.written == life.written
            && (HeaderAccepted(file, identity) && ReadEntries(file[21..]).Ok? <==> after.alive)
            && (after.alive ==> NeverBehind(ReadEntries(file[21..]).value) && after.history == Restamped(ReadEntries(file[21..]).value))
            && (!after.alive ==> after.history == life.history)
  {
    hide FileOf;
    hide HeaderAccepted;
    hide Entries;
    hide ReadEntries;
    FileParts(identity, life.written);
    FileReads(life);
  }

  // ---- What a restart gives back ----------------------------------------------------

  /** As a restart leaves it: the log holds exactly what the file does. */
  ghost predicate Settled(life: Life) {
    life.alive && LifeOk(life) && AllAccepted(life.written) && life.history == Restamped(CanonicalAll(life.written))
  }

  /** A new journal is settled, and so is every life after a restart that succeeded. */
  lemma RestartSettles(life: Life)
    requires LifeOk(life) && |life.history| + 1 < U64_MAX
    ensures Settled(NewLife())
    ensures life.alive && Lived(life, Reopen).alive ==> Settled(Lived(life, Reopen))
  {
    hide WithinLimits;
  }

  function Appends(rs: seq<MutationRecord>): (ops: seq<Op>)
    ensures |ops| == |rs| && forall i :: 0 <= i < |rs| ==> ops[i] == Append(rs[i])
  {
    seq(|rs|, i requires 0 <= i < |rs| => Append(rs[i]))
  }

  lemma CanonicalTwice(r: MutationRecord, offset: u64)
    ensures Canonical(Canonical(r).(offset := offset)) == Canonical(r).(offset := offset) == Canonical(r.(offset := offset))
  {
  }

  /** Appends after a restart: what they add to log and file, and when the two stay in step. */
  lemma {:induction false} AppendsAfter(life: Life, rs: seq<MutationRecord>)
    requires Settled(life) && |life.history| + |rs| < U64_MAX
    ensures var g := LivedAll(life, Appends(rs));
            && g.alive
            && (|g.written| == |g.history| <==> forall x :: x in rs ==> WithinLimits(x))
            && (AllAccepted(g.written) <==> forall x :: x in rs && WithinLimits(x) ==> Storable(x))
            && (|g.written| == |g.history| ==> Restamped(CanonicalAll(g.written)) == CanonicalAll(g.history))
  {
    hide WithinLimits;
    hide Canonical;
    hide Storable;
    if rs == [] {
      SettledInStep(life);
    } else {
      var n := |rs| - 1;
      AppendsAfter(life, rs[..n]);
      assert Appends(rs)[..n] == Appends(rs[..n]);
      var g := LivedAll(life, Appends(rs[..n]));
      assert rs == rs[..n] + [rs[n]];
      StampKeeps(g, rs[n]);
      OneMoreInStep(g, rs[n]);
    }
  }

  lemma SettledInStep(life: Life)
    requires Settled(life)
    ensures |life.written| == |life.history| && CanonicalAll(life.history) == life.history
  {
    hide WithinLimits;
    hide Canonical;
    forall i | 0 <= i < |life.history| ensures Canonical(life.history[i]) == life.history[i] {
      CanonicalTwice(life.written[i], i + 1);
    }
  }

  lemma OneMoreInStep(life: Life, r: MutationRecord)
    requires LifeOk(life) && life.alive && |life.history| + 1 < U64_MAX
    requires |life.written| == |life.history| ==> Restamped(CanonicalAll(life.written)) == CanonicalAll(life.history)
    ensures var g := Lived(life, Append(r));
            && (|g.written| == |g.history| <==> |life.written| == |life.history| && WithinLimits(r))
            && (AllAccepted(g.written) <==> AllAccepted(life.written) && (WithinLimits(r) ==> Storable(r)))
            && (|g.written| == |g.history| ==> Restamped(CanonicalAll(g.written)) == CanonicalAll(g.history))
  {
    hide WithinLimits;
    hide Canonical;
    hide Storable;
    StampKeeps(life, r);
    var g := Lived(life, Append(r));
    if WithinLimits(r) {
      assert g.written == life.written + [Stamp(life, r)] && Stamp(life, r) in g.written;
      assert AllAccepted(g.written) <==> AllAccepted(life.written) && Storable(Stamp(life, r));
      if |life.written| == |life.history| {
        CanonicalTwice(r, |life.history| + 1);
        assert Restamped(CanonicalAll(g.written)) == Restamped(CanonicalAll(life.written)) + [Canonical(Stamp(life, r))];
        assert CanonicalAll(g.history) == CanonicalAll(life.history) + [Canonical(Stamp(life, r))];
      }
    }
  }

  /**
   A restart after any life: it gives the same next offset exactly when every record appended
   since the last restart was one the journal writes and accepts, and then the same history, a
   zero expiry reading back as none.
   */
  lemma RestartRestoresIff(life: Life, rs: seq<MutationRecord>)
    requires Settled(life) && |life.history| + |rs| + 1 < U64_MAX
    ensures var g := LivedAll(life, Appends(rs)); var h := Lived(g, Reopen);
            && (h.alive && |h.history| == |g.history| <==> forall x :: x in rs ==> Storable(x))
            && ((forall x :: x in rs ==> Storable(x)) ==> h.history == CanonicalAll(g.history))
  {
    hide WithinLimits;
    hide Canonical;
    hide LivedAll;
    AppendsAfter(life, rs);
    forall x ensures Storable(x) ==> WithinLimits(x) {
      StorableFits(x);
    }
    hide Storable;
  }

  lemma StorableFits(r: MutationRecord)
    ensures Storable(r) ==> WithinLimits(r)
  {
  }

  /**
   The coordinator across restarts: after any life that ends with a restart, appends and one
   more restart. The retained records and the byte count come back with the history.
   */
  method RecoverAfterCrash(capacity: nat, identity: Identity, before: seq<Op>, rs: seq<MutationRecord>)
    returns (a: Coordinator, b: Coordinator, alive: bool)
    requires |before| + |rs| + 2 < U64_MAX
    ensures LivedAll(NewLife(), before + [Reopen]).alive ==>
              (alive && b.nextOffset == a.nextOffset <==> forall x :: x in rs ==> Storable(x))
    ensures LivedAll(NewLife(), before + [Reopen]).alive && (forall x :: x in rs ==> Storable(x)) ==>
              b.journal == a.journal && b.log.bytes == a.log.bytes && b.log.records == CanonicalAll(a.log.records)
    ensures LivedAll(NewLife(), before + [Reopen]).alive && (forall x :: x in rs ==> Storable(x)) ==>
              (b.log.records == a.log.records <==> forall x :: x in a.log.records ==> x.expireAtMs != Some(0))
  {
    hide LivedAll;
    hide Lived;
    hide LogOk;
    hide FileOf;
    hide CanonicalAll;
    hide Storable;
    hide LifeOk;
    var ops := before + [Reopen] + Appends(rs);
    LifeOfAll(before, rs);
    var live;
    a, live := Live(capacity, identity, ops);
    b, alive := Live(capacity, identity, ops + [Reopen]);
    NextOffsetIs(a.log);
    NextOffsetIs(b.log);
    if LivedAll(NewLife(), before + [Reopen]).alive && forall x :: x in rs ==> Storable(x) {
      CanonicalHistoryCanonicalLog(a.log, b.log);
      CanonicalAllIff(a.log.records);
    }
  }

  /** The life of `before`, a restart, the appends and one more restart, in its parts. */
  lemma LifeOfAll(before: seq<Op>, rs: seq<MutationRecord>)
    requires |before| + |rs| + 2 < U64_MAX
    ensures LifeOk(NewLife())
    ensures var start := LivedAll(NewLife(), before + [Reopen]); var ops := before + [Reopen] + Appends(rs);
            var g := LivedAll(NewLife(), ops); var h := LivedAll(NewLife(), ops + [Reopen]);
            start.alive ==>
              && h.written == g.written
              && (h.alive && |h.history| == |g.history| <==> forall x :: x in rs ==> Storable(x))
              && ((forall x :: x in rs ==> Storable(x)) ==> h.history == CanonicalAll(g.history))
  {
    hide Storable;
    hide CanonicalAll;
    var ops := before + [Reopen] + Appends(rs);
    var first := LivedAll(NewLife(), before);
    LastOp(before, Reopen);
    LastOp(ops, Reopen);
    LivedConcat(NewLife(), before + [Reopen], Appends(rs));
    if LivedAll(NewLife(), before + [Reopen]).alive {
      hide LivedAll;
      DeadStays(first);
      RestartSettles(first);
      RestartRestoresIff(LivedAll(NewLife(), before + [Reopen]), rs);
    }
  }

  lemma DeadStays(life: Life)
    requires LifeOk(life) && |life.history| + 1 < U64_MAX && Lived(life, Reopen).alive
    ensures life.alive
  {
  }

  lemma LastOp(ops: seq<Op>, op: Op)
    requires |ops| + 1 < U64_MAX
    ensures LifeOk(NewLife()) && LivedAll(NewLife(), ops + [op]) == Lived(LivedAll(NewLife(), ops), op)
  {
    hide Lived;
    assert (ops + [op])[..|ops|] == ops;
  }

  lemma {:induction false} LivedConcat(life: Life, a: seq<Op>, b: seq<Op>)
    requires LifeOk(life) && |life.history| + |a| + |b| < U64_MAX
    ensures LivedAll(life, a + b) == LivedAll(LivedAll(life, a), b)
  {
    hide Lived;
    if b == [] {
      assert a + b == a;
    } else {
      var n := |b| - 1;
      assert (a + b)[..|a + b| - 1] == a + b[..n];
      LivedConcat(life, a, b[..n]);
    }
  }

  lemma CanonicalHistoryCanonicalLog(a: Log, b: Log)
    requires a.Valid() && b.Valid() && a.capacity == b.capacity && b.history == CanonicalAll(a.history)
    ensures b.records == CanonicalAll(a.records) && a.bytes == b.bytes && a.nextOffset == b.nextOffset
  {
    hide KeepsLongestFit;
    hide SumBytes;
    hide CanonicalAll;
    CanonicalFit(a.history, a.records, a.capacity);
    LongestFitUnique(b.history, b.records, CanonicalAll(a.records), a.capacity);
    CanonicalBytes(a.records);
    SameLength(a.history);
  }

  lemma SameLength(rs: seq<MutationRecord>)
    ensures |CanonicalAll(rs)| == |rs|
  {
  }

  lemma CanonicalAllIff(rs: seq<MutationRecord>)
    ensures CanonicalAll(rs) == rs <==> forall x :: x in rs ==> x.expireAtMs != Some(0)
  {
    hide Canonical;
    forall i | 0 <= i < |rs| ensures Canonical(rs[i]) == rs[i] <==> rs[i].expireAtMs != Some(0) {
      CanonicalIff(rs[i]);
    }
    if CanonicalAll(rs) == rs {
      forall x | x in rs ensures x.expireAtMs != Some(0) {
        var i :| 0 <= i < |rs| && rs[i] == x;
        assert CanonicalAll(rs)[i] == Canonical(rs[i]);
      }
    }
  }
}
