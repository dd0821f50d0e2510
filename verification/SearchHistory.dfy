/**
 The life of one search index (src/search/filter.rs, src/search/hooks.rs): the keyspace is
 written, the write observer marks keys, and a query first brings the postings up to date,
 by deltas while few keys changed and by a rebuild otherwise. Every method is one atomic
 step; `Valid` is what every history of them keeps.
 */
module SearchHistory {
  import opened Wrappers
  import opened SearchModel
  import opened ScanAgreement
  import opened NumericPostings
  import opened IdLists
  import Postings
  import opened FilterIndex
  import D = DirtySet

  /** What a scan of the keyspace returns for a condition. */
  ghost predicate InScan(lex: Lexer, def: IndexDef, store: Store, cond: Cond, key: string) {
    DocIn(store, def, key).Some? && ScanHolds(lex, def, cond, DocIn(store, def, key).value)
  }

  /** So few writes cannot leave tombstones enough for a rebuild. */
  const FEW: nat := 1024

  /**
   Postings, if there are any, hold only documents that some query found in the keyspace, and
   all of those while too little was written for a rebuild.
   */
  ghost predicate Tracks(some: bool, ever: iset<Doc>, dead: nat, marked: nat, overflow: bool, seen: iset<Doc>, writes: nat, flushed: bool) {
    && ever <= seen
    && (!flushed ==> marked + dead <= writes)
    && (!flushed && writes <= FEW ==> !overflow && ever == seen && (!some ==> seen == iset{}))
  }

  lemma TracksWrite(some: bool, ever: iset<Doc>, dead: nat, marked: nat, overflow: bool, seen: iset<Doc>, writes: nat, flushed: bool,
                    marked': nat, overflow': bool)
    requires Tracks(some, ever, dead, marked, overflow, seen, writes, flushed)
    requires marked' <= marked + 1 && (!overflow && marked <= FEW ==> !overflow')
    ensures Tracks(some, ever, dead, marked', overflow', seen, writes + 1, flushed)
  {
  }

  lemma TracksDelta(ever: iset<Doc>, dead: nat, marked: nat, seen: iset<Doc>, writes: nat, flushed: bool,
                    ever': iset<Doc>, dead': nat, kept: iset<Doc>)
    requires Tracks(true, ever, dead, marked, false, seen, writes, flushed)
    requires ever' == ever + kept && dead' <= dead + marked
    ensures Tracks(true, ever', dead', 0, false, seen + kept, writes, flushed)
  {
  }

  /** A drain with no postings to bring up to date. */
  lemma TracksDrained(marked: nat, overflow: bool, seen: iset<Doc>, writes: nat, flushed: bool)
    requires Tracks(false, iset{}, 0, marked, overflow, seen, writes, flushed)
    ensures Tracks(false, iset{}, 0, 0, false, seen, writes, flushed)
  {
  }

  lemma TracksRebuild(some: bool, ever: iset<Doc>, dead: nat, marked: nat, overflow: bool, seen: iset<Doc>, writes: nat, flushed: bool,
                      kept: iset<Doc>)
    requires Tracks(some, ever, dead, marked, overflow, seen, writes, flushed)
    requires !some || overflow || dead + marked > FEW
    ensures Tracks(true, kept, 0, 0, false, seen + kept, writes, flushed)
  {
    assert iset{} + kept == kept;
  }

  /** A write changes no document but that of its key, and none at all if the key is not the index's. */
  lemma WriteElsewhere(def: IndexDef, store: Store, key: string, value: Option<Value>)
    ensures forall k :: k != key || !def.MatchesKey(key) ==>
              DocIn(if value.Some? then store[key := value.value] else store - {key}, def, k) == DocIn(store, def, k)
  {
  }

  lemma SameKeys(keys: seq<string>, members: set<string>)
    requires forall k :: k in keys <==> k in members
    ensures Keyset(keys) == members
  {
  }

  /** Applies a drained batch, and says whether the index is then worth rebuilding: more than 1024 tombstones and a quarter of all ids. */
  method CatchUp(fi: Index, store: Store, keys: seq<string>) returns (rebuild: bool)
    requires fi.Valid()
    modifies fi
    ensures fi.Valid()
    ensures forall k :: fi.LiveDoc(k) == if k in keys then DocIn(store, fi.def, k) else old(fi.LiveDoc(k))
    ensures Ever(fi.docs) == old(Ever(fi.docs)) + Fetched(fi.def, store, Keyset(keys))
    ensures fi.dead <= old(fi.dead) + |keys| && old(|fi.ids|) <= |fi.ids|
    ensures rebuild <==> fi.dead > 1024 && 4 * fi.dead > |fi.ids|
  {
    hide Index.Consistent;
    hide Index.LiveDoc;
    hide Ever;
    hide Fetched;
    hide Keyset;
    hide DocIn;
    fi.IdsAreDocs();
    if keys != [] {
      fi.Apply(store, keys);
      fi.IdsAreDocs();
    } else {
      NothingFetched(fi.def, store);
    }
    rebuild := fi.NeedsRebuild();
  }

  class SearchState {
    const lex: Lexer
    const def: IndexDef
    var store: Store
    var dirty: D.DirtySet
    var filter: Index?

    /** The documents that queries found in the keyspace, how many writes there were, and whether a flush. */
    ghost var seen: iset<Doc>
    ghost var writes: nat
    ghost var flushed: bool

    ghost predicate Tracked()
      reads this`filter, this`dirty, this`seen, this`writes, this`flushed, dirty, filter
    {
      if filter == null then Tracks(false, iset{}, 0, |dirty.marked|, dirty.overflow, seen, writes, flushed)
      else Tracks(true, Ever(filter.docs), filter.dead, |dirty.marked|, dirty.overflow, seen, writes, flushed)
    }

    ghost predicate Valid()
      reads this, dirty, filter
    {
      && Tracked()
      && dirty.Valid()
      && (filter != null ==> filter.Valid() && filter.lex == lex && filter.def == def && def.storage == HashStorage)
      && (filter != null ==> filter.dead <= 1024 || 4 * filter.dead <= |filter.ids|)
      && (filter != null && !dirty.overflow ==>
            forall k :: k !in dirty.marked ==> filter.LiveDoc(k) == DocIn(store, def, k))
    }

    constructor (lex: Lexer, def: IndexDef, hash: string -> nat)
      ensures Valid() && fresh(dirty) && this.lex == lex && this.def == def && store == map[] && filter == null
      ensures seen == iset{} && writes == 0 && !flushed
    {
      this.lex := lex;
      this.def := def;
      store := map[];
      dirty := new D.DirtySet(hash);
      filter := null;
      seen, writes, flushed := iset{}, 0, false;
    }

    /** The write observer's `on_write`. */
    method Observe(key: string)
      requires dirty.Valid() && Tracked()
      modifies this`writes, dirty
      ensures dirty.Valid() && Tracked() && writes == old(writes) + 1
      ensures dirty.marked == old(dirty.marked) + (if def.MatchesKey(key) then {key} else {}) && (old(dirty.overflow) ==> dirty.overflow)
    {
      hide D.DirtySet.Valid;
      hide Ever;
      hide Tracks;
      hide IndexDef.MatchesKey;
      if def.MatchesKey(key) {
        dirty.Mark(key);
        D.InsertCount(old(dirty.marked), key);
      }
      TracksWrite(filter != null, if filter == null then iset{} else Ever(filter.docs), if filter == null then 0 else filter.dead,
                  |old(dirty.marked)|, old(dirty.overflow), seen, writes, flushed, |dirty.marked|, dirty.overflow);
      writes := writes + 1;
    }

    /** A write or delete of one key, then seen by the write observer. */
    method Write(key: string, value: Option<Value>)
      requires Valid()
      modifies this`store, this`writes, dirty
      ensures Valid() && writes == old(writes) + 1
      ensures store == if value.Some? then old(store)[key := value.value] else old(store) - {key}
    {
      hide Index.Consistent;
      hide Index.LiveDoc;
      hide D.DirtySet.Valid;
      hide Tracked;
      hide DocIn;
      hide IndexDef.MatchesKey;
      WriteElsewhere(def, store, key, value);
      store := if value.Some? then store[key := value.value] else store - {key};
      Observe(key);
    }

    /** FLUSHALL: the observer's on_clear. */
    method Clear()
      requires Valid()
      modifies this`store, this`flushed, dirty
      ensures Valid() && store == map[] && flushed
    {
      hide Index.Consistent;
      hide D.DirtySet.Valid;
      hide Ever;
      store := map[];
      dirty.MarkAll();
      flushed := true;
    }

    /** What the postings have seen and the marked keys fetch is what they have seen and the keyspace holds. */
    lemma MarkedAreBehind()
      requires Valid() && filter != null && !dirty.overflow
      ensures Ever(filter.docs) + Fetched(def, store, dirty.marked) == Ever(filter.docs) + Kept(def, store)
    {
      hide Index.Consistent;
      hide Index.LiveDoc;
      hide Ever;
      hide DocIn;
      hide Tracked;
      filter.LiveAmongEver();
      forall d | d in Kept(def, store) ensures d in Ever(filter.docs) + Fetched(def, store, dirty.marked) {
        var key :| DocIn(store, def, key) == Some(d);
        if key !in dirty.marked {
          assert filter.LiveDoc(key) == Some(d);
        }
      }
    }

    /**
     `filter_index`: the postings with every pending write applied, or none when the caller
     must scan (keys with a time to live, or JSON storage).
     */
    method FilterIndex(hasTtlKeys: bool) returns (r: Index?)
      requires Valid()
      modifies this`filter, this`seen, dirty, filter
      ensures Valid() && store == old(store)
      ensures filter == old(filter) || fresh(filter)
      ensures seen == old(seen) + if r != null then Kept(def, store) else iset{}
      ensures r != null ==> r.dead <= 1024 || 4 * r.dead <= |r.ids|
      ensures r != null && old(filter) != null && r != old(filter) && !old(dirty.overflow) ==>
                old(filter.dead) + |old(dirty.marked)| > 1024 && 4 * (old(filter.dead) + |old(dirty.marked)|) > old(|filter.ids|)
      ensures r == null <==> hasTtlKeys || def.storage != HashStorage
      ensures r != null ==> r == filter && !dirty.overflow && dirty.marked == {}
      ensures r != null ==> forall k :: r.LiveDoc(k) == DocIn(store, def, k)
    {
      hide Index.Consistent;
      hide Index.LiveDoc;
      hide Ever;
      hide Kept;
      hide Fetched;
      hide Keyset;
      hide Tracks;
      hide DocIn;
      hide D.DirtySet.Valid;
      if hasTtlKeys {
        return null;
      }
      if filter != null {
        var clean := dirty.IsClean();
        if clean {
          MarkedAreBehind();
          NothingFetched(def, store);
          assert Ever(filter.docs) == Ever(filter.docs) + iset{};
          ghost var kept := Kept(def, store);
          TracksDelta(Ever(filter.docs), filter.dead, 0, seen, writes, flushed, Ever(filter.docs) + kept, filter.dead, kept);
          seen := seen + kept;
          return filter;
        }
      }
      r := Refresh();
    }

    /** The part of `filter_index` behind the build lock: drain, then apply the keys or rebuild. */
    method Refresh() returns (r: Index?)
      requires Valid()
      modifies this`filter, this`seen, dirty, filter
      ensures Valid() && store == old(store)
      ensures filter == old(filter) || fresh(filter)
      ensures seen == old(seen) + if r != null then Kept(def, store) else iset{}
      ensures r != null ==> r.dead <= 1024 || 4 * r.dead <= |r.ids|
      ensures r != null && old(filter) != null && r != old(filter) && !old(dirty.overflow) ==>
                old(filter.dead) + |old(dirty.marked)| > 1024 && 4 * (old(filter.dead) + |old(dirty.marked)|) > old(|filter.ids|)
      ensures r == null <==> def.storage != HashStorage
      ensures r != null ==> r == filter && !dirty.overflow && dirty.marked == {}
      ensures r != null ==> forall k :: r.LiveDoc(k) == DocIn(store, def, k)
    {
      hide Index.Consistent;
      hide Index.LiveDoc;
      hide Ever;
      hide Kept;
      hide Fetched;
      hide Keyset;
      hide Tracks;
      hide DocIn;
      hide D.DirtySet.Valid;
      ghost var kept := Kept(def, store);
      ghost var marked := |dirty.marked|;
      if filter != null && !dirty.overflow {
        MarkedAreBehind();
      }
      ghost var ever, dead := if filter == null then iset{} else Ever(filter.docs), if filter == null then 0 else filter.dead;
      var drained := dirty.Drain();
      var rebuild := true;
      if filter != null && drained.Keys? {
        SameKeys(drained.keys, old(dirty.marked));
        rebuild := CatchUp(filter, store, drained.keys);
      }
      if !rebuild {
        TracksDelta(ever, dead, marked, seen, writes, flushed, Ever(filter.docs), filter.dead, kept);
        seen := seen + kept;
        return filter;
      }
      var built := BuildFilterIndex(lex, def, store);
      if built.None? {
        TracksDrained(marked, old(dirty.overflow), seen, writes, flushed);
        return null;
      }
      filter := built.value;
      FreshIsKept(filter, def, store);
      TracksRebuild(old(filter) != null, ever, dead, marked, old(dirty.overflow), seen, writes, flushed, kept);
      seen := seen + kept;
      r := filter;
    }

    /** A search through the postings; none when they cannot answer and the keyspace is scanned instead. */
    method Search(cond: Cond, hasTtlKeys: bool, ordered: bool) returns (r: Option<Resolved>)
      requires Valid()
      modifies this`filter, this`seen, dirty, filter
      ensures Valid() && store == old(store)
      ensures filter == old(filter) || fresh(filter)
      ensures filter != null ==> filter.Valid() && filter.lex == lex && filter.def == def && def.storage == HashStorage
      ensures seen == old(seen) + if Answered(def, hasTtlKeys) then Kept(def, store) else iset{}
      ensures !hasTtlKeys && def.storage == HashStorage ==> filter != null && forall k :: filter.LiveDoc(k) == DocIn(store, def, k)
      ensures r.Some? <==> !hasTtlKeys && def.storage == HashStorage && filter != null && filter.Answerable(cond)
      ensures r.Some? && r.value.Ids? ==> Unique(r.value.ids) && (ordered || !cond.Numeric? ==> Ascending(r.value.ids))
      ensures r.Some? ==> forall key :: filter.Selects(r.value, key) <==>
                DocIn(store, def, key).Some? && Holds(lex, def, cond, DocIn(store, def, key).value)
      ensures r.Some? && Plain(lex, def, cond) ==> forall key :: filter.Selects(r.value, key) <==> InScan(lex, def, store, cond, key)
    {
      hide Index.Consistent;
      hide Index.LiveDoc;
      hide Index.Selects;
      hide Index.Answerable;
      hide Holds;
      hide ScanHolds;
      hide Plain;
      hide Ascending;
      hide Unique;
      hide Kept;
      hide Tracked;
      hide DocIn;
      hide D.DirtySet.Valid;
      var fi := FilterIndex(hasTtlKeys);
      if fi == null {
        return None;
      }
      r := fi.ResolveLive(cond, ordered);
      if r.Some? && Plain(lex, def, cond) {
        forall key | DocIn(store, def, key).Some?
          ensures Holds(lex, def, cond, DocIn(store, def, key).value) <==> ScanHolds(lex, def, cond, DocIn(store, def, key).value)
        {
          AnswerableIsOrdered(fi, cond, key);
          ScanAgrees(lex, def, cond, DocIn(store, def, key).value);
        }
      }
    }

    /** What the invariant says of the documents the postings hold. */
    lemma TracksSeen()
      requires Valid() && filter != null
      ensures Ever(filter.docs) <= seen && (!flushed && writes <= FEW ==> Ever(filter.docs) == seen)
    {
      hide Index.Consistent;
      hide Index.LiveDoc;
      hide Ever;
    }

    /** One operation of a history. */
    method Perform(op: Op)
      requires Valid()
      modifies this`store, this`filter, this`seen, this`writes, this`flushed, dirty, filter
      ensures Valid() && store == After(old(store), op)
      ensures filter == old(filter) || fresh(filter)
      ensures seen == old(seen) + if op.Query? && Answered(def, op.ttl) then Kept(def, old(store)) else iset{}
      ensures writes == old(writes) + (if op.WriteKey? then 1 else 0) && (flushed <==> old(flushed) || op == Flush)
    {
      hide Valid;
      hide Kept;
      match op {
        case WriteKey(key, value) => Write(key, value);
        case Flush => Clear();
        case Query(cond, ttl) =>
          var _ := Search(cond, ttl, true);
      }
    }

    /** Any history of writes, deletes, flushes and queries keeps the invariant and the keyspace's contents. */
    method Run(ops: seq<Op>)
      requires Valid()
      modifies this`store, this`filter, this`seen, this`writes, this`flushed, dirty, filter
      ensures Valid() && store == Replay(old(store), ops)
      ensures filter == old(filter) || fresh(filter)
      ensures seen == old(seen) + Seen(def, old(store), ops)
      ensures writes == old(writes) + Writes(ops) && (flushed <==> old(flushed) || Flush in ops)
    {
      hide Valid;
      hide After;
      hide Kept;
      hide Seen;
      hide Writes;
      NothingSeen(def, store, seen);
      for n := 0 to |ops|
        invariant Valid() && dirty == old(dirty)
        invariant filter == old(filter) || fresh(filter)
        invariant store == Replay(old(store), ops[..n])
        invariant seen == old(seen) + Seen(def, old(store), ops[..n])
        invariant writes == old(writes) + Writes(ops[..n]) && (flushed <==> old(flushed) || Flush in ops[..n])
      {
        ReplayStep(old(store), ops, n);
        SeenStep(def, old(store), old(seen), ops, n);
        Perform(ops[n]);
      }
      assert ops[..|ops|] == ops;
    }
  }

  datatype Op = WriteKey(key: string, value: Option<Value>) | Flush | Query(cond: Cond, ttl: bool)

  function After(store: Store, op: Op): Store {
    match op
    case WriteKey(key, value) => if value.Some? then store[key := value.value] else store - {key}
    case Flush => map[]
    case Query(_, _) => store
  }

  function Replay(store: Store, ops: seq<Op>): Store {
    if ops == [] then store else After(Replay(store, ops[..|ops| - 1]), ops[|ops| - 1])
  }

  lemma ReplayStep(store: Store, ops: seq<Op>, n: nat)
    requires n < |ops|
    ensures Replay(store, ops[..n + 1]) == After(Replay(store, ops[..n]), ops[n])
  {
    assert ops[..n + 1][..n] == ops[..n];
  }

  /** The postings answer, or try to: no scan is forced. */
  predicate Answered(def: IndexDef, ttl: bool) {
    !ttl && def.storage == HashStorage
  }

  /** The documents that the queries of a history found in the keyspace. */
  ghost function Seen(def: IndexDef, store: Store, ops: seq<Op>): iset<Doc> {
    if ops == [] then iset{}
    else
      var rest, last := ops[..|ops| - 1], ops[|ops| - 1];
      Seen(def, store, rest) + if last.Query? && Answered(def, last.ttl) then Kept(def, Replay(store, rest)) else iset{}
  }

  function Writes(ops: seq<Op>): nat {
    if ops == [] then 0 else Writes(ops[..|ops| - 1]) + if ops[|ops| - 1].WriteKey? then 1 else 0
  }

  lemma NothingSeen(def: IndexDef, store: Store, before: iset<Doc>)
    ensures before + Seen(def, store, []) == before && Writes([]) == 0
  {
  }

  lemma SeenStep(def: IndexDef, store: Store, before: iset<Doc>, ops: seq<Op>, n: nat)
    requires n < |ops|
    ensures before + Seen(def, store, ops[..n + 1]) ==
            before + Seen(def, store, ops[..n]) +
            if ops[n].Query? && Answered(def, ops[n].ttl) then Kept(def, Replay(store, ops[..n])) else iset{}
    ensures Writes(ops[..n + 1]) == Writes(ops[..n]) + if ops[n].WriteKey? then 1 else 0
    ensures Flush in ops[..n + 1] <==> Flush in ops[..n] || ops[n] == Flush
  {
    hide Kept;
    assert ops[..n + 1][..n] == ops[..n];
    assert ops[..n + 1] == ops[..n] + [ops[n]];
  }

  /** The documents that the queries of a history, and one more after it, find in the keyspace. */
  ghost function Found(def: IndexDef, ops: seq<Op>): iset<Doc> {
    Seen(def, map[], ops) + Kept(def, Replay(map[], ops))
  }

  /** Too little was written for the postings to be rebuilt. */
  predicate Short(ops: seq<Op>) {
    Flush !in ops && Writes(ops) <= FEW
  }

  /** After every history, whatever the postings answer to a plain condition is the scan of the keyspace that history left. */
  method SearchAfterHistory(lex: Lexer, def: IndexDef, hash: string -> nat, ops: seq<Op>, cond: Cond, ttl: bool)
    returns (r: Option<Resolved>, ix: Index?)
    ensures ix != null ==> ix.Valid() && ix.lex == lex && ix.def == def && def.storage == HashStorage
    ensures !ttl && def.storage == HashStorage ==> ix != null && forall k :: ix.LiveDoc(k) == DocIn(Replay(map[], ops), def, k)
    ensures !ttl && def.storage == HashStorage ==> Kept(def, Replay(map[], ops)) <= Ever(ix.docs) <= Found(def, ops)
    ensures !ttl && def.storage == HashStorage && Short(ops) ==> Ever(ix.docs) == Found(def, ops)
    ensures r.Some? <==> !ttl && def.storage == HashStorage && ix != null && ix.Answerable(cond)
    ensures r.Some? && r.value.Ids? ==> Ascending(r.value.ids)
    ensures r.Some? ==> forall key :: ix.Selects(r.value, key) <==>
              DocIn(Replay(map[], ops), def, key).Some? && Holds(lex, def, cond, DocIn(Replay(map[], ops), def, key).value)
    ensures r.Some? && Plain(lex, def, cond) ==>
              forall key :: ix.Selects(r.value, key) <==> InScan(lex, def, Replay(map[], ops), cond, key)
  {
    hide SearchState.Valid;
    hide Plain;
    hide Holds;
    hide InScan;
    hide Index.Selects;
    hide Index.LiveDoc;
    hide Index.Consistent;
    hide Index.Answerable;
    hide Ascending;
    hide Unique;
    hide Seen;
    hide Kept;
    hide Replay;
    hide Ever;
    var s := new SearchState(lex, def, hash);
    s.Run(ops);
    assert iset{} + Seen(def, map[], ops) == Seen(def, map[], ops);
    r := s.Search(cond, ttl, true);
    ix := s.filter;
    if !ttl && def.storage == HashStorage {
      KeptAmongEver(ix, def, s.store);
      s.TracksSeen();
    }
  }

  /** The documents the keyspace holds for the index. */
  ghost function Kept(def: IndexDef, store: Store): iset<Doc> {
    iset key | DocIn(store, def, key).Some? :: DocIn(store, def, key).value
  }

  /**
   Postings kept up by deltas and postings built afresh select the same keys whenever both can
   answer. The fresh ones answer by what the keyspace holds, the others by all they ever saw.
   */
  method IncrementalMatchesRebuild(lex: Lexer, def: IndexDef, hash: string -> nat, ops: seq<Op>, cond: Cond)
    returns (r: Option<Resolved>, ix: Index?, q: Option<Resolved>, built: Option<Index>)
    ensures def.storage == HashStorage <==> built.Some?
    ensures def.storage == HashStorage <==> ix != null
    ensures r.Some? <==> ix != null && AnswerableOver(lex, def, Ever(ix.docs), cond)
    ensures q.Some? <==> built.Some? && AnswerableOver(lex, def, Kept(def, Replay(map[], ops)), cond)
    ensures ix != null ==> Kept(def, Replay(map[], ops)) <= Ever(ix.docs) <= Found(def, ops)
    ensures ix != null && Short(ops) ==> Ever(ix.docs) == Found(def, ops)
    ensures r.Some? && q.Some? ==> forall key :: ix.Selects(r.value, key) <==> built.value.Selects(q.value, key)
  {
    hide Index.Consistent;
    hide Index.Selects;
    hide Index.LiveDoc;
    hide AnswerableOver;
    hide Holds;
    hide Kept;
    hide Found;
    hide Short;
    hide Ever;
    r, ix := SearchAfterHistory(lex, def, hash, ops, cond, false);
    var store := Replay(map[], ops);
    built := BuildFilterIndex(lex, def, store);
    q := None;
    if built.Some? {
      FreshIsKept(built.value, def, store);
      q := built.value.ResolveLive(cond, true);
    }
  }

  lemma KeptAmongEver(ix: Index, def: IndexDef, store: Store)
    requires ix.Valid() && forall k :: ix.LiveDoc(k) == DocIn(store, def, k)
    ensures Kept(def, store) <= Ever(ix.docs)
  {
    hide Index.Consistent;
    hide Index.LiveDoc;
    hide Ever;
    ix.LiveAmongEver();
    forall d | d in Kept(def, store) ensures d in Ever(ix.docs) {
      var key :| DocIn(store, def, key) == Some(d);
      assert ix.LiveDoc(key) == Some(d);
    }
  }

  lemma FreshIsKept(ix: Index, def: IndexDef, store: Store)
    requires ix.Valid() && ix.dead == 0 && forall k :: ix.LiveDoc(k) == DocIn(store, def, k)
    ensures Ever(ix.docs) == Kept(def, store)
  {
    hide Index.Consistent;
    hide Index.LiveDoc;
    hide Ever;
    KeptAmongEver(ix, def, store);
    ix.LiveAmongEver();
    forall d | d in Ever(ix.docs) ensures d in Kept(def, store) {
      var key :| ix.LiveDoc(key) == Some(d);
      assert DocIn(store, def, key) == Some(d);
    }
  }

  /**
   When one of the two answers a range and the other declines: the fresh one alone if a NaN is
   only in documents that are gone, the other alone if the field's numbers are.
   */
  lemma RangeAnswersDiffer(lex: Lexer, def: IndexDef, kept: iset<Doc>, ever: iset<Doc>, field: string, range: NumericRange)
    requires kept <= ever && FieldIdx(def, field, NumericField).Some?
    ensures var fi := FieldIdx(def, field, NumericField).value; var cond := Cond.Numeric(field, range);
            && (AnswerableOver(lex, def, kept, cond) && !AnswerableOver(lex, def, ever, cond)
                <==> SomeNumber(lex, def, fi, kept) && !SomeNaN(lex, def, fi, kept) && SomeNaN(lex, def, fi, ever))
            && (AnswerableOver(lex, def, ever, cond) && !AnswerableOver(lex, def, kept, cond)
                <==> SomeNumber(lex, def, fi, ever) && !SomeNaN(lex, def, fi, ever) && !SomeNumber(lex, def, fi, kept))
  {
    hide FieldNumber;
    var fi := FieldIdx(def, field, NumericField).value;
    assert SomeNaN(lex, def, fi, kept) ==> SomeNaN(lex, def, fi, ever);
    assert SomeNumber(lex, def, fi, kept) ==> SomeNumber(lex, def, fi, ever);
  }

  /** And a negated tag: the fresh one never alone, the other alone if the field is only in documents that are gone. */
  lemma TagAnswersDiffer(lex: Lexer, def: IndexDef, kept: iset<Doc>, ever: iset<Doc>, field: string, any: seq<string>)
    requires kept <= ever && FieldIdx(def, field, TagField).Some? && !AnyStar(any)
    ensures var fi := FieldIdx(def, field, TagField).value; var cond := Cond.TagNeg(field, any);
            && (AnswerableOver(lex, def, kept, cond) ==> AnswerableOver(lex, def, ever, cond))
            && (AnswerableOver(lex, def, ever, cond) && !AnswerableOver(lex, def, kept, cond) <==> SomeTagged(def, fi, ever) && !SomeTagged(def, fi, kept))
  {
    var fi := FieldIdx(def, field, TagField).value;
    assert SomeTagged(def, fi, kept) ==> SomeTagged(def, fi, ever);
  }

  /** A document is written, found by a query, and overwritten. */
  function Overwriting(key: string, a: Doc, b: Doc): seq<Op> {
    [WriteKey(key, Some(HashValue(a))), Query(MatchAll, false), WriteKey(key, Some(HashValue(b)))]
  }

  lemma OverwrittenLingers(def: IndexDef, key: string, a: Doc, b: Doc)
    requires def.storage == HashStorage && def.MatchesKey(key)
    ensures var ops := Overwriting(key, a, b);
            Short(ops) && Kept(def, Replay(map[], ops)) == iset{b} && Found(def, ops) == iset{a, b}
  {
    hide Kept;
    hide Seen;
    hide Writes;
    var ops := Overwriting(key, a, b);
    NothingSeen(def, map[], iset{});
    var wrote: Store := map[key := HashValue(a)];
    assert ops[..1] == [ops[0]] && ops[..2] == [ops[0], ops[1]] && ops[..3] == ops && ops[..0] == [];
    ReplayStep(map[], ops, 0);
    ReplayStep(map[], ops, 1);
    ReplayStep(map[], ops, 2);
    assert Replay(map[], ops[..1]) == wrote;
    assert Replay(map[], ops) == map[key := HashValue(b)];
    KeptAlone(def, key, a);
    KeptAlone(def, key, b);
    SeenStep(def, map[], iset{}, ops, 0);
    SeenStep(def, map[], iset{}, ops, 1);
    SeenStep(def, map[], iset{}, ops, 2);
  }

  lemma KeptAlone(def: IndexDef, key: string, a: Doc)
    requires def.MatchesKey(key)
    ensures Kept(def, map[key := HashValue(a)]) == iset{a}
  {
    assert DocIn(map[key := HashValue(a)], def, key) == Some(a);
  }

  /** Whatever the schema and the range: an overwritten NaN makes the postings decline what fresh ones answer. */
  method OverwrittenNaN(lex: Lexer, def: IndexDef, hash: string -> nat, key: string, field: string, range: NumericRange, nan: string, num: string)
    returns (r: Option<Resolved>, ix: Index?, q: Option<Resolved>, built: Option<Index>)
    requires def.storage == HashStorage && def.MatchesKey(key) && FieldIdx(def, field, NumericField).Some?
    requires lex.parse(nan) == Some(NaN) && lex.parse(num).Some? && lex.parse(num) != Some(NaN)
    ensures r.None? && q.Some?
  {
    hide Found;
    hide Kept;
    hide Short;
    ghost var fi := FieldIdx(def, field, NumericField).value;
    var name := def.fields[FieldIdx(def, field, NumericField).value].name;
    var a, b := map[name := nan], map[name := num];
    OverwrittenLingers(def, key, a, b);
    RangeAnswersDiffer(lex, def, iset{b}, iset{a, b}, field, range);
    assert FieldNumber(lex, def, fi, a) == Some(NaN) && FieldNumber(lex, def, fi, b) == lex.parse(num);
    hide AnswerableOver;
    r, ix, q, built := IncrementalMatchesRebuild(lex, def, hash, Overwriting(key, a, b), Cond.Numeric(field, range));
  }

  /** And the other way round: a field only overwritten documents had is answered for by the postings and declined by fresh ones. */
  method OverwrittenNumber(lex: Lexer, def: IndexDef, hash: string -> nat, key: string, field: string, range: NumericRange, num: string)
    returns (r: Option<Resolved>, ix: Index?, q: Option<Resolved>, built: Option<Index>)
    requires def.storage == HashStorage && def.MatchesKey(key) && FieldIdx(def, field, NumericField).Some?
    requires lex.parse(num).Some? && lex.parse(num) != Some(NaN)
    ensures r.Some? && q.None?
  {
    hide Found;
    hide Kept;
    hide Short;
    ghost var fi := FieldIdx(def, field, NumericField).value;
    var name := def.fields[FieldIdx(def, field, NumericField).value].name;
    var a, b := map[name := num], map[];
    OverwrittenLingers(def, key, a, b);
    RangeAnswersDiffer(lex, def, iset{b}, iset{a, b}, field, range);
    assert FieldNumber(lex, def, fi, a) == lex.parse(num) && FieldNumber(lex, def, fi, b) == None;
    hide AnswerableOver;
    r, ix, q, built := IncrementalMatchesRebuild(lex, def, hash, Overwriting(key, a, b), Cond.Numeric(field, range));
  }

  method OverwrittenTag(lex: Lexer, def: IndexDef, hash: string -> nat, key: string, field: string, any: seq<string>, text: string)
    returns (r: Option<Resolved>, ix: Index?, q: Option<Resolved>, built: Option<Index>)
    requires def.storage == HashStorage && def.MatchesKey(key) && FieldIdx(def, field, TagField).Some? && !AnyStar(any)
    ensures r.Some? && q.None?
  {
    hide Found;
    hide Kept;
    hide Short;
    hide AnyStar;
    ghost var fi := FieldIdx(def, field, TagField).value;
    var name := def.fields[FieldIdx(def, field, TagField).value].name;
    var a, b := map[name := text], map[];
    OverwrittenLingers(def, key, a, b);
    TagAnswersDiffer(lex, def, iset{b}, iset{a, b}, field, any);
    assert def.fields[fi].name in a && def.fields[fi].name !in b;
    hide AnswerableOver;
    r, ix, q, built := IncrementalMatchesRebuild(lex, def, hash, Overwriting(key, a, b), Cond.TagNeg(field, any));
  }

  /** A field the postings can range over holds no NaN in any live document. */
  lemma {:induction false} AnswerableIsOrdered(ix: Index, cond: Cond, key: string)
    requires ix.Valid() && ix.Answerable(cond) && ix.LiveDoc(key).Some?
    ensures NumbersOrdered(ix.lex, ix.def, cond, ix.LiveDoc(key).value)
  {
    match cond
    case Numeric(field, _) =>
      var fi := FieldIdx(ix.def, field, NumericField).value;
      FieldIsOrdered(ix.lex, ix.def, ix.nanFields, ix.docs, fi, ix.byKey[key]);
    case And(a, b) =>
      AnswerableIsOrdered(ix, a, key);
      AnswerableIsOrdered(ix, b, key);
    case Or(a, b) =>
      AnswerableIsOrdered(ix, a, key);
      AnswerableIsOrdered(ix, b, key);
    case _ =>
  }

  lemma FieldIsOrdered(lex: Lexer, def: IndexDef, nanFields: seq<nat>, docs: seq<Postings.Entry>, fi: nat, i: nat)
    requires NanOk(lex, def, nanFields, docs) && fi !in nanFields && def.IsField(fi, NumericField) && i < |docs|
    ensures NumberOf(lex, def, fi, docs[i].doc) != Some(NaN)
  {
    hide NumberOf;
    assert !SeenNaN(lex, def, fi, docs);
  }
}
