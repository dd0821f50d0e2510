/**
 SCAN (src/storage/scan.rs): one call walks the table from a cursor until it has enough
 keys, and packs where it stopped into the next cursor, 12 bits of shard and 20 of slot.
 The keyspace is a table of shards of slots; the glob pattern is a predicate on keys.
 */
module ScanCursor {
  import opened Wrappers
  import opened Words

  datatype Entry = Entry(key: string, expired: bool)

  type Table = seq<seq<Option<Entry>>>

  type Pattern = string -> bool

  const SLOT_SPAN: nat := 0x10_0000
  const SHARD_SPAN: nat := 0x1000

  function Encode(shard: nat, slot: nat): nat {
    shard * SLOT_SPAN + slot % SLOT_SPAN
  }

  function Decode(cursor: nat): (nat, nat) {
    ((cursor / SLOT_SPAN) % SHARD_SPAN, cursor % SLOT_SPAN)
  }

  /** A position survives packing exactly if its shard and slot fit. */
  lemma CursorRoundTrip(shard: nat, slot: nat)
    ensures Decode(Encode(shard, slot)) == (shard, slot) <==> shard < SHARD_SPAN && slot < SLOT_SPAN
  {
  }

  lemma DecodeZero()
    ensures Decode(0) == (0, 0)
  {
  }

  /** What a slot contributes. */
  function Hit(slot: Option<Entry>, p: Pattern): seq<string> {
    if slot.Some? && !slot.value.expired && p(slot.value.key) then [slot.value.key] else []
  }

  /** The matching live keys from a position to the end of the table. */
  function Rest(t: Table, shard: nat, slot: nat, p: Pattern): seq<string>
    decreases |t| - shard, if shard < |t| then |t[shard]| - slot else 0
  {
    if shard >= |t| then []
    else if slot >= |t[shard]| then Rest(t, shard + 1, 0, p)
    else Hit(t[shard][slot], p) + Rest(t, shard, slot + 1, p)
  }

  /** In the order of the walk. */
  predicate Before(a: (nat, nat), b: (nat, nat)) {
    a.0 < b.0 || (a.0 == b.0 && a.1 < b.1)
  }

  /** A place where a call may stop: a slot of the table, or the start of a shard. */
  predicate Stop(t: Table, at: (nat, nat)) {
    at.0 < |t| && (at.1 == 0 || at.1 < |t[at.0]|)
  }

  /** The keys are the matching live ones from `start` up to `at`. */
  ghost predicate Walked(t: Table, p: Pattern, start: (nat, nat), keys: seq<string>, at: (nat, nat)) {
    Rest(t, start.0, start.1, p) == keys + Rest(t, at.0, at.1, p)
  }

  lemma WalkStarts(t: Table, p: Pattern, start: (nat, nat))
    ensures Walked(t, p, start, [], start)
  {
    hide Rest;
  }

  lemma WalkSlot(t: Table, p: Pattern, start: (nat, nat), keys: seq<string>, shard: nat, slot: nat)
    requires shard < |t| && slot < |t[shard]| && Walked(t, p, start, keys, (shard, slot))
    ensures Walked(t, p, start, keys + Hit(t[shard][slot], p), (shard, slot + 1)) && |Hit(t[shard][slot], p)| <= 1
  {
    var hit, rest := Hit(t[shard][slot], p), Rest(t, shard, slot + 1, p);
    assert Rest(t, shard, slot, p) == hit + rest;
    hide Rest;
    assert keys + (hit + rest) == (keys + hit) + rest;
  }

  lemma WalkShard(t: Table, p: Pattern, start: (nat, nat), keys: seq<string>, shard: nat, slot: nat)
    requires shard < |t| && slot >= |t[shard]| && Walked(t, p, start, keys, (shard, slot))
    ensures Walked(t, p, start, keys, (shard + 1, 0))
  {
  }

  /** The inner loop: the slots of one shard, until there are enough keys. */
  method ScanShard(t: Table, shard: nat, from: nat, p: Pattern, count: nat, found: seq<string>, ghost start: (nat, nat))
    returns (full: bool, slot: nat, keys: seq<string>)
    requires shard < |t| && (|found| < count || found == []) && Walked(t, p, start, found, (shard, from))
    ensures Walked(t, p, start, keys, (shard, slot))
    ensures full ==> count <= |keys| <= Max(count, 1) && from < slot <= |t[shard]|
    ensures !full ==> slot >= |t[shard]| && (|keys| < count || keys == [])
  {
    hide Hit;
    hide Walked;
    slot, keys := from, found;
    while slot < |t[shard]|
      invariant from <= slot && Walked(t, p, start, keys, (shard, slot))
      invariant |keys| < count || keys == []
    {
      WalkSlot(t, p, start, keys, shard, slot);
      keys := keys + Hit(t[shard][slot], p);
      slot := slot + 1;
      if |keys| >= count {
        return true, slot, keys;
      }
    }
    full := false;
  }

  /**
   One call returns the matching live keys between its cursor and the place it stopped,
   which lies further on; cursor 0 is returned at the end of the table.
   */
  method Scan(t: Table, cursor: nat, p: Pattern, count: nat) returns (next: nat, keys: seq<string>, ghost at: (nat, nat))
    ensures Walked(t, p, Decode(cursor), keys, at)
    ensures |keys| <= Max(count, 1)
    ensures at.0 >= |t| ==> next == 0
    ensures at.0 < |t| ==> next == Encode(at.0, at.1) && Stop(t, at) && Before(Decode(cursor), at) && |keys| >= count
  {
    hide Decode;
    hide Encode;
    hide Rest;
    DecodeZero();
    hide Walked;
    ghost var start := Decode(cursor);
    var shard: nat, slot: nat := 0, 0;
    if cursor != 0 {
      shard, slot := Decode(cursor).0, Decode(cursor).1;
    }
    keys := [];
    WalkStarts(t, p, start);
    while shard < |t|
      invariant Walked(t, p, start, keys, (shard, slot))
      invariant (shard, slot) == start || start.0 < shard
      invariant |keys| < count || keys == []
    {
      var full;
      full, slot, keys := ScanShard(t, shard, slot, p, count, keys, start);
      if full {
        if slot >= |t[shard]| {
          WalkShard(t, p, start, keys, shard, slot);
          shard, slot := shard + 1, 0;
        }
        at := (shard, slot);
        if shard >= |t| {
          return 0, keys, at;
        }
        return Encode(shard, slot), keys, at;
      }
      WalkShard(t, p, start, keys, shard, slot);
      shard, slot := shard + 1, 0;
    }
    return 0, keys, (shard, slot);
  }

  // ---- A whole iteration ------------------------------------------------------------

  /** The table's shards and slots can be told apart by their cursors. */
  predicate Fits(t: Table) {
    |t| <= SHARD_SPAN && forall s :: 0 <= s < |t| ==> |t[s]| <= SLOT_SPAN
  }

  lemma StopsRoundTrip(t: Table, at: (nat, nat))
    requires Fits(t) && Stop(t, at)
    ensures Decode(Encode(at.0, at.1)) == at
    ensures Before((0, 0), at) ==> Encode(at.0, at.1) != 0
  {
    CursorRoundTrip(at.0, at.1);
  }

  /** How far a position is from the end, counting every shard as full. */
  function Left(t: Table, at: (nat, nat)): int {
    if at.0 < |t| then (|t| - at.0) * (SLOT_SPAN + 1) - at.1 else 0
  }

  /** A call that does not reach the end leaves a nonzero cursor, which leads back to a later position. */
  lemma AfterCall(t: Table, cursor: nat, next: nat, at: (nat, nat))
    requires Fits(t) && (at.0 < |t| ==> next == Encode(at.0, at.1) && Stop(t, at) && Before(Decode(cursor), at))
    ensures at.0 < |t| ==> next != 0 && Decode(next) == at && 0 < Left(t, at) < Left(t, Decode(cursor))
  {
    if at.0 < |t| {
      StopsRoundTrip(t, at);
    }
  }

  /**
   Calling SCAN from cursor 0 until it returns 0, whatever count each call is given, ends,
   and collects every matching live key of the whole table, slot by slot; once, if no key is
   in two slots.
   */
  method ScanAll(t: Table, p: Pattern, counts: nat -> nat) returns (keys: seq<string>)
    requires Fits(t)
    ensures keys == Rest(t, 0, 0, p)
    ensures forall key :: key in keys <==> exists s: nat, i: nat :: Listed(t, s, i, p, key)
    ensures OneSlotPerKey(t, p) ==> forall j, k :: 0 <= j < k < |keys| ==> keys[j] != keys[k]
  {
    hide Decode;
    hide Encode;
    hide Rest;
    DecodeZero();
    hide Walked;
    hide Fits;
    hide Stop;
    hide Listed;
    hide OneSlotPerKey;
    ghost var at: (nat, nat) := (0, 0);
    var call: nat, cursor, more := 0, 0, [];
    keys := [];
    cursor, keys, at := Scan(t, 0, p, counts(0));
    AfterCall(t, 0, cursor, at);
    while cursor != 0
      invariant Walked(t, p, (0, 0), keys, at)
      invariant cursor == 0 ==> at.0 >= |t|
      invariant cursor != 0 ==> Decode(cursor) == at && Left(t, at) > 0
      decreases Left(t, at)
    {
      hide Left;
      call := call + 1;
      ghost var was: nat := cursor;
      ghost var from := at;
      cursor, more, at := Scan(t, cursor, p, counts(call));
      AfterCall(t, was, cursor, at);
      WalkOn(t, p, keys, from, more, at);
      keys := keys + more;
    }
    WalkEnds(t, p, keys, at);
    WholeTable(t, p);
  }

  lemma WholeTable(t: Table, p: Pattern)
    ensures forall key :: key in Rest(t, 0, 0, p) <==> exists s: nat, i: nat :: Listed(t, s, i, p, key)
    ensures OneSlotPerKey(t, p) ==> forall j, k :: 0 <= j < k < |Rest(t, 0, 0, p)| ==> Rest(t, 0, 0, p)[j] != Rest(t, 0, 0, p)[k]
  {
    hide Rest;
    hide Listed;
    forall key ensures key in Rest(t, 0, 0, p) <==> exists s: nat, i: nat :: Listed(t, s, i, p, key) {
      RestMembers(t, 0, 0, p, key);
      if s: nat, i: nat :| Listed(t, s, i, p, key) {
        assert !Before((s, i), (0, 0));
      }
    }
    if OneSlotPerKey(t, p) {
      RestDistinct(t, 0, 0, p);
    }
  }

  lemma WalkOn(t: Table, p: Pattern, keys: seq<string>, from: (nat, nat), more: seq<string>, at: (nat, nat))
    requires Walked(t, p, (0, 0), keys, from) && Walked(t, p, from, more, at)
    ensures Walked(t, p, (0, 0), keys + more, at)
  {
    hide Rest;
  }

  lemma WalkEnds(t: Table, p: Pattern, keys: seq<string>, at: (nat, nat))
    requires at.0 >= |t| && Walked(t, p, (0, 0), keys, at)
    ensures keys == Rest(t, 0, 0, p)
  {
    assert Rest(t, at.0, at.1, p) == [];
  }

  /** A live entry of the table that matches. */
  ghost predicate Listed(t: Table, shard: nat, slot: nat, p: Pattern, key: string) {
    shard < |t| && slot < |t[shard]| && t[shard][slot] == Some(Entry(key, false)) && p(key)
  }

  lemma HitIsListed(t: Table, shard: nat, slot: nat, p: Pattern, key: string)
    requires shard < |t| && slot < |t[shard]|
    ensures key in Hit(t[shard][slot], p) <==> Listed(t, shard, slot, p, key)
  {
  }

  ghost predicate ListedFrom(t: Table, shard: nat, slot: nat, p: Pattern, key: string) {
    exists s: nat, i: nat :: Listed(t, s, i, p, key) && !Before((s, i), (shard, slot))
  }

  lemma NextSlot(t: Table, shard: nat, slot: nat, p: Pattern, key: string)
    requires shard < |t| && slot < |t[shard]|
    ensures ListedFrom(t, shard, slot, p, key) <==> Listed(t, shard, slot, p, key) || ListedFrom(t, shard, slot + 1, p, key)
  {
    hide Listed;
    if Listed(t, shard, slot, p, key) {
      assert !Before((shard, slot), (shard, slot));
    } else if ListedFrom(t, shard, slot, p, key) {
      var s: nat, i: nat :| Listed(t, s, i, p, key) && !Before((s, i), (shard, slot));
      assert (s, i) != (shard, slot);
      assert !Before((s, i), (shard, slot + 1));
    }
    if ListedFrom(t, shard, slot + 1, p, key) {
      var s: nat, i: nat :| Listed(t, s, i, p, key) && !Before((s, i), (shard, slot + 1));
      assert !Before((s, i), (shard, slot));
    }
  }

  lemma NextShard(t: Table, shard: nat, slot: nat, p: Pattern, key: string)
    requires shard < |t| && slot >= |t[shard]|
    ensures ListedFrom(t, shard, slot, p, key) <==> ListedFrom(t, shard + 1, 0, p, key)
  {
    if ListedFrom(t, shard, slot, p, key) {
      var s: nat, i: nat :| Listed(t, s, i, p, key) && !Before((s, i), (shard, slot));
      assert !Before((s, i), (shard + 1, 0));
    }
    if ListedFrom(t, shard + 1, 0, p, key) {
      var s: nat, i: nat :| Listed(t, s, i, p, key) && !Before((s, i), (shard + 1, 0));
      assert !Before((s, i), (shard, slot));
    }
  }

  /** The list holds a key exactly if some slot from the position on holds it, live and matching. */
  lemma {:induction false} RestMembers(t: Table, shard: nat, slot: nat, p: Pattern, key: string)
    ensures key in Rest(t, shard, slot, p) <==> ListedFrom(t, shard, slot, p, key)
    decreases |t| - shard, if shard < |t| then |t[shard]| - slot else 0
  {
    if shard < |t| {
      hide ListedFrom;
      if slot >= |t[shard]| {
        RestMembers(t, shard + 1, 0, p, key);
        NextShard(t, shard, slot, p, key);
      } else {
        RestMembers(t, shard, slot + 1, p, key);
        NextSlot(t, shard, slot, p, key);
        HitIsListed(t, shard, slot, p, key);
      }
    }
  }

  /** No key is in two slots. */
  ghost predicate OneSlotPerKey(t: Table, p: Pattern) {
    forall s: nat, i: nat, s': nat, i': nat, key :: Listed(t, s, i, p, key) && Listed(t, s', i', p, key) ==> (s, i) == (s', i')
  }

  /** So the list of a table without repeated keys has no repetition. */
  lemma {:induction false} RestDistinct(t: Table, shard: nat, slot: nat, p: Pattern)
    requires OneSlotPerKey(t, p)
    ensures forall j, k :: 0 <= j < k < |Rest(t, shard, slot, p)| ==> Rest(t, shard, slot, p)[j] != Rest(t, shard, slot, p)[k]
    decreases |t| - shard, if shard < |t| then |t[shard]| - slot else 0
  {
    if shard < |t| {
      if slot >= |t[shard]| {
        RestDistinct(t, shard + 1, 0, p);
      } else {
        RestDistinct(t, shard, slot + 1, p);
        var rest := Rest(t, shard, slot + 1, p);
        var hit := Hit(t[shard][slot], p);
        if hit != [] {
          RestMembers(t, shard, slot + 1, p, hit[0]);
          HitIsListed(t, shard, slot, p, hit[0]);
          assert hit[0] !in rest;
        }
        assert Rest(t, shard, slot, p) == hit + rest;
      }
    }
  }
}
