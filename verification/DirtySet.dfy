/**
 Keys written since the consumer last drained (src/search/hooks.rs), sharded by hash.
 Each method is one atomic step here; DirtyRace.dfy interleaves their parts.
 */
module DirtySet {
  import opened Words

  const DIRTY_OVERFLOW: nat := 250_000
  const SHARDS: nat := 16

  datatype Drained = Keys(keys: seq<string>) | Rebuild

  ghost function Total(shards: seq<set<string>>): nat {
    if shards == [] then 0 else |shards[0]| + Total(shards[1..])
  }

  lemma {:induction false} TotalUpdate(shards: seq<set<string>>, i: nat, s: set<string>)
    requires i < |shards|
    ensures Total(shards[i := s]) == Total(shards) - |shards[i]| + |s|
  {
    if i > 0 {
      assert shards[i := s][1..] == shards[1..][i - 1 := s];
      TotalUpdate(shards[1..], i - 1, s);
    } else {
      assert shards[i := s][1..] == shards[1..];
    }
  }

  lemma {:induction false} TotalAtLeast(shards: seq<set<string>>, i: nat)
    requires i < |shards|
    ensures |shards[i]| <= Total(shards)
  {
    if i > 0 {
      TotalAtLeast(shards[1..], i - 1);
    }
  }

  lemma {:induction false} TotalZero(shards: seq<set<string>>)
    ensures Total(shards) == 0 <==> forall i :: 0 <= i < |shards| ==> shards[i] == {}
  {
    if shards != [] {
      TotalZero(shards[1..]);
      assert forall i :: 1 <= i < |shards| ==> shards[i] == shards[1..][i - 1];
    }
  }

  lemma InsertCount(s: set<string>, key: string)
    ensures |s + {key}| == |s| + if key in s then 0 else 1
  {
    if key in s {
      assert s + {key} == s;
    }
  }

  ghost predicate NoDuplicates(s: seq<string>) {
    forall i, j :: 0 <= i < j < |s| ==> s[i] != s[j]
  }

  lemma {:induction false} DistinctCount(s: seq<string>, members: set<string>)
    requires NoDuplicates(s) && forall x :: x in s <==> x in members
    ensures |s| == |members|
  {
    if s != [] {
      var x := s[0];
      assert forall y :: y in s[1..] <==> y in members - {x} by {
        assert s == [x] + s[1..];
      }
      DistinctCount(s[1..], members - {x});
    }
  }

  lemma NoDuplicatesConcat(a: seq<string>, b: seq<string>)
    requires NoDuplicates(a) && NoDuplicates(b) && forall x :: x in a ==> x !in b
    ensures NoDuplicates(a + b)
  {
    var s := a + b;
    forall i, j | 0 <= i < j < |s| ensures s[i] != s[j] {
      if i < |a| <= j {
        assert s[i] in a && s[j] in b;
      }
    }
  }

  /** Every element of `s` exactly once, in some order. */
  method Listing(s: set<string>) returns (keys: seq<string>)
    ensures forall k :: k in keys <==> k in s
    ensures NoDuplicates(keys)
  {
    keys := [];
    var left := s;
    while left != {}
      invariant left <= s
      invariant forall k :: k in keys <==> k in s && k !in left
      invariant NoDuplicates(keys)
      decreases |left|
    {
      var k :| k in left;
      left := left - {k};
      keys := keys + [k];
    }
  }

  class DirtySet {
    const hash: string -> nat
    var shards: seq<set<string>>
    var overflow: bool
    var pending: nat

    /** Keys marked since the last drain or reset. */
    ghost var marked: set<string>

    function ShardOf(key: string): (i: nat)
      ensures i < SHARDS
    {
      hash(key) % SHARDS
    }

    ghost predicate Valid()
      reads this
    {
      && |shards| == SHARDS
      && (forall i, k :: 0 <= i < SHARDS && k in shards[i] ==> i == ShardOf(k))
      && pending == Total(shards)
      && (!overflow ==> forall k :: k in marked <==> k in shards[ShardOf(k)])
    }

    constructor (hash: string -> nat)
      ensures Valid() && !overflow && marked == {}
    {
      this.hash := hash;
      shards := seq(SHARDS, _ => {});
      overflow, pending, marked := false, 0, {};
      new;
      TotalZero(shards);
    }

    /** The shard's half of `mark`, under its lock. */
    method Insert(key: string)
      requires Valid() && !overflow
      modifies this`shards, this`pending, this`marked
      ensures Valid() && marked == old(marked) + {key}
    {
      var i := ShardOf(key);
      if key !in shards[i] {
        TotalUpdate(shards, i, shards[i] + {key});
        InsertCount(shards[i], key);
        shards := shards[i := shards[i] + {key}];
        pending := pending + 1;
      }
      marked := marked + {key};
    }

    lemma SmallShard(key: string)
      requires Valid()
      ensures |shards| == SHARDS && (!overflow ==> |shards[ShardOf(key)]| <= |marked|)
    {
      hide Total;
      if !overflow {
        assert forall k :: k in shards[ShardOf(key)] ==> k in marked;
        SubsetSize(shards[ShardOf(key)], marked);
      }
    }

    /** While everything must be rebuilt anyway, a mark leaves the shards alone. */
    ghost method Note(key: string)
      requires Valid() && overflow
      modifies this`marked
      ensures Valid() && marked == old(marked) + {key}
    {
      hide Total;
      marked := marked + {key};
    }

    /** A written key is in the set, or the set says that everything must be rebuilt, which a small set never does. */
    method Mark(key: string)
      requires Valid()
      modifies this
      ensures Valid()
      ensures marked == old(marked) + {key} && (old(overflow) ==> overflow)
      ensures !old(overflow) && |old(marked)| * SHARDS <= DIRTY_OVERFLOW ==> !overflow
    {
      hide Valid;
      if overflow {
        Note(key);
        return;
      }
      SmallShard(key);
      if |shards[ShardOf(key)]| * SHARDS > DIRTY_OVERFLOW {
        MarkAll();
        Note(key);
        return;
      }
      Insert(key);
    }

    /** Empties every shard, taking exactly its size off the counter. */
    method ClearShards()
      requires |shards| == SHARDS && pending == Total(shards)
      modifies this`shards, this`pending
      ensures |shards| == SHARDS && pending == 0 == Total(shards)
      ensures forall i :: 0 <= i < SHARDS ==> shards[i] == {}
    {
      for i := 0 to SHARDS
        invariant |shards| == SHARDS && pending == Total(shards)
        invariant forall j :: 0 <= j < i ==> shards[j] == {}
      {
        TotalAtLeast(shards, i);
        TotalUpdate(shards, i, {});
        pending := pending - |shards[i]|;
        shards := shards[i := {}];
      }
      TotalZero(shards);
    }

    method MarkAll()
      requires Valid()
      modifies this
      ensures Valid() && overflow && marked == old(marked)
    {
      overflow := true;
      ClearShards();
    }

    /** Clean means that nothing was marked since the last drain or reset. */
    method IsClean() returns (clean: bool)
      requires Valid()
      ensures clean <==> !overflow && marked == {}
    {
      TotalZero(shards);
      clean := !overflow && pending == 0;
      if !overflow && marked == {} {
        assert forall i, k :: 0 <= i < SHARDS && k in shards[i] ==> k in marked;
      }
    }

    /** Takes everything recorded so far: every marked key exactly once, or the order to rebuild. */
    method Drain() returns (d: Drained)
      requires Valid()
      modifies this
      ensures Valid() && !overflow && marked == {} && pending == 0
      ensures d.Rebuild? <==> old(overflow)
      ensures d.Keys? ==> forall k :: k in d.keys <==> k in old(marked)
      ensures d.Keys? ==> NoDuplicates(d.keys) && |d.keys| == |old(marked)|
    {
      if overflow {
        overflow := false;
        ClearShards();
        marked := {};
        return Rebuild;
      }
      var out: seq<string> := [];
      hide Total;
      for i := 0 to SHARDS
        invariant |shards| == SHARDS && pending == Total(shards) && overflow == old(overflow) && marked == old(marked)
        invariant forall j :: 0 <= j < i ==> shards[j] == {}
        invariant forall j :: i <= j < SHARDS ==> shards[j] == old(shards)[j]
        invariant forall k :: k in out <==> k in old(marked) && ShardOf(k) < i
        invariant NoDuplicates(out)
      {
        TotalAtLeast(shards, i);
        TotalUpdate(shards, i, {});
        var keys := Listing(shards[i]);
        pending := pending - |shards[i]|;
        shards := shards[i := {}];
        assert forall k :: k in keys ==> ShardOf(k) == i;
        NoDuplicatesConcat(out, keys);
        out := out + keys;
      }
      TotalZero(shards);
      DistinctCount(out, marked);
      marked := {};
      d := Keys(out);
    }

    method Reset()
      requires Valid()
      modifies this
      ensures Valid() && !overflow && marked == {} && pending == 0
    {
      overflow := false;
      ClearShards();
      marked := {};
    }
  }
}
