/**
 The numeric postings (src/search/filter.rs): per field a list of (value, id) pairs
 kept in value order. New pairs are collected while documents are added and merged
 in once per batch; a range query is a contiguous slice of the list.
 */
module NumericPostings {
  import opened Wrappers
  import opened IdLists
  import Words
  import opened SearchModel
  import opened Postings

  function PairsAt(nums: NumTable, fi: nat): seq<NumPair> {
    if fi in nums then nums[fi] else []
  }

  /** The number field `fi` of a document contributes to the postings. */
  function FieldNumber(lex: Lexer, def: IndexDef, fi: nat, doc: Doc): Option<F64> {
    if def.IsField(fi, NumericField) then NumberOf(lex, def, fi, doc) else None
  }

  /** One pair for each document whose field holds a number. */
  ghost function DocPairs(lex: Lexer, def: IndexDef, fi: nat, docs: seq<Entry>): multiset<NumPair> {
    if docs == [] then multiset{}
    else
      var n := |docs| - 1;
      var v := FieldNumber(lex, def, fi, docs[n].doc);
      DocPairs(lex, def, fi, docs[..n]) + (if v.Some? then multiset{(v.value, n)} else multiset{})
  }

  lemma {:induction false} DocPairsCount(lex: Lexer, def: IndexDef, fi: nat, docs: seq<Entry>, v: F64, i: nat)
    ensures DocPairs(lex, def, fi, docs)[(v, i)]
         == if i < |docs| && FieldNumber(lex, def, fi, docs[i].doc) == Some(v) then 1 else 0
  {
    hide FieldNumber;
    if docs != [] {
      DocPairsCount(lex, def, fi, docs[..|docs| - 1], v, i);
    }
  }

  ghost predicate NoNaN(s: seq<NumPair>) {
    forall p :: p in s ==> p.0 != NaN
  }

  ghost predicate Sorted(s: seq<NumPair>) {
    forall i, j :: 0 <= i < j < |s| ==> Le(s[i].0, s[j].0)
  }

  /** The comparison both sorts use: values that do not compare count as equal. */
  predicate Greater(a: NumPair, b: NumPair) {
    Lt(b.0, a.0)
  }

  // ---- Sorting a batch --------------------------------------------------------------

  function Insert(x: NumPair, s: seq<NumPair>): (r: seq<NumPair>)
    ensures multiset(r) == multiset{x} + multiset(s)
  {
    if s == [] || !Greater(x, s[0]) then [x] + s
    else
      assert s == [s[0]] + s[1..];
      [s[0]] + Insert(x, s[1..])
  }

  function SortPairs(s: seq<NumPair>): (r: seq<NumPair>)
    ensures multiset(r) == multiset(s)
  {
    if s == [] then []
    else
      assert s == [s[0]] + s[1..];
      Insert(s[0], SortPairs(s[1..]))
  }

  lemma LeTotal(a: F64, b: F64, c: F64)
    ensures a != NaN && b != NaN ==> Le(a, b) || Lt(b, a)
    ensures Lt(a, b) ==> Le(a, b) && a != NaN && b != NaN
    ensures Le(a, b) && Le(b, c) ==> Le(a, c)
    ensures Le(a, b) ==> !Lt(b, a)
  {
  }

  lemma SameElements(a: seq<NumPair>, b: seq<NumPair>)
    requires multiset(a) == multiset(b)
    ensures forall p :: p in a <==> p in b
  {
    forall p ensures p in a <==> p in b {
      assert p in a <==> p in multiset(a);
      assert p in b <==> p in multiset(b);
    }
  }

  lemma Prepend(x: NumPair, s: seq<NumPair>)
    requires Sorted(s) && forall p :: p in s ==> Le(x.0, p.0)
    ensures Sorted([x] + s)
  {
    var t := [x] + s;
    forall i, j | 0 <= i < j < |t| ensures Le(t[i].0, t[j].0) {
      assert t[j] == s[j - 1] && s[j - 1] in s;
    }
  }

  lemma {:induction false} InsertSorted(x: NumPair, s: seq<NumPair>)
    requires Sorted(s) && NoNaN(s) && x.0 != NaN
    ensures Sorted(Insert(x, s))
  {
    if s != [] {
      assert s[0] in s;
      forall p | p in s ensures Le(s[0].0, p.0) {
        LeTotal(s[0].0, p.0, p.0);
      }
      if !Greater(x, s[0]) {
        forall p | p in s ensures Le(x.0, p.0) {
          LeTotal(x.0, s[0].0, p.0);
        }
        Prepend(x, s);
      } else {
        InsertSorted(x, s[1..]);
        forall p | p in Insert(x, s[1..]) ensures Le(s[0].0, p.0) {
          assert p in multiset(Insert(x, s[1..]));
          LeTotal(s[0].0, x.0, x.0);
        }
        Prepend(s[0], Insert(x, s[1..]));
      }
    }
  }

  lemma {:induction false} SortPairsSorted(s: seq<NumPair>)
    requires NoNaN(s)
    ensures Sorted(SortPairs(s))
  {
    if s != [] {
      SortPairsSorted(s[1..]);
      SameElements(SortPairs(s[1..]), s[1..]);
      InsertSorted(s[0], SortPairs(s[1..]));
    }
  }

  // ---- Merging a batch --------------------------------------------------------------

  lemma AppendPair(s: seq<NumPair>, x: NumPair)
    requires Sorted(s) && forall p :: p in s ==> Le(p.0, x.0)
    ensures Sorted(s + [x])
  {
    var t := s + [x];
    forall i, j | 0 <= i < j < |t| ensures Le(t[i].0, t[j].0) {
      assert t[i] == s[i] && s[i] in s;
    }
  }

  /** What the merge loop keeps on lists free of NaN: the output is sorted and ends below both heads. */
  ghost predicate MergeOk(have: seq<NumPair>, add: seq<NumPair>, i: nat, j: nat, merged: seq<NumPair>)
    requires i <= |have| && j <= |add|
  {
    && Sorted(merged)
    && (i < |have| ==> forall p :: p in merged ==> Le(p.0, have[i].0))
    && (j < |add| ==> forall p :: p in merged ==> Le(p.0, add[j].0))
  }

  lemma Below(s: seq<NumPair>, x: F64, y: F64)
    requires Le(x, y) && forall p :: p in s ==> Le(p.0, x)
    ensures forall p :: p in s ==> Le(p.0, y)
  {
    forall p | p in s ensures Le(p.0, y) {
      LeTotal(p.0, x, y);
    }
  }

  lemma MergeTake(have: seq<NumPair>, add: seq<NumPair>, i: nat, j: nat, merged: seq<NumPair>)
    requires i < |have| && j <= |add| && Sorted(have) && have[i].0 != NaN
    requires MergeOk(have, add, i, j, merged)
    requires j < |add| ==> Le(have[i].0, add[j].0)
    ensures MergeOk(have, add, i + 1, j, merged + [have[i]])
  {
    hide Le;
    var x := have[i];
    AppendPair(merged, x);
    if i + 1 < |have| {
      Below(merged, x.0, have[i + 1].0);
    }
  }

  lemma MergeSwap(have: seq<NumPair>, add: seq<NumPair>, i: nat, j: nat, merged: seq<NumPair>)
    requires i <= |have| && j <= |add|
    ensures MergeOk(have, add, i, j, merged) <==> MergeOk(add, have, j, i, merged)
  {
  }

  lemma AppendAll(s: seq<NumPair>, t: seq<NumPair>)
    requires Sorted(s) && Sorted(t)
    requires t != [] ==> forall p :: p in s ==> Le(p.0, t[0].0)
    ensures Sorted(s + t)
  {
    var u := s + t;
    forall i, j | 0 <= i < j < |u| ensures Le(u[i].0, u[j].0) {
      if i < |s| <= j {
        assert u[i] in s && u[j] == t[j - |s|];
        LeTotal(u[i].0, t[0].0, u[j].0);
      }
    }
  }

  lemma Compare(a: NumPair, b: NumPair)
    ensures a.0 != NaN && b.0 != NaN ==> if Greater(a, b) then Le(b.0, a.0) else Le(a.0, b.0)
  {
  }

  /** `merged` holds what was taken from both lists so far. */
  ghost predicate Taken(merged: seq<NumPair>, have: seq<NumPair>, i: nat, add: seq<NumPair>, j: nat)
    requires i <= |have| && j <= |add|
  {
    multiset(merged) == multiset(have[..i]) + multiset(add[..j])
  }

  lemma TakeOne(merged: seq<NumPair>, have: seq<NumPair>, i: nat, add: seq<NumPair>, j: nat)
    requires i <= |have| && j <= |add| && Taken(merged, have, i, add, j)
    ensures i < |have| ==> Taken(merged + [have[i]], have, i + 1, add, j)
    ensures j < |add| ==> Taken(merged + [add[j]], have, i, add, j + 1)
  {
    assert i < |have| ==> have[..i + 1] == have[..i] + [have[i]];
    assert j < |add| ==> add[..j + 1] == add[..j] + [add[j]];
  }

  lemma TakeRest(merged: seq<NumPair>, have: seq<NumPair>, i: nat, add: seq<NumPair>, j: nat)
    requires i <= |have| && j <= |add| && Taken(merged, have, i, add, j)
    ensures multiset(merged + have[i..] + add[j..]) == multiset(have) + multiset(add)
  {
    assert have == have[..i] + have[i..] && add == add[..j] + add[j..];
  }

  /** The two-index merge loop of `merge_nums`. */
  method MergePairs(have: seq<NumPair>, add: seq<NumPair>) returns (merged: seq<NumPair>)
    ensures multiset(merged) == multiset(have) + multiset(add)
    ensures Sorted(have) && Sorted(add) && NoNaN(have) && NoNaN(add) ==> Sorted(merged)
  {
    hide Sorted;
    hide MergeOk;
    hide Taken;
    hide Greater;
    hide Le;
    ghost var clean := Sorted(have) && Sorted(add) && NoNaN(have) && NoNaN(add);
    merged := [];
    var i, j := 0, 0;
    MergeStart(have, add);
    while i < |have| && j < |add|
      invariant 0 <= i <= |have| && 0 <= j <= |add|
      invariant Taken(merged, have, i, add, j)
      invariant clean ==> MergeOk(have, add, i, j, merged)
      decreases |have| - i + |add| - j
    {
      Compare(have[i], add[j]);
      TakeOne(merged, have, i, add, j);
      if !Greater(have[i], add[j]) {
        if clean {
          MergeTake(have, add, i, j, merged);
        }
        merged := merged + [have[i]];
        i := i + 1;
      } else {
        if clean {
          MergeSwap(have, add, i, j, merged);
          MergeTake(add, have, j, i, merged);
          MergeSwap(have, add, i, j + 1, merged + [add[j]]);
        }
        merged := merged + [add[j]];
        j := j + 1;
      }
    }
    if clean {
      MergeEnd(have, add, i, j, merged);
    }
    TakeRest(merged, have, i, add, j);
    merged := merged + have[i..];
    merged := merged + add[j..];
  }

  lemma MergeStart(have: seq<NumPair>, add: seq<NumPair>)
    ensures MergeOk(have, add, 0, 0, []) && Taken([], have, 0, add, 0)
  {
  }

  lemma MergeEnd(have: seq<NumPair>, add: seq<NumPair>, i: nat, j: nat, merged: seq<NumPair>)
    requires i <= |have| && j <= |add| && (i == |have| || j == |add|)
    requires Sorted(have) && Sorted(add) && MergeOk(have, add, i, j, merged)
    ensures Sorted(merged + have[i..] + add[j..])
  {
    if i == |have| {
      AppendAll(merged, add[j..]);
      assert merged + have[i..] + add[j..] == merged + add[j..];
    } else {
      AppendAll(merged, have[i..]);
      assert merged + have[i..] + add[j..] == merged + have[i..];
    }
  }

  // ---- The table --------------------------------------------------------------------

  /** One field: merged and waiting pairs together are the documents' pairs, and the merged ones are in order. */
  ghost predicate FieldNumsOk(lex: Lexer, def: IndexDef, nums: NumTable, added: NumTable, docs: seq<Entry>, fi: nat) {
    && multiset(PairsAt(nums, fi)) + multiset(PairsAt(added, fi)) == DocPairs(lex, def, fi, docs)
    && (NoNaN(PairsAt(nums, fi)) ==> Sorted(PairsAt(nums, fi)))
    && (fi in nums ==> PairsAt(nums, fi) != []) && (fi in added ==> PairsAt(added, fi) != [])
  }

  /** With nothing waiting, a numeric field is in the table exactly if some document ever held a number there. */
  lemma NumberedIff(lex: Lexer, def: IndexDef, nums: NumTable, docs: seq<Entry>, fi: nat)
    requires FieldNumsOk(lex, def, nums, map[], docs, fi)
    ensures fi in nums <==> exists i :: 0 <= i < |docs| && FieldNumber(lex, def, fi, docs[i].doc).Some?
  {
    hide FieldNumber;
    hide DocPairs;
    assert PairsAt(map[], fi) == [];
    var pairs := PairsAt(nums, fi);
    PairsAreDocs(lex, def, fi, pairs, docs);
    if fi in nums {
      assert 0 <= pairs[0].1 < |docs|;
    }
  }

  ghost predicate NumsOk(lex: Lexer, def: IndexDef, nums: NumTable, added: NumTable, docs: seq<Entry>) {
    forall fi: nat :: FieldNumsOk(lex, def, nums, added, docs, fi)
  }

  ghost predicate SeenNaN(lex: Lexer, def: IndexDef, fi: nat, docs: seq<Entry>) {
    exists i :: 0 <= i < |docs| && FieldNumber(lex, def, fi, docs[i].doc) == Some(NaN)
  }

  /** The fields barred from range queries are those in which some document held NaN. */
  ghost predicate NanOk(lex: Lexer, def: IndexDef, nanFields: seq<nat>, docs: seq<Entry>) {
    forall fi: nat :: fi in nanFields <==> SeenNaN(lex, def, fi, docs)
  }

  function AddedPair(lex: Lexer, def: IndexDef, fi: nat, e: Entry, id: nat): seq<NumPair> {
    var v := FieldNumber(lex, def, fi, e.doc);
    if v.Some? then [(v.value, id)] else []
  }

  function PushPair(nums: NumTable, fi: nat, p: NumPair): (r: NumTable)
    ensures forall f: nat :: PairsAt(r, f) == if f == fi then PairsAt(nums, f) + [p] else PairsAt(nums, f)
    ensures forall f: nat :: f in r <==> f in nums || f == fi
  {
    nums[fi := PairsAt(nums, fi) + [p]]
  }

  /** The numeric-field loop of `add_doc`. */
  method AddNumbers(lex: Lexer, def: IndexDef, ghost nums: NumTable, added: NumTable, nanFields: seq<nat>,
                    ghost docs: seq<Entry>, id: nat, fields: seq<nat>, e: Entry) returns (r: NumTable, nan: seq<nat>)
    requires NumsOk(lex, def, nums, added, docs) && NanOk(lex, def, nanFields, docs) && id == |docs|
    requires AreFields(def, NumericField, fields)
    ensures NumsOk(lex, def, nums, r, docs + [e])
    ensures NanOk(lex, def, nan, docs + [e])
  {
    hide Ascending;
    hide NumberOf;
    hide PairsAt;
    hide NumsOk;
    hide NanOk;
    r, nan := added, nanFields;
    NoBareWaiting(lex, def, nums, added, docs);
    for k := 0 to |fields|
      invariant forall f: nat :: f in r ==> PairsAt(r, f) != []
      invariant forall f: nat :: PairsAt(r, f) == PairsAt(added, f) + (if f in fields[..k] then AddedPair(lex, def, f, e, id) else [])
      invariant forall f: nat :: f in nan <==> f in nanFields || (f in fields[..k] && FieldNumber(lex, def, f, e.doc) == Some(NaN))
    {
      var fi := fields[k];
      FieldStep(fields, k);
      var v := NumberOf(lex, def, fi, e.doc);
      if v.Some? {
        if v.value == NaN && fi !in nan {
          nan := nan + [fi];
        }
        r := PushPair(r, fi, (v.value, id));
      }
    }
    assert fields[..|fields|] == fields;
    NumsExtended(lex, def, nums, added, docs, fields, e, r);
    NanExtended(lex, def, nanFields, docs, fields, e, nan);
  }

  lemma NoBareWaiting(lex: Lexer, def: IndexDef, nums: NumTable, added: NumTable, docs: seq<Entry>)
    requires NumsOk(lex, def, nums, added, docs)
    ensures forall f: nat :: f in added ==> PairsAt(added, f) != []
  {
    hide DocPairs;
    forall f: nat | f in added ensures PairsAt(added, f) != [] {
      assert FieldNumsOk(lex, def, nums, added, docs, f);
    }
  }

  lemma FieldNumsExtended(lex: Lexer, def: IndexDef, nums: NumTable, added: NumTable, docs: seq<Entry>, e: Entry, r: NumTable, fi: nat)
    requires FieldNumsOk(lex, def, nums, added, docs, fi)
    requires PairsAt(r, fi) == PairsAt(added, fi) + (if def.IsField(fi, NumericField) then AddedPair(lex, def, fi, e, |docs|) else [])
    requires fi in r ==> PairsAt(r, fi) != []
    ensures FieldNumsOk(lex, def, nums, r, docs + [e], fi)
  {
    hide NumberOf;
    hide PairsAt;
    hide Sorted;
    assert (docs + [e])[..|docs|] == docs;
  }

  lemma NumsExtended(lex: Lexer, def: IndexDef, nums: NumTable, added: NumTable, docs: seq<Entry>, fields: seq<nat>, e: Entry, r: NumTable)
    requires NumsOk(lex, def, nums, added, docs)
    requires forall fi: nat :: fi in fields <==> def.IsField(fi, NumericField)
    requires forall f: nat :: PairsAt(r, f) == PairsAt(added, f) + (if f in fields then AddedPair(lex, def, f, e, |docs|) else [])
    requires forall f: nat :: f in r ==> PairsAt(r, f) != []
    ensures NumsOk(lex, def, nums, r, docs + [e])
  {
    hide FieldNumsOk;
    hide PairsAt;
    hide AddedPair;
    forall fi: nat ensures FieldNumsOk(lex, def, nums, r, docs + [e], fi) {
      assert FieldNumsOk(lex, def, nums, added, docs, fi);
      FieldNumsExtended(lex, def, nums, added, docs, e, r, fi);
    }
  }

  lemma NanExtended(lex: Lexer, def: IndexDef, nanFields: seq<nat>, docs: seq<Entry>, fields: seq<nat>, e: Entry, nan: seq<nat>)
    requires NanOk(lex, def, nanFields, docs)
    requires forall fi: nat :: fi in fields <==> def.IsField(fi, NumericField)
    requires forall f: nat :: f in nan <==> f in nanFields || (f in fields && FieldNumber(lex, def, f, e.doc) == Some(NaN))
    ensures NanOk(lex, def, nan, docs + [e])
  {
    hide NumberOf;
    forall fi: nat ensures fi in nan <==> SeenNaN(lex, def, fi, docs + [e]) {
      if SeenNaN(lex, def, fi, docs) {
        var i :| 0 <= i < |docs| && FieldNumber(lex, def, fi, docs[i].doc) == Some(NaN);
        assert (docs + [e])[i] == docs[i];
      }
      if SeenNaN(lex, def, fi, docs + [e]) {
        var i :| 0 <= i < |docs + [e]| && FieldNumber(lex, def, fi, (docs + [e])[i].doc) == Some(NaN);
      }
      if FieldNumber(lex, def, fi, e.doc) == Some(NaN) {
        assert (docs + [e])[|docs|] == e;
      }
    }
  }

  /** `merge_nums`: every waiting batch is sorted and merged in; nothing is left waiting. */
  method MergeNums(lex: Lexer, def: IndexDef, nums: NumTable, added: NumTable, ghost docs: seq<Entry>) returns (r: NumTable)
    requires NumsOk(lex, def, nums, added, docs)
    ensures NumsOk(lex, def, r, map[], docs)
  {
    hide FieldNumsOk;
    r := nums;
    var left := added;
    while left.Keys != {}
      invariant forall f: nat :: FieldNumsOk(lex, def, r, left, docs, f)
      decreases |left.Keys|
    {
      var fi :| fi in left.Keys;
      var add := SortPairs(left[fi]);
      var merged := MergePairs(PairsAt(r, fi), add);
      var r', left' := r[fi := merged], left - {fi};
      forall f: nat ensures FieldNumsOk(lex, def, r', left', docs, f) {
        assert FieldNumsOk(lex, def, r, left, docs, f);
        MergeField(lex, def, r, left, docs, fi, merged, f);
      }
      r, left := r', left';
    }
    assert left == map[];
  }

  lemma MergeField(lex: Lexer, def: IndexDef, nums: NumTable, added: NumTable, docs: seq<Entry>, fi: nat, merged: seq<NumPair>, f: nat)
    requires FieldNumsOk(lex, def, nums, added, docs, f)
    requires fi in added
    requires multiset(merged) == multiset(PairsAt(nums, fi)) + multiset(SortPairs(added[fi]))
    requires Sorted(PairsAt(nums, fi)) && Sorted(SortPairs(added[fi])) && NoNaN(PairsAt(nums, fi)) && NoNaN(SortPairs(added[fi])) ==> Sorted(merged)
    ensures FieldNumsOk(lex, def, nums[fi := merged], added - {fi}, docs, f)
  {
    hide DocPairs;
    hide Sorted;
    if f == fi {
      MergedKeeps(merged, PairsAt(nums, fi), added[fi]);
    }
    if f == fi && NoNaN(merged) {
      var add := SortPairs(added[fi]);
      forall p | p in PairsAt(nums, fi) || p in add || p in added[fi] ensures p.0 != NaN {
        assert p in multiset(PairsAt(nums, fi)) || p in multiset(add);
        assert p in multiset(merged);
      }
      SortPairsSorted(added[fi]);
    }
  }

  lemma MergedKeeps(merged: seq<NumPair>, have: seq<NumPair>, waiting: seq<NumPair>)
    requires multiset(merged) == multiset(have) + multiset(SortPairs(waiting)) && waiting != []
    ensures merged != []
  {
    assert waiting[0] in multiset(SortPairs(waiting));
    assert waiting[0] in multiset(merged);
  }

  // ---- Range queries ----------------------------------------------------------------

  /** Length of the leading run that satisfies `p` (on a partitioned list, the partition point). */
  function PartitionPoint(s: seq<NumPair>, p: F64 -> bool): (r: nat)
    ensures r <= |s|
    ensures forall k :: 0 <= k < r ==> p(s[k].0)
    ensures r < |s| ==> !p(s[r].0)
  {
    if s == [] || !p(s[0].0) then 0 else 1 + PartitionPoint(s[1..], p)
  }

  lemma BoundsAreDownwardClosed(range: NumericRange, a: F64, b: F64)
    requires Le(a, b)
    ensures BelowMin(range, b) ==> BelowMin(range, a)
    ensures UpToMax(range, b) ==> UpToMax(range, a)
  {
  }

  /** The slice between the two partition points holds exactly the pairs in range, also when the range is inverted. */
  lemma SliceIsRange(s: seq<NumPair>, range: NumericRange, lo: nat, hi: nat)
    requires Sorted(s)
    requires lo == PartitionPoint(s, v => BelowMin(range, v))
    requires hi == Words.Max(PartitionPoint(s, v => UpToMax(range, v)), lo)
    ensures hi <= |s|
    ensures forall k :: 0 <= k < |s| ==> (lo <= k < hi <==> InRange(range, s[k].0))
  {
    hide BelowMin;
    hide UpToMax;
    hide PartitionPoint;
    hide Le;
    forall k | 0 <= k < |s| ensures lo <= k < hi <==> InRange(range, s[k].0) {
      var top := PartitionPoint(s, v => UpToMax(range, v));
      if lo < k {
        BoundsAreDownwardClosed(range, s[lo].0, s[k].0);
      }
      if top < k {
        BoundsAreDownwardClosed(range, s[top].0, s[k].0);
      }
    }
  }

  ghost predicate NumberInRange(lex: Lexer, def: IndexDef, fi: nat, range: NumericRange, doc: Doc) {
    var v := FieldNumber(lex, def, fi, doc);
    v.Some? && InRange(range, v.value)
  }

  function IdsOf(s: seq<NumPair>): (ids: seq<nat>)
    ensures |ids| == |s| && forall k :: 0 <= k < |s| ==> ids[k] == s[k].1
  {
    seq(|s|, k requires 0 <= k < |s| => s[k].1)
  }

  ghost predicate Unique(ids: seq<nat>) {
    forall a, b :: 0 <= a < b < |ids| ==> ids[a] != ids[b]
  }

  lemma MultiplicityTwo(s: seq<NumPair>, a: nat, b: nat)
    requires a < b < |s| && s[a] == s[b]
    ensures multiset(s)[s[a]] >= 2
  {
    assert s == s[..b] + [s[b]] + s[b + 1..];
    assert s[a] == s[..b][a];
    assert s[a] in multiset(s[..b]);
  }

  /** The pairs of a field are its documents' numbers, one pair each. */
  lemma PairsAreDocs(lex: Lexer, def: IndexDef, fi: nat, s: seq<NumPair>, docs: seq<Entry>)
    requires multiset(s) == DocPairs(lex, def, fi, docs)
    ensures forall k :: 0 <= k < |s| ==> s[k].1 < |docs| && FieldNumber(lex, def, fi, docs[s[k].1].doc) == Some(s[k].0)
    ensures forall i: nat :: i < |docs| && FieldNumber(lex, def, fi, docs[i].doc).Some? ==> (FieldNumber(lex, def, fi, docs[i].doc).value, i) in s
    ensures Unique(IdsOf(s))
  {
    hide FieldNumber;
    forall k | 0 <= k < |s| ensures s[k].1 < |docs| && FieldNumber(lex, def, fi, docs[s[k].1].doc) == Some(s[k].0) {
      assert s[k] in multiset(s);
      DocPairsCount(lex, def, fi, docs, s[k].0, s[k].1);
    }
    forall i: nat | i < |docs| && FieldNumber(lex, def, fi, docs[i].doc).Some?
      ensures (FieldNumber(lex, def, fi, docs[i].doc).value, i) in s
    {
      var v := FieldNumber(lex, def, fi, docs[i].doc).value;
      DocPairsCount(lex, def, fi, docs, v, i);
      assert (v, i) in multiset(s);
    }
    var ids := IdsOf(s);
    forall a, b | 0 <= a < b < |ids| ensures ids[a] != ids[b] {
      if ids[a] == ids[b] {
        assert s[a] == s[b];
        MultiplicityTwo(s, a, b);
        DocPairsCount(lex, def, fi, docs, s[a].0, s[a].1);
      }
    }
  }

  function InsertId(x: nat, s: seq<nat>): (r: seq<nat>)
    ensures forall y: nat :: y in r <==> y == x || y in s
  {
    if s == [] || x <= s[0] then [x] + s
    else
      assert s == [s[0]] + s[1..];
      [s[0]] + InsertId(x, s[1..])
  }

  function SortIds(s: seq<nat>): (r: seq<nat>)
    ensures forall y: nat :: y in r <==> y in s
  {
    if s == [] then []
    else
      assert s == [s[0]] + s[1..];
      InsertId(s[0], SortIds(s[1..]))
  }

  lemma {:induction false} InsertIdAscends(x: nat, s: seq<nat>)
    requires Ascending(s) && x !in s
    ensures Ascending(InsertId(x, s))
  {
    if s != [] {
      assert s[0] in s;
      if x <= s[0] {
        Append([x], s);
      } else {
        InsertIdAscends(x, s[1..]);
        Rest(s, 0);
        Append([s[0]], InsertId(x, s[1..]));
      }
    }
  }

  lemma {:induction false} SortIdsAscends(s: seq<nat>)
    requires Unique(s)
    ensures Ascending(SortIds(s))
  {
    if s != [] {
      SortIdsAscends(s[1..]);
      InsertIdAscends(s[0], SortIds(s[1..]));
    }
  }

  /** `resolve_numeric` on one field free of NaN: the ids in range, once each, in order if asked. */
  method ResolveRange(lex: Lexer, def: IndexDef, fi: nat, s: seq<NumPair>, range: NumericRange, ordered: bool,
                      ghost docs: seq<Entry>) returns (ids: seq<nat>)
    requires multiset(s) == DocPairs(lex, def, fi, docs) && Sorted(s)
    ensures forall i: nat :: i in ids <==> i < |docs| && NumberInRange(lex, def, fi, range, docs[i].doc)
    ensures Unique(ids)
    ensures ordered ==> Ascending(ids)
  {
    hide Sorted;
    hide DocPairs;
    hide FieldNumber;
    hide InRange;
    var lo := PartitionPoint(s, v => BelowMin(range, v));
    var hi := PartitionPoint(s, v => UpToMax(range, v));
    hi := Words.Max(hi, lo);
    SliceIsRange(s, range, lo, hi);
    PairsAreDocs(lex, def, fi, s, docs);
    ids := IdsOf(s[lo..hi]);
    SliceIds(lex, def, fi, s, range, docs, lo, hi);
    if ordered {
      SortIdsAscends(ids);
      ids := SortIds(ids);
    }
  }

  lemma SliceIds(lex: Lexer, def: IndexDef, fi: nat, s: seq<NumPair>, range: NumericRange, docs: seq<Entry>, lo: nat, hi: nat)
    requires lo <= hi <= |s|
    requires forall k :: 0 <= k < |s| ==> (lo <= k < hi <==> InRange(range, s[k].0))
    requires forall k :: 0 <= k < |s| ==> s[k].1 < |docs| && FieldNumber(lex, def, fi, docs[s[k].1].doc) == Some(s[k].0)
    requires forall i: nat :: i < |docs| && FieldNumber(lex, def, fi, docs[i].doc).Some? ==> (FieldNumber(lex, def, fi, docs[i].doc).value, i) in s
    requires Unique(IdsOf(s))
    ensures Unique(IdsOf(s[lo..hi]))
    ensures forall i: nat :: i in IdsOf(s[lo..hi]) <==> i < |docs| && NumberInRange(lex, def, fi, range, docs[i].doc)
  {
    hide FieldNumber;
    hide InRange;
    var ids := IdsOf(s[lo..hi]);
    assert forall k :: 0 <= k < |ids| ==> ids[k] == IdsOf(s)[lo + k];
    forall i: nat ensures i in ids <==> i < |docs| && NumberInRange(lex, def, fi, range, docs[i].doc) {
      if i in ids {
        var k :| 0 <= k < |ids| && ids[k] == i;
        assert s[lo + k].1 == i;
      }
      if i < |docs| && NumberInRange(lex, def, fi, range, docs[i].doc) {
        var p := (FieldNumber(lex, def, fi, docs[i].doc).value, i);
        assert p in s;
        var k :| 0 <= k < |s| && s[k] == p;
        assert ids[k - lo] == i;
      }
    }
  }
}
