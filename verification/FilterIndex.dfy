/**
 The filter index itself (src/search/filter.rs): postings that are extended document by
 document, tombstones for documents that were overwritten or deleted, and the recursive
 resolution of a condition to the list of document ids that satisfy it.
 */
module FilterIndex {
  import opened Wrappers
  import opened IdLists
  import opened SearchModel
  import opened Postings
  import opened NumericPostings

  datatype Resolved = All | Ids(ids: seq<nat>)

  /** `r` is exactly the set of documents for which `cond` holds, as an ascending list unless it is everything. */
  ghost predicate AnswerIs(r: Resolved, lex: Lexer, def: IndexDef, cond: Cond, docs: seq<Entry>) {
    match r
    case All => forall i: nat :: i < |docs| ==> Holds(lex, def, cond, docs[i].doc)
    case Ids(ids) =>
      && Ascending(ids)
      && forall i: nat :: i in ids <==> i < |docs| && Holds(lex, def, cond, docs[i].doc)
  }

  predicate AnyStar(ts: seq<string>) {
    exists t :: t in ts && HasStar(t)
  }

  // ---- Keys and tombstones ----------------------------------------------------------

  ghost function DeadCount(ids: seq<Option<string>>): nat {
    if ids == [] then 0 else DeadCount(ids[..|ids| - 1]) + (if ids[|ids| - 1].None? then 1 else 0)
  }

  lemma {:induction false} DeadCountBury(ids: seq<Option<string>>, i: nat)
    requires i < |ids| && ids[i].Some?
    ensures DeadCount(ids[i := None]) == DeadCount(ids) + 1
  {
    var n := |ids| - 1;
    if i == n {
      assert ids[i := None][..n] == ids[..n];
    } else {
      assert ids[i := None][..n] == ids[..n][i := None];
      DeadCountBury(ids[..n], i);
    }
  }

  lemma {:induction false} DeadCountZero(ids: seq<Option<string>>)
    ensures DeadCount(ids) <= |ids|
    ensures DeadCount(ids) == 0 <==> forall i :: 0 <= i < |ids| ==> ids[i].Some?
  {
    if ids != [] {
      DeadCountZero(ids[..|ids| - 1]);
    }
  }

  /** `byKey` and the live part of `ids` are inverse to each other, and `dead` counts the tombstones. */
  ghost predicate KeysOk(ids: seq<Option<string>>, byKey: map<string, nat>, dead: nat, docs: seq<Entry>) {
    && |ids| == |docs|
    && (forall k :: k in byKey ==> byKey[k] < |ids| && ids[byKey[k]] == Some(k))
    && (forall i: nat :: i < |ids| && ids[i].Some? ==> ids[i] == Some(docs[i].key) && docs[i].key in byKey && byKey[docs[i].key] == i)
    && dead == DeadCount(ids)
  }

  lemma KeysAdded(ids: seq<Option<string>>, byKey: map<string, nat>, dead: nat, docs: seq<Entry>, e: Entry)
    requires KeysOk(ids, byKey, dead, docs) && e.key !in byKey
    ensures KeysOk(ids + [Some(e.key)], byKey[e.key := |ids|], dead, docs + [e])
  {
    assert (ids + [Some(e.key)])[..|ids|] == ids;
  }

  lemma KeyBuried(ids: seq<Option<string>>, byKey: map<string, nat>, dead: nat, docs: seq<Entry>, key: string)
    requires KeysOk(ids, byKey, dead, docs) && key in byKey
    ensures KeysOk(ids[byKey[key] := None], byKey - {key}, dead + 1, docs)
  {
    DeadCountBury(ids, byKey[key]);
  }

  // ---- What the postings can answer -------------------------------------------------

  /** Every document ever indexed, dead or alive. */
  ghost function Ever(docs: seq<Entry>): iset<Doc> {
    iset e | e in docs :: e.doc
  }

  ghost predicate SomeNumber(lex: Lexer, def: IndexDef, fi: nat, seen: iset<Doc>) {
    exists d :: d in seen && FieldNumber(lex, def, fi, d).Some?
  }

  ghost predicate SomeNaN(lex: Lexer, def: IndexDef, fi: nat, seen: iset<Doc>) {
    exists d :: d in seen && FieldNumber(lex, def, fi, d) == Some(NaN)
  }

  ghost predicate SomeTagged(def: IndexDef, fi: nat, seen: iset<Doc>)
    requires fi < |def.fields|
  {
    exists d :: d in seen && def.fields[fi].name in d
  }

  ghost predicate TextAnswerable(def: IndexDef, scope: Option<string>, terms: seq<string>) {
    && terms != [] && !AnyStar(terms)
    && (match scope
        case Some(name) => FieldIdx(def, name, TextField).Some?
        case None => exists fi: nat :: def.IsField(fi, TextField))
  }

  /**
   The conditions that postings over the documents `seen` can answer: no globs, fields that
   are indexed, ranges over fields that held numbers and never NaN, and negated tags of fields
   that some document had.
   */
  ghost predicate AnswerableOver(lex: Lexer, def: IndexDef, seen: iset<Doc>, cond: Cond) {
    match cond
    case MatchAll => true
    case MatchNone => true
    case Numeric(field, _) =>
      var f := FieldIdx(def, field, NumericField);
      f.Some? && !SomeNaN(lex, def, f.value, seen) && SomeNumber(lex, def, f.value, seen)
    case Tag(field, any) => FieldIdx(def, field, TagField).Some? && !AnyStar(any)
    case TagNeg(field, any) =>
      var f := FieldIdx(def, field, TagField);
      f.Some? && SomeTagged(def, f.value, seen) && !AnyStar(any)
    case Text(scope, terms) => TextAnswerable(def, scope, terms)
    case TextNeg(scope, terms) => TextAnswerable(def, scope, terms)
    case And(a, b) => AnswerableOver(lex, def, seen, a) && AnswerableOver(lex, def, seen, b)
    case Or(a, b) => AnswerableOver(lex, def, seen, a) && AnswerableOver(lex, def, seen, b)
  }

  /** The guards of `resolve_numeric`, in terms of the documents. */
  lemma NumericGuard(lex: Lexer, def: IndexDef, nums: NumTable, nanFields: seq<nat>, docs: seq<Entry>, fi: nat)
    requires FieldNumsOk(lex, def, nums, map[], docs, fi) && NanOk(lex, def, nanFields, docs)
    ensures fi in nanFields <==> SomeNaN(lex, def, fi, Ever(docs))
    ensures fi in nums <==> SomeNumber(lex, def, fi, Ever(docs))
  {
    hide FieldNumber;
    hide FieldNumsOk;
    NumberedIff(lex, def, nums, docs, fi);
    forall d | d in Ever(docs) ensures exists i :: 0 <= i < |docs| && docs[i].doc == d {
      var e :| e in docs && e.doc == d;
    }
    forall i | 0 <= i < |docs| ensures docs[i].doc in Ever(docs) {
      assert docs[i] in docs;
    }
  }

  /** The guard of a negated tag condition, in terms of the documents. */
  lemma TagGuard(def: IndexDef, tags: TagTable, docs: seq<Entry>, fi: nat)
    requires TagsOk(def, tags, docs) && def.IsField(fi, TagField)
    ensures fi in tags <==> SomeTagged(def, fi, Ever(docs))
  {
    hide TagsOk;
    TaggedIff(def, tags, docs, fi);
    forall d | d in Ever(docs) ensures exists i :: 0 <= i < |docs| && docs[i].doc == d {
      var e :| e in docs && e.doc == d;
    }
    forall i | 0 <= i < |docs| ensures docs[i].doc in Ever(docs) {
      assert docs[i] in docs;
    }
  }

  // ---- Resolving one kind of condition ----------------------------------------------

  /** The tag arm: the union of the postings of `any`. */
  method ResolveTags(def: IndexDef, tags: TagTable, fi: nat, any: seq<string>, ghost docs: seq<Entry>)
    returns (r: Option<seq<nat>>)
    requires TagsOk(def, tags, docs) && def.IsField(fi, TagField)
    ensures r.None? <==> AnyStar(any)
    ensures r.Some? ==> Ascending(r.value)
    ensures r.Some? ==> forall i: nat :: i in r.value <==> i < |docs| && exists t :: t in any && t in TagTokens(def, fi, docs[i].doc)
  {
    hide Ascending;
    hide TagTokens;
    hide TagPosting;
    var acc: seq<nat> := [];
    EmptyAscends();
    for k := 0 to |any|
      invariant forall t :: t in any[..k] ==> !HasStar(t)
      invariant Ascending(acc)
      invariant forall i: nat :: i in acc <==> i < |docs| && exists t :: t in any[..k] && t in TagTokens(def, fi, docs[i].doc)
    {
      var t := any[k];
      assert any[..k + 1] == any[..k] + [t];
      assert t in any;
      if HasStar(t) {
        return None;
      }
      assert TagOk(def, tags, docs, fi, t);
      acc := UnionIds(acc, TagPosting(tags, fi, t));
    }
    assert any[..|any|] == any;
    r := Some(acc);
  }

  lemma EmptyAscends()
    ensures Ascending([])
  {
  }

  ghost predicate ScopeIs(def: IndexDef, scope: Option<string>, fields: seq<nat>) {
    forall fi: nat :: fi in fields <==> fi < |def.fields| && InScope(def, scope, fi)
  }

  /** `term_docs`: the documents that hold the term in some field of the scope. */
  method TermDocs(lex: Lexer, def: IndexDef, texts: TextTable, scope: Option<string>, fields: seq<nat>, term: string, ghost docs: seq<Entry>)
    returns (acc: seq<nat>)
    requires TextsOk(lex, def, texts, docs) && ScopeIs(def, scope, fields)
    ensures Ascending(acc)
    ensures forall i: nat :: i in acc <==> i < |docs| && TermInDoc(lex, def, scope, term, docs[i].doc)
  {
    hide Ascending;
    hide TextTokens;
    hide TextPosting;
    hide InScope;
    hide Frequency;
    acc := [];
    EmptyAscends();
    for k := 0 to |fields|
      invariant Ascending(acc)
      invariant forall i: nat :: i in acc <==> i < |docs| && exists fi: nat :: fi in fields[..k] && HasToken(lex, def, fi, term, docs[i].doc)
    {
      var fi := fields[k];
      assert fields[..k + 1] == fields[..k] + [fi];
      var p := TextPosting(texts, fi, term);
      assert PostingOk(lex, def, p, fi, term, docs);
      acc := UnionIds(acc, p.docs);
    }
    assert fields[..|fields|] == fields;
    forall i: nat | i < |docs|
      ensures (exists fi: nat :: fi in fields && HasToken(lex, def, fi, term, docs[i].doc)) <==> TermInDoc(lex, def, scope, term, docs[i].doc)
    {
      ScopeTokens(lex, def, scope, fields, term, docs[i].doc);
    }
  }

  lemma ScopeTokens(lex: Lexer, def: IndexDef, scope: Option<string>, fields: seq<nat>, term: string, doc: Doc)
    requires ScopeIs(def, scope, fields)
    ensures (exists fi: nat :: fi in fields && HasToken(lex, def, fi, term, doc)) <==> TermInDoc(lex, def, scope, term, doc)
  {
    hide TextTokens;
    if fi: nat :| fi in fields && HasToken(lex, def, fi, term, doc) {
      assert fi < |def.fields| && InScope(def, scope, fi) && term in TextTokens(lex, def, fi, doc);
    }
    if TermInDoc(lex, def, scope, term, doc) {
      var fi: nat :| fi < |def.fields| && InScope(def, scope, fi) && term in TextTokens(lex, def, fi, doc);
      assert fi in fields && HasToken(lex, def, fi, term, doc);
    }
  }

  ghost predicate TermHolds(lex: Lexer, def: IndexDef, scope: Option<string>, t: string, doc: Doc) {
    QueryTerm(lex, t).Some? ==> TermInDoc(lex, def, scope, QueryTerm(lex, t).value, doc)
  }

  ghost predicate TermsHold(lex: Lexer, def: IndexDef, scope: Option<string>, ts: seq<string>, doc: Doc) {
    forall t :: t in ts ==> TermHolds(lex, def, scope, t, doc)
  }

  lemma TermsHoldFacts(lex: Lexer, def: IndexDef, scope: Option<string>, ts: seq<string>, k: nat, doc: Doc)
    requires k <= |ts|
    ensures k < |ts| ==> (TermsHold(lex, def, scope, ts[..k + 1], doc) <==> TermsHold(lex, def, scope, ts[..k], doc) && TermHolds(lex, def, scope, ts[k], doc))
    ensures TextHolds(lex, def, scope, ts, doc) ==> TermsHold(lex, def, scope, ts[..k], doc)
    ensures k == |ts| ==> (TextHolds(lex, def, scope, ts, doc) <==> TermsHold(lex, def, scope, ts[..k], doc))
  {
    hide TermInDoc;
    hide QueryTerm;
    if k < |ts| {
      assert ts[..k + 1] == ts[..k] + [ts[k]];
    }
    assert k == |ts| ==> ts[..k] == ts;
  }

  /** `text_docs` past its guards: documents that hold every term that is not a stopword. */
  method TextDocs(lex: Lexer, def: IndexDef, texts: TextTable, scope: Option<string>, fields: seq<nat>, terms: seq<string>, ghost docs: seq<Entry>, total: nat)
    returns (ids: seq<nat>)
    requires TextsOk(lex, def, texts, docs) && ScopeIs(def, scope, fields) && total == |docs|
    ensures Ascending(ids)
    ensures forall i: nat :: i in ids <==> i < |docs| && TextHolds(lex, def, scope, terms, docs[i].doc)
  {
    hide Ascending;
    hide TermInDoc;
    hide TermsHold;
    hide TextHolds;
    hide QueryTerm;
    hide TextsOk;
    var acc: Option<seq<nat>> := None;
    var k := 0;
    while k < |terms|
      invariant 0 <= k <= |terms|
      invariant acc.None? ==> forall t :: t in terms[..k] ==> QueryTerm(lex, t).None?
      invariant acc.Some? ==> Ascending(acc.value)
      invariant acc.Some? ==> forall i: nat :: i in acc.value <==> i < |docs| && TermsHold(lex, def, scope, terms[..k], docs[i].doc)
    {
      var t := terms[k];
      assert terms[..k + 1] == terms[..k] + [t];
      forall i: nat | i < |docs|
        ensures TermsHold(lex, def, scope, terms[..k + 1], docs[i].doc) <==> TermsHold(lex, def, scope, terms[..k], docs[i].doc) && TermHolds(lex, def, scope, t, docs[i].doc)
        ensures TextHolds(lex, def, scope, terms, docs[i].doc) ==> TermsHold(lex, def, scope, terms[..k + 1], docs[i].doc)
      {
        TermsHoldFacts(lex, def, scope, terms, k, docs[i].doc);
        TermsHoldFacts(lex, def, scope, terms, k + 1, docs[i].doc);
      }
      var q := QueryTerm(lex, t);
      if q.Some? {
        var hits := TermDocs(lex, def, texts, scope, fields, q.value, docs);
        if acc.None? {
          StopwordsHold(lex, def, scope, terms[..k], docs);
          acc := Some(hits);
        } else {
          var both := IntersectIds(acc.value, hits);
          acc := Some(both);
        }
        // Later terms only remove documents, so an empty intersection is final.
        if acc.value == [] {
          return acc.value;
        }
      }
      k := k + 1;
    }
    forall i: nat | i < |docs|
      ensures TextHolds(lex, def, scope, terms, docs[i].doc) <==> TermsHold(lex, def, scope, terms[..k], docs[i].doc)
    {
      TermsHoldFacts(lex, def, scope, terms, k, docs[i].doc);
    }
    if acc.None? {
      StopwordsHold(lex, def, scope, terms[..k], docs);
      ids := AllIds(total);
    } else {
      ids := acc.value;
    }
  }

  lemma StopwordsHold(lex: Lexer, def: IndexDef, scope: Option<string>, ts: seq<string>, docs: seq<Entry>)
    requires forall t :: t in ts ==> QueryTerm(lex, t).None?
    ensures forall i: nat :: i < |docs| ==> TermsHold(lex, def, scope, ts, docs[i].doc)
  {
    hide QueryTerm;
  }

  // ---- The keyspace -----------------------------------------------------------------

  datatype Value = HashValue(doc: Doc) | OtherValue

  type Store = map<string, Value>

  /** The document a key contributes to the index: a hash under one of the prefixes. */
  function DocIn(store: Store, def: IndexDef, key: string): Option<Doc> {
    if def.MatchesKey(key) && key in store && store[key].HashValue? then Some(store[key].doc) else None
  }

  /** The documents a batch of keys finds in the keyspace. */
  ghost function Fetched(def: IndexDef, store: Store, keys: set<string>): iset<Doc> {
    iset key | key in keys && DocIn(store, def, key).Some? :: DocIn(store, def, key).value
  }

  lemma EverAdded(docs: seq<Entry>, e: Entry)
    ensures Ever(docs + [e]) == Ever(docs) + iset{e.doc}
  {
    forall d ensures d in Ever(docs + [e]) <==> d in Ever(docs) + iset{e.doc} {
      if d in Ever(docs) {
        var f :| f in docs && f.doc == d;
        assert f in docs + [e];
      }
      assert e in docs + [e];
    }
  }

  /** One more key of a batch. */
  lemma FetchedStep(def: IndexDef, store: Store, keys: seq<string>, n: nat)
    requires n < |keys|
    ensures Keyset(keys[..n + 1]) == Keyset(keys[..n]) + {keys[n]}
    ensures Fetched(def, store, Keyset(keys[..n + 1])) ==
            Fetched(def, store, Keyset(keys[..n])) + if DocIn(store, def, keys[n]).Some? then iset{DocIn(store, def, keys[n]).value} else iset{}
  {
    hide DocIn;
    assert keys[..n + 1] == keys[..n] + [keys[n]];
    var all, some := Keyset(keys[..n + 1]), Keyset(keys[..n]);
    forall d | d in Fetched(def, store, all) && d !in Fetched(def, store, some) ensures DocIn(store, def, keys[n]) == Some(d) {
      var k :| k in all && DocIn(store, def, k) == Some(d);
      assert k == keys[n];
    }
  }

  lemma NothingFetched(def: IndexDef, store: Store)
    ensures Keyset([]) == {} && Fetched(def, store, {}) == iset{}
  {
  }

  function Keyset(keys: seq<string>): set<string> {
    set k | k in keys
  }

  ghost function DocOf(byKey: map<string, nat>, docs: seq<Entry>, key: string): Option<Doc> {
    if key in byKey && byKey[key] < |docs| then Some(docs[byKey[key]].doc) else None
  }

  lemma DocAdded(byKey: map<string, nat>, docs: seq<Entry>, e: Entry)
    requires forall k :: k in byKey ==> byKey[k] < |docs|
    ensures forall k :: DocOf(byKey[e.key := |docs|], docs + [e], k) == if k == e.key then Some(e.doc) else DocOf(byKey, docs, k)
  {
    forall k ensures DocOf(byKey[e.key := |docs|], docs + [e], k) == if k == e.key then Some(e.doc) else DocOf(byKey, docs, k) {
      assert k in byKey ==> (docs + [e])[byKey[k]] == docs[byKey[k]];
    }
  }

  lemma DocBuried(byKey: map<string, nat>, docs: seq<Entry>, key: string)
    ensures forall k :: DocOf(byKey - {key}, docs, k) == if k == key then None else DocOf(byKey, docs, k)
    ensures key !in byKey ==> byKey - {key} == byKey
  {
    forall k ensures DocOf(byKey - {key}, docs, k) == if k == key then None else DocOf(byKey, docs, k) {
      assert k in byKey - {key} <==> k in byKey && k != key;
    }
    if key !in byKey {
      assert byKey - {key} == byKey;
    }
  }

  // ---- The index --------------------------------------------------------------------

  class Index {
    const lex: Lexer
    const def: IndexDef
    const tagFields: seq<nat>
    const numFields: seq<nat>
    const textFields: seq<nat>

    var ids: seq<Option<string>>
    var byKey: map<string, nat>
    var dead: nat
    var tags: TagTable
    var nums: NumTable
    var texts: TextTable
    var docLen: LenTable
    var lenSum: map<nat, nat>
    var nanFields: seq<nat>

    /** Every document ever added, by id; a tombstone removes the key, not the postings. */
    ghost var docs: seq<Entry>

    ghost predicate FieldLists() {
      && AreFields(def, TagField, tagFields)
      && AreFields(def, NumericField, numFields)
      && AreFields(def, TextField, textFields)
    }

    /** The index with `added` still waiting to be merged into the numeric postings. */
    ghost predicate Consistent(added: NumTable)
      reads this
    {
      && FieldLists()
      && KeysOk(ids, byKey, dead, docs)
      && TagsOk(def, tags, docs)
      && NumsOk(lex, def, nums, added, docs)
      && NanOk(lex, def, nanFields, docs)
      && TextsOk(lex, def, texts, docs)
      && LensOk(lex, def, docLen, lenSum, ids, docs)
    }

    ghost predicate Valid()
      reads this
    {
      Consistent(map[])
    }

    /** The live document stored for a key. */
    ghost function LiveDoc(key: string): Option<Doc>
      reads this
    {
      DocOf(byKey, docs, key)
    }

    constructor (lex: Lexer, def: IndexDef)
      ensures Valid() && this.lex == lex && this.def == def
      ensures docs == [] && dead == 0 && forall key :: LiveDoc(key) == None
    {
      this.lex := lex;
      this.def := def;
      tagFields := FieldsOf(def, TagField, |def.fields|);
      numFields := FieldsOf(def, NumericField, |def.fields|);
      textFields := FieldsOf(def, TextField, |def.fields|);
      ids, byKey, dead := [], map[], 0;
      tags, nums, texts := map[], map[], map[];
      docLen, lenSum, nanFields := map[], map[], [];
      docs := [];
      new;
      EmptyTables(lex, def);
    }

    /** `add_doc`: index one document under the next id; its numbers wait in the result. */
    method AddDoc(key: string, doc: Doc, added: NumTable) returns (r: NumTable)
      requires Consistent(added) && key !in byKey
      modifies this
      ensures Consistent(r)
      ensures docs == old(docs) + [Entry(key, doc)] && dead == old(dead)
      ensures byKey == old(byKey)[key := |old(docs)|]
    {
      hide Ascending;
      hide KeysOk;
      hide TagsOk;
      hide NumsOk;
      hide NanOk;
      hide TextsOk;
      hide LensOk;
      hide AreFields;
      var e := Entry(key, doc);
      LiveIdsInRange(ids, byKey, dead, docs);
      KeysAdded(ids, byKey, dead, docs, e);
      var id := |ids|;
      var newTags := AddTags(def, tags, docs, id, tagFields, e);
      var nan;
      r, nan := AddNumbers(lex, def, nums, added, nanFields, docs, id, numFields, e);
      var newTexts, lens, sums := AddTexts(lex, def, texts, docLen, lenSum, ids, docs, id, textFields, e);
      ids, byKey, docs := ids + [Some(key)], byKey[key := id], docs + [e];
      tags, nanFields := newTags, nan;
      texts, docLen, lenSum := newTexts, lens, sums;
    }

    /** Every id ever given has its document. */
    lemma IdsAreDocs()
      requires Valid()
      ensures |ids| == |docs|
    {
    }

    lemma KeysInRange(added: NumTable)
      requires Consistent(added)
      ensures forall k :: k in byKey ==> byKey[k] < |docs|
    {
      LiveIdsInRange(ids, byKey, dead, docs);
    }

    lemma NotIndexed(key: string, added: NumTable)
      requires Consistent(added) && LiveDoc(key) == None
      ensures key !in byKey
    {
      LiveIdsInRange(ids, byKey, dead, docs);
    }

    /** The tombstone half of `apply`: forget a key's document, if it has one. */
    method Bury(key: string, ghost added: NumTable)
      requires Consistent(added)
      modifies this
      ensures Consistent(added) && docs == old(docs) && key !in byKey
      ensures dead == old(dead) + if key in old(byKey) then 1 else 0
      ensures forall k :: LiveDoc(k) == if k == key then None else old(LiveDoc(k))
    {
      hide Ascending;
      hide KeysOk;
      hide TagsOk;
      hide NumsOk;
      hide NanOk;
      hide TextsOk;
      hide LensOk;
      hide DocOf;
      LiveIdsInRange(ids, byKey, dead, docs);
      DocBuried(byKey, docs, key);
      if key in byKey {
        var gone := byKey[key];
        KeyBuried(ids, byKey, dead, docs, key);
        byKey := byKey - {key};
        lenSum := ForgetLens(lex, def, docLen, lenSum, ids, docs, gone);
        ids := ids[gone := None];
        dead := dead + 1;
      }
    }

    /** `apply`: tombstone each written key's document, then index its current value. */
    method Apply(store: Store, keys: seq<string>)
      requires Valid()
      modifies this
      ensures Valid()
      ensures forall k :: LiveDoc(k) == if k in keys then DocIn(store, def, k) else old(LiveDoc(k))
      ensures Ever(docs) == old(Ever(docs)) + Fetched(def, store, Keyset(keys)) && dead <= old(dead) + |keys|
      ensures |old(docs)| <= |docs|
    {
      hide Consistent;
      hide DocOf;
      hide Ever;
      hide Fetched;
      hide Keyset;
      NothingFetched(def, store);
      var added: NumTable := map[];
      for n := 0 to |keys|
        invariant Consistent(added) && dead <= old(dead) + n && |old(docs)| <= |docs|
        invariant Ever(docs) == old(Ever(docs)) + Fetched(def, store, Keyset(keys[..n]))
        invariant forall k :: LiveDoc(k) == if k in keys[..n] then DocIn(store, def, k) else old(LiveDoc(k))
      {
        var key := keys[n];
        assert keys[..n + 1] == keys[..n] + [key];
        FetchedStep(def, store, keys, n);
        Bury(key, added);
        if def.MatchesKey(key) && key in store && store[key].HashValue? {
          KeysInRange(added);
          DocAdded(byKey, docs, Entry(key, store[key].doc));
          EverAdded(docs, Entry(key, store[key].doc));
          added := AddDoc(key, store[key].doc, added);
        }
      }
      assert keys[..|keys|] == keys;
      MergeAdded(added);
    }

    /** `merge_nums` at the end of a batch. */
    method MergeAdded(added: NumTable)
      requires Consistent(added)
      modifies this`nums
      ensures Valid()
      ensures forall k :: LiveDoc(k) == old(LiveDoc(k))
    {
      hide Ascending;
      hide KeysOk;
      hide TagsOk;
      hide NumsOk;
      hide NanOk;
      hide TextsOk;
      hide LensOk;
      nums := MergeNums(lex, def, nums, added, docs);
    }

    /** The conditions these postings can answer; for the others the caller scans the keyspace. */
    ghost predicate Answerable(cond: Cond)
      reads this
    {
      AnswerableOver(lex, def, Ever(docs), cond)
    }

    /** `resolve_numeric`. */
    method ResolveNumeric(field: string, range: NumericRange, ordered: bool) returns (r: Option<seq<nat>>)
      requires Valid()
      ensures r.Some? <==> Answerable(Cond.Numeric(field, range))
      ensures r.Some? ==> Unique(r.value) && (ordered ==> Ascending(r.value))
      ensures r.Some? ==> forall i: nat :: i in r.value <==> i < |docs| && NumericHolds(lex, def, field, range, docs[i].doc)
    {
      hide Ascending;
      hide KeysOk;
      hide TagsOk;
      hide TextsOk;
      hide LensOk;
      hide DocPairs;
      hide Sorted;
      hide InRange;
      hide NumberOf;
      var f := FieldIdx(def, field, NumericField);
      if f.Some? {
        assert FieldNumsOk(lex, def, nums, map[], docs, f.value);
        NumericGuard(lex, def, nums, nanFields, docs, f.value);
      }
      if f.None? || f.value in nanFields || f.value !in nums {
        return None;
      }
      var fi := f.value;
      NoNaNInField(lex, def, nums, nanFields, docs, fi);
      var ids := ResolveRange(lex, def, fi, nums[fi], range, ordered, docs);
      r := Some(ids);
    }

    /** `text_docs` with its guards and `text_scope`. */
    method ResolveText(scope: Option<string>, terms: seq<string>) returns (r: Option<seq<nat>>)
      requires Valid()
      ensures r.Some? <==> TextAnswerable(def, scope, terms)
      ensures r.Some? ==> Ascending(r.value)
      ensures r.Some? ==> forall i: nat :: i in r.value <==> i < |docs| && TextHolds(lex, def, scope, terms, docs[i].doc)
    {
      hide Ascending;
      hide TagsOk;
      hide NumsOk;
      hide NanOk;
      hide TextsOk;
      hide LensOk;
      hide TextHolds;
      if terms == [] || AnyStar(terms) {
        return None;
      }
      var fields;
      match scope {
        case Some(name) =>
          var f := FieldIdx(def, name, TextField);
          if f.None? {
            return None;
          }
          fields := [f.value];
        case None =>
          if textFields == [] {
            return None;
          }
          assert textFields[0] in textFields;
          fields := textFields;
      }
      var hits := TextDocs(lex, def, texts, scope, fields, terms, docs, |ids|);
      r := Some(hits);
    }

    /** `resolve_raw`: exactly the indexed documents, dead or alive, for which the condition holds. */
    method ResolveRaw(cond: Cond) returns (r: Option<Resolved>)
      requires Valid()
      ensures r.Some? <==> Answerable(cond)
      ensures r.Some? ==> AnswerIs(r.value, lex, def, cond, docs)
      decreases cond, 1
    {
      hide Ascending;
      hide TagsOk;
      hide NumsOk;
      hide NanOk;
      hide TextsOk;
      hide LensOk;
      hide TextHolds;
      hide TagTokens;
      hide NumericHolds;
      EmptyAscends();
      match cond {
        case MatchAll =>
          r := Some(All);
        case MatchNone =>
          r := Some(Ids([]));
        case Numeric(field, range) =>
          var hits := ResolveNumeric(field, range, true);
          r := if hits.None? then None else Some(Ids(hits.value));
        case Tag(field, any) =>
          var f := FieldIdx(def, field, TagField);
          if f.None? {
            return None;
          }
          var hits := ResolveTags(def, tags, f.value, any, docs);
          r := if hits.None? then None else Some(Ids(hits.value));
        case Text(scope, terms) =>
          var hits := ResolveText(scope, terms);
          r := if hits.None? then None else Some(Ids(hits.value));
        case TextNeg(scope, terms) =>
          var hits := ResolveText(scope, terms);
          if hits.None? {
            return None;
          }
          var rest := ComplementIds(hits.value, |ids|);
          r := Some(Ids(rest));
        case TagNeg(field, any) =>
          var f := FieldIdx(def, field, TagField);
          if f.Some? {
            TagGuard(def, tags, docs, f.value);
          }
          if f.None? || f.value !in tags {
            return None;
          }
          var hits := ResolveTags(def, tags, f.value, any, docs);
          if hits.None? {
            return None;
          }
          var rest := ComplementIds(hits.value, |ids|);
          r := Some(Ids(rest));
        case And(_, _) =>
          r := ResolveBoth(cond);
        case Or(_, _) =>
          r := ResolveBoth(cond);
      }
    }

    /** The two recursive arms: intersection or union of what both sides resolve to. */
    method ResolveBoth(cond: Cond) returns (r: Option<Resolved>)
      requires Valid()
      requires cond.And? || cond.Or?
      ensures r.Some? <==> Answerable(cond.left) && Answerable(cond.right)
      ensures r.Some? ==> AnswerIs(r.value, lex, def, cond, docs)
      decreases cond, 0
    {
      hide Consistent;
      hide Answerable;
      hide Ascending;
      var both := cond.And?;
      var x := ResolveRaw(cond.left);
      if x.None? {
        return None;
      }
      var y := ResolveRaw(cond.right);
      if y.None? {
        return None;
      }
      match (x.value, y.value) {
        case (All, _) =>
          r := if both then y else x;
        case (Ids(_), All) =>
          r := if both then x else y;
        case (Ids(p), Ids(q)) =>
          var m;
          if both {
            m := IntersectIds(p, q);
          } else {
            m := UnionIds(p, q);
          }
          r := Some(Ids(m));
      }
    }

    /** The keys a resolution stands for. */
    ghost predicate Selects(r: Resolved, key: string)
      reads this
    {
      exists i: nat :: i < |ids| && ids[i] == Some(key) && (r.All? || i in r.ids)
    }

    /** `resolve_live`: as above over live documents only; with `ordered` off a top-level range stays in value order. */
    method ResolveLive(cond: Cond, ordered: bool) returns (r: Option<Resolved>)
      requires Valid()
      ensures r.Some? <==> Answerable(cond)
      ensures r.Some? && r.value.All? ==> dead == 0
      ensures r.Some? && r.value.Ids? ==> Unique(r.value.ids) && (ordered || !cond.Numeric? ==> Ascending(r.value.ids))
      ensures r.Some? && r.value.Ids? ==> forall i: nat :: i in r.value.ids ==> i < |ids| && ids[i].Some?
      ensures r.Some? ==> forall key :: Selects(r.value, key) <==> LiveDoc(key).Some? && Holds(lex, def, cond, LiveDoc(key).value)
    {
      hide Consistent;
      hide Answerable;
      hide Holds;
      hide Ascending;
      hide Selects;
      hide LiveDoc;
      var raw: Option<Resolved>;
      if cond.Numeric? && !ordered {
        var hits := ResolveNumeric(cond.field, cond.range, false);
        raw := if hits.None? then None else Some(Ids(hits.value));
        RangeCondition(lex, def, cond);
      } else {
        raw := ResolveRaw(cond);
        if raw.Some? && raw.value.Ids? {
          AscendingIsUnique(raw.value.ids);
        }
      }
      if raw.None? {
        return None;
      }
      DeadMeansTombstones();
      if dead == 0 {
        r := raw;
      } else {
        var live;
        match raw.value {
          case All =>
            live := AllIds(|ids|);
            AscendingIsUnique(live);
          case Ids(hits) =>
            live := hits;
        }
        live := RetainAlive(ids, live);
        r := Some(Ids(live));
      }
      SelectsLiveDocs(r.value, cond);
    }

    lemma DeadMeansTombstones()
      requires Valid()
      ensures |ids| == |docs|
      ensures dead == 0 ==> forall i :: 0 <= i < |ids| ==> ids[i].Some?
    {
      DeadCountZero(ids);
    }

    /** A resolution that is right on every live id selects exactly the live keys whose document satisfies the condition. */
    lemma SelectsLiveDocs(r: Resolved, cond: Cond)
      requires Valid() && |ids| == |docs|
      requires forall i: nat :: i < |ids| && ids[i].Some? ==> ((r.All? || i in r.ids) <==> Holds(lex, def, cond, docs[i].doc))
      ensures forall key :: Selects(r, key) <==> LiveDoc(key).Some? && Holds(lex, def, cond, LiveDoc(key).value)
    {
      hide Holds;
      hide Ascending;
      hide TagsOk;
      hide NumsOk;
      hide NanOk;
      hide TextsOk;
      hide LensOk;
      hide DeadCount;
      forall key ensures Selects(r, key) <==> LiveDoc(key).Some? && Holds(lex, def, cond, LiveDoc(key).value) {
        if key in byKey {
          assert ids[byKey[key]] == Some(key);
        }
      }
    }

    /** The live documents are among those ever indexed, and are all of them if nothing is dead. */
    lemma LiveAmongEver()
      requires Valid()
      ensures forall k :: LiveDoc(k).Some? ==> LiveDoc(k).value in Ever(docs)
      ensures dead == 0 ==> forall d :: d in Ever(docs) ==> exists k :: LiveDoc(k) == Some(d)
    {
      hide TagsOk;
      hide NumsOk;
      hide NanOk;
      hide TextsOk;
      hide LensOk;
      DeadMeansTombstones();
      forall k | LiveDoc(k).Some? ensures LiveDoc(k).value in Ever(docs) {
        assert docs[byKey[k]] in docs;
      }
      if dead == 0 {
        forall d | d in Ever(docs) ensures exists k :: LiveDoc(k) == Some(d) {
          var e :| e in docs && e.doc == d;
          var i :| 0 <= i < |docs| && docs[i] == e;
          assert ids[i].Some?;
          assert LiveDoc(ids[i].value) == Some(d);
        }
      }
    }

    /** `needs_rebuild`: more than 1024 tombstones, and more than a quarter of all ids. */
    predicate NeedsRebuild()
      reads this
    {
      dead > 1024 && 4 * dead > |ids|
    }
  }

  /** `build_filter_index`: a fresh index of every document in the keyspace, or none for JSON storage. */
  method BuildFilterIndex(lex: Lexer, def: IndexDef, store: Store) returns (r: Option<Index>)
    ensures r.Some? <==> def.storage == HashStorage
    ensures r.Some? ==> fresh(r.value) && r.value.Valid() && r.value.lex == lex && r.value.def == def
    ensures r.Some? ==> r.value.dead == 0 && forall k :: r.value.LiveDoc(k) == DocIn(store, def, k)
  {
    hide Index.Consistent;
    hide DocOf;
    if def.storage != HashStorage {
      return None;
    }
    var fi := new Index(lex, def);
    var added: NumTable := map[];
    var left := store.Keys;
    while left != {}
      invariant fresh(fi) && fi.Consistent(added) && fi.dead == 0
      invariant left <= store.Keys
      invariant forall k :: fi.LiveDoc(k) == if k in left then None else DocIn(store, def, k)
      decreases |left|
    {
      var key :| key in left;
      left := left - {key};
      fi.NotIndexed(key, added);
      if def.MatchesKey(key) && store[key].HashValue? {
        fi.KeysInRange(added);
        DocAdded(fi.byKey, fi.docs, Entry(key, store[key].doc));
        added := fi.AddDoc(key, store[key].doc, added);
      }
    }
    fi.MergeAdded(added);
    r := Some(fi);
  }

  lemma RangeCondition(lex: Lexer, def: IndexDef, cond: Cond)
    requires cond.Numeric?
    ensures forall doc :: Holds(lex, def, cond, doc) <==> NumericHolds(lex, def, cond.field, cond.range, doc)
  {
  }

  lemma AscendingIsUnique(s: seq<nat>)
    requires Ascending(s)
    ensures Unique(s)
  {
  }

  /** Drops the ids of tombstoned documents, keeping order. */
  method RetainAlive(ids: seq<Option<string>>, s: seq<nat>) returns (out: seq<nat>)
    requires forall i :: i in s ==> i < |ids|
    requires Unique(s)
    ensures forall i: nat :: i in out <==> i in s && ids[i].Some?
    ensures Unique(out)
    ensures Ascending(s) ==> Ascending(out)
  {
    out := [];
    for k := 0 to |s|
      invariant forall i: nat :: i in out <==> i in s[..k] && i < |ids| && ids[i].Some?
      invariant Unique(out)
      invariant Ascending(s) ==> Ascending(out)
    {
      assert s[..k + 1] == s[..k] + [s[k]];
      assert s[k] in s && s[k] !in s[..k];
      if ids[s[k]].Some? {
        if Ascending(s) {
          Extend(out, s[k]);
        }
        out := out + [s[k]];
      }
    }
    assert s[..|s|] == s;
  }

  lemma NoNaNInField(lex: Lexer, def: IndexDef, nums: NumTable, nanFields: seq<nat>, docs: seq<Entry>, fi: nat)
    requires FieldNumsOk(lex, def, nums, map[], docs, fi) && NanOk(lex, def, nanFields, docs)
    requires fi in nums && fi !in nanFields
    ensures Sorted(nums[fi]) && multiset(nums[fi]) == DocPairs(lex, def, fi, docs)
  {
    hide FieldNumber;
    hide DocPairs;
    assert PairsAt(map[], fi) == [] && PairsAt(nums, fi) == nums[fi];
    PairsAreDocs(lex, def, fi, nums[fi], docs);
    forall p | p in nums[fi] ensures p.0 != NaN {
      var k :| 0 <= k < |nums[fi]| && nums[fi][k] == p;
    }
  }

  lemma EmptyTables(lex: Lexer, def: IndexDef)
    ensures KeysOk([], map[], 0, [])
    ensures TagsOk(def, map[], []) && TextsOk(lex, def, map[], [])
    ensures NumsOk(lex, def, map[], map[], []) && NanOk(lex, def, [], [])
    ensures LensOk(lex, def, map[], map[], [], [])
  {
  }

  lemma LiveIdsInRange(ids: seq<Option<string>>, byKey: map<string, nat>, dead: nat, docs: seq<Entry>)
    requires KeysOk(ids, byKey, dead, docs)
    ensures |ids| == |docs| && forall k :: k in byKey ==> byKey[k] < |docs| && ids[byKey[k]].Some?
  {
  }
}
