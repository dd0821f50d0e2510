/**
 The posting tables of the filter index (src/search/filter.rs) as plain values: what
 each table must say about the documents indexed so far, and the loops of `add_doc`
 that extend the tables of tags and words by one document.
 */
module Postings {
  import opened Wrappers
  import opened Words
  import opened IdLists
  import opened SearchModel

  datatype Entry = Entry(key: string, doc: Doc)

  datatype Posting = Posting(docs: seq<nat>, tf: seq<nat>)

  type TagTable = map<nat, map<string, seq<nat>>>
  type TextTable = map<nat, map<string, Posting>>
  type NumPair = (F64, nat)
  type NumTable = map<nat, seq<NumPair>>

  // ---- Tags -------------------------------------------------------------------------

  function Pushed(p: seq<nat>, hit: bool, id: nat): seq<nat> {
    if hit then p + [id] else p
  }

  function TagPosting(tags: TagTable, fi: nat, t: string): seq<nat> {
    if fi in tags && t in tags[fi] then tags[fi][t] else []
  }

  ghost predicate HasTag(def: IndexDef, fi: nat, t: string, doc: Doc) {
    def.IsField(fi, TagField) && t in TagTokens(def, fi, doc)
  }

  /** The table keeps no field without a posting. */
  ghost predicate NoBareFields(tags: TagTable) {
    forall fi: nat :: fi in tags ==> exists t: string :: TagPosting(tags, fi, t) != []
  }

  /** Every tag posting is the ascending list of the documents that carry the tag. */
  ghost predicate TagsOk(def: IndexDef, tags: TagTable, docs: seq<Entry>) {
    && NoBareFields(tags)
    && forall fi: nat, t: string :: TagOk(def, tags, docs, fi, t)
  }

  ghost predicate TagOk(def: IndexDef, tags: TagTable, docs: seq<Entry>, fi: nat, t: string) {
    && Ascending(TagPosting(tags, fi, t))
    && forall i: nat :: i in TagPosting(tags, fi, t) <==> i < |docs| && HasTag(def, fi, t, docs[i].doc)
  }

  /** A tag field is in the table exactly if some document ever had it. */
  lemma TaggedIff(def: IndexDef, tags: TagTable, docs: seq<Entry>, fi: nat)
    requires TagsOk(def, tags, docs) && def.IsField(fi, TagField)
    ensures fi in tags <==> exists i :: 0 <= i < |docs| && def.fields[fi].name in docs[i].doc
  {
    hide Ascending;
    hide SplitAt;
    if fi in tags {
      var t :| TagPosting(tags, fi, t) != [];
      assert TagOk(def, tags, docs, fi, t);
      assert TagPosting(tags, fi, t)[0] in TagPosting(tags, fi, t);
    }
    if i :| 0 <= i < |docs| && def.fields[fi].name in docs[i].doc {
      var toks := TagTokens(def, fi, docs[i].doc);
      PiecesExist(docs[i].doc[def.fields[fi].name], def.fields[fi].separator);
      assert HasTag(def, fi, toks[0], docs[i].doc);
      assert TagOk(def, tags, docs, fi, toks[0]);
    }
  }

  lemma PiecesExist(s: string, sep: char)
    ensures |SplitAt(s, sep)| >= 1
  {
  }

  function Distinct(s: seq<string>): (d: seq<string>)
    ensures forall x :: x in d <==> x in s
    ensures forall i, j :: 0 <= i < j < |d| ==> d[i] != d[j]
  {
    if s == [] then []
    else
      var rest := Distinct(s[1..]);
      assert s == [s[0]] + s[1..];
      if s[0] in rest then rest else [s[0]] + rest
  }

  function PushTag(tags: TagTable, fi: nat, t: string, id: nat): (r: TagTable)
    ensures forall f: nat, u: string :: TagPosting(r, f, u) == Pushed(TagPosting(tags, f, u), f == fi && u == t, id)
    ensures forall f: nat :: f in r <==> f in tags || f == fi
  {
    var field := if fi in tags then tags[fi] else map[];
    tags[fi := field[t := TagPosting(tags, fi, t) + [id]]]
  }

  lemma PushTagKeeps(tags: TagTable, fi: nat, t: string, id: nat)
    requires NoBareFields(tags)
    ensures NoBareFields(PushTag(tags, fi, t, id))
  {
    hide TagPosting;
    var r := PushTag(tags, fi, t, id);
    forall f: nat | f in r ensures exists u: string :: TagPosting(r, f, u) != [] {
      if f == fi {
        assert TagPosting(r, f, t) == TagPosting(tags, f, t) + [id];
      } else {
        var u :| TagPosting(tags, f, u) != [];
        assert TagPosting(r, f, u) != [];
      }
    }
  }

  /** The inner loop of `add_doc` over one field's tags. */
  method PushTags(tags: TagTable, fi: nat, toks: seq<string>, id: nat) returns (r: TagTable)
    requires NoBareFields(tags) && forall i, j :: 0 <= i < j < |toks| ==> toks[i] != toks[j]
    ensures forall f: nat, u: string :: TagPosting(r, f, u) == Pushed(TagPosting(tags, f, u), f == fi && u in toks, id)
    ensures NoBareFields(r)
  {
    hide TagPosting;
    r := tags;
    for k := 0 to |toks|
      invariant forall f: nat, u: string :: TagPosting(r, f, u) == Pushed(TagPosting(tags, f, u), f == fi && u in toks[..k], id)
      invariant NoBareFields(r)
    {
      assert toks[..k + 1] == toks[..k] + [toks[k]];
      assert toks[k] !in toks[..k];
      PushTagKeeps(r, fi, toks[k], id);
      r := PushTag(r, fi, toks[k], id);
    }
    assert toks[..|toks|] == toks;
  }

  /** The indexes of the indexed fields of one type, in order. */
  function FieldsOf(def: IndexDef, want: FieldType, n: nat): (s: seq<nat>)
    requires n <= |def.fields|
    ensures Ascending(s)
    ensures forall fi: nat :: fi in s <==> fi < n && def.IsField(fi, want)
  {
    if n == 0 then []
    else if def.IsField(n - 1, want) then
      Extend(FieldsOf(def, want, n - 1), n - 1); FieldsOf(def, want, n - 1) + [n - 1]
    else FieldsOf(def, want, n - 1)
  }

  ghost predicate AreFields(def: IndexDef, want: FieldType, fields: seq<nat>) {
    Ascending(fields) && forall fi: nat :: fi in fields <==> def.IsField(fi, want)
  }

  method AddTags(def: IndexDef, tags: TagTable, ghost docs: seq<Entry>, id: nat, fields: seq<nat>, e: Entry)
    returns (r: TagTable)
    requires TagsOk(def, tags, docs) && id == |docs|
    requires AreFields(def, TagField, fields)
    ensures TagsOk(def, r, docs + [e])
  {
    hide TagPosting;
    hide TagTokens;
    r := tags;
    for k := 0 to |fields|
      invariant forall f: nat, u: string :: TagPosting(r, f, u) == Pushed(TagPosting(tags, f, u), f in fields[..k] && HasTag(def, f, u, e.doc), id)
      invariant NoBareFields(r)
    {
      var fi := fields[k];
      assert fields[..k + 1] == fields[..k] + [fi];
      assert fi !in fields[..k] && fi in fields;
      r := PushTags(r, fi, Distinct(TagTokens(def, fi, e.doc)), id);
    }
    assert fields[..|fields|] == fields;
    TagsExtended(def, tags, docs, e, r);
  }

  lemma TagsExtended(def: IndexDef, tags: TagTable, docs: seq<Entry>, e: Entry, r: TagTable)
    requires TagsOk(def, tags, docs) && NoBareFields(r)
    requires forall f: nat, u: string :: TagPosting(r, f, u) == Pushed(TagPosting(tags, f, u), HasTag(def, f, u, e.doc), |docs|)
    ensures TagsOk(def, r, docs + [e])
  {
    hide TagPosting;
    hide HasTag;
    hide Ascending;
    forall fi: nat, t: string ensures TagOk(def, r, docs + [e], fi, t) {
      assert TagOk(def, tags, docs, fi, t);
      if HasTag(def, fi, t, e.doc) {
        Extend(TagPosting(tags, fi, t), |docs|);
      }
    }
  }

  // ---- Text -------------------------------------------------------------------------

  const TF_MAX: nat := 65535

  function Count(t: string, toks: seq<string>): nat {
    if toks == [] then 0 else Count(t, toks[..|toks| - 1]) + (if toks[|toks| - 1] == t then 1 else 0)
  }

  lemma {:induction false} CountPositive(t: string, toks: seq<string>)
    ensures Count(t, toks) > 0 <==> t in toks
  {
    if toks != [] {
      CountPositive(t, toks[..|toks| - 1]);
      assert toks == toks[..|toks| - 1] + [toks[|toks| - 1]];
    }
  }

  function PushedPosting(p: Posting, hit: bool, id: nat, c: nat): Posting {
    if hit then Posting(p.docs + [id], p.tf + [c]) else p
  }

  function TextPosting(texts: TextTable, fi: nat, t: string): Posting {
    if fi in texts && t in texts[fi] then texts[fi][t] else Posting([], [])
  }

  ghost predicate HasToken(lex: Lexer, def: IndexDef, fi: nat, t: string, doc: Doc) {
    def.IsField(fi, TextField) && t in TextTokens(lex, def, fi, doc)
  }

  /** How often `t` occurs in the field, as the 16-bit counter reports it. */
  ghost function Frequency(lex: Lexer, def: IndexDef, fi: nat, t: string, doc: Doc): nat {
    if fi < |def.fields| then Min(Count(t, TextTokens(lex, def, fi, doc)), TF_MAX) else 0
  }

  ghost predicate PostingOk(lex: Lexer, def: IndexDef, p: Posting, fi: nat, t: string, docs: seq<Entry>) {
    && Ascending(p.docs)
    && |p.tf| == |p.docs|
    && (forall i: nat :: i in p.docs <==> i < |docs| && HasToken(lex, def, fi, t, docs[i].doc))
    && (forall k :: 0 <= k < |p.docs| ==> p.docs[k] < |docs| && p.tf[k] == Frequency(lex, def, fi, t, docs[p.docs[k]].doc))
  }

  /** Every text posting lists the documents that hold the token, with its frequency in each. */
  ghost predicate TextsOk(lex: Lexer, def: IndexDef, texts: TextTable, docs: seq<Entry>) {
    forall fi: nat, t: string :: PostingOk(lex, def, TextPosting(texts, fi, t), fi, t, docs)
  }

  /** Counts each token of a field, saturating at 16 bits, and the field's length. */
  method CountTokens(toks: seq<string>) returns (counts: map<string, nat>, len: nat)
    ensures len == |toks|
    ensures forall t :: t in counts <==> t in toks
    ensures forall t :: t in counts ==> counts[t] == Min(Count(t, toks), TF_MAX)
  {
    counts, len := map[], 0;
    for k := 0 to |toks|
      invariant len == k
      invariant forall t :: t in counts <==> t in toks[..k]
      invariant forall t :: t in counts ==> counts[t] == Min(Count(t, toks[..k]), TF_MAX)
    {
      var t := toks[k];
      assert toks[..k + 1] == toks[..k] + [t];
      assert toks[..k + 1][..k] == toks[..k];
      CountPositive(t, toks[..k]);
      len := len + 1;
      var c := if t in counts then counts[t] else 0;
      counts := counts[t := Min(c + 1, TF_MAX)];
    }
    assert toks[..|toks|] == toks;
  }

  function PushToken(texts: TextTable, fi: nat, t: string, id: nat, c: nat): (r: TextTable)
    ensures forall f: nat, u: string :: TextPosting(r, f, u) == PushedPosting(TextPosting(texts, f, u), f == fi && u == t, id, c)
  {
    var field := if fi in texts then texts[fi] else map[];
    var p := TextPosting(texts, fi, t);
    texts[fi := field[t := Posting(p.docs + [id], p.tf + [c])]]
  }

  /** The inner loop of `add_doc` over one field's token counts, in any order. */
  method PushTokens(texts: TextTable, fi: nat, counts: map<string, nat>, id: nat) returns (r: TextTable)
    ensures forall f: nat, u: string :: TextPosting(r, f, u) == PushedPosting(TextPosting(texts, f, u), f == fi && u in counts, id, if u in counts then counts[u] else 0)
  {
    hide TextPosting;
    r := texts;
    var left := counts.Keys;
    while left != {}
      invariant left <= counts.Keys
      invariant forall f: nat, u: string :: TextPosting(r, f, u) == PushedPosting(TextPosting(texts, f, u), f == fi && u in counts && u !in left, id, if u in counts then counts[u] else 0)
      decreases |left|
    {
      var t :| t in left;
      left := left - {t};
      r := PushToken(r, fi, t, id, counts[t]);
    }
  }

  lemma PostingExtended(lex: Lexer, def: IndexDef, p: Posting, fi: nat, t: string, docs: seq<Entry>, e: Entry, q: Posting)
    requires PostingOk(lex, def, p, fi, t, docs)
    requires q == PushedPosting(p, HasToken(lex, def, fi, t, e.doc), |docs|, Frequency(lex, def, fi, t, e.doc))
    ensures PostingOk(lex, def, q, fi, t, docs + [e])
  {
    hide HasToken;
    hide Frequency;
    hide Ascending;
    if HasToken(lex, def, fi, t, e.doc) {
      Extend(p.docs, |docs|);
    }
    forall k | 0 <= k < |q.docs|
      ensures q.docs[k] < |docs| + 1 && q.tf[k] == Frequency(lex, def, fi, t, (docs + [e])[q.docs[k]].doc)
    {
      if k < |p.docs| {
        assert q.docs[k] == p.docs[k] && (docs + [e])[p.docs[k]] == docs[p.docs[k]];
      }
    }
  }

  // ---- Lengths ----------------------------------------------------------------------

  type LenTable = map<nat, seq<nat>>

  ghost function LenOf(lex: Lexer, def: IndexDef, fi: nat, e: Entry): nat {
    if fi < |def.fields| then |TextTokens(lex, def, fi, e.doc)| else 0
  }

  /** Sum of the field's lengths over the documents that are still alive. */
  ghost function LiveLength(lex: Lexer, def: IndexDef, fi: nat, ids: seq<Option<string>>, docs: seq<Entry>): nat
    requires |ids| <= |docs|
  {
    if ids == [] then 0
    else
      var n := |ids| - 1;
      LiveLength(lex, def, fi, ids[..n], docs) + (if ids[n].Some? then LenOf(lex, def, fi, docs[n]) else 0)
  }

  /** One field's length list covers every document, and its sum covers the live ones. */
  ghost predicate FieldLensOk(lex: Lexer, def: IndexDef, docLen: LenTable, lenSum: map<nat, nat>,
                              ids: seq<Option<string>>, docs: seq<Entry>, fi: nat)
    requires |ids| == |docs|
  {
    && (fi in docLen <==> fi in lenSum)
    && (fi in docLen ==> def.IsField(fi, TextField))
    && (def.IsField(fi, TextField) && docs != [] ==> fi in docLen)
    && (fi in docLen ==> |docLen[fi]| == |docs|)
    && (fi in docLen ==> forall i :: 0 <= i < |docs| ==> docLen[fi][i] == LenOf(lex, def, fi, docs[i]))
    && (fi in lenSum ==> lenSum[fi] == LiveLength(lex, def, fi, ids, docs))
  }

  ghost predicate LensOk(lex: Lexer, def: IndexDef, docLen: LenTable, lenSum: map<nat, nat>,
                         ids: seq<Option<string>>, docs: seq<Entry>)
  {
    |ids| == |docs| && forall fi: nat :: FieldLensOk(lex, def, docLen, lenSum, ids, docs, fi)
  }

  lemma {:induction false} LiveLengthPrefix(lex: Lexer, def: IndexDef, fi: nat, ids: seq<Option<string>>, docs: seq<Entry>, e: Entry)
    requires |ids| <= |docs|
    ensures LiveLength(lex, def, fi, ids, docs + [e]) == LiveLength(lex, def, fi, ids, docs)
  {
    hide LenOf;
    if ids != [] {
      LiveLengthPrefix(lex, def, fi, ids[..|ids| - 1], docs, e);
    }
  }

  /** Vec::resize. */
  function Resize(s: seq<nat>, n: nat): (r: seq<nat>)
    ensures |r| == n
    ensures |s| == n ==> r == s
  {
    if n <= |s| then s[..n] else s + seq(n - |s|, _ => 0)
  }

  function LensOf(docLen: LenTable, fi: nat): seq<nat> {
    if fi in docLen then docLen[fi] else []
  }

  function SumOf(lenSum: map<nat, nat>, fi: nat): nat {
    if fi in lenSum then lenSum[fi] else 0
  }

  /** Token counts and length of one text field of a document. */
  method CountField(lex: Lexer, def: IndexDef, fi: nat, e: Entry) returns (counts: map<string, nat>, len: nat)
    requires def.IsField(fi, TextField)
    ensures len == LenOf(lex, def, fi, e)
    ensures forall u :: u in counts <==> HasToken(lex, def, fi, u, e.doc)
    ensures forall u :: u in counts ==> counts[u] == Frequency(lex, def, fi, u, e.doc)
  {
    hide TextTokens;
    counts, len := CountTokens(TextTokens(lex, def, fi, e.doc));
  }

  lemma FieldStep(fields: seq<nat>, k: nat)
    requires Ascending(fields) && k < |fields|
    ensures fields[..k + 1] == fields[..k] + [fields[k]]
    ensures fields[k] !in fields[..k] && fields[k] in fields
  {
  }

  /** How the length tables of field `f` change when a document of length `len` is added to it. */
  ghost predicate LenPushed(docLen: LenTable, lenSum: map<nat, nat>, hit: bool, len: nat, dl: LenTable, ls: map<nat, nat>, f: nat) {
    && (f in dl <==> f in docLen || hit)
    && (f in ls <==> f in lenSum || hit)
    && LensOf(dl, f) == Pushed(LensOf(docLen, f), hit, len)
    && SumOf(ls, f) == SumOf(lenSum, f) + (if hit then len else 0)
  }

  lemma FieldLensExtended(lex: Lexer, def: IndexDef, docLen: LenTable, lenSum: map<nat, nat>, ids: seq<Option<string>>,
                          docs: seq<Entry>, e: Entry, dl: LenTable, ls: map<nat, nat>, fi: nat)
    requires |ids| == |docs| && FieldLensOk(lex, def, docLen, lenSum, ids, docs, fi)
    requires LenPushed(docLen, lenSum, def.IsField(fi, TextField), LenOf(lex, def, fi, e), dl, ls, fi)
    ensures FieldLensOk(lex, def, dl, ls, ids + [Some(e.key)], docs + [e], fi)
  {
    hide LenOf;
    LiveLengthExtended(lex, def, ids, docs, e, fi);
  }

  lemma LiveLengthExtended(lex: Lexer, def: IndexDef, ids: seq<Option<string>>, docs: seq<Entry>, e: Entry, fi: nat)
    requires |ids| == |docs|
    ensures LiveLength(lex, def, fi, ids + [Some(e.key)], docs + [e])
         == LiveLength(lex, def, fi, ids, docs) + LenOf(lex, def, fi, e)
  {
    hide LenOf;
    assert (ids + [Some(e.key)])[..|ids|] == ids;
    LiveLengthPrefix(lex, def, fi, ids, docs, e);
  }

  /** The text-field loop of `add_doc`. */
  method AddTexts(lex: Lexer, def: IndexDef, texts: TextTable, docLen: LenTable, lenSum: map<nat, nat>,
                  ghost ids: seq<Option<string>>, ghost docs: seq<Entry>, id: nat, fields: seq<nat>, e: Entry)
    returns (r: TextTable, dl: LenTable, ls: map<nat, nat>)
    requires TextsOk(lex, def, texts, docs) && LensOk(lex, def, docLen, lenSum, ids, docs) && id == |docs|
    requires AreFields(def, TextField, fields)
    ensures TextsOk(lex, def, r, docs + [e])
    ensures LensOk(lex, def, dl, ls, ids + [Some(e.key)], docs + [e])
  {
    hide Ascending;
    hide TextPosting;
    hide TextTokens;
    hide HasToken;
    hide Frequency;
    hide LenOf;
    hide TextsOk;
    hide FieldLensOk;
    hide LenPushed;
    r, dl, ls := texts, docLen, lenSum;
    NothingPushed(docLen, lenSum);
    for k := 0 to |fields|
      invariant forall f: nat, u: string :: TextPosting(r, f, u) == PushedPosting(TextPosting(texts, f, u), f in fields[..k] && HasToken(lex, def, f, u, e.doc), id, Frequency(lex, def, f, u, e.doc))
      invariant forall f: nat :: LenPushed(docLen, lenSum, f in fields[..k], LenOf(lex, def, f, e), dl, ls, f)
    {
      var fi := fields[k];
      FieldStep(fields, k);
      var counts, len := CountField(lex, def, fi, e);
      assert FieldLensOk(lex, def, docLen, lenSum, ids, docs, fi);
      var dl', ls' := dl[fi := Resize(LensOf(dl, fi), id) + [len]], ls[fi := SumOf(ls, fi) + len];
      forall f: nat ensures LenPushed(docLen, lenSum, f in fields[..k + 1], LenOf(lex, def, f, e), dl', ls', f) {
        assert LenPushed(docLen, lenSum, f in fields[..k], LenOf(lex, def, f, e), dl, ls, f);
        PushLen(lex, def, docLen, lenSum, ids, docs, f in fields[..k], LenOf(lex, def, f, e), dl, ls, fi, len, f);
      }
      dl, ls := dl', ls';
      r := PushTokens(r, fi, counts, id);
    }
    assert fields[..|fields|] == fields;
    TextsExtended(lex, def, texts, docs, fields, e, r);
    forall fi: nat ensures FieldLensOk(lex, def, dl, ls, ids + [Some(e.key)], docs + [e], fi) {
      assert FieldLensOk(lex, def, docLen, lenSum, ids, docs, fi);
      FieldLensExtended(lex, def, docLen, lenSum, ids, docs, e, dl, ls, fi);
    }
  }

  lemma NothingPushed(docLen: LenTable, lenSum: map<nat, nat>)
    ensures forall f: nat, len: nat :: LenPushed(docLen, lenSum, false, len, docLen, lenSum, f)
  {
  }

  /** One pass of the loop body changes field `fi` only. */
  lemma PushLen(lex: Lexer, def: IndexDef, docLen: LenTable, lenSum: map<nat, nat>, ids: seq<Option<string>>, docs: seq<Entry>,
                hit: bool, lenF: nat, dl: LenTable, ls: map<nat, nat>, fi: nat, len: nat, f: nat)
    requires |ids| == |docs| && FieldLensOk(lex, def, docLen, lenSum, ids, docs, fi) && def.IsField(fi, TextField)
    requires LenPushed(docLen, lenSum, hit, lenF, dl, ls, f)
    requires f == fi ==> !hit && lenF == len
    ensures LenPushed(docLen, lenSum, hit || f == fi, lenF, dl[fi := Resize(LensOf(dl, fi), |docs|) + [len]], ls[fi := SumOf(ls, fi) + len], f)
  {
  }

  lemma TextsExtended(lex: Lexer, def: IndexDef, texts: TextTable, docs: seq<Entry>, fields: seq<nat>, e: Entry, r: TextTable)
    requires TextsOk(lex, def, texts, docs)
    requires forall fi: nat :: fi in fields <==> def.IsField(fi, TextField)
    requires forall f: nat, u: string :: TextPosting(r, f, u) == PushedPosting(TextPosting(texts, f, u), f in fields && HasToken(lex, def, f, u, e.doc), |docs|, Frequency(lex, def, f, u, e.doc))
    ensures TextsOk(lex, def, r, docs + [e])
  {
    hide TextPosting;
    hide TextTokens;
    hide Frequency;
    hide PostingOk;
    forall fi: nat, t: string ensures PostingOk(lex, def, TextPosting(r, fi, t), fi, t, docs + [e]) {
      PostingExtended(lex, def, TextPosting(texts, fi, t), fi, t, docs, e, TextPosting(r, fi, t));
    }
  }

  lemma {:induction false} LiveLengthWithout(lex: Lexer, def: IndexDef, fi: nat, ids: seq<Option<string>>, docs: seq<Entry>, gone: nat)
    requires |ids| <= |docs| && gone < |ids| && ids[gone].Some?
    ensures LiveLength(lex, def, fi, ids, docs)
         == LiveLength(lex, def, fi, ids[gone := None], docs) + LenOf(lex, def, fi, docs[gone])
  {
    hide LenOf;
    var n := |ids| - 1;
    if gone == n {
      assert ids[gone := None][..n] == ids[..n];
    } else {
      assert ids[gone := None][..n] == ids[..n][gone := None];
      LiveLengthWithout(lex, def, fi, ids[..n], docs, gone);
    }
  }

  lemma IndexedField(lex: Lexer, def: IndexDef, docLen: LenTable, lenSum: map<nat, nat>,
                     ids: seq<Option<string>>, docs: seq<Entry>, fi: nat)
    requires |ids| == |docs| && FieldLensOk(lex, def, docLen, lenSum, ids, docs, fi) && fi in docLen
    ensures fi in lenSum && |docLen[fi]| == |docs|
  {
  }

  lemma UnindexedField(lex: Lexer, def: IndexDef, docLen: LenTable, lenSum: map<nat, nat>,
                       ids: seq<Option<string>>, docs: seq<Entry>, gone: nat, fi: nat)
    requires |ids| == |docs| && FieldLensOk(lex, def, docLen, lenSum, ids, docs, fi) && fi !in docLen && gone < |ids|
    ensures FieldLensOk(lex, def, docLen, lenSum, ids[gone := None], docs, fi)
  {
  }

  /** The tombstone loop of `apply`: every field's sum loses the dead document's length. */
  method ForgetLens(lex: Lexer, def: IndexDef, docLen: LenTable, lenSum: map<nat, nat>,
                    ghost ids: seq<Option<string>>, ghost docs: seq<Entry>, gone: nat) returns (ls: map<nat, nat>)
    requires LensOk(lex, def, docLen, lenSum, ids, docs)
    requires gone < |ids| && ids[gone].Some?
    ensures LensOk(lex, def, docLen, ls, ids[gone := None], docs)
  {
    hide FieldLensOk;
    ghost var after := ids[gone := None];
    ls := lenSum;
    var left := docLen.Keys;
    forall f: nat | f !in left ensures FieldLensOk(lex, def, docLen, ls, after, docs, f) {
      assert FieldLensOk(lex, def, docLen, ls, ids, docs, f);
      UnindexedField(lex, def, docLen, ls, ids, docs, gone, f);
    }
    while left != {}
      invariant left <= docLen.Keys
      invariant forall f: nat :: f in left ==> FieldLensOk(lex, def, docLen, ls, ids, docs, f)
      invariant forall f: nat :: f !in left ==> FieldLensOk(lex, def, docLen, ls, after, docs, f)
      decreases |left|
    {
      var fi :| fi in left;
      left := left - {fi};
      var before := ls;
      IndexedField(lex, def, docLen, ls, ids, docs, fi);
      if gone < |docLen[fi]| && fi in ls {
        ls := ls[fi := SatSub(ls[fi], docLen[fi][gone])];
      }
      forall f: nat ensures
        if f in left then FieldLensOk(lex, def, docLen, ls, ids, docs, f)
        else FieldLensOk(lex, def, docLen, ls, after, docs, f)
      {
        ForgetLen(lex, def, docLen, before, ids, docs, gone, fi, f, f in left, ls);
      }
    }
    forall f: nat ensures FieldLensOk(lex, def, docLen, ls, after, docs, f) {
      assert f !in left;
    }
  }

  lemma ForgetLen(lex: Lexer, def: IndexDef, docLen: LenTable, lenSum: map<nat, nat>, ids: seq<Option<string>>,
                  docs: seq<Entry>, gone: nat, fi: nat, f: nat, later: bool, ls: map<nat, nat>)
    requires |ids| == |docs| && gone < |ids| && ids[gone].Some?
    requires fi in docLen && FieldLensOk(lex, def, docLen, lenSum, ids, docs, fi)
    requires fi in lenSum && |docLen[fi]| == |docs|
    requires ls == lenSum[fi := SatSub(lenSum[fi], docLen[fi][gone])]
    requires later ==> f != fi
    requires f == fi || (if later then FieldLensOk(lex, def, docLen, lenSum, ids, docs, f)
                         else FieldLensOk(lex, def, docLen, lenSum, ids[gone := None], docs, f))
    ensures if later then FieldLensOk(lex, def, docLen, ls, ids, docs, f)
            else FieldLensOk(lex, def, docLen, ls, ids[gone := None], docs, f)
  {
    hide LenOf;
    if f == fi {
      LiveLengthWithout(lex, def, fi, ids, docs, gone);
    }
  }
}
