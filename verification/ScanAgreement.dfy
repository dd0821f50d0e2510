/**
 The keyspace scan's test of one document (src/commands/ft/doc.rs) and exactly when the
 postings give the same verdict. The scan reads the queried name as a hash field and
 resolves no alias; the postings resolve aliases, ask nothing of a text condition made
 of stopwords only, and match nothing under a NaN upper bound.
 */
module ScanAgreement {
  import opened Wrappers
  import opened SearchModel

  function FirstNamed(def: IndexDef, name: string, from: nat): Option<FieldDef>
    requires from <= |def.fields|
    decreases |def.fields| - from
  {
    if from == |def.fields| then None
    else if def.fields[from].Named(name) then Some(def.fields[from])
    else FirstNamed(def, name, from + 1)
  }

  /** The separator the scan splits a queried tag field by. */
  function ScanSeparator(def: IndexDef, field: string): char {
    var f := FirstNamed(def, field, 0);
    if f.Some? then f.value.separator else ','
  }

  function TrimStars(t: string): string {
    if t != "" && t[|t| - 1] == '*' then TrimStars(t[..|t| - 1]) else t
  }

  /** All trailing stars are taken off, and nothing else. */
  lemma {:induction false} TrimStarsIs(t: string)
    ensures |TrimStars(t)| <= |t| && t[..|TrimStars(t)|] == TrimStars(t) && forall k :: |TrimStars(t)| <= k < |t| ==> t[k] == '*'
    ensures TrimStars(t) != "" ==> TrimStars(t)[|TrimStars(t)| - 1] != '*'
  {
    if t != "" && t[|t| - 1] == '*' {
      TrimStarsIs(t[..|t| - 1]);
    }
  }

  predicate TagMatch(lex: Lexer, pattern: string, tag: string) {
    if HasStar(pattern) then lex.glob(pattern, tag) else pattern == tag
  }

  predicate TextMatch(lex: Lexer, term: string, text: string) {
    if HasStar(term) then lex.glob(term, text) || lex.lower(TrimStars(term)) in Tokens(lex, text)
    else
      match QueryTerm(lex, term)
      case Some(t) => t in Tokens(lex, text)
      case None => true
  }

  /** What the scan takes one term to match: a pattern the whole text or, without its trailing stars, a word; else a word, and a stopword anything. */
  lemma TextMatchIff(lex: Lexer, term: string, text: string)
    ensures '*' in term ==> (TextMatch(lex, term, text) <==> lex.glob(term, text) || lex.lower(TrimStars(term)) in Tokens(lex, text))
    ensures '*' !in term ==> (TextMatch(lex, term, text) <==> IsStopword(lex.lower(term)) || lex.lower(term) in Tokens(lex, text))
  {
    hide IsStopword;
    hide Tokens;
  }

  ghost predicate ScanTag(lex: Lexer, def: IndexDef, field: string, any: seq<string>, doc: Doc) {
    field in doc && exists t, a :: t in SplitAt(doc[field], ScanSeparator(def, field)) && a in any && TagMatch(lex, a, t)
  }

  /** Field `fi` is a text field whose value in the document matches the term. */
  ghost predicate FieldMatches(lex: Lexer, def: IndexDef, fi: nat, term: string, doc: Doc) {
    && def.IsField(fi, TextField)
    && def.fields[fi].name in doc
    && TextMatch(lex, term, doc[def.fields[fi].name])
  }

  ghost predicate ScanText(lex: Lexer, def: IndexDef, scope: Option<string>, terms: seq<string>, doc: Doc) {
    match scope
    case Some(f) => f in doc && forall t :: t in terms ==> TextMatch(lex, t, doc[f])
    case None => forall t :: t in terms ==> exists fi: nat :: FieldMatches(lex, def, fi, t, doc)
  }

  ghost predicate ScanNumeric(lex: Lexer, field: string, range: NumericRange, doc: Doc) {
    field in doc && lex.parse(doc[field]).Some? && range.Matches(lex.parse(doc[field]).value)
  }

  /** `cond_matches` on a hash document. */
  ghost predicate ScanHolds(lex: Lexer, def: IndexDef, cond: Cond, doc: Doc) {
    match cond
    case MatchAll => true
    case MatchNone => false
    case Numeric(field, range) => ScanNumeric(lex, field, range, doc)
    case Tag(field, any) => ScanTag(lex, def, field, any, doc)
    case TagNeg(field, any) => !ScanTag(lex, def, field, any, doc)
    case Text(scope, terms) => ScanText(lex, def, scope, terms, doc)
    case TextNeg(scope, terms) => !ScanText(lex, def, scope, terms, doc)
    case And(a, b) => ScanHolds(lex, def, a, doc) && ScanHolds(lex, def, b, doc)
    case Or(a, b) => ScanHolds(lex, def, a, doc) || ScanHolds(lex, def, b, doc)
  }

  // ---- The condition under which both give the same verdict -------------------------

  /** The name is the stored name of the field it resolves to. */
  predicate StoredName(def: IndexDef, name: string, want: FieldType) {
    var f := FieldIdx(def, name, want);
    f.Some? && def.fields[f.value].name == name
  }

  predicate HasContent(lex: Lexer, terms: seq<string>) {
    exists t :: t in terms && QueryTerm(lex, t).Some?
  }

  predicate NoStars(ts: seq<string>) {
    forall t :: t in ts ==> !HasStar(t)
  }

  predicate TextIsPlain(lex: Lexer, def: IndexDef, scope: Option<string>, terms: seq<string>) {
    NoStars(terms) && HasContent(lex, terms) && (scope.Some? ==> StoredName(def, scope.value, TextField))
  }

  predicate TagIsPlain(def: IndexDef, field: string, any: seq<string>) {
    && NoStars(any) && StoredName(def, field, TagField)
    && def.fields[FieldIdx(def, field, TagField).value].separator == ScanSeparator(def, field)
  }

  /** Something a caller can read off the query and the schema before asking. */
  predicate Plain(lex: Lexer, def: IndexDef, cond: Cond) {
    match cond
    case MatchAll => true
    case MatchNone => true
    case Numeric(field, range) => StoredName(def, field, NumericField) && !(range.hasMax && range.max == NaN)
    case Tag(field, any) => TagIsPlain(def, field, any)
    case TagNeg(field, any) => TagIsPlain(def, field, any)
    case Text(scope, terms) => TextIsPlain(lex, def, scope, terms)
    case TextNeg(scope, terms) => TextIsPlain(lex, def, scope, terms)
    case And(a, b) => Plain(lex, def, a) && Plain(lex, def, b)
    case Or(a, b) => Plain(lex, def, a) && Plain(lex, def, b)
  }

  /** No numeric field the condition looks at holds NaN in this document. */
  ghost predicate NumbersOrdered(lex: Lexer, def: IndexDef, cond: Cond, doc: Doc) {
    match cond
    case Numeric(field, _) =>
      var f := FieldIdx(def, field, NumericField);
      f.Some? ==> NumberOf(lex, def, f.value, doc) != Some(NaN)
    case And(a, b) => NumbersOrdered(lex, def, a, doc) && NumbersOrdered(lex, def, b, doc)
    case Or(a, b) => NumbersOrdered(lex, def, a, doc) && NumbersOrdered(lex, def, b, doc)
    case _ => true
  }

  /** The slice of the postings is the scan's range exactly when no NaN upper bound is in play. */
  lemma RangeAgreesIff(range: NumericRange, v: F64)
    requires v != NaN
    ensures (InRange(range, v) <==> range.Matches(v)) <==> !(range.hasMax && range.max == NaN && !BelowMin(range, v))
  {
  }

  lemma TagsAgree(lex: Lexer, def: IndexDef, field: string, any: seq<string>, doc: Doc)
    requires TagIsPlain(def, field, any)
    ensures TagHolds(def, field, any, doc) <==> ScanTag(lex, def, field, any, doc)
  {
    hide SplitAt;
    hide ScanSeparator;
    var fi := FieldIdx(def, field, TagField).value;
    if t :| t in any && t in TagTokens(def, fi, doc) {
      assert TagMatch(lex, t, t);
    }
  }

  lemma ScopedTextAgrees(lex: Lexer, def: IndexDef, f: string, terms: seq<string>, doc: Doc)
    requires TextIsPlain(lex, def, Some(f), terms)
    ensures TextHolds(lex, def, Some(f), terms, doc) <==> ScanText(lex, def, Some(f), terms, doc)
  {
    hide Tokens;
    hide QueryTerm;
    var fi := FieldIdx(def, f, TextField).value;
    forall t | t in terms && QueryTerm(lex, t).Some?
      ensures TermInDoc(lex, def, Some(f), QueryTerm(lex, t).value, doc) <==> f in doc && TextMatch(lex, t, doc[f])
    {
      var w := QueryTerm(lex, t).value;
      assert InScope(def, Some(f), fi);
      assert TermInDoc(lex, def, Some(f), w, doc) <==> w in TextTokens(lex, def, fi, doc);
    }
    var t :| t in terms && QueryTerm(lex, t).Some?;
  }

  lemma OpenTextAgrees(lex: Lexer, def: IndexDef, terms: seq<string>, doc: Doc)
    requires TextIsPlain(lex, def, None, terms)
    ensures TextHolds(lex, def, None, terms, doc) <==> ScanText(lex, def, None, terms, doc)
  {
    hide Tokens;
    hide QueryTerm;
    forall t | t in terms && QueryTerm(lex, t).Some?
      ensures TermInDoc(lex, def, None, QueryTerm(lex, t).value, doc) <==> exists fi: nat :: FieldMatches(lex, def, fi, t, doc)
    {
      OpenTermAgrees(lex, def, t, doc);
    }
    var c :| c in terms && QueryTerm(lex, c).Some?;
    if fi: nat :| FieldMatches(lex, def, fi, c, doc) {
      // A field that holds the content term also answers every stopword.
      forall t | t in terms && QueryTerm(lex, t).None? ensures FieldMatches(lex, def, fi, t, doc) {
      }
    }
  }

  lemma OpenTermAgrees(lex: Lexer, def: IndexDef, t: string, doc: Doc)
    requires !HasStar(t) && QueryTerm(lex, t).Some?
    ensures TermInDoc(lex, def, None, QueryTerm(lex, t).value, doc) <==> exists fi: nat :: FieldMatches(lex, def, fi, t, doc)
  {
    hide Tokens;
    hide QueryTerm;
    var w := QueryTerm(lex, t).value;
    if TermInDoc(lex, def, None, w, doc) {
      var fi: nat :| fi < |def.fields| && InScope(def, None, fi) && w in TextTokens(lex, def, fi, doc);
      assert FieldMatches(lex, def, fi, t, doc);
    }
    if fi: nat :| FieldMatches(lex, def, fi, t, doc) {
      assert InScope(def, None, fi) && w in TextTokens(lex, def, fi, doc);
    }
  }

  /** On a plain condition the postings and the scan give the same verdict on every document. */
  lemma {:induction false} ScanAgrees(lex: Lexer, def: IndexDef, cond: Cond, doc: Doc)
    requires Plain(lex, def, cond) && NumbersOrdered(lex, def, cond, doc)
    ensures Holds(lex, def, cond, doc) <==> ScanHolds(lex, def, cond, doc)
  {
    hide TagHolds;
    hide ScanTag;
    hide TagIsPlain;
    hide TextHolds;
    hide ScanText;
    hide TextIsPlain;
    match cond
    case MatchAll =>
    case MatchNone =>
    case Numeric(field, range) =>
      var fi := FieldIdx(def, field, NumericField).value;
      if field in doc && lex.parse(doc[field]).Some? {
        RangeAgreesIff(range, lex.parse(doc[field]).value);
      }
    case Tag(field, any) => TagsAgree(lex, def, field, any, doc);
    case TagNeg(field, any) => TagsAgree(lex, def, field, any, doc);
    case Text(scope, terms) =>
      TextAgrees(lex, def, scope, terms, doc);
    case TextNeg(scope, terms) =>
      TextAgrees(lex, def, scope, terms, doc);
    case And(a, b) =>
      ScanAgrees(lex, def, a, doc);
      ScanAgrees(lex, def, b, doc);
    case Or(a, b) =>
      ScanAgrees(lex, def, a, doc);
      ScanAgrees(lex, def, b, doc);
  }

  lemma TextAgrees(lex: Lexer, def: IndexDef, scope: Option<string>, terms: seq<string>, doc: Doc)
    requires TextIsPlain(lex, def, scope, terms)
    ensures TextHolds(lex, def, scope, terms, doc) <==> ScanText(lex, def, scope, terms, doc)
  {
    match scope
    case Some(f) => ScopedTextAgrees(lex, def, f, terms, doc);
    case None => OpenTextAgrees(lex, def, terms, doc);
  }

  // ---- Where they differ ------------------------------------------------------------

  /** The document has a field the text condition looks at. */
  ghost predicate HasScopeField(def: IndexDef, scope: Option<string>, doc: Doc) {
    match scope
    case Some(f) => f in doc
    case None => exists fi: nat :: def.IsField(fi, TextField) && def.fields[fi].name in doc
  }

  /** A condition made of stopwords only: the postings return every document, the scan those that have the field. */
  lemma StopwordsOnly(lex: Lexer, def: IndexDef, scope: Option<string>, terms: seq<string>, doc: Doc)
    requires NoStars(terms) && terms != [] && !HasContent(lex, terms)
    ensures TextHolds(lex, def, scope, terms, doc)
    ensures ScanText(lex, def, scope, terms, doc) <==> HasScopeField(def, scope, doc)
  {
    hide Tokens;
    hide QueryTerm;
    assert terms[0] in terms;
    if scope.None? {
      if ScanText(lex, def, scope, terms, doc) {
        var fi: nat :| FieldMatches(lex, def, fi, terms[0], doc);
      }
      if fi: nat :| def.IsField(fi, TextField) && def.fields[fi].name in doc {
        forall t | t in terms ensures FieldMatches(lex, def, fi, t, doc) {
        }
      }
    }
  }

  /** Some text holds every term that is not a stopword. */
  ghost predicate TermsReachable(lex: Lexer, terms: seq<string>) {
    exists s: string :: HoldsTerms(lex, terms, s)
  }

  ghost predicate HoldsTerms(lex: Lexer, terms: seq<string>, s: string) {
    forall t :: t in terms && QueryTerm(lex, t).Some? ==> QueryTerm(lex, t).value in Tokens(lex, s)
  }

  /** What can make a text condition agree on a field asked for by name: the stored name, or terms no text can hold. */
  ghost predicate ScopeAgrees(lex: Lexer, def: IndexDef, scope: Option<string>, terms: seq<string>) {
    scope.Some? ==> StoredName(def, scope.value, TextField) || !TermsReachable(lex, terms)
  }

  /** A text condition is answered alike on all documents exactly when some term is not a stopword and the scope agrees. */
  lemma TextAgreesEverywhereIff(lex: Lexer, def: IndexDef, scope: Option<string>, terms: seq<string>)
    requires NoStars(terms) && terms != [] && (scope.Some? ==> FieldIdx(def, scope.value, TextField).Some?)
    ensures (forall doc :: TextHolds(lex, def, scope, terms, doc) <==> ScanText(lex, def, scope, terms, doc))
            <==> HasContent(lex, terms) && ScopeAgrees(lex, def, scope, terms)
  {
    hide TextHolds;
    hide ScanText;
    if !HasContent(lex, terms) {
      StopwordsOnly(lex, def, scope, terms, map[]);
    } else if scope.None? || StoredName(def, scope.value, TextField) {
      forall doc ensures TextHolds(lex, def, scope, terms, doc) <==> ScanText(lex, def, scope, terms, doc) {
        TextAgrees(lex, def, scope, terms, doc);
      }
    } else if s: string :| HoldsTerms(lex, terms, s) {
      AliasedText(lex, def, scope.value, terms, s);
    } else {
      forall doc ensures TextHolds(lex, def, scope, terms, doc) <==> ScanText(lex, def, scope, terms, doc) {
        UnreachableText(lex, def, scope.value, terms, doc);
      }
    }
  }

  /** Under an alias the postings find the stored field and the scan finds nothing. */
  lemma AliasedText(lex: Lexer, def: IndexDef, f: string, terms: seq<string>, s: string)
    requires FieldIdx(def, f, TextField).Some? && !StoredName(def, f, TextField) && HoldsTerms(lex, terms, s)
    ensures var doc := map[def.fields[FieldIdx(def, f, TextField).value].name := s];
            TextHolds(lex, def, Some(f), terms, doc) && !ScanText(lex, def, Some(f), terms, doc)
  {
    hide Tokens;
    hide QueryTerm;
    var fi := FieldIdx(def, f, TextField).value;
    var doc: Doc := map[def.fields[fi].name := s];
    assert InScope(def, Some(f), fi) && TextTokens(lex, def, fi, doc) == Tokens(lex, s);
  }

  lemma UnreachableText(lex: Lexer, def: IndexDef, f: string, terms: seq<string>, doc: Doc)
    requires FieldIdx(def, f, TextField).Some? && NoStars(terms) && HasContent(lex, terms) && !TermsReachable(lex, terms)
    ensures !TextHolds(lex, def, Some(f), terms, doc) && !ScanText(lex, def, Some(f), terms, doc)
  {
    hide Tokens;
    hide QueryTerm;
    var c :| c in terms && QueryTerm(lex, c).Some?;
    var fi := FieldIdx(def, f, TextField).value;
    var name := def.fields[fi].name;
    if name in doc {
      c := MissingTerm(lex, terms, doc[name]);
    }
    assert !TermInDoc(lex, def, Some(f), QueryTerm(lex, c).value, doc);
    if f in doc {
      var t := MissingTerm(lex, terms, doc[f]);
      assert !TextMatch(lex, t, doc[f]);
    }
  }

  lemma MissingTerm(lex: Lexer, terms: seq<string>, s: string) returns (t: string)
    requires !TermsReachable(lex, terms)
    ensures t in terms && QueryTerm(lex, t).Some? && QueryTerm(lex, t).value !in Tokens(lex, s)
  {
    assert !HoldsTerms(lex, terms, s);
    t :| t in terms && QueryTerm(lex, t).Some? && QueryTerm(lex, t).value !in Tokens(lex, s);
  }

  /** Some text parses to a number in the range. */
  ghost predicate RangeReachable(lex: Lexer, range: NumericRange) {
    exists s: string :: lex.parse(s).Some? && lex.parse(s).value != NaN && InRange(range, lex.parse(s).value)
  }

  ghost predicate NumericAgrees(lex: Lexer, def: IndexDef, field: string, range: NumericRange, doc: Doc) {
    NumericHolds(lex, def, field, range, doc) <==> ScanNumeric(lex, field, range, doc)
  }

  ghost predicate NoNaNIn(lex: Lexer, doc: Doc) {
    forall k :: k in doc ==> lex.parse(doc[k]) != Some(NaN)
  }

  /** Some text parses to a number that the scan finds in the range. */
  ghost predicate ScanReachable(lex: Lexer, range: NumericRange) {
    exists s: string :: lex.parse(s).Some? && lex.parse(s).value != NaN && range.Matches(lex.parse(s).value)
  }

  /**
   A range condition is answered alike on all NaN-free documents exactly when it uses the
   stored name or nothing can be in range, and no NaN upper bound leaves numbers to the scan.
   */
  lemma NumericAgreesEverywhereIff(lex: Lexer, def: IndexDef, field: string, range: NumericRange)
    requires FieldIdx(def, field, NumericField).Some?
    ensures (forall doc :: NoNaNIn(lex, doc) ==> NumericAgrees(lex, def, field, range, doc))
            <==> (StoredName(def, field, NumericField) || !RangeReachable(lex, range))
                 && !(range.hasMax && range.max == NaN && ScanReachable(lex, range))
  {
    if range.hasMax && range.max == NaN {
      NaNBound(lex, def, field, range);
    } else {
      OrderedBound(lex, def, field, range);
    }
  }

  lemma OrderedBound(lex: Lexer, def: IndexDef, field: string, range: NumericRange)
    requires FieldIdx(def, field, NumericField).Some? && !(range.hasMax && range.max == NaN)
    ensures (forall doc :: NoNaNIn(lex, doc) ==> NumericAgrees(lex, def, field, range, doc))
            <==> StoredName(def, field, NumericField) || !RangeReachable(lex, range)
  {
    hide InRange;
    var name := def.fields[FieldIdx(def, field, NumericField).value].name;
    forall v: F64 | v != NaN ensures InRange(range, v) <==> range.Matches(v) {
      RangeAgreesIff(range, v);
    }
    if name != field && RangeReachable(lex, range) {
      var s: string :| lex.parse(s).Some? && lex.parse(s).value != NaN && InRange(range, lex.parse(s).value);
      var doc: Doc := map[name := s];
      assert NoNaNIn(lex, doc) && !NumericAgrees(lex, def, field, range, doc);
    } else {
      forall doc | NoNaNIn(lex, doc) ensures NumericAgrees(lex, def, field, range, doc) {
      }
    }
  }

  /** Under a NaN upper bound the postings find nothing. */
  lemma NaNBound(lex: Lexer, def: IndexDef, field: string, range: NumericRange)
    requires FieldIdx(def, field, NumericField).Some? && range.hasMax && range.max == NaN
    ensures !RangeReachable(lex, range)
    ensures (forall doc :: NoNaNIn(lex, doc) ==> NumericAgrees(lex, def, field, range, doc)) <==> !ScanReachable(lex, range)
  {
    assert forall v :: !InRange(range, v);
    hide InRange;
    if ScanReachable(lex, range) {
      var s: string :| lex.parse(s).Some? && lex.parse(s).value != NaN && range.Matches(lex.parse(s).value);
      var doc: Doc := map[field := s];
      assert NoNaNIn(lex, doc) && !NumericAgrees(lex, def, field, range, doc);
    } else {
      forall doc | NoNaNIn(lex, doc) ensures NumericAgrees(lex, def, field, range, doc) {
      }
    }
  }

  lemma {:induction false} SplitFree(s: string, sep: char, t: string)
    requires t in SplitAt(s, sep)
    ensures sep !in t
  {
    SplitFreeOf(s, c => c == sep, t);
  }

  lemma {:induction false} SplitFreeOf(s: string, p: char -> bool, t: string)
    requires t in Split(s, p)
    ensures forall c :: c in t ==> !p(c)
  {
    if s != "" {
      var rest := Split(s[1..], p);
      if p(s[0]) {
        if t != "" {
          assert t in rest;
          SplitFreeOf(s[1..], p, t);
        }
      } else if t == [s[0]] + rest[0] {
        SplitFreeOf(s[1..], p, rest[0]);
      } else {
        assert t in rest[1..];
        SplitFreeOf(s[1..], p, t);
      }
    }
  }

  lemma {:induction false} SplitWhole(s: string, p: char -> bool)
    requires forall c :: c in s ==> !p(c)
    ensures Split(s, p) == [s]
  {
    if s != "" {
      SplitWhole(s[1..], p);
      assert s == [s[0]] + s[1..];
    }
  }

  ghost predicate TagsSame(lex: Lexer, def: IndexDef, field: string, any: seq<string>, doc: Doc) {
    TagHolds(def, field, any, doc) <==> ScanTag(lex, def, field, any, doc)
  }

  /** The separators the two sides split a tag value by. */
  function PostingSeparator(def: IndexDef, field: string): char
    requires FieldIdx(def, field, TagField).Some?
  {
    def.fields[FieldIdx(def, field, TagField).value].separator
  }

  /**
   A tag condition is answered alike on all documents exactly when it uses the stored name
   and both sides split by the same separator, or no wanted tag can occur on either side.
   */
  lemma TagAgreesEverywhereIff(lex: Lexer, def: IndexDef, field: string, any: seq<string>)
    requires FieldIdx(def, field, TagField).Some? && NoStars(any)
    ensures var s1 := PostingSeparator(def, field); var s2 := ScanSeparator(def, field);
            (forall doc :: TagsSame(lex, def, field, any, doc))
            <==> (StoredName(def, field, TagField) && s1 == s2) || forall a :: a in any ==> s1 in a && s2 in a
  {
    hide ScanSeparator;
    hide TagsSame;
    var s1, s2 := PostingSeparator(def, field), ScanSeparator(def, field);
    if StoredName(def, field, TagField) && s1 == s2 {
      forall doc ensures TagsSame(lex, def, field, any, doc) {
        TagsAgree(lex, def, field, any, doc);
        SameTags(lex, def, field, any, doc);
      }
    } else if forall a :: a in any ==> s1 in a && s2 in a {
      forall doc ensures TagsSame(lex, def, field, any, doc) {
        NoWantedTag(lex, def, field, any, doc);
        SameTags(lex, def, field, any, doc);
      }
    } else {
      var a :| a in any && !(s1 in a && s2 in a);
      var doc: Doc;
      if StoredName(def, field, TagField) {
        doc := SeparatorsTellApart(lex, def, field, any, a);
      } else {
        doc := AliasTellsApart(lex, def, field, any, a);
      }
      SameTags(lex, def, field, any, doc);
    }
  }

  lemma SameTags(lex: Lexer, def: IndexDef, field: string, any: seq<string>, doc: Doc)
    ensures TagsSame(lex, def, field, any, doc) <==> (TagHolds(def, field, any, doc) <==> ScanTag(lex, def, field, any, doc))
  {
  }

  /** On a document with the stored field, each side looks for a wanted tag among its own pieces. */
  lemma StoredTags(lex: Lexer, def: IndexDef, field: string, any: seq<string>, text: string)
    requires StoredName(def, field, TagField) && NoStars(any)
    ensures TagHolds(def, field, any, map[field := text]) <==> exists a :: a in any && a in SplitAt(text, PostingSeparator(def, field))
    ensures ScanTag(lex, def, field, any, map[field := text]) <==> exists a :: a in any && a in SplitAt(text, ScanSeparator(def, field))
  {
    hide SplitAt;
    hide ScanSeparator;
    var doc: Doc := map[field := text];
    if a :| a in any && a in SplitAt(text, ScanSeparator(def, field)) {
      assert TagMatch(lex, a, a);
    }
  }

  /** No piece of a text that lacks one separator, cut at the other, is wanted. */
  lemma PiecesAreFree(text: string, any: seq<string>, lacking: char, cut: char)
    requires lacking !in text && forall b :: b in any ==> lacking in b || cut in b
    ensures forall b :: b in any ==> b !in SplitAt(text, cut)
  {
    forall b | b in any ensures b !in SplitAt(text, cut) {
      if b in SplitAt(text, cut) {
        SplitFree(text, cut, b);
        SplitWithin(text, c => c == cut, b);
      }
    }
  }

  /** A piece has only characters of the text. */
  lemma {:induction false} SplitWithin(s: string, p: char -> bool, t: string)
    requires t in Split(s, p)
    ensures forall c :: c in t ==> c in s
  {
    if s != "" {
      var rest := Split(s[1..], p);
      if p(s[0]) {
        if t != "" {
          assert t in rest;
          SplitWithin(s[1..], p, t);
        }
      } else if t == [s[0]] + rest[0] {
        SplitWithin(s[1..], p, rest[0]);
      } else {
        assert t in rest[1..];
        SplitWithin(s[1..], p, t);
      }
    }
  }

  lemma {:induction false} SplitHead(b: string, sep: char, rest: string)
    requires sep !in b
    ensures b in SplitAt(b + [sep] + rest, sep)
  {
    var p := (c: char) => c == sep;
    SplitHeadBy(b, sep, rest, p);
  }

  lemma {:induction false} SplitHeadBy(b: string, sep: char, rest: string, p: char -> bool)
    requires p(sep) && forall c :: c in b ==> !p(c)
    ensures Split(b + [sep] + rest, p)[0] == b
  {
    var s := b + [sep] + rest;
    if b != "" {
      assert s[1..] == b[1..] + [sep] + rest;
      SplitHeadBy(b[1..], sep, rest, p);
      assert b == [b[0]] + b[1..];
    }
  }

  function Repeated(c: char, n: nat): (s: string)
    ensures |s| == n && forall d :: d in s ==> d == c
  {
    if n == 0 then "" else [c] + Repeated(c, n - 1)
  }

  function LongestOf(any: seq<string>): (n: nat)
    ensures forall a :: a in any ==> |a| <= n
  {
    if any == [] then 0
    else
      var rest := LongestOf(any[1..]);
      assert any == [any[0]] + any[1..];
      if |any[0]| > rest then |any[0]| else rest
  }

  /** A wanted tag free of both separators, followed by more of the first than any wanted tag is long. */
  lemma OverlongTag(any: seq<string>, b: string, s1: char, s2: char) returns (text: string)
    requires b in any && s1 !in b && s2 !in b && s1 != s2
    ensures exists a :: a in any && a in SplitAt(text, s1)
    ensures forall a :: a in any ==> a !in SplitAt(text, s2)
  {
    var tail := Repeated(s1, LongestOf(any));
    text := b + [s1] + tail;
    SplitHead(b, s1, tail);
    SplitWhole(text, c => c == s2);
    assert SplitAt(text, s2) == [text];
  }

  /** With different separators some value of the stored field is a hit for one side only. */
  lemma SeparatorsTellApart(lex: Lexer, def: IndexDef, field: string, any: seq<string>, a: string) returns (doc: Doc)
    requires StoredName(def, field, TagField) && NoStars(any) && PostingSeparator(def, field) != ScanSeparator(def, field)
    requires a in any && !(PostingSeparator(def, field) in a && ScanSeparator(def, field) in a)
    ensures TagHolds(def, field, any, doc) <==> !ScanTag(lex, def, field, any, doc)
  {
    hide SplitAt;
    hide ScanSeparator;
    hide PostingSeparator;
    var s1, s2 := PostingSeparator(def, field), ScanSeparator(def, field);
    var text := a;
    if b :| b in any && s1 !in b && s2 !in b {
      text := OverlongTag(any, b, s1, s2);
    } else if s1 !in a {
      WholePiece(a, s1);
      PiecesAreFree(a, any, s1, s2);
    } else {
      WholePiece(a, s2);
      PiecesAreFree(a, any, s2, s1);
    }
    doc := map[field := text];
    StoredTags(lex, def, field, any, text);
  }

  lemma WholePiece(a: string, sep: char)
    requires sep !in a
    ensures a in SplitAt(a, sep)
  {
    SplitWhole(a, c => c == sep);
  }

  /** Under an alias the postings read one field and the scan another. */
  lemma AliasTellsApart(lex: Lexer, def: IndexDef, field: string, any: seq<string>, a: string) returns (doc: Doc)
    requires FieldIdx(def, field, TagField).Some? && !StoredName(def, field, TagField) && NoStars(any)
    requires a in any && !(PostingSeparator(def, field) in a && ScanSeparator(def, field) in a)
    ensures TagHolds(def, field, any, doc) <==> !ScanTag(lex, def, field, any, doc)
  {
    hide SplitAt;
    hide ScanSeparator;
    var fi := FieldIdx(def, field, TagField).value;
    if PostingSeparator(def, field) !in a {
      doc := map[def.fields[fi].name := a];
      WholePiece(a, PostingSeparator(def, field));
      assert a in TagTokens(def, fi, doc);
    } else {
      doc := map[field := a];
      WholePiece(a, ScanSeparator(def, field));
      assert TagMatch(lex, a, a);
    }
  }

  lemma NoWantedTag(lex: Lexer, def: IndexDef, field: string, any: seq<string>, doc: Doc)
    requires FieldIdx(def, field, TagField).Some? && NoStars(any)
    requires forall a :: a in any ==> PostingSeparator(def, field) in a && ScanSeparator(def, field) in a
    ensures !TagHolds(def, field, any, doc) && !ScanTag(lex, def, field, any, doc)
  {
    hide SplitAt;
    hide ScanSeparator;
    forall s, t, sep | t in SplitAt(s, sep) ensures sep !in t {
      SplitFree(s, sep, t);
    }
  }

  /** A text field whose alias is the tag field's name lends the scan its separator: tag `a` of value `a;b` is lost. */
  lemma BorrowedSeparator(lex: Lexer)
    ensures var def := IndexDef([], HashStorage, [FieldDef("x", Some("t"), TextField, false, ','), FieldDef("t", None, TagField, false, ';')]);
            && StoredName(def, "t", TagField) && NoStars(["a"])
            && TagHolds(def, "t", ["a"], map["t" := "a;b"]) && !ScanTag(lex, def, "t", ["a"], map["t" := "a;b"])
  {
    var def := IndexDef([], HashStorage, [FieldDef("x", Some("t"), TextField, false, ','), FieldDef("t", None, TagField, false, ';')]);
    assert FieldIdx(def, "t", TagField) == Some(1);
    assert FirstNamed(def, "t", 0) == Some(def.fields[0]);
    StoredTags(lex, def, "t", ["a"], "a;b");
    SplitHead("a", ';', "b");
    assert "a" + [';'] + "b" == "a;b";
    SplitWhole("a;b", c => c == ',');
    assert SplitAt("a;b", ',') == ["a;b"];
  }
}
