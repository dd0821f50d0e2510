/**
 Documents, index definitions and search conditions (src/search/query.rs), and what the
 postings index takes a condition to mean on one document (src/search/filter.rs). Lower
 casing, globbing and number parsing are parameters.
 */
module SearchModel {
  import opened Wrappers

  // ---- Numbers ----------------------------------------------------------------------

  /** A double: every ordered value, and NaN, which compares with nothing. */
  datatype F64 = NaN | NegInf | Finite(r: real) | PosInf

  predicate Lt(a: F64, b: F64) {
    match (a, b)
    case (Finite(x), Finite(y)) => x < y
    case (NegInf, Finite(_)) => true
    case (NegInf, PosInf) => true
    case (Finite(_), PosInf) => true
    case _ => false
  }

  predicate Le(a: F64, b: F64) {
    Lt(a, b) || (a == b && a != NaN)
  }

  datatype NumericRange = NumericRange(
    min: F64, minExcl: bool, max: F64, maxExcl: bool, hasMin: bool, hasMax: bool)
  {
    predicate Matches(v: F64) {
      if hasMin && minExcl && Le(v, min) then false
      else if hasMin && !minExcl && Lt(v, min) then false
      else if hasMax && maxExcl && Le(max, v) then false
      else if hasMax && !maxExcl && Lt(max, v) then false
      else true
    }
  }

  /** The values the postings skip at the low end of a range. */
  predicate BelowMin(range: NumericRange, v: F64) {
    range.hasMin && (if range.minExcl then Le(v, range.min) else Lt(v, range.min))
  }

  /** The values the postings keep at the high end of a range. */
  predicate UpToMax(range: NumericRange, v: F64) {
    !range.hasMax || (if range.maxExcl then Lt(v, range.max) else Le(v, range.max))
  }

  /** The values of a range as the postings see it: a slice between two bounds. */
  predicate InRange(range: NumericRange, v: F64) {
    !BelowMin(range, v) && UpToMax(range, v)
  }

  // ---- Conditions and index definitions ---------------------------------------------

  datatype Cond =
    | MatchAll
    | MatchNone
    | Numeric(field: string, range: NumericRange)
    | Tag(field: string, any: seq<string>)
    | TagNeg(field: string, any: seq<string>)
    | Text(scope: Option<string>, terms: seq<string>)
    | TextNeg(scope: Option<string>, terms: seq<string>)
    | And(left: Cond, right: Cond)
    | Or(left: Cond, right: Cond)

  datatype FieldType = NumericField | TagField | TextField | VectorField

  datatype FieldDef = FieldDef(
    name: string, alias: Option<string>, fieldType: FieldType, noIndex: bool, separator: char)
  {
    predicate Named(n: string) {
      name == n || alias == Some(n)
    }

    predicate Indexed(want: FieldType) {
      fieldType == want && !noIndex
    }
  }

  datatype StorageKind = HashStorage | JsonStorage

  datatype IndexDef = IndexDef(prefixes: seq<string>, storage: StorageKind, fields: seq<FieldDef>)
  {
    predicate MatchesKey(key: string) {
      prefixes == [] || exists p :: p in prefixes && p <= key
    }

    predicate IsField(fi: nat, want: FieldType) {
      fi < |fields| && fields[fi].Indexed(want)
    }
  }

  /** An index without prefixes takes every key; otherwise a key is taken that continues one of them. */
  lemma MatchesKeyIff(def: IndexDef, key: string)
    ensures def.MatchesKey(key) <==> def.prefixes == [] || exists p, rest :: p in def.prefixes && key == p + rest
  {
    if p :| p in def.prefixes && p <= key {
      assert key == p + key[|p|..];
    }
  }

  /** A glob pattern, which only the scan can match. */
  predicate HasStar(t: string) {
    '*' in t
  }

  /** A hash value: field name to text. */
  type Doc = map<string, string>

  /** Library text handling: number syntax, letter case, letters and digits, glob patterns. */
  datatype Lexer = Lexer(
    parse: string -> Option<F64>, lower: string -> string, alnum: char -> bool, glob: (string, string) -> bool)

  const STOPWORDS: set<string> := {
    "a", "is", "the", "an", "and", "are", "as", "at", "be", "but", "by", "for", "if", "in", "into",
    "it", "no", "not", "of", "on", "or", "such", "that", "their", "then", "there", "these", "they",
    "this", "to", "was", "will", "with" }

  predicate IsStopword(t: string) {
    t in STOPWORDS
  }

  /** Lower-cased query term, or none for a stopword. */
  function QueryTerm(lex: Lexer, t: string): Option<string> {
    var w := lex.lower(t);
    if IsStopword(w) then None else Some(w)
  }

  function Split(s: string, sep: char -> bool): (parts: seq<string>)
    ensures |parts| >= 1
  {
    if s == "" then [""]
    else
      var rest := Split(s[1..], sep);
      if sep(s[0]) then [""] + rest else [[s[0]] + rest[0]] + rest[1..]
  }

  function SplitAt(s: string, sep: char): seq<string> {
    Split(s, c => c == sep)
  }

  /** Words that are neither empty nor stopwords, lower-cased. */
  function KeepWords(lex: Lexer, words: seq<string>): seq<string> {
    if words == [] then []
    else
      var w := lex.lower(words[0]);
      (if words[0] == "" || IsStopword(w) then [] else [w]) + KeepWords(lex, words[1..])
  }

  function Tokens(lex: Lexer, text: string): seq<string> {
    KeepWords(lex, Split(text, c => !lex.alnum(c)))
  }

  // ---- What splitting yields --------------------------------------------------------

  function Separators(s: string, sep: char -> bool): nat {
    if s == "" then 0 else (if sep(s[0]) then 1 else 0) + Separators(s[1..], sep)
  }

  /** `s[i..j]` holds no separator, and only a separator or the end of the text keeps it from being longer. */
  predicate Piece(s: string, sep: char -> bool, i: nat, j: nat) {
    && i <= j <= |s|
    && (forall k :: i <= k < j ==> !sep(s[k]))
    && (i == 0 || sep(s[i - 1]))
    && (j == |s| || sep(s[j]))
  }

  /** There is one piece more than separators. */
  lemma {:induction false} SplitCount(s: string, sep: char -> bool)
    ensures |Split(s, sep)| == Separators(s, sep) + 1
  {
    if s != "" {
      SplitCount(s[1..], sep);
    }
  }

  /** A piece of the text without its first character. */
  lemma PieceTail(s: string, sep: char -> bool, i: nat, j: nat)
    requires Piece(s, sep, i, j) && 0 < j
    ensures i == 0 ==> Piece(s[1..], sep, 0, j - 1) && s[..j] == [s[0]] + s[1..][..j - 1]
    ensures i > 0 ==> Piece(s[1..], sep, i - 1, j - 1) && s[i..j] == s[1..][i - 1..j - 1]
  {
    var t := s[1..];
    assert forall k :: 0 <= k < |t| ==> t[k] == s[k + 1];
    if i > 0 {
      assert forall k :: 0 <= k < j - i ==> s[i..j][k] == t[i - 1..j - 1][k];
    }
  }

  lemma SeparatorsBefore(s: string, sep: char -> bool, i: nat)
    requires 0 < i <= |s| && sep(s[i - 1])
    ensures Separators(s[..i], sep) == (if sep(s[0]) then 1 else 0) + Separators(s[1..][..i - 1], sep)
    ensures Separators(s[..i], sep) > 0
  {
    assert s[..i][1..] == s[1..][..i - 1] && s[..i] != "";
    LastSeparator(s[..i], sep);
  }

  /** The piece that begins at `i` comes after those that the separators before it end. */
  lemma {:induction false} SplitAtPiece(s: string, sep: char -> bool, i: nat, j: nat)
    requires Piece(s, sep, i, j)
    ensures Separators(s[..i], sep) < |Split(s, sep)| && Split(s, sep)[Separators(s[..i], sep)] == s[i..j]
  {
    if s != "" {
      hide Piece;
      if j == 0 {
        EmptyPiece(s, sep, i);
      } else {
        PieceTail(s, sep, i, j);
        if i == 0 {
          SplitAtPiece(s[1..], sep, 0, j - 1);
          FirstIsNoSeparator(s, sep, j);
          assert s[1..][..0] == "";
        } else {
          SplitAtPiece(s[1..], sep, i - 1, j - 1);
          PieceStarts(s, sep, i, j);
          SeparatorsBefore(s, sep, i);
        }
      }
    }
  }

  lemma EmptyPiece(s: string, sep: char -> bool, i: nat)
    requires Piece(s, sep, i, 0) && s != ""
    ensures i == 0 && sep(s[0])
  {
  }

  lemma FirstIsNoSeparator(s: string, sep: char -> bool, j: nat)
    requires Piece(s, sep, 0, j) && 0 < j
    ensures !sep(s[0])
  {
  }

  lemma PieceStarts(s: string, sep: char -> bool, i: nat, j: nat)
    requires Piece(s, sep, i, j) && 0 < i
    ensures i <= |s| && sep(s[i - 1])
  {
  }

  lemma {:induction false} FirstPiece(s: string, sep: char -> bool) returns (j: nat)
    ensures Piece(s, sep, 0, j)
  {
    if s == "" || sep(s[0]) {
      j := 0;
    } else {
      j := FirstPiece(s[1..], sep);
      j := j + 1;
      assert forall k :: 1 <= k < |s| ==> s[k] == s[1..][k - 1];
    }
  }

  lemma {:induction false} LastSeparator(s: string, sep: char -> bool)
    requires s != "" && sep(s[|s| - 1])
    ensures Separators(s, sep) > 0
  {
    if |s| > 1 {
      LastSeparator(s[1..], sep);
    }
  }

  /** Where the `n`th piece stands. */
  lemma {:induction false} PieceAt(s: string, sep: char -> bool, n: nat) returns (i: nat, j: nat)
    requires n <= Separators(s, sep)
    ensures Piece(s, sep, i, j) && Separators(s[..i], sep) == n
  {
    if n == 0 {
      i := 0;
      j := FirstPiece(s, sep);
    } else {
      var t := s[1..];
      i, j := PieceAt(t, sep, if sep(s[0]) then n - 1 else n);
      assert forall k :: 0 <= k < |t| ==> t[k] == s[k + 1];
      i, j := i + 1, j + 1;
      assert s[..i][1..] == t[..i - 1] && s[..i] != "";
      if i == 1 {
        assert t[..0] == "";
      }
    }
  }

  /** What is among the pieces of a text, by positions in it. */
  lemma SplitIff(s: string, sep: char -> bool, t: string)
    ensures t in Split(s, sep) <==> exists i: nat, j: nat :: Piece(s, sep, i, j) && t == s[i..j]
  {
    hide Split;
    SplitCount(s, sep);
    if t in Split(s, sep) {
      var n :| 0 <= n < |Split(s, sep)| && Split(s, sep)[n] == t;
      var i, j := PieceAt(s, sep, n);
      SplitAtPiece(s, sep, i, j);
    }
    if i: nat, j: nat :| Piece(s, sep, i, j) && t == s[i..j] {
      SplitAtPiece(s, sep, i, j);
    }
  }

  /** Each word is kept or dropped by itself, in order. */
  lemma {:induction false} KeepWordsAppend(lex: Lexer, words: seq<string>, x: string)
    ensures KeepWords(lex, words + [x]) == KeepWords(lex, words) + if x != "" && !IsStopword(lex.lower(x)) then [lex.lower(x)] else []
  {
    hide IsStopword;
    if words == [] {
      assert words + [x] == [x] && [x][1..] == [];
    } else {
      assert (words + [x])[1..] == words[1..] + [x];
      KeepWordsAppend(lex, words[1..], x);
    }
  }

  lemma {:induction false} KeptIff(lex: Lexer, words: seq<string>, w: string)
    ensures w in KeepWords(lex, words) <==> !IsStopword(w) && exists x :: x in words && x != "" && lex.lower(x) == w
  {
    if words != [] {
      KeptIff(lex, words[1..], w);
      assert words == [words[0]] + words[1..];
    }
  }

  /** `text[i..j]` is a maximal non-empty run of letters and digits. */
  predicate Word(lex: Lexer, text: string, i: nat, j: nat) {
    && i < j <= |text|
    && (forall k :: i <= k < j ==> lex.alnum(text[k]))
    && (i == 0 || !lex.alnum(text[i - 1]))
    && (j == |text| || !lex.alnum(text[j]))
  }

  /** The tokens of a text are its maximal runs of letters and digits, lower-cased, without the stopwords. */
  lemma TokensIff(lex: Lexer, text: string, w: string)
    ensures w in Tokens(lex, text) <==> !IsStopword(w) && exists i: nat, j: nat :: Word(lex, text, i, j) && lex.lower(text[i..j]) == w
  {
    hide Split;
    hide KeepWords;
    hide IsStopword;
    var sep := c => !lex.alnum(c);
    KeptIff(lex, Split(text, sep), w);
    forall x ensures x in Split(text, sep) && x != "" <==> exists i: nat, j: nat :: Word(lex, text, i, j) && text[i..j] == x {
      SplitIff(text, sep, x);
      if i: nat, j: nat :| Piece(text, sep, i, j) && x == text[i..j] && x != "" {
        assert Word(lex, text, i, j);
      }
      if i: nat, j: nat :| Word(lex, text, i, j) && text[i..j] == x {
        assert Piece(text, sep, i, j);
      }
    }
    if x :| x in Split(text, sep) && x != "" && lex.lower(x) == w {
      var i: nat, j: nat :| Word(lex, text, i, j) && text[i..j] == x;
    }
    if i: nat, j: nat :| Word(lex, text, i, j) && lex.lower(text[i..j]) == w {
      assert text[i..j] in Split(text, sep);
    }
  }

  // ---- What the index records about a document --------------------------------------

  function TagTokens(def: IndexDef, fi: nat, doc: Doc): seq<string>
    requires fi < |def.fields|
  {
    var f := def.fields[fi];
    if f.name in doc then SplitAt(doc[f.name], f.separator) else []
  }

  function NumberOf(lex: Lexer, def: IndexDef, fi: nat, doc: Doc): Option<F64>
    requires fi < |def.fields|
  {
    var name := def.fields[fi].name;
    if name in doc then lex.parse(doc[name]) else None
  }

  function TextTokens(lex: Lexer, def: IndexDef, fi: nat, doc: Doc): seq<string>
    requires fi < |def.fields|
  {
    var name := def.fields[fi].name;
    if name in doc then Tokens(lex, doc[name]) else []
  }

  /** `tag` stands in `text` between separators or ends of the text, and holds none. */
  ghost predicate TagIn(text: string, sep: char, tag: string) {
    && sep !in tag
    && exists i: nat, j: nat :: i <= j <= |text| && text[i..j] == tag && (i == 0 || text[i - 1] == sep) && (j == |text| || text[j] == sep)
  }

  /** The tags of a document are what stands between separators, all of it. */
  lemma TagTokensIff(def: IndexDef, fi: nat, doc: Doc, tag: string)
    requires fi < |def.fields|
    ensures tag in TagTokens(def, fi, doc) <==>
            def.fields[fi].name in doc && TagIn(doc[def.fields[fi].name], def.fields[fi].separator, tag)
  {
    hide SplitAt;
    hide TagIn;
    var f := def.fields[fi];
    if f.name in doc {
      SplitAtIff(doc[f.name], f.separator, tag);
    }
  }

  lemma SplitAtIff(text: string, sep: char, tag: string)
    ensures tag in SplitAt(text, sep) <==> TagIn(text, sep, tag)
  {
    hide Split;
    var p := c => c == sep;
    SplitIff(text, p, tag);
    if tag in SplitAt(text, sep) {
      var i: nat, j: nat :| Piece(text, p, i, j) && tag == text[i..j];
      assert sep !in tag;
    }
    if TagIn(text, sep, tag) {
      var i: nat, j: nat :| i <= j <= |text| && text[i..j] == tag && (i == 0 || text[i - 1] == sep) && (j == |text| || text[j] == sep);
      PieceOf(text, sep, i, j);
    }
  }

  lemma PieceOf(text: string, sep: char, i: nat, j: nat)
    requires i <= j <= |text| && sep !in text[i..j] && (i == 0 || text[i - 1] == sep) && (j == |text| || text[j] == sep)
    ensures Piece(text, c => c == sep, i, j)
  {
    forall k | i <= k < j ensures text[k] != sep {
      assert text[k] == text[i..j][k - i];
    }
  }

  /** First indexed field of type `want` called `name` by name or alias. */
  function FieldIdx(def: IndexDef, name: string, want: FieldType): (r: Option<nat>)
    ensures r.Some? ==> def.IsField(r.value, want) && def.fields[r.value].Named(name)
    ensures r.Some? ==> forall j :: 0 <= j < r.value ==> !(def.fields[j].Named(name) && def.fields[j].Indexed(want))
    ensures r.None? ==> forall j :: 0 <= j < |def.fields| ==> !(def.fields[j].Named(name) && def.fields[j].Indexed(want))
  {
    FieldIdxFrom(def, name, want, 0)
  }

  function FieldIdxFrom(def: IndexDef, name: string, want: FieldType, from: nat): (r: Option<nat>)
    requires from <= |def.fields|
    ensures r.Some? ==> from <= r.value && def.IsField(r.value, want) && def.fields[r.value].Named(name)
    ensures r.Some? ==> forall j :: from <= j < r.value ==> !(def.fields[j].Named(name) && def.fields[j].Indexed(want))
    ensures r.None? ==> forall j :: from <= j < |def.fields| ==> !(def.fields[j].Named(name) && def.fields[j].Indexed(want))
    decreases |def.fields| - from
  {
    if from == |def.fields| then None
    else if def.fields[from].Named(name) && def.fields[from].Indexed(want) then Some(from)
    else FieldIdxFrom(def, name, want, from + 1)
  }

  /** The text fields a text condition looks at: the named one, or all of them. */
  ghost predicate InScope(def: IndexDef, scope: Option<string>, fi: nat) {
    match scope
    case Some(name) => FieldIdx(def, name, TextField) == Some(fi)
    case None => def.IsField(fi, TextField)
  }

  ghost predicate TermInDoc(lex: Lexer, def: IndexDef, scope: Option<string>, term: string, doc: Doc) {
    exists fi: nat :: fi < |def.fields| && InScope(def, scope, fi) && term in TextTokens(lex, def, fi, doc)
  }

  /** Every term that is not a stopword occurs in the scope; stopwords ask nothing. */
  ghost predicate TextHolds(lex: Lexer, def: IndexDef, scope: Option<string>, terms: seq<string>, doc: Doc) {
    forall t :: t in terms && QueryTerm(lex, t).Some? ==> TermInDoc(lex, def, scope, QueryTerm(lex, t).value, doc)
  }

  ghost predicate TagHolds(def: IndexDef, field: string, any: seq<string>, doc: Doc) {
    match FieldIdx(def, field, TagField)
    case None => false
    case Some(fi) => exists t :: t in any && t in TagTokens(def, fi, doc)
  }

  /** A tag condition holds when one of its tags stands in the document's text between separators. */
  lemma TagHoldsIff(def: IndexDef, field: string, any: seq<string>, doc: Doc)
    requires FieldIdx(def, field, TagField).Some?
    ensures var f := def.fields[FieldIdx(def, field, TagField).value];
            TagHolds(def, field, any, doc) <==> f.name in doc && exists t :: t in any && TagIn(doc[f.name], f.separator, t)
  {
    hide TagTokens;
    hide TagIn;
    var fi := FieldIdx(def, field, TagField).value;
    forall t ensures t in TagTokens(def, fi, doc) <==> def.fields[fi].name in doc && TagIn(doc[def.fields[fi].name], def.fields[fi].separator, t) {
      TagTokensIff(def, fi, doc, t);
    }
  }

  /** A term occurs when it is a word of the text of some field in the scope. */
  lemma TermInDocIff(lex: Lexer, def: IndexDef, scope: Option<string>, term: string, doc: Doc)
    ensures TermInDoc(lex, def, scope, term, doc) <==>
            !IsStopword(term) && exists fi: nat :: fi < |def.fields| && InScope(def, scope, fi) && HasWord(lex, def, fi, term, doc)
  {
    hide IsStopword;
    hide InScope;
    hide Tokens;
    forall fi: nat | fi < |def.fields|
      ensures term in TextTokens(lex, def, fi, doc) <==> !IsStopword(term) && HasWord(lex, def, fi, term, doc)
    {
      if def.fields[fi].name in doc {
        TokensIff(lex, doc[def.fields[fi].name], term);
      }
    }
  }

  /** A text condition asks for each of its terms, lower-cased, except the stopwords. */
  lemma TextHoldsIff(lex: Lexer, def: IndexDef, scope: Option<string>, terms: seq<string>, doc: Doc)
    ensures TextHolds(lex, def, scope, terms, doc) <==>
            forall t :: t in terms ==> IsStopword(lex.lower(t)) || TermInDoc(lex, def, scope, lex.lower(t), doc)
  {
    hide IsStopword;
    hide TermInDoc;
    forall t ensures QueryTerm(lex, t) == if IsStopword(lex.lower(t)) then None else Some(lex.lower(t)) {
    }
  }

  ghost predicate HasWord(lex: Lexer, def: IndexDef, fi: nat, word: string, doc: Doc)
    requires fi < |def.fields|
  {
    var name := def.fields[fi].name;
    name in doc && exists i: nat, j: nat :: Word(lex, doc[name], i, j) && lex.lower(doc[name][i..j]) == word
  }

  ghost predicate NumericHolds(lex: Lexer, def: IndexDef, field: string, range: NumericRange, doc: Doc) {
    match FieldIdx(def, field, NumericField)
    case None => false
    case Some(fi) => var v := NumberOf(lex, def, fi, doc); v.Some? && InRange(range, v.value)
  }

  /** The meaning the postings give a condition, one document at a time. */
  ghost predicate Holds(lex: Lexer, def: IndexDef, cond: Cond, doc: Doc) {
    match cond
    case MatchAll => true
    case MatchNone => false
    case Numeric(field, range) => NumericHolds(lex, def, field, range, doc)
    case Tag(field, any) => TagHolds(def, field, any, doc)
    case TagNeg(field, any) => !TagHolds(def, field, any, doc)
    case Text(scope, terms) => TextHolds(lex, def, scope, terms, doc)
    case TextNeg(scope, terms) => !TextHolds(lex, def, scope, terms, doc)
    case And(a, b) => Holds(lex, def, a, doc) && Holds(lex, def, b, doc)
    case Or(a, b) => Holds(lex, def, a, doc) || Holds(lex, def, b, doc)
  }
}
