/** The records the checker works with: lexicon entries and flagged spans (annotations). */
module Annotation {
  import opened Optional

  /** The closed classification enum of the `type` field. */
  datatype Kind = Loanword | Translationese | Bureaucratese

  /** One lexicon entry: the key `word` and its info object.  The suggestion
      and note properties may be absent from the info object. */
  datatype Entry = Entry(word: string, kind: Kind, suggestion: Option<string>, note: Option<string>)

  /** A flagged span `[start, end)` of the input text.  `confidence` is a
      JavaScript number, carried here as an exact `real`. */
  datatype Item = Item(kind: Kind, start: int, end: int, span: string,
                       suggestion: string, note: string, confidence: real)

  /** The identity tuple the merge compares with `===`. */
  datatype ItemKey = ItemKey(start: int, end: int, span: string, kind: Kind)

  /** Confidence given to every lexicon hit. */
  const LexiconConfidence: real := 0.99

  function KeyOf(it: Item): ItemKey {
    ItemKey(it.start, it.end, it.span, it.kind)
  }

  /** JavaScript `s || ""` for a possibly absent string: absent and empty both give "". */
  function OrEmpty(s: Option<string>): string
  {
    match s
    case Some(v) => v
    case None => ""
  }

  /** The item is a faithful pointer into `text`: the offsets are in range
      and the span is exactly the text between them. */
  predicate Anchored(text: string, it: Item) {
    0 <= it.start <= it.end <= |text| && it.end == it.start + |it.span|
    && text[it.start..it.end] == it.span
  }

  /** The item is the record the scanner builds for entry `e`. */
  predicate DerivedFrom(it: Item, e: Entry) {
    it.span == e.word && it.kind == e.kind
    && it.suggestion == OrEmpty(e.suggestion) && it.note == OrEmpty(e.note)
    && it.confidence == LexiconConfidence
  }

  /** No two items share an identity tuple. */
  predicate KeysDistinct(items: seq<Item>) {
    forall i, j :: 0 <= i < j < |items| ==> KeyOf(items[i]) != KeyOf(items[j])
  }

  /** Some item of `items` has the identity tuple of `it`. */
  predicate HasKey(items: seq<Item>, it: Item) {
    exists d :: d in items && KeyOf(d) == KeyOf(it)
  }

  /** Lexicon words are non-empty and pairwise distinct (they are object keys). */
  predicate WellFormedLexicon(lex: seq<Entry>) {
    NonEmptyWords(lex)
    && (forall i, j :: 0 <= i < j < |lex| ==> lex[i].word != lex[j].word)
  }

  /** Every word is non-empty: what the scanner needs to terminate. */
  predicate NonEmptyWords(lex: seq<Entry>) {
    forall i :: 0 <= i < |lex| ==> |lex[i].word| > 0
  }
}
