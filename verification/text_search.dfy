/** Literal substring search, as JavaScript's `String.prototype.indexOf`. */
module TextSearch {
  import opened Optional

  /** `word` occurs in `text` starting at offset `i`. */
  predicate OccursAt(text: string, word: string, i: int) {
    0 <= i && i + |word| <= |text| && text[i..i + |word|] == word
  }

  /** `fromIndex` clamped to the text, as `indexOf` does before searching. */
  function Clamp(text: string, from: nat): (k: nat)
    ensures k <= |text| && k <= from
    ensures from <= |text| ==> k == from
  {
    if from <= |text| then from else |text|
  }

  /** `text.indexOf(word, from)`; `None` stands for the result -1.  A found
      offset lies at or after the clamped `from` and leaves room for the
      word; what it means is stated by `IndexOfIsLeftmost`. */
  function IndexOf(text: string, word: string, from: nat): (r: Option<nat>)
    ensures r.Some? ==> Clamp(text, from) <= r.value && r.value + |word| <= |text|
  {
    SearchFrom(text, word, Clamp(text, from))
  }

  /** Left-to-right search for `word` from offset `k`. */
  function SearchFrom(text: string, word: string, k: nat): (r: Option<nat>)
    requires k <= |text|
    ensures r.Some? ==> k <= r.value && r.value + |word| <= |text|
    decreases |text| - k
  {
    if k + |word| > |text| then None
    else if text[k..k + |word|] == word then Some(k)
    else SearchFrom(text, word, k + 1)
  }

  /** The search finds the least occurrence at or after `k`, and reports
      none exactly when there is none. */
  lemma {:induction false} SearchFromIsLeftmost(text: string, word: string, k: nat)
    requires k <= |text|
    ensures var r := SearchFrom(text, word, k);
            (r.Some? ==> OccursAt(text, word, r.value)
                         && forall j :: k <= j < r.value ==> !OccursAt(text, word, j))
            && (r.None? ==> forall j :: k <= j ==> !OccursAt(text, word, j))
    decreases |text| - k
  {
    if k + |word| <= |text| && text[k..k + |word|] != word {
      SearchFromIsLeftmost(text, word, k + 1);
    }
  }

  /** `indexOf` returns the least occurrence at or after `from` (clamped to
      the text), and -1 exactly when there is none. */
  lemma IndexOfIsLeftmost(text: string, word: string, from: nat)
    ensures var r := IndexOf(text, word, from);
            (r.Some? ==> OccursAt(text, word, r.value)
                         && forall j :: from <= j < r.value ==> !OccursAt(text, word, j))
            && (r.None? ==> forall j :: from <= j ==> !OccursAt(text, word, j))
  {
    SearchFromIsLeftmost(text, word, Clamp(text, from));
  }
}
