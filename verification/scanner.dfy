/** The lexicon scanner: every greedy, left-to-right, non-overlapping
    occurrence of every lexicon word, grouped by word in lexicon order. */
module Scanner {
  import opened Optional
  import opened Annotation
  import opened TextSearch

  /** Every start is an occurrence of `word` at or after `from`. */
  ghost predicate SoundStarts(text: string, word: string, from: nat, starts: seq<nat>) {
    forall k :: 0 <= k < |starts| ==> from <= starts[k] && OccursAt(text, word, starts[k])
  }

  /** Matches are in increasing order and none overlaps a later one. */
  predicate Disjoint(word: string, starts: seq<nat>) {
    forall i, j :: 0 <= i < j < |starts| ==> starts[i] + |word| <= starts[j]
  }

  /** `word` occurs at no offset in `[lo, hi)`. */
  ghost predicate NoOccurrence(text: string, word: string, lo: int, hi: int) {
    forall p :: lo <= p < hi ==> !OccursAt(text, word, p)
  }

  /** No occurrence is skipped: none lies before the first match, between
      the end of one match and the start of the next, or after the end of
      the last (`|text| + 1` bounds every possible offset). */
  ghost predicate NoneSkipped(text: string, word: string, from: nat, starts: seq<nat>) {
    NoOccurrence(text, word, from, if |starts| == 0 then |text| + 1 else starts[0])
    && forall k :: 0 <= k < |starts| ==> GapClear(text, word, starts, k)
  }

  /** No occurrence lies between the end of match `k` and the next match
      (or the end of the text, after the last match). */
  ghost predicate GapClear(text: string, word: string, starts: seq<nat>, k: nat)
    requires k < |starts|
  {
    NoOccurrence(text, word, starts[k] + |word|, if k + 1 < |starts| then starts[k + 1] else |text| + 1)
  }

  /** `starts` is the greedy leftmost match list of `word` from `from`. */
  ghost predicate GreedyMatches(text: string, word: string, from: nat, starts: seq<nat>) {
    SoundStarts(text, word, from, starts) && Disjoint(word, starts) && NoneSkipped(text, word, from, starts)
  }

  /** The starts the inner `while` loop visits: search with `indexOf`, and
      resume each next search at the end of the previous match. */
  function ScanWord(text: string, word: string, from: nat): (starts: seq<nat>)
    requires |word| > 0
    decreases |text| - from
  {
    match IndexOf(text, word, from)
    case None => []
    case Some(idx) => [idx] + ScanWord(text, word, idx + |word|)
  }

  /** Prepending the leftmost occurrence at or after `from` to the greedy
      list that resumes at its end gives the greedy list from `from`. */
  lemma GreedyCons(text: string, word: string, from: nat, idx: nat, rest: seq<nat>)
    requires |word| > 0
    requires from <= idx && OccursAt(text, word, idx)
    requires NoOccurrence(text, word, from, idx)
    requires GreedyMatches(text, word, idx + |word|, rest)
    ensures GreedyMatches(text, word, from, [idx] + rest)
  {
    var all := [idx] + rest;
    assert forall k :: 0 <= k < |rest| ==> all[k + 1] == rest[k];
    assert SoundStarts(text, word, from, all);
    forall i, j | 0 <= i < j < |all| ensures all[i] + |word| <= all[j] {
      assert all[j] == rest[j - 1];
    }
    forall k | 0 <= k < |all| ensures GapClear(text, word, all, k) {
      if k > 0 {
        assert GapClear(text, word, rest, k - 1);
        assert all[k] == rest[k - 1];
      }
    }
  }

  /** The scanner's starts for one word are the greedy leftmost match list:
      sound, non-overlapping, and skipping no occurrence. */
  lemma {:induction false} ScanWordIsGreedy(text: string, word: string, from: nat)
    requires |word| > 0
    ensures GreedyMatches(text, word, from, ScanWord(text, word, from))
    decreases |text| - from
  {
    IndexOfIsLeftmost(text, word, from);
    match IndexOf(text, word, from)
    case None =>
    case Some(idx) =>
      ScanWordIsGreedy(text, word, idx + |word|);
      GreedyCons(text, word, from, idx, ScanWord(text, word, idx + |word|));
  }

  /** The record emitted for entry `e` matched at offset `s`. */
  function MatchItem(e: Entry, s: nat): Item
  {
    Item(e.kind, s, s + |e.word|, e.word, OrEmpty(e.suggestion), OrEmpty(e.note), LexiconConfidence)
  }

  /** One record per start, in order. */
  function Emit(e: Entry, starts: seq<nat>): seq<Item>
  {
    seq(|starts|, k requires 0 <= k < |starts| => MatchItem(e, starts[k]))
  }

  /** Everything one lexicon entry contributes. */
  function WordItems(text: string, e: Entry): seq<Item>
    requires |e.word| > 0
  {
    Emit(e, ScanWord(text, e.word, 0))
  }

  /** `findDictionaryMatches`: the entries' items, entry after entry. */
  function Scan(text: string, lex: seq<Entry>): seq<Item>
    requires NonEmptyWords(lex)
  {
    if |lex| == 0 then [] else WordItems(text, lex[0]) + Scan(text, lex[1..])
  }

  /** Every record emitted for one entry points at an occurrence of its word
      and carries the entry's fields. */
  lemma WordItemsAnchored(text: string, e: Entry)
    requires |e.word| > 0
    ensures forall k :: 0 <= k < |WordItems(text, e)| ==>
              Anchored(text, WordItems(text, e)[k]) && DerivedFrom(WordItems(text, e)[k], e)
  {
    ScanWordIsGreedy(text, e.word, 0);
  }

  /** Offset correctness and field propagation: every scanner item is
      anchored in the text and built from some lexicon entry. */
  lemma {:induction false} ScanItemsAnchored(text: string, lex: seq<Entry>)
    requires NonEmptyWords(lex)
    ensures forall k :: 0 <= k < |Scan(text, lex)| ==> Anchored(text, Scan(text, lex)[k])
    ensures forall k :: 0 <= k < |Scan(text, lex)| ==>
              exists q :: 0 <= q < |lex| && DerivedFrom(Scan(text, lex)[k], lex[q])
  {
    if |lex| > 0 {
      var head := WordItems(text, lex[0]);
      var tail := Scan(text, lex[1..]);
      WordItemsAnchored(text, lex[0]);
      ScanItemsAnchored(text, lex[1..]);
      var all := Scan(text, lex);
      assert all == head + tail;
      forall k | 0 <= k < |all|
        ensures Anchored(text, all[k])
        ensures exists q :: 0 <= q < |lex| && DerivedFrom(all[k], lex[q])
      {
        if k < |head| {
          assert all[k] == head[k];
          assert DerivedFrom(all[k], lex[0]);
        } else {
          assert all[k] == tail[k - |head|];
          var q :| 0 <= q < |lex[1..]| && DerivedFrom(tail[k - |head|], lex[1..][q]);
          assert DerivedFrom(all[k], lex[q + 1]);
        }
      }
    } else {
      assert Scan(text, lex) == [];
    }
  }
}

module ScannerFacts {
  import opened Optional
  import opened Annotation
  import opened TextSearch
  import opened Scanner

  /** Dropping the first match of a sound, non-overlapping list leaves a
      sound, non-overlapping list from the end of that match. */
  lemma TailSoundDisjoint(text: string, word: string, from: nat, starts: seq<nat>)
    requires SoundStarts(text, word, from, starts) && Disjoint(word, starts) && |starts| > 0
    ensures SoundStarts(text, word, starts[0] + |word|, starts[1..])
    ensures Disjoint(word, starts[1..])
  {
  }

  /** Dropping the first match of a greedy list leaves the greedy list from
      the end of that match. */
  lemma GreedyTail(text: string, word: string, from: nat, starts: seq<nat>)
    requires GreedyMatches(text, word, from, starts) && |starts| > 0
    ensures GreedyMatches(text, word, starts[0] + |word|, starts[1..])
  {
    TailSoundDisjoint(text, word, from, starts);
    var tail := starts[1..];
    assert GapClear(text, word, starts, 0);
    if |tail| > 0 {
      assert tail[0] == starts[1];
    }
    forall k | 0 <= k < |tail| ensures GapClear(text, word, tail, k) {
      assert GapClear(text, word, starts, k + 1);
      assert tail[k] == starts[k + 1];
      if k + 1 < |tail| {
        assert tail[k + 1] == starts[k + 2];
      }
    }
  }

  /** A greedy list from `from` opens with the leftmost occurrence at or
      after `from`. */
  lemma GreedyHead(text: string, word: string, from: nat, idx: nat, starts: seq<nat>)
    requires |word| > 0
    requires GreedyMatches(text, word, from, starts)
    requires IndexOf(text, word, from) == Some(idx)
    ensures |starts| > 0 && starts[0] == idx
  {
    IndexOfIsLeftmost(text, word, from);
    assert |starts| > 0 ==> OccursAt(text, word, starts[0]);
  }

  /** A sound list is never ahead of `indexOf`: if any occurrence at or
      after `from` is listed, `indexOf` finds one no later than the first. */
  lemma FirstStartFound(text: string, word: string, from: nat, starts: seq<nat>)
    requires SoundStarts(text, word, from, starts) && |starts| > 0
    ensures IndexOf(text, word, from).Some? && IndexOf(text, word, from).value <= starts[0]
  {
    IndexOfIsLeftmost(text, word, from);
    assert OccursAt(text, word, starts[0]);
  }

  /** The greedy list is unique: any list of occurrences at or after `from`
      that never overlap and skip none is exactly what the scanner produces. */
  lemma {:induction false} GreedyUnique(text: string, word: string, from: nat, other: seq<nat>)
    requires |word| > 0
    requires GreedyMatches(text, word, from, other)
    ensures other == ScanWord(text, word, from)
    decreases |text| - from
  {
    match IndexOf(text, word, from)
    case None =>
      if |other| > 0 {
        FirstStartFound(text, word, from, other);
        assert false;
      }
    case Some(idx) =>
      GreedyHead(text, word, from, idx, other);
      GreedyTail(text, word, from, other);
      GreedyUnique(text, word, idx + |word|, other[1..]);
  }

  /** Greedy is maximum: no list of non-overlapping occurrences at or after
      `from` is longer than the scanner's. */
  lemma {:induction false} GreedyIsMaximum(text: string, word: string, from: nat, other: seq<nat>)
    requires |word| > 0
    requires SoundStarts(text, word, from, other) && Disjoint(word, other)
    ensures |other| <= |ScanWord(text, word, from)|
    decreases |text| - from
  {
    match IndexOf(text, word, from)
    case None =>
      if |other| > 0 {
        FirstStartFound(text, word, from, other);
        assert false;
      }
    case Some(idx) =>
      if |other| > 0 {
        FirstStartFound(text, word, from, other);
        TailSoundDisjoint(text, word, from, other);
        GreedyIsMaximum(text, word, idx + |word|, other[1..]);
      }
  }

  /** Offset `p` lies strictly inside one of the reported matches. */
  ghost predicate Covered(word: string, starts: seq<nat>, p: int) {
    exists k :: 0 <= k < |starts| && starts[k] < p < starts[k] + |word|
  }

  /** Completeness, stated occurrence by occurrence: every occurrence at or
      after `from` is reported, unless it overlaps a reported match. */
  lemma {:induction false} GreedyReportsEveryFreeOccurrence(text: string, word: string, from: nat, starts: seq<nat>, p: int)
    requires |word| > 0
    requires GreedyMatches(text, word, from, starts)
    requires from <= p && OccursAt(text, word, p)
    ensures p in starts || Covered(word, starts, p)
    decreases |starts|
  {
    if |starts| == 0 || p <= starts[0] {
    } else if p < starts[0] + |word| {
      assert Covered(word, starts, p);
    } else {
      GreedyTail(text, word, from, starts);
      GreedyReportsEveryFreeOccurrence(text, word, starts[0] + |word|, starts[1..], p);
      if p in starts[1..] {
      } else {
        var k :| 0 <= k < |starts[1..]| && starts[1..][k] < p < starts[1..][k] + |word|;
        assert starts[k + 1] == starts[1..][k];
      }
    }
  }

  /** Scanning a concatenated lexicon is scanning each part in turn: items
      come grouped by entry, in lexicon order. */
  lemma {:induction false} ScanAppend(text: string, a: seq<Entry>, b: seq<Entry>)
    requires NonEmptyWords(a) && NonEmptyWords(b)
    ensures NonEmptyWords(a + b)
    ensures Scan(text, a + b) == Scan(text, a) + Scan(text, b)
  {
    if |a| > 0 {
      assert (a + b)[0] == a[0];
      assert (a + b)[1..] == a[1..] + b;
      ScanAppend(text, a[1..], b);
    } else {
      assert a + b == b;
    }
  }

  /** An item is reported exactly when it is the record of a greedy match
      of some entry. */
  lemma {:induction false} ScanMembership(text: string, lex: seq<Entry>, it: Item)
    requires NonEmptyWords(lex)
    ensures it in Scan(text, lex) <==>
            exists e, s :: e in lex && s in ScanWord(text, e.word, 0) && it == MatchItem(e, s)
  {
    if |lex| > 0 {
      ScanMembership(text, lex[1..], it);
      var starts := ScanWord(text, lex[0].word, 0);
      if it in WordItems(text, lex[0]) {
        var k :| 0 <= k < |starts| && it == MatchItem(lex[0], starts[k]);
        assert lex[0] in lex && starts[k] in starts;
      }
      if exists e, s :: e in lex && s in ScanWord(text, e.word, 0) && it == MatchItem(e, s) {
        var e, s :| e in lex && s in ScanWord(text, e.word, 0) && it == MatchItem(e, s);
        if e == lex[0] {
          var k :| 0 <= k < |starts| && starts[k] == s;
          assert WordItems(text, lex[0])[k] == it;
        } else {
          assert e in lex[1..];
        }
      }
    }
  }

  /** One entry's items have pairwise distinct starts, hence distinct tuples. */
  lemma WordItemsKeysDistinct(text: string, e: Entry)
    requires |e.word| > 0
    ensures KeysDistinct(WordItems(text, e))
  {
    ScanWordIsGreedy(text, e.word, 0);
    var starts := ScanWord(text, e.word, 0);
    var items := WordItems(text, e);
    forall i, j | 0 <= i < j < |items| ensures KeyOf(items[i]) != KeyOf(items[j]) {
      assert starts[i] + |e.word| <= starts[j];
    }
  }

  /** Two tuple-distinct lists with no tuple in common concatenate to a
      tuple-distinct list. */
  lemma AppendKeysDistinct(a: seq<Item>, b: seq<Item>)
    requires KeysDistinct(a) && KeysDistinct(b)
    requires forall i, j :: 0 <= i < |a| && 0 <= j < |b| ==> KeyOf(a[i]) != KeyOf(b[j])
    ensures KeysDistinct(a + b)
  {
  }

  /** No item from the later entries carries the first entry's word. */
  lemma TailSpansDiffer(text: string, lex: seq<Entry>)
    requires WellFormedLexicon(lex) && |lex| > 0
    ensures NonEmptyWords(lex[1..])
    ensures forall j :: 0 <= j < |Scan(text, lex[1..])| ==> Scan(text, lex[1..])[j].span != lex[0].word
  {
    var rest := lex[1..];
    assert forall i :: 0 <= i < |rest| ==> rest[i] == lex[i + 1];
    var tail := Scan(text, rest);
    ScanItemsAnchored(text, rest);
    forall j | 0 <= j < |tail| ensures tail[j].span != lex[0].word {
      var q :| 0 <= q < |rest| && DerivedFrom(tail[j], rest[q]);
      assert lex[q + 1].word != lex[0].word;
    }
  }

  /** With distinct non-empty words, no two scanner items share an identity
      tuple. */
  lemma {:induction false} ScanKeysDistinct(text: string, lex: seq<Entry>)
    requires WellFormedLexicon(lex)
    ensures KeysDistinct(Scan(text, lex))
  {
    if |lex| > 0 {
      var rest := lex[1..];
      assert forall i :: 0 <= i < |rest| ==> rest[i] == lex[i + 1];
      ScanKeysDistinct(text, rest);
      WordItemsKeysDistinct(text, lex[0]);
      var head := WordItems(text, lex[0]);
      var tail := Scan(text, rest);
      TailSpansDiffer(text, lex);
      WordItemsAnchored(text, lex[0]);
      assert forall i, j :: 0 <= i < |head| && 0 <= j < |tail| ==> head[i].span != tail[j].span;
      AppendKeysDistinct(head, tail);
    }
  }

  /** A text shorter than every word (in particular the empty text) yields
      no items. */
  lemma {:induction false} ShortTextNoItems(text: string, lex: seq<Entry>)
    requires NonEmptyWords(lex)
    requires forall i :: 0 <= i < |lex| ==> |text| < |lex[i].word|
    ensures Scan(text, lex) == []
  {
    if |lex| > 0 {
      ShortTextNoItems(text, lex[1..]);
    }
  }

  /** One step of the scan: a hit at `i` is followed by the scan resumed at its end. */
  lemma ScanWordStep(text: string, word: string, from: nat, i: nat)
    requires |word| > 0 && IndexOf(text, word, from) == Some(i)
    ensures i + |word| <= |text|
    ensures ScanWord(text, word, from) == [i] + ScanWord(text, word, i + |word|)
  {
  }

  lemma ResumeStep(text: string, word: string, from: nat, i: nat, found: seq<nat>)
    requires |word| > 0 && IndexOf(text, word, from) == Some(i)
    ensures found + ScanWord(text, word, from) == (found + [i]) + ScanWord(text, word, i + |word|)
  {
    ScanWordStep(text, word, from, i);
  }

  lemma EmitSnoc(e: Entry, starts: seq<nat>, i: nat)
    ensures Emit(e, starts + [i]) == Emit(e, starts) + [MatchItem(e, i)]
  {
  }

  /** The inner `while` loop of `findDictionaryMatches` for one entry: it
      resumes `indexOf` at the end of each match and pushes one record per hit. */
  method MatchEntry(text: string, e: Entry) returns (items: seq<Item>)
    requires |e.word| > 0
    ensures items == Emit(e, ScanWord(text, e.word, 0))
  {
    items := [];
    var idx := IndexOf(text, e.word, 0);
    ghost var from: nat := 0;
    ghost var found: seq<nat> := [];
    while idx.Some?
      invariant from <= |text| || idx.None?
      invariant idx == IndexOf(text, e.word, from)
      invariant found + ScanWord(text, e.word, from) == ScanWord(text, e.word, 0)
      invariant items == Emit(e, found)
      decreases |text| - from
    {
      var i := idx.value;
      ResumeStep(text, e.word, from, i, found);
      EmitSnoc(e, found, i);
      items := items + [MatchItem(e, i)];
      found := found + [i];
      from := i + |e.word|;
      idx := IndexOf(text, e.word, i + |e.word|);
    }
  }

  /** `findDictionaryMatches`: the outer loop over the entries in lexicon order. */
  method FindDictionaryMatches(text: string, lex: seq<Entry>) returns (items: seq<Item>)
    requires NonEmptyWords(lex)
    ensures items == Scan(text, lex)
  {
    items := [];
    var n := 0;
    while n < |lex|
      invariant 0 <= n <= |lex|
      invariant NonEmptyWords(lex[..n])
      invariant items == Scan(text, lex[..n])
    {
      var e := lex[n];
      var hits := MatchEntry(text, e);
      assert lex[..n + 1] == lex[..n] + [e];
      ScanAppend(text, lex[..n], [e]);
      assert Scan(text, [e]) == WordItems(text, e) + Scan(text, []);
      items := items + hits;
      n := n + 1;
    }
    assert lex[..n] == lex;
  }
}
