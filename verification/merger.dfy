/** The merge step of the check handler: lexicon items first, then every
    candidate whose identity tuple is not yet present, in the order received. */
module Merger {
  import opened Annotation

  /** The candidate loop, from an accumulated result `acc`: a candidate is
      pushed only when no item already in the result has its tuple. */
  function MergeInto(acc: seq<Item>, cands: seq<Item>): (r: seq<Item>)
    ensures |acc| <= |r| <= |acc| + |cands|
    ensures r[..|acc|] == acc
    ensures forall i :: |acc| <= i < |r| ==> r[i] in cands && !HasKey(acc, r[i])
    decreases |cands|
  {
    if |cands| == 0 then acc
    else
      var c := cands[0];
      var next := if HasKey(acc, c) then acc else acc + [c];
      var r := MergeInto(next, cands[1..]);
      assert r[..|next|] == next;
      assert forall i :: |next| <= i < |r| ==> r[i] in cands[1..];
      r
  }

  /** Independent reference for what gets appended: the candidates whose
      tuple occurs neither in `base` nor among the candidates before them. */
  function Fresh(base: seq<Item>, cands: seq<Item>): seq<Item>
    decreases |cands|
  {
    if |cands| == 0 then []
    else
      var init := cands[..|cands| - 1];
      var c := cands[|cands| - 1];
      Fresh(base, init) + (if HasKey(base + init, c) then [] else [c])
  }
}

module MergerFacts {
  import opened Annotation
  import opened Merger

  lemma HasKeyAppend(a: seq<Item>, b: seq<Item>, x: Item)
    ensures HasKey(a + b, x) <==> HasKey(a, x) || HasKey(b, x)
  {
  }

  /** The result holds exactly the tuples of the base and the candidates. */
  lemma {:induction false} MergeKeys(acc: seq<Item>, cands: seq<Item>, x: Item)
    ensures HasKey(MergeInto(acc, cands), x) <==> HasKey(acc + cands, x)
    decreases |cands|
  {
    if |cands| == 0 {
      assert acc + cands == acc;
    } else {
      var c := cands[0];
      var next := if HasKey(acc, c) then acc else acc + [c];
      MergeKeys(next, cands[1..], x);
      HasKeyAppend(next, cands[1..], x);
      HasKeyAppend(acc, cands, x);
      HasKeyAppend(acc, [c], x);
      HasKeyAppend([c], cands[1..], x);
      assert cands == [c] + cands[1..];
      if HasKey(acc, c) && HasKey([c], x) {
        assert KeyOf(c) == KeyOf(x);
      }
    }
  }

  /** Every candidate is represented in the result: pushed, or dropped as a
      duplicate of an item with the same tuple. */
  lemma MergeCoversCandidates(base: seq<Item>, cands: seq<Item>, c: Item)
    requires c in cands
    ensures HasKey(MergeInto(base, cands), c)
  {
    MergeKeys(base, cands, c);
    assert c in base + cands;
  }

  /** Merging keeps the tuple-uniqueness of the result: a tuple-distinct base
      gives a tuple-distinct result, duplicates among the candidates included. */
  lemma {:induction false} MergeKeysDistinct(acc: seq<Item>, cands: seq<Item>)
    requires KeysDistinct(acc)
    ensures KeysDistinct(MergeInto(acc, cands))
    decreases |cands|
  {
    if |cands| > 0 {
      var c := cands[0];
      if !HasKey(acc, c) {
        var next := acc + [c];
        forall i, j | 0 <= i < j < |next| ensures KeyOf(next[i]) != KeyOf(next[j]) {
          if j == |acc| {
            assert next[i] in acc;
          }
        }
        MergeKeysDistinct(next, cands[1..]);
      } else {
        MergeKeysDistinct(acc, cands[1..]);
      }
    }
  }

  /** Candidates whose tuples are all present already change nothing. */
  lemma {:induction false} MergeAbsorbs(acc: seq<Item>, cands: seq<Item>)
    requires forall c :: c in cands ==> HasKey(acc, c)
    ensures MergeInto(acc, cands) == acc
    decreases |cands|
  {
    if |cands| > 0 {
      assert cands[0] in cands;
      assert forall c :: c in cands[1..] ==> c in cands;
      MergeAbsorbs(acc, cands[1..]);
    }
  }

  /** Merging the same candidate list a second time leaves the result unchanged. */
  lemma MergeIdempotent(base: seq<Item>, cands: seq<Item>)
    ensures MergeInto(MergeInto(base, cands), cands) == MergeInto(base, cands)
  {
    forall c | c in cands ensures HasKey(MergeInto(base, cands), c) {
      MergeCoversCandidates(base, cands, c);
    }
    MergeAbsorbs(MergeInto(base, cands), cands);
  }

  /** Processing one more candidate at the end is one more loop step. */
  lemma {:induction false} MergeSnoc(acc: seq<Item>, cands: seq<Item>, c: Item)
    ensures MergeInto(acc, cands + [c]) ==
            (var m := MergeInto(acc, cands); if HasKey(m, c) then m else m + [c])
    decreases |cands|
  {
    if |cands| == 0 {
      assert [c][1..] == [];
    } else {
      var x := cands[0];
      var next := if HasKey(acc, x) then acc else acc + [x];
      assert (cands + [c])[0] == x;
      assert (cands + [c])[1..] == cands[1..] + [c];
      MergeSnoc(next, cands[1..], c);
    }
  }

  /** The loop's result is the base followed by the reference selection of
      fresh candidates. */
  lemma {:induction false} MergeMatchesReference(base: seq<Item>, cands: seq<Item>)
    ensures MergeInto(base, cands) == base + Fresh(base, cands)
    decreases |cands|
  {
    if |cands| == 0 {
    } else {
      var init := cands[..|cands| - 1];
      var c := cands[|cands| - 1];
      assert cands == init + [c];
      MergeMatchesReference(base, init);
      MergeSnoc(base, init, c);
      MergeKeys(base, init, c);
    }
  }

  /** The `some` callback scan: is there an item with the candidate's tuple? */
  method ContainsKey(merged: seq<Item>, item: Item) returns (duplicate: bool)
    ensures duplicate == HasKey(merged, item)
  {
    duplicate := false;
    var j := 0;
    while j < |merged| && !duplicate
      invariant 0 <= j <= |merged|
      invariant duplicate <==> HasKey(merged[..j], item)
    {
      var d := merged[j];
      duplicate := d.start == item.start && d.end == item.end && d.span == item.span && d.kind == item.kind;
      assert merged[..j + 1] == merged[..j] + [d];
      HasKeyAppend(merged[..j], [d], item);
      assert HasKey([d], item) <==> KeyOf(d) == KeyOf(item) by {
        if KeyOf(d) == KeyOf(item) {
          assert d in [d];
        }
      }
      j := j + 1;
    }
    assert merged == merged[..j] + merged[j..];
    HasKeyAppend(merged[..j], merged[j..], item);
  }

  /** One turn of the candidate loop, seen from the fold. */
  lemma MergeStep(merged: seq<Item>, cands: seq<Item>, n: nat)
    requires n < |cands|
    ensures MergeInto(merged, cands[n..]) ==
            MergeInto(if HasKey(merged, cands[n]) then merged else merged + [cands[n]], cands[n + 1..])
  {
  }

  /** The `for … of` loop over the candidates: push each one whose tuple is
      not yet present. */
  method MergeItems(base: seq<Item>, cands: seq<Item>) returns (merged: seq<Item>)
    ensures merged == MergeInto(base, cands)
  {
    merged := base;
    var n := 0;
    while n < |cands|
      invariant 0 <= n <= |cands|
      invariant MergeInto(merged, cands[n..]) == MergeInto(base, cands)
    {
      var item := cands[n];
      var duplicate := ContainsKey(merged, item);
      MergeStep(merged, cands, n);
      if !duplicate {
        merged := merged + [item];
      }
      n := n + 1;
    }
  }
}
