/** Concrete inputs worked through the model. */
module Scenarios {
  import opened Optional
  import opened Annotation
  import opened TextSearch
  import opened Scanner
  import opened Merger

  const Dama: Entry := Entry("다마", Loanword, Some("당구 실력 또는 당구 공"), Some("일본어 '타마(たま, 玉)'에서 온 말"))
  const Tamanegi: Entry := Entry("다마네기", Loanword, Some("양파"), Some("일본어 たまねぎ에서 온 말."))
  const Oden: Entry := Entry("오뎅", Loanword, Some("어묵"), Some("일본어 おでん(oden)에서 온 말. ‘어묵’으로 순화 권장됨."))

  /** Matches of different words may overlap, and both are kept: "다마" is
      reported inside "다마네기". */
  lemma OverlappingWordsBothReported()
    ensures Scan("다마네기", [Dama, Tamanegi]) == [MatchItem(Dama, 0), MatchItem(Tamanegi, 0)]
  {
    var text := "다마네기";
    assert text[0..2] == "다마";
    assert text[2..4] != "다마" by { assert text[2..4][0] != "다마"[0]; }
    assert text[1..3] != "다마" by { assert text[1..3][0] != "다마"[0]; }
    assert IndexOf(text, "다마", 0) == Some(0);
    assert IndexOf(text, "다마", 2) == None;
    assert ScanWord(text, "다마", 0) == [0];
    assert text[0..4] == "다마네기";
    assert IndexOf(text, "다마네기", 0) == Some(0);
    assert IndexOf(text, "다마네기", 4) == None;
    assert ScanWord(text, "다마네기", 0) == [0];
    assert WordItems(text, Dama) == [MatchItem(Dama, 0)];
    assert WordItems(text, Tamanegi) == [MatchItem(Tamanegi, 0)];
    assert [Dama, Tamanegi][1..] == [Tamanegi];
    assert Scan(text, [Tamanegi]) == WordItems(text, Tamanegi) + Scan(text, []);
  }

  /** A repeated word is reported once per occurrence: "오뎅 오뎅" gives
      `[0, 2)` and `[3, 5)`. */
  lemma RepeatedWordReportedTwice()
    ensures Scan("오뎅 오뎅", [Oden]) == [MatchItem(Oden, 0), MatchItem(Oden, 3)]
  {
    var text := "오뎅 오뎅";
    assert text[0..2] == "오뎅";
    assert text[2..4] != "오뎅" by { assert text[2..4][0] != "오뎅"[0]; }
    assert text[3..5] == "오뎅";
    assert IndexOf(text, "오뎅", 0) == Some(0);
    assert IndexOf(text, "오뎅", 2) == Some(3);
    assert IndexOf(text, "오뎅", 5) == None;
    assert ScanWord(text, "오뎅", 0) == [0, 3];
  }

  /** A candidate with the same tuple as a lexicon item is dropped: the
      lexicon's suggestion, note and confidence survive. */
  lemma DuplicateCandidateKeepsLexiconFields()
    ensures MergeInto([MatchItem(Oden, 0)], [Item(Loanword, 0, 2, "오뎅", "", "", 0.8)]) == [MatchItem(Oden, 0)]
  {
    var c := Item(Loanword, 0, 2, "오뎅", "", "", 0.8);
    assert KeyOf(MatchItem(Oden, 0)) == KeyOf(c);
    assert MatchItem(Oden, 0) in [MatchItem(Oden, 0)];
  }
}
