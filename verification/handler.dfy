/** The `/api/check` handler, reduced to its pure skeleton: the input check,
    the lexicon scan, the reading of the external model's reply, and the
    merge. */
module Handler {
  import opened Optional
  import opened Annotation
  import opened Scanner
  import opened ScannerFacts
  import opened Merger
  import opened MergerFacts

  /** What the external model's reply became once read and parsed. */
  datatype Reply =
    /** The call failed, the reply had no text, or the text was not JSON. */
    | Unusable
    /** The text parsed to `null`: reading `.items` from it throws. */
    | NullJson
    /** The text parsed to a value; `items` is `None` when that value has no
        `items` property or it is not an array. */
    | Json(items: Option<seq<Item>>)

  /** The handler's outcome: status 400, status 500, or the merged items. */
  datatype Response = BadRequest | AnalysisFailed | Ok(items: seq<Item>)

  /** The candidate list the merge consumes: `items` when it is an array,
      otherwise the empty list. */
  function Candidates(reply: Reply): seq<Item>
    requires reply.Json?
  {
    match reply.items
    case Some(items) => items
    case None => []
  }

  /** One request: empty text is rejected; an unusable reply fails the whole
      request, even though the lexicon items are known; otherwise the
      lexicon items come first, followed by the candidates whose identity
      tuple is new, in the order received. */
  function Check(text: string, lex: seq<Entry>, reply: Reply): (r: Response)
    requires NonEmptyWords(lex)
    ensures r.BadRequest? <==> |text| == 0
    ensures r.AnalysisFailed? <==> |text| > 0 && !reply.Json?
    ensures r.Ok? ==> |Scan(text, lex)| <= |r.items| && r.items[..|Scan(text, lex)|] == Scan(text, lex)
    ensures r.Ok? ==> forall i :: |Scan(text, lex)| <= i < |r.items| ==>
              reply.Json? && reply.items.Some? && r.items[i] in reply.items.value
    ensures r.Ok? && WellFormedLexicon(lex) ==> KeysDistinct(r.items)
    ensures |text| > 0 && reply == Json(None) ==> r == Ok(Scan(text, lex))
    ensures r.Ok? ==> reply.Json? && r.items == Scan(text, lex) + Fresh(Scan(text, lex), Candidates(reply))
  {
    if |text| == 0 then BadRequest
    else
      var dictItems := Scan(text, lex);
      match reply
      case Unusable => AnalysisFailed
      case NullJson => AnalysisFailed
      case Json(_) =>
        var merged := MergeInto(dictItems, Candidates(reply));
        MergeMatchesReference(dictItems, Candidates(reply));
        assert WellFormedLexicon(lex) ==> KeysDistinct(merged) by {
          if WellFormedLexicon(lex) {
            ScanKeysDistinct(text, lex);
            MergeKeysDistinct(dictItems, Candidates(reply));
          }
        }
        Ok(merged)
  }
}
