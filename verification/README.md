# Japanese-residue checker: lexicon scanner and merge, modelled in Dafny

The checker flags Japanese-origin loanwords, translationese and bureaucratic
register in Korean text. A request to `/api/check` runs two detectors. The
first is a static lexicon scanned for literal occurrences. The second is an
external language model whose reply supplies more candidate spans. The
handler returns one list: the lexicon hits first, then every candidate whose
identity tuple `(start, end, span, type)` is not already present.

This project models the pure part of that pipeline:

- `TextSearch`: JavaScript `String.prototype.indexOf` on a `string`
  (`seq<char>`). This includes the clamping of `fromIndex` to the text length.
- `Annotation`: the records. These are the three-valued `Kind`, a lexicon
  `Entry` whose suggestion and note may be absent, the flagged `Item`, and
  its identity tuple `ItemKey`.
- `Scanner` / `ScannerFacts`: `findDictionaryMatches`. It is modelled twice:
  as recursive functions (`ScanWord`, `Scan`) and as loop methods that follow
  the JavaScript loops (`MatchEntry`, `FindDictionaryMatches`). The two are
  proved equal. The facts module proves the following:
  - the greedy, non-overlapping, nothing-skipped property of each word's
    matches;
  - uniqueness and maximality of that greedy list;
  - offset correctness and field propagation of every item;
  - grouping by entry in lexicon order;
  - tuple-uniqueness of the scanner output.
- `Merger` / `MergerFacts`: the de-duplicating merge loop, with these
  properties:
  - base prefix preserved;
  - only fresh candidates are appended;
  - the result's tuples are exactly those of the base and the candidates;
  - tuple-uniqueness is preserved;
  - merging the same candidates twice changes nothing;
  - the result equals the base followed by an independent reference
    selection, `Fresh`.
- `Handler`: the skeleton of the request. An empty text gives status 400. An
  unusable reply gives status 500, even though the lexicon items are known.
  Otherwise the result is the merged list.
- `Scenarios`: concrete inputs. The overlapping words `다마` and `다마네기`
  are both reported. `오뎅 오뎅` gives two hits. A candidate that duplicates a
  lexicon hit is dropped, so the lexicon's fields survive.

The lexicon is a parameter (`seq<Entry>` in definition order, which is the
order `Object.entries` yields for these non-numeric keys). The concrete
54-entry dictionary literal at server.js:28-306 is not transcribed. As
written it does not parse: the `"다마"` entry closing at server.js:39 lacks
its trailing comma. The scanner requires non-empty words, because for an
empty word `indexOf("", k)` returns `k` and the `while` loop never ends.
Tuple-uniqueness of the scanner output also needs distinct words, which is
what object keys are (`WellFormedLexicon`).

The model keeps three behaviours of the code:

- Candidates are not validated item by item. The code only checks
  `Array.isArray(data.items)` and treats anything else as an empty list.
- Offsets are positions in the text as `indexOf` and `length` count them.
  JavaScript counts UTF-16 code units. The model counts `char`s, which are
  Unicode scalar values. The two agree on Hangul and on every other
  character of the Basic Multilingual Plane (BMP).
- Scan order is the lexicon's definition order, and the output sequence
  depends on it.

## Model

| member | source | states |
|---|---|---|
| TextSearch.IndexOf | server.js:324 | A found offset is at or after `fromIndex` (clamped to the text) and the match fits in the text; this is the measure that makes the scan loop terminate |
| TextSearch.IndexOfIsLeftmost | server.js:313-324 | `fromIndex` is first clamped to the text length. `indexOf` then returns an offset where the word occurs, at or after `fromIndex`, with no occurrence between `fromIndex` and it. It returns -1 only when no occurrence exists at or after `fromIndex` (an empty word searched past the end is found at the text length) |
| Scanner.ScanWordIsGreedy | server.js:313-325 | `ScanWord` is the functional model of the inner `while` loop. For one word, every emitted start is an occurrence at or after the search origin. Starts strictly increase and each next match begins at or after the previous match's end. No occurrence lies before the first match, in a gap between matches, or after the last |
| ScannerFacts.GreedyUnique | server.js:313-325 | Any list of starts that is sound, non-overlapping and skips no occurrence equals the scanner's list, so the greedy property determines the output completely |
| ScannerFacts.GreedyIsMaximum | server.js:313-325 | No list of pairwise non-overlapping occurrences of a word is longer than the scanner's list for that word |
| ScannerFacts.GreedyReportsEveryFreeOccurrence | server.js:313-325 | Every occurrence at or after the search origin is reported, unless it lies strictly inside an already reported match of the same word |
| Scanner.WordItemsAnchored | server.js:313-325 | Every record emitted for one entry is anchored in the text (`0 <= start`, `end == start + |span|`, `end <= |text|`, `text[start..end) == span`) and carries that entry's word, type, defaulted suggestion and note, and confidence 0.99 |
| Scanner.ScanItemsAnchored | server.js:309-329 | Every scanner item is anchored in the text and is built from some lexicon entry: its span is the entry's word, its type is copied, an absent or empty suggestion or note becomes "", and its confidence is 0.99 |
| ScannerFacts.ScanMembership | server.js:312-325 | `Scan` is the functional model of `findDictionaryMatches`. An item is in the scanner output if and only if it is the record of some entry at one of that entry's greedy match starts |
| ScannerFacts.ScanAppend | server.js:312 | Scanning a lexicon split in two equals scanning each part in turn, so items come grouped by entry in lexicon order |
| ScannerFacts.ScanKeysDistinct | server.js:309-329 | With non-empty, pairwise distinct words, no two scanner items share a `(start, end, span, type)` tuple |
| ScannerFacts.ShortTextNoItems | server.js:313 | A text shorter than every word, the empty text included, yields no items |
| ScannerFacts.MatchEntry | server.js:313-325 | The inner `while` loop, resuming `indexOf` at `idx + word.length`, terminates and emits exactly one record per greedy match start, in order |
| ScannerFacts.FindDictionaryMatches | server.js:309-329 | The two nested loops produce exactly the functional scanner's output |
| Merger.MergeInto | server.js:409-422 | The result begins with the base unchanged and in order. Its length lies between `|base|` and `|base| + |candidates|`. Every appended item is a candidate whose tuple the base lacks |
| MergerFacts.MergeKeys | server.js:411-422 | A tuple occurs in the merged list if and only if it occurs in the base or among the candidates |
| MergerFacts.MergeCoversCandidates | server.js:411-422 | Every candidate is represented in the result, either pushed or dropped as a duplicate of an equal tuple |
| MergerFacts.MergeKeysDistinct | server.js:411-422 | From a tuple-distinct base the merged list is tuple-distinct, which also removes duplicates among the candidates themselves |
| MergerFacts.MergeAbsorbs | server.js:411-422 | Candidates whose tuples are all present already leave the list unchanged |
| MergerFacts.MergeIdempotent | server.js:411-422 | Merging the same candidate list a second time into an already merged result changes nothing |
| MergerFacts.MergeSnoc | server.js:411-422 | Handling one more candidate at the end of the list is one more loop turn: push it exactly when its tuple is absent from the result so far |
| MergerFacts.MergeMatchesReference | server.js:409-422 | The merged list is the base followed by the candidates whose tuple occurs neither in the base nor among the earlier candidates, in the order received |
| MergerFacts.ContainsKey | server.js:412-418 | The `some` scan answers true exactly when an item already in the result has the candidate's start, end, span and type |
| MergerFacts.MergeItems | server.js:409-422 | The loop over the candidates computes exactly the functional merge |
| Handler.Check | server.js:360-430 | The handler answers 400 exactly for empty text, and 500 exactly when the reply is unusable or parses to `null`. Otherwise the lexicon items come first and unchanged, every later item is a supplied candidate, and the list is tuple-distinct when the words are distinct. With no `items` array the result is the lexicon items alone (server.js:406). In every successful case the result is exactly the lexicon items followed by the reference selection `Fresh`: each candidate whose tuple is in neither the lexicon items nor the earlier candidates, in the order received |
| Scenarios.OverlappingWordsBothReported | server.js:35-43 | In `다마네기`, both `다마` and `다마네기` are reported at offset 0: matches of different words may overlap and none is suppressed |
| Scenarios.RepeatedWordReportedTwice | server.js:30-33 | `오뎅 오뎅` yields `오뎅` at `[0, 2)` and at `[3, 5)` |
| Scenarios.DuplicateCandidateKeepsLexiconFields | server.js:411-421 | A candidate with the same tuple as a lexicon hit, but a different suggestion, note and confidence, is dropped, and the lexicon record stays as it was |

## Left out

- HTTP plumbing is not modelled: Express setup, CORS, static files, the `GET /` route, port and environment configuration, and console logging.
- The external model call is not modelled: client construction, prompt text and `responses.create`. Its outcome is the `Reply` parameter of `Handler.Check`.
- Parsing is not modelled: reading `response.output[0].content[0].text`, `trim` and `JSON.parse`. Every failure there, and any network failure, is the single case `Reply.Unusable`. A reply that parses to `null` is `Reply.NullJson`, because reading `.items` from it throws.
- Candidate items are assumed to be well-formed records. The code does not check this, and the model does not cover the consequences:
  - A `null` candidate is pushed as it is when the result is still empty, because `some` never calls its callback on an empty array. If it is the last candidate, the reply is status 200 with a `null` item.
  - Once the result holds anything, the `some` callback reads `d.start` or `item.start` on the `null`, throws, and gives status 500. It does so either at the `null` candidate itself or at the next candidate, after the `null` was pushed.
  - An out-of-enum `type` or a non-integer offset is compared with `===` as it is.
- Handler.Check: the 400 check is modelled only for the empty string. The source also rejects a non-string `text`, which `string` cannot express.
- `confidence` is a JavaScript floating-point number. It is carried as an exact `real`: 0.99 for lexicon hits, and as supplied for candidates.
- Offsets count `char`s. They equal JavaScript's UTF-16 offsets only when the text has no character outside the BMP. After such a character, for example an emoji, each model offset is one less than JavaScript's for every such character before it.
- The concrete dictionary literal is not modelled, because the lexicon is a parameter. Only the three entries used in the scenarios are written out.
- Empty lexicon words are excluded by a precondition. In the source such a word would make the scan loop run forever.
