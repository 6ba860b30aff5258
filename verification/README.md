# idability in Dafny

A Dafny model of the algorithmic core of `idability.py`. The program builds and checks
hitting-set identification codes over a sample-by-feature table of abundances.

- **Encoding.** For each sample, a greedy search picks a short list of features, its
  *code*. Every other sample lacks at least one of these features.
- **Decoding.** Each code is matched against a table, possibly a different one. The list
  of samples it hits is then classified into a five-way confusion matrix (`1|TP`,
  `2|TP+FP`, `3|FN+FP`, `4|FN`, `5|NA`).

The model follows the program's own structure:

| module | file | what it holds |
|---|---|---|
| `Sequences` | sequences.dfy | Distinctness, order-preserving sub-sequences and reversal. |
| `Dicts` | dicts.dfy | Python's insertion-ordered `dict`: a key sequence plus a map. |
| `Tables` | tables.dfy | The sample -> feature -> value table (`sfv`). Cutoff filtering (`funcReduceSFV`), the transpose (`funcFlipSFV`) and the key-set form (`funcSetForm`). |
| `Ranking` | ranking.dfy | Python's stable `sorted` and the two feature rankings (`funcRankRarity`, `funcRankAbundGap`). |
| `Encoding` | encoding.dfy | `funcJaccard`, the greedy `funcMakeOneCode` loop and `funcEncode`. |
| `Decoding` | decoding.dfy | `funcCheckOneCode`, `funcDecode` and the `funcCheckHits` classifier and counter. It also holds the end-to-end fact: decoding a table with its own codes gives only true positives and nulls. |
| `Text` | text.dfy | `str.join`, `str.split` and `str.strip`, as the file formats use them. |
| `CodesFile` | codesfile.dfy | The codes file line format. Writing and reading it back round-trips. |
| `Options` | options.dfy | The command-line defaults, the meta-mode presets and the default output name. |

How the source is modelled:

- **Dicts.** Python dicts are modelled with their iteration order. In the source this
  order decides ties in the rankings and the order of hit lists.
- **Values.** Table values are exact reals.
- **Loops.** The source's loops are methods with loop invariants. Each is proved against
  a specification function or predicate: `Reduction`, `IsFlipOf`, `Ranked`, `Progress`,
  `Matches`, `Tally` and `Collected`.
- **MakeOneCode.** Its ghost out-parameter `tried` lists the features popped, in order.
  The function `Encoding.Greedy` is the loop written as a recursion. It is the reference
  that fixes both the result and the popped features for every input.

Where the program's own text and its code disagree, the model follows the code:

- **Abundance gap.** The `--ranking` help (idability.py:159-161) speaks of the gap
  between the individual's value and "the next highest value". The code
  (idability.py:328-331) takes `focal - max([abund_nondetect] + [other values <= focal])`:
  the nearest value at or below the focal one, floored at `abund_nondetect`
  (`Ranking.Gap`). Ties keep dict order.
- **Cutoff test.** `funcReduceSFV`'s docstring (idability.py:217) says "> cutoff", and the
  `--abund_detect` help (idability.py:137) says "above this". The code keeps
  `value >= cutoff` (idability.py:223, `Tables.Passes`).
- **Minimal codes.** The usage text (idability.py:59-61) says minimal codes are
  prioritized. `funcMakeOneCode` (idability.py:362-366) only drops a feature that fails
  to shrink the remaining set. A later feature can make an earlier kept one redundant,
  so the codes are not claimed to be minimal.

## Model

| member | source | states |
|---|---|---|
| Dicts.Dict.Put | idability.py:284 | `d[k] = v`: the map gets the new value. A new key is appended to the iteration order; an existing key keeps its place. The dict stays valid. |
| Tables.Reduction | idability.py:215-225 | The reduced row keeps exactly the entries whose value passes the cutoff test, with values unchanged, in their original order (a sub-sequence of the row's keys). |
| Tables.ReduceRow | idability.py:222-224 | The inner loop builds exactly `Reduction` of the row. |
| Tables.ReduceSFV | idability.py:215-225 | Every sample is kept, in order, even one left with no entries. Each row becomes its `Reduction`. |
| Tables.SetDefaultPut | idability.py:234 | `setdefault(r, {})[c] = v` adds exactly the entry at (r, c) and changes no other entry. It creates no empty row. |
| Tables.AddSample | idability.py:232-234 | Adding one sample's row extends the transpose from the samples done so far to that sample as well. |
| Tables.FlipSFV | idability.py:227-235 | `fsv[f][s]` exists exactly when `sfv[s][f]` does, and the two are equal. No feature row is empty. |
| Tables.FlipFeatures | idability.py:232-234 | A feature is a key of the transpose exactly when some sample has an entry for it. |
| Tables.SetForm | idability.py:237-241 | Same keys, in the same order. `e` is in the set under `k` exactly when the table has an entry at (k, e). |
| Ranking.Insert | idability.py:332-333 | Inserting into a sorted list adds exactly that element (as a multiset). |
| Ranking.SortBy | idability.py:332-333 | `sorted` returns a permutation of its input (multiset equality). |
| Ranking.SortBySorted | idability.py:342-344 | The output of `sorted` is in key order, descending when `reverse=True`. |
| Ranking.SortByStable | idability.py:332-333 | `sorted` is stable: for every key value, the elements with that key appear in the same order as in the input. |
| Ranking.SortByIsStableSort | idability.py:342-344 | `sorted` is a permutation, ordered, and stable, all at once. |
| Ranking.RarityScores | idability.py:343 | Every feature of the row gets a score (`len(fsv[feature])`). |
| Ranking.LargestLesser | idability.py:328-331 | `max` of `[abund_nondetect]` and the other samples' values `<=` focal: at least `abund_nondetect`, at least each such value, and equal to one of them or to `abund_nondetect`. |
| Ranking.Gap | idability.py:328-331 | The gap is at most `focal - abund_nondetect` and at most `focal` minus any lesser value of another sample. It equals one of these, and it is non-negative when `focal >= abund_nondetect`. |
| Ranking.GapScores | idability.py:326-331 | Every feature of the row gets its gap. |
| Ranking.Ranked | idability.py:320-345 | A sample's ranked list is a stable sort of its features in dict order by the strategy's key: prevalence descending (rarity) or gap ascending (abundance gap). |
| Ranking.GapsOf | idability.py:326-331 | The `gaps` dict has the row's features in row order, each mapped to its gap. |
| Ranking.RankRarity | idability.py:336-345 | One entry per sample, in table order. Each is that sample's features ranked by rarity. |
| Ranking.RankAbundGap | idability.py:320-334 | One entry per sample, in table order. Each is that sample's features ranked by abundance gap. |
| Encoding.JaccardRange | idability.py:312-318 | Jaccard lies in [0, 1]. It is 1 exactly for equal sets and 0 exactly for disjoint ones. |
| Encoding.JaccardSymmetric | idability.py:312-318 | Jaccard is symmetric. |
| Encoding.KnockOut | idability.py:368-371 | The filter keeps, in order, exactly the candidates whose Jaccard similarity with the popped feature is below the cutoff. |
| Encoding.Remaining | idability.py:353-361 | The remaining samples never grow as features are intersected in. |
| Encoding.RemainingCarryAll | idability.py:361 | A sample remains exactly when it carries every feature of the code, so the order of the code does not matter. |
| Encoding.RemainingAntitone | idability.py:361 | A code with more features leaves no more samples. |
| Encoding.JustifiedLength | idability.py:355-366 | Since every kept feature strictly shrinks the remaining set or pads, a code is no longer than the number of other samples, or than `min_code_size`. |
| Encoding.ProgressStep | idability.py:355-371 | One loop iteration (pop, intersect, keep or drop, knock out) keeps the loop invariant and shrinks the candidate list. |
| Encoding.ProgressEnd | idability.py:355-372 | When the loop stops, null means some other sample carries all tried features. Otherwise the code leaves no other sample, comes from the ranking back to front, and has distinct features. |
| Encoding.Greedy | idability.py:355-372 | The loop as a recursion on its state (remaining samples, candidates, code): it pops the last candidate, intersects, keeps or drops it, and knocks out the candidates too alike to it. Its run is non-null exactly when no other sample carries every popped feature. |
| Encoding.GreedyNext | idability.py:368-371 | The candidates after a pop are, in order, those unlike the popped feature under a cutoff, or all the rest without one. |
| Encoding.RemainingPrepend | idability.py:361 | Intersecting with the popped feature first, then with the later ones, leaves the same samples as intersecting with all of them from the start. |
| Encoding.GreedyStep | idability.py:355-371 | One iteration of the loop is one unfolding of `Greedy`: the popped feature is followed by the rest of the run from the new state. |
| Encoding.LoopStep | idability.py:355-371 | One iteration keeps the loop invariant and keeps the popped features on the `Greedy` run from the start. |
| Encoding.FollowsEnd | idability.py:372 | When the loop stops, the `Greedy` run from the start has the returned value and exactly the popped features. |
| Encoding.MakeOneCode | idability.py:347-372 | The result and the popped features are exactly the `Greedy` run from all other samples over the ranking. Non-null exactly when no other sample carries every popped feature. A code then leaves no other sample, and it is exactly `Kept` of the popped features: a feature is dropped only when it leaves a non-empty remaining set unchanged, so every feature popped after uniqueness pads the code. Read back to front it is a sub-sequence of the ranking, its features are distinct, and each was kept because it shrank the remaining set or padded. Under a cutoff, no two of its features are as alike as the cutoff. A null or short code means every candidate was tried or knocked out. |
| Encoding.KeptRemaining | idability.py:360-366 | Dropping a feature never changes the remaining samples: the kept code leaves the same samples as all the popped features, and is a sub-sequence of them. |
| Encoding.KeptPadding | idability.py:355-366 | Once the popped features leave no other sample, every later popped feature is kept: codes are lengthened beyond the point of uniqueness (the `-m` help at idability.py:127-129). |
| Encoding.IdentifiedNotShadowed | idability.py:372 | A sample with an identifying code is not shadowed: no other sample carries all its detected features. |
| Encoding.CodeIdentifies | idability.py:374-400 | A code drawn from the sample's detected features that leaves no other sample identifies the sample. |
| Encoding.LeftoverShadows | idability.py:355-372 | If every detected feature was tried and another sample still remains, that sample shadows the one being encoded. |
| Encoding.EntryEncodesWell | idability.py:392-399 | Each entry made by `funcEncode` either identifies its sample with distinct features and a bounded length, or is null. Without a cutoff, it is null exactly when the sample is shadowed. Padding is not part of it (see Left out). |
| Encoding.EncodedStep | idability.py:392-399 | Storing the next sample's entry extends the entries made so far by one, in table order. |
| Encoding.EncodeSamples | idability.py:390-399 | One entry per sample, in table order. Each is the `Greedy` result over that sample's own ranked list, and meets `EncodesWell`. |
| Encoding.DetectedRanked | idability.py:379-385 | The features a sample has at the detection level, ranked by either strategy, are features of the transpose that the sample carries, so they can all be candidates. |
| Encoding.FoundMade | idability.py:379-399 | An entry found on a list ranked from the prepared tables equals `MadeCode`: the `Greedy` result over the strategy's ranking, with the ranking's `abund_nondetect`, of the sample's detected features. |
| Encoding.Encode | idability.py:374-400 | `funcEncode` gives every sample of the table an entry, in table order. Each entry is `MadeCode` over the transpose of the table: it depends on the chosen ranking strategy, on `abund_nondetect` and on the cutoff and minimum size. Each entry also meets `EncodesWell`. |
| Decoding.Matches | idability.py:410-415 | The matches are a sub-sequence of the table's samples. |
| Decoding.MatchesMembers | idability.py:412-414 | A sample is matched exactly when it is listed and its feature set holds every code feature. |
| Decoding.UnknownFeatureMatchesNothing | idability.py:410-414 | A code with a feature no sample carries hits nothing. |
| Decoding.CheckOneCode | idability.py:406-415 | The hits are the matching samples in table order, without repeats. |
| Decoding.MatchesAreHits | idability.py:421-424 | Matching against the reduced key-set table hits exactly the samples that have every code feature at `>= abund_detect`. |
| Decoding.Decode | idability.py:417-425 | The keys are exactly those of `sample_codes`, in order. A null code gives null; any other code gives its exact hit list. |
| Decoding.FalseHits | idability.py:253 | The false hits are exactly the hits other than the sample itself. |
| Decoding.Classify | idability.py:248-258 | The five classes, each as an if-and-only-if: NA iff null; TP iff only the own sample is hit; TP+FP iff the own sample and another are hit; FN+FP iff others are hit but not the own sample; FN iff nothing is hit. |
| Decoding.TallyTotal | idability.py:248-258 | Every entry falls in exactly one class, so the five tallies add up to the number of entries. |
| Decoding.CheckHits | idability.py:243-259 | The counter has the five keys in creation order. Each key's count is its class tally, and the counts sum to the number of entries. |
| Decoding.OwnCodeIsTruePositive | idability.py:372-425 | A code that identifies its sample, decoded at the same or a lower detection level, hits that sample alone (`1|TP`). |
| Decoding.SelfDecodeClasses | idability.py:374-425 | Decoding a table with the codes `funcEncode` made from it, listed in any order (as the sorted codes file lists them), gives every entry class TP or NA. |
| Decoding.SelfDecodeNoErrors | idability.py:243-259 | The confusion counts of such a self-decode are 0 for `2|TP+FP`, `3|FN+FP` and `4|FN`; TP plus NA is the number of entries. |
| Text.SplitPieces | idability.py:282 | No piece of `split(sep)` contains the separator. |
| Text.JoinSplit | idability.py:282 | Joining the pieces of a split gives back the string. |
| Text.SplitJoin | idability.py:271 | Splitting a join of separator-free items gives back the items. |
| Text.StripLine | idability.py:282 | `strip()` of a written line gives back its text when the text neither starts nor ends with whitespace (Python's `str.isspace` set). |
| Text.SplitFirst | idability.py:192 | The first piece of a split is the longest separator-free prefix. |
| CodesFile.ParseLine | idability.py:282-284 | No parsed field contains a tab, and a non-null code never contains `#N/A`. |
| CodesFile.LineReadBack | idability.py:269-284 | A line whose fields hold no tab or line break, and whose text does not start or end with whitespace, reads back as written, except that a code containing `#N/A` reads back as null. Names may contain spaces. |
| CodesFile.FramedByEnds | idability.py:269-271 | Such a line needs only a sample name not starting with whitespace and a last field that is non-empty and does not end with whitespace. |
| CodesFile.LineRoundTrip | idability.py:269-284 | Parsing the line written for a sample and its code (or null) gives back exactly that sample and code, when the line is as above and no feature is `#N/A`. |
| CodesFile.WriteCodes | idability.py:261-272 | The file is the header followed by one formatted line per sample, in the order given. |
| CodesFile.ReadCodes | idability.py:274-285 | The header is skipped and each later line sets its sample's entry, a later line overriding an earlier one. An empty file gives an empty dict. |
| CodesFile.LinesRoundTrip | idability.py:267-284 | Reading back the lines written for distinct samples gives those samples, in written order, with their codes (under the line condition above). |
| CodesFile.FileRoundTrip | idability.py:261-285 | Writing a codes dict and reading the file back gives the same codes, keyed in the written order (under the line condition above). |
| Options.DefaultRun | idability.py:115-182 | With the defaults, encoding and decoding detect at the same positive level, non-detection is at most detection, and there is no cutoff: the self-decode results apply to a default run. |
| Options.Configure | idability.py:446-455 | Meta mode off keeps every parameter. A meta mode sets cutoff 0.8, minimum code size 7 and abundance-gap ranking. `rpkm` detects at 5 when encoding and 0.5 when decoding, with non-detection 0.05; `relab` detects at 0.001 and 0.0001, with non-detection 0.00001 (computed at idability.py:449-452; the usage text at idability.py:71 gives the `rpkm` encoding line). |
| Options.MetaDecodeRelaxed | idability.py:449-452 | In a meta mode, decoding detects at a tenth of the encoding level with the same non-detection level. So the self-decode results above apply. |
| Options.Tail | idability.py:192 | `os.path.split(path)[1]` is the suffix after the last `/`, with no `/` in it. |
| Options.PathToNameShape | idability.py:191-192 | `funcPathToName` gives the file name up to its first `.`, with no `.` and no `/` in it. |
| Options.NamedPathFields | idability.py:458-465 | A default output path, split on `.`, gives back the names it was built from, then the extension. |
| Options.DefaultPathFields | idability.py:458-465 | The same, with the extension spelled out (`codes`, `txt` or `hits`, `txt`). |
| Options.OutputPathFields | idability.py:457-465 | Without `-o`: the output path split on `.` is the table's name, the codes file's name when decoding, then `codes.txt` or `hits.txt`. |

## Left out

- **Loading the table.** `funcLoadSFV` (CSV reading, float parsing, the row-length
  assertion) is file I/O. Tables are given as values. So are the codes file and the hits
  file: sequences of lines. The loader keeps only values `>= cutoff`
  (idability.py:211), and the program calls it with `abund_nondetect`
  (idability.py:469). The tables the model is given are taken to be loaded ones: a
  sample has an entry for a feature exactly when its value is at least
  `abund_nondetect`. So a missing entry is how non-detection shows: `Has` and the carriers
  of a feature mean "present at least at `abund_nondetect`", and `Identifies` and
  `Shadowed` use them for the other samples. The model does not check that values below
  `abund_nondetect` are absent.
- **`funcWriteHits`.** It is file output only: the confusion lines and one line per
  sample. Its counting, `funcCheckHits`, is modelled.
- **Command line and logging.** `funcGetArgs` (argparse) and `sys.stderr` logging are
  I/O. Their result is the `Options.Arguments` value.
- **Floating point.** IEEE float behaviour is not modelled. Values, thresholds and the
  Jaccard ratio are exact reals, so rounding at a cutoff boundary is not captured.
- **KeyError and ZeroDivisionError.** These are preconditions, and the source's own
  callers always meet them:
  - a ranked feature must be a key of `fsv` / `fsv_sets`;
  - a Jaccard union must be non-empty.
- Encoding.MakeOneCode: when a cutoff is set, it requires every candidate to have a
  carrier. The source only needs each compared pair's union to be non-empty.
  `funcEncode` always meets the stronger condition, because a sample carries each of
  its own features.
- Encoding.EncodesWell: minimality is not claimed, because the source has no pruning
  (see above). The length bound is the one the keep/drop rule gives.
- Encoding.EntryEncodesWell: `EncodesWell` states, in terms of the table, that a code
  identifies its sample, has distinct features and is bounded in length. It does not say
  how far the code was padded toward `min_code_size`. That promise is stated on
  `Encoding.MakeOneCode` (the code is exactly `Kept` of the popped features) and
  `Encoding.KeptPadding`, whose terms are the ranked list and the popped features,
  which `EncodesWell` does not mention.
- Encoding.EncodeSamples: `EncodesWell` leaves out the padding promise in the same way.
  The entries are also tied to `Encoding.Greedy`, which does the padding.
- Encoding.Encode: the table-level predicate `EncodesWell` uses `min_code_size` only
  in its upper length bound. The padding is part of `MadeCode`, through `Greedy`.
- CodesFile.WriteCodes: it writes samples in the order it is given. The source writes
  them sorted by name; string ordering is not modelled.
- CodesFile.FileRoundTrip: it requires each line to meet `CodesFile.Writable`: no tab or
  line break in a name, a line text that does not start or end with whitespace, and no
  feature named `#N/A`. The source does not read other lines back as written either:
  `strip` removes the outer whitespace, `split` cuts at every tab, a line break starts a
  new line, and a code containing `#N/A` reads back as null (`CodesFile.LineReadBack`).
- **Whitespace.** `str.strip()` uses Python's `str.isspace` set (`Text.IsSpace`).
  Unicode normalisation is not modelled.
- **Paths.** `os.path.split` is modelled with `/` as the only separator. Platform
  path semantics are not modelled.
