# SPTR terminology pipeline: a verified Dafny model

This project models the core of SPTR, a pipeline that extracts industry
terms from a Solr-indexed corpus:

- candidate terms are chunked out of part-of-speech tagged sentences;
- the candidates are filtered by stopwords, length and corpus frequency;
- they are tagged against a dictionary, exactly or fuzzily through a trie
  with Levenshtein search;
- they are ranked by C-value and cut off at a threshold;
- the final terms are written back to the documents and grouped by
  normalised form.

Around that core the model covers the Solr client's response decoders, its
batched total-term-frequency request with the label encode/decode, its
error-page scraping, the OpenCalais entity bucketing and the file helpers
the pipeline uses.

The model has one module per source file:

- `IndustryTermRecogniser` (src/IndustryTermRecogniser.py)
- `TaggingProcessor` (src/TaggingProcessor.py)
- `TrieTagger` (src/trie_dictionary_tagger.py)
- `SolrClient` (src/SolrClient.py)
- `LinguisticPreprocessor` (src/LinguisticPreprocessor.py)
- `EntityTagging` (src/entityTagging.py)
- `FileUtil` (src/FileUtil.py)

Four shared modules model Python's own behaviour:

- `Wrappers`: `Option`, and `Result` carrying the Python exception a failing
  call raises (`IndexError`, `KeyError`, `TypeError`, `ValueError`,
  `AttributeError`);
- `Strings`: `str.split`, `str.join`, `str.replace`, `str.strip` and
  `str.split()` on whitespace;
- `Dicts`: a dict as a map plus its insertion order, with `d[k] = v`,
  `dict(pairs)` and `items()`;
- `Sorting`: `sorted()` as a stable insertion sort.

Collaborators outside the core are parameters of the operations that use
them:

- Solr's answers, `TermUtil.normalise`, Solr field analysis;
- NLTK's sentence tokeniser, tagger and chunker;
- `distance.nlevenshtein` and `math.log(., 2)`;
- the file readers.

Code that updates state step by step is modelled as methods with loops:

- the trie is a class whose methods update its fields;
- the DP row, the result and batch loops, and `setdefault(...).append` are
  loops whose invariants tie them to specification functions.

Comprehensions and expressions are modelled as functions.

The model follows the code as written, including these behaviours that a
reader of its comments might not expect:

- `frequency_filtering` returns the empty set whenever the minimum
  frequency is at most 1. It does not return the input unfiltered.
- A determiner inside a chunk is glued to the previous text without a
  space, and a leading determiner leaves an empty piece, so the rebuilt term
  starts with a space (`TaggingProcessor.LeadingDeterminer`,
  `TaggingProcessor.MidDeterminer`).
- The C-value grows, not shrinks, with the number P of longer terms when
  their frequency sum is positive (`IndustryTermRecogniser.CValueGrowsWithP`).
- The label round trip of `totaltermfreq` needs more than "the normalised
  term contains neither the prefix nor `')`".
  - With field `f`, the term `ttf(f,` contains neither, yet its label
    `ttf(f,'ttf(f,')` loses it.
  - The condition the model proves the round trip under is
    `SolrClient.LabelSafe`.
  - `SolrClient.LabelLossy` shows a term containing `')` coming back
    changed.

## Model

| member | source | states |
|---|---|---|
| TrieTagger.Trie.constructor | src/trie_dictionary_tagger.py:37-40 | a new node is a well-formed trie that holds no word |
| TrieTagger.Trie.ChildFor | src/trie_dictionary_tagger.py:47-51 | one step of insert: the child for the letter (created when missing) has the parent's path plus that letter; the stored words are unchanged; only the parent may gain a link, and only for that letter; every new node's path is a prefix of the extended path |
| TrieTagger.Trie.WalkTo | src/trie_dictionary_tagger.py:46-51 | the letter loop of insert ends at the node whose path is the word; no word changes; new nodes lie on the word's path, and a node keeps its links unless its path is a proper prefix of the word, in which case it gains at most the link for the word's next letter |
| TrieTagger.Trie.Insert | src/trie_dictionary_tagger.py:45-53 | after insert(w) the trie still has its shape and holds exactly its old words plus w; existing nodes keep their paths; every new node's path is a prefix of w; a node keeps its links unless its path is a proper prefix of w, and then gains at most the link for the next letter of w; every other node keeps its word |
| TrieTagger.PathsInjective | src/trie_dictionary_tagger.py:45-53 | two nodes reached by the same letters are the same node, so each word is stored at one node |
| TrieTagger.ChildOnPath | src/trie_dictionary_tagger.py:47-51 | every node whose path extends a node's path lies below one of that node's children |
| TrieTagger.NextRow | src/trie_dictionary_tagger.py:75-90 | the DP row built column by column from the parent's row is the row of Levenshtein distances of the extended prefix against every prefix of the query |
| TrieTagger.DistLast | src/trie_dictionary_tagger.py:82-90 | one DP entry is the minimum of insert, delete and replace (free on equal letters) costs |
| TrieTagger.Pruned | src/trie_dictionary_tagger.py:97-102 | once every entry of a row exceeds maxCost, no stored word below that node is within maxCost, so pruning loses nothing |
| TrieTagger.OwnReported | src/trie_dictionary_tagger.py:94-95 | the entry appended for a node is its word paired with its exact distance, exactly when that distance is at most maxCost |
| TrieTagger.CoveredAll | src/trie_dictionary_tagger.py:99-102 | the node's children together cover all words strictly below it, each under exactly one child |
| TrieTagger.SearchRecursive | src/trie_dictionary_tagger.py:73-102 | appends to the results exactly the stored words at or below the node within maxCost, each once with its exact distance, leaving earlier results untouched |
| TrieTagger.SearchBranches | src/trie_dictionary_tagger.py:65-67 | the loop over a node's children appends exactly the matching words strictly below the node, each once |
| TrieTagger.Search | src/trie_dictionary_tagger.py:57-69 | soundness, completeness and no duplicates: the result lists, once each, exactly the non-empty stored words within maxCost of the query, each with its Levenshtein distance; the root's word is never reported |
| TrieTagger.SearchSet | src/trie_dictionary_tagger.py:57-69 | the words below the root within maxCost are the non-empty stored words within maxCost |
| TrieTagger.DistZero | src/trie_dictionary_tagger.py:94 | the edit distance is zero exactly between equal strings |
| TrieTagger.ExactSearch | src/trie_dictionary_tagger.py:94 | with maxCost 0 the search finds the query itself if it is stored and non-empty, and nothing else |
| TaggingProcessor.ExactMatches | src/TaggingProcessor.py:45-46 | the exact-match list is non-empty iff the term is a dictionary term, and holds only the term |
| TaggingProcessor.SimilarEnough | src/TaggingProcessor.py:52-54 | the filtered similar list is non-empty iff some trie hit reaches the similarity threshold |
| TaggingProcessor.TermAsyncComparison | src/TaggingProcessor.py:33-57 | returns the term when it is an exact dictionary term, or when fuzzy matching is on and some hit of the cost-3 trie search is similar enough; otherwise "" |
| TaggingProcessor.TaggedTermsAdd | src/TaggingProcessor.py:279-281 | one more indexed term joins the tagged set exactly when it is accepted and not empty |
| TaggingProcessor.TermDictionaryTagging | src/TaggingProcessor.py:275-285 | the tagged terms are the non-empty indexed terms that term_async_comparison accepts, and no others; "" never appears |
| TaggingProcessor.LoadDictionaryTrie | src/TaggingProcessor.py:210-216 | with fuzzy matching the trie holds exactly the (normalised) dictionary terms, otherwise no word |
| TaggingProcessor.Reconstruct | src/TaggingProcessor.py:235-250 | the loop over a chunk's tokens builds the string that the reconstruction rules define |
| TaggingProcessor.OrdinarySurface | src/TaggingProcessor.py:246-248 | a chunk of ordinary tokens is rebuilt as its words joined by single spaces |
| TaggingProcessor.QuoteSkipped | src/TaggingProcessor.py:237-239 | removing a '"' token from any position of any chunk leaves its pieces and its rebuilt string unchanged |
| TaggingProcessor.PiecesEmpty | src/TaggingProcessor.py:237-239 | a chunk yields no piece iff every token is '"' |
| TaggingProcessor.PiecesAfter | src/TaggingProcessor.py:240-248 | once a chunk has a piece, each later token adds its mid-chunk piece: none for '"', the bare word for POS and DT, a space and the word otherwise |
| TaggingProcessor.LeadingDeterminer | src/TaggingProcessor.py:242-248 | for any rest of the chunk, a leading determiner leaves an empty first piece followed by the rest's mid-chunk pieces, so before an ordinary word the rebuilt term is a space and the rebuilt rest |
| TaggingProcessor.MidDeterminer | src/TaggingProcessor.py:242-244 | a determiner after any chunk holding a non-quote token is appended with no space; after only quotes the rebuilt term is empty |
| TaggingProcessor.ParsingCandidatesRegexp | src/TaggingProcessor.py:227-251 | the candidates are exactly the rebuilt strings of the chunks labelled TermCandidate |
| TaggingProcessor.NonBlankParts | src/TaggingProcessor.py:262 | only non-blank segments are kept, each the stripped form of some input segment, never more than the input had |
| TaggingProcessor.Segments | src/TaggingProcessor.py:258-262 | no segment contains a carriage return, a newline, a vertical bar or a tab |
| TaggingProcessor.SentenceSplit | src/TaggingProcessor.py:253-265 | a string is a sentence iff the tokeniser yields it for some stripped non-blank separator segment |
| TaggingProcessor.SplitWithWholeSegments | src/TaggingProcessor.py:253-265 | with a tokeniser that keeps each segment whole, sentence_split gives the stripped non-blank separator segments in order |
| TaggingProcessor.FlattenSingletons | src/TaggingProcessor.py:264 | flattening keeps the order of the sentences |
| TaggingProcessor.LinguisticFilter | src/TaggingProcessor.py:364-402 | every result passes the token-count, min-char and non-empty checks; every result is a stopword-free candidate or a recovered candidate without its first stopword; every candidate of either kind that passes the checks is in the result |
| TaggingProcessor.CheckMinCharLimit | src/TaggingProcessor.py:349-362 | true iff no ' '-piece of the term is shorter than the limit (empty pieces count as too short) |
| TaggingProcessor.GetTermTtf | src/TaggingProcessor.py:342-347 | the ttf of a present key, KeyError for a missing key |
| TaggingProcessor.Frequent | src/TaggingProcessor.py:331-337 | keeps exactly the candidates whose normalised form has a ttf strictly above the minimum |
| TaggingProcessor.FrequencyResultSubset | src/TaggingProcessor.py:327-340 | the frequency filter never adds a term, and returns the empty set when the minimum is at most 1 |
| TaggingProcessor.FrequencyFiltering | src/TaggingProcessor.py:316-340 | the loop computes the frequency filter, including its KeyError cases |
| TaggingProcessor.GrammarItem | src/TaggingProcessor.py:223 | a grammar line loses all its newlines and its surrounding whitespace |
| TaggingProcessor.LoadGrammars | src/TaggingProcessor.py:218-225 | one grammar per line, with no newline and no surrounding whitespace |
| TaggingProcessor.CandidateGrammars | src/TaggingProcessor.py:297 | the rules are the non-comment patterns wrapped as TermCandidate rules |
| TaggingProcessor.AllCandidatesMembers | src/TaggingProcessor.py:301-306 | a string is a raw candidate iff some sentence under some grammar yields it |
| TaggingProcessor.SentenceCandidatesMembers | src/TaggingProcessor.py:304-306 | a string is a candidate of one sentence iff some grammar yields it |
| TaggingProcessor.ParseWithGrammars | src/TaggingProcessor.py:304-306 | the inner loop collects the union over the grammars |
| TaggingProcessor.CollectCandidates | src/TaggingProcessor.py:301-306 | the outer loop collects the union over the sentences |
| TaggingProcessor.TermCandidateExtraction | src/TaggingProcessor.py:287-314 | the candidates are the frequency filter of the linguistic filter of the union over sentences and grammars |
| LinguisticPreprocessor.CustomisedPreprocessing | src/LinguisticPreprocessor.py:50-51 | same length and same tokens; ( ) @ \ / get their own text as tag; all other tokens keep the tagger's tag |
| LinguisticPreprocessor.CustomisedIdempotent | src/LinguisticPreprocessor.py:51 | applying the override twice is applying it once |
| IndustryTermRecogniser.LongerTest | src/IndustryTermRecogniser.py:460-461 | the comprehension's condition holds iff the candidate is a longer term, and raises iff some normalisation it reaches fails |
| IndustryTermRecogniser.LongerTermsScan | src/IndustryTermRecogniser.py:459-461 | the comprehension keeps, in order, exactly the longer terms, or raises AttributeError |
| IndustryTermRecogniser.GetLongerTerms | src/IndustryTermRecogniser.py:447-466 | never contains the term; every member is a different surface form with a different normal form whose token set includes the term's; a subsequence of the candidates; complete when nothing raises; [] on AttributeError |
| IndustryTermRecogniser.SumNonNegative | src/IndustryTermRecogniser.py:414-416 | a sum of non-negative frequencies is non-negative |
| IndustryTermRecogniser.SumTtfCandidates | src/IndustryTermRecogniser.py:413-416 | 0 when Solr reports no frequency; never negative when every reported frequency is non-negative |
| IndustryTermRecogniser.SumTtfSameCandidates | src/IndustryTermRecogniser.py:413-416 | the sum depends only on the set of candidates: reordering or repeating them changes nothing |
| IndustryTermRecogniser.CValue | src/IndustryTermRecogniser.py:508-520 | 0 when log2(a) is 0; log2(a)·freq without longer terms or with a zero sum; log2(a)·freq − log2(a)·(sum_fb/P) otherwise, never above log2(a)·freq when log2(a) and sum_fb are non-negative |
| IndustryTermRecogniser.Calculate | src/IndustryTermRecogniser.py:497-522 | AttributeError when the term does not normalise (the frequency request normalises it first), else IndexError without a frequency; otherwise (term, log2(a)·freq) without longer terms and (term, log2(a)·(freq − sum_fb/P)) with them |
| IndustryTermRecogniser.OnePieceScoresZero | src/IndustryTermRecogniser.py:507-510 | a term whose normal form is one piece scores 0 whatever its frequency |
| IndustryTermRecogniser.CValueGrowsWithP | src/IndustryTermRecogniser.py:513-518 | with a positive sum and log2(a) > 0 the score strictly grows with P |
| IndustryTermRecogniser.CalculateAll | src/IndustryTermRecogniser.py:481-483 | starmap gives each candidate's result in candidate order, or fails iff some calculation fails |
| IndustryTermRecogniser.ScoreGeTotalPreorder | src/IndustryTermRecogniser.py:491 | the descending score order is a total preorder |
| IndustryTermRecogniser.Ranking | src/IndustryTermRecogniser.py:468-494 | one pair per distinct candidate, each its own calculation, sorted by non-increasing score; fails iff some calculation fails |
| IndustryTermRecogniser.RankedTerms | src/IndustryTermRecogniser.py:488-491 | the dict-then-sort keeps each candidate exactly once with its own score |
| IndustryTermRecogniser.CutOff | src/IndustryTermRecogniser.py:154 | keeps exactly the terms scoring strictly above the threshold, in ranked order |
| IndustryTermRecogniser.CutOffPrefix | src/IndustryTermRecogniser.py:154 | on a ranking the final set is a prefix: all terms up to k pass, all later terms fail |
| IndustryTermRecogniser.NothingAbove | src/IndustryTermRecogniser.py:154 | a top score not above the threshold gives an empty final set |
| IndustryTermRecogniser.PageOffsets | src/IndustryTermRecogniser.py:180 | range(0, total, 10): ⌈total/10⌉ offsets, each i·10 and below total |
| IndustryTermRecogniser.FinalizeDoc | src/IndustryTermRecogniser.py:186-201 | a document with candidates gets (candidates ∩ final set), plus its dict terms when configured; one without gets the empty field; nothing else changes |
| IndustryTermRecogniser.CommitsOf | src/IndustryTermRecogniser.py:186-199 | the commit batch consists of the finalised documents that have candidates, and includes all of them |
| IndustryTermRecogniser.FinalizePage | src/IndustryTermRecogniser.py:185-201 | the loop gives every document its industry-term field and collects those with candidates |
| IndustryTermRecogniser.FinalTermSetIndexing | src/IndustryTermRecogniser.py:168-206 | one commit batch per page, each the committed documents of that page |
| IndustryTermRecogniser.TagDoc | src/IndustryTermRecogniser.py:375-388 | KeyError without content or id; the extractor's error is propagated; otherwise the candidates (and dict terms when on) are set and nothing else changes |
| IndustryTermRecogniser.TagPage | src/IndustryTermRecogniser.py:374-390 | every document tagged in order, or the error of a failing document |
| IndustryTermRecogniser.TagPageFirstError | src/IndustryTermRecogniser.py:374-390 | the error of a page is the error of its first failing document |
| IndustryTermRecogniser.TagPageLoop | src/IndustryTermRecogniser.py:373-390 | the document loop computes the page's tagging |
| IndustryTermRecogniser.BatchCandidateTagging | src/IndustryTermRecogniser.py:357-395 | one committed batch per page until the first failing page; every committed batch is its page tagged; the error is that page's |
| IndustryTermRecogniser.TermLeTotalPreorder | src/IndustryTermRecogniser.py:282 | sorting items with distinct terms orders by term, a total preorder |
| IndustryTermRecogniser.TermsWithNormAscending | src/IndustryTermRecogniser.py:282-283 | over items with strictly ascending terms each group is strictly ascending |
| IndustryTermRecogniser.SetDefaultAppend | src/IndustryTermRecogniser.py:283 | setdefault(n, []).append(t): a new normal form goes last with [t]; an existing one gets t appended |
| IndustryTermRecogniser.GroupStep | src/IndustryTermRecogniser.py:282-283 | one loop step keeps v the grouping of the items visited so far |
| IndustryTermRecogniser.GroupByNorm | src/IndustryTermRecogniser.py:280-283 | after the loop v groups every item's term under its normal form, in visiting order |
| Sorting.Sort | src/IndustryTermRecogniser.py:491 | sorted() returns a permutation ordered by the comparison |
| Sorting.SortStable | src/IndustryTermRecogniser.py:491 | sorted() is stable: the elements that compare equal to any element keep their input order |
| IndustryTermRecogniser.SortedItemsFacts | src/IndustryTermRecogniser.py:281-282 | the sorted items pair each term with its normal form, cover every term and strictly ascend |
| IndustryTermRecogniser.GroupFacts | src/IndustryTermRecogniser.py:282-285 | each group is non-empty, of one normal form, and strictly ascending |
| IndustryTermRecogniser.GroupCovers | src/IndustryTermRecogniser.py:282-285 | every term lands in some group |
| IndustryTermRecogniser.SynonymGroups | src/IndustryTermRecogniser.py:280-285 | the groups partition the terms by normal form, each sorted |
| IndustryTermRecogniser.SynonymAggregation | src/IndustryTermRecogniser.py:263-285 | nothing when export is off; otherwise groups that partition the terms by normal form, each in ascending order, with the groups in ascending order of their first terms (the `v.values()` order) |
| IndustryTermRecogniser.GroupHeadsAscend | src/IndustryTermRecogniser.py:282-285 | over items in ascending term order, the groups in `v`'s key order ascend strictly by their first terms |
| IndustryTermRecogniser.TermsWithNormHead | src/IndustryTermRecogniser.py:282-283 | a normal form's group starts with the term of the first item that has that normal form |
| Dicts.DistinctFirstIndexOrder | src/IndustryTermRecogniser.py:283 | a dict's keys in insertion order are ordered by the positions where each key was first set |
| SolrClient.Pairs | src/SolrClient.py:306-308 | pairs even-index keys with the following odd-index values; a trailing key is dropped |
| SolrClient.Decode | src/SolrClient.py:303-317 | IndexError on empty data; otherwise TypeError exactly when some paired key is a list; on success, a list of dicts exactly when the first key is 'start' or 'position', else a dict |
| SolrClient.DecodeDict | src/SolrClient.py:316-317 | the dict branch has exactly the even-index keys, each with the value of its last pair |
| SolrClient.DecodePositions | src/SolrClient.py:309-315 | the position branch is a list of dicts, each built from two consecutive pairs |
| SolrClient.DecodeValuesIn | src/SolrClient.py:303-317 | every decoded value is a value of the input |
| SolrClient.List2Dict | src/SolrClient.py:303-317 | the loop computes the decoding |
| SolrClient.PositionList | src/SolrClient.py:311-315 | the chunk loop builds the list of two-pair dicts, or TypeError on an unhashable key |
| SolrClient.NestedOther | src/SolrClient.py:319-322 | a list result or an error passes through unchanged |
| SolrClient.NestedDict | src/SolrClient.py:322-328 | a dict result keeps its keys in order and its key set, with each list value replaced by its recursive conversion |
| SolrClient.ConvertFromKeys | src/SolrClient.py:323-327 | assigning back over the first n keys leaves the key order and the key set unchanged |
| SolrClient.NestedDictValues | src/SolrClient.py:323-327 | non-list values stay, list values become their nested decoding |
| SolrClient.NestedList2Dict | src/SolrClient.py:319-328 | the method computes the nested decoding |
| SolrClient.ConvertValues | src/SolrClient.py:323-327 | the in-place loop over d's items computes the conversion of every value |
| SolrClient.Batches | src/SolrClient.py:219-224 | ⌈n/10⌉ batches |
| SolrClient.BatchesCover | src/SolrClient.py:223-224 | each batch holds 1 to 10 terms, term i is item i mod 10 of batch i div 10, and every batch item is a term |
| SolrClient.BatchesExactlyOnce | src/SolrClient.py:219-224 | over distinct terms, each term is in exactly one batch |
| SolrClient.LabelRoundTrip | src/SolrClient.py:226-242 | stripping the label prefix and `')` recovers the normalised term, under LabelSafe |
| SolrClient.LabelLossy | src/SolrClient.py:242 | a term containing `')` does not survive the round trip |
| SolrClient.BatchLabels | src/SolrClient.py:226 | one label per term of the batch, or AttributeError when some term does not normalise |
| SolrClient.UpdateWith | src/SolrClient.py:239 | update adds every key of the answer and leaves the other keys alone |
| SolrClient.UpdateKeepsOrder | src/SolrClient.py:239 | the old keys keep their places and new keys follow them |
| SolrClient.UpdateLastWins | src/SolrClient.py:239 | each key of the answer ends with the value of its last pair |
| SolrClient.MergedColumns | src/SolrClient.py:223-239 | when Solr answers with the requested columns, the merged keys are exactly the labels of the terms |
| SolrClient.TotalTermFreqKeys | src/SolrClient.py:208-242 | the result is keyed exactly by the normalised forms of the terms (colliding terms merge) |
| SolrClient.TotalTermFreq | src/SolrClient.py:208-242 | the batch loop computes the merged, renamed dict, or the first error |
| SolrClient.MergedFails | src/SolrClient.py:223-239 | a failing batch ends the request with its error |
| SolrClient.PreBlock | src/SolrClient.py:24 | a found block runs from the leftmost `<pre>` to the first `</pre>` after it |
| SolrClient.PreBlockNone | src/SolrClient.py:24 | there is no block exactly when no `<pre>` is followed by a `</pre>` |
| SolrClient.ExtractError | src/SolrClient.py:271-283 | the message starts with "Error: ", is never longer than that prefix plus the response, and without a block is that prefix plus the whole response |
| SolrClient.ExtractErrorWhole | src/SolrClient.py:283 | without a block the message is "Error: " plus the whole response |
| SolrClient.ExtractErrorBlock | src/SolrClient.py:277-282 | with a block the message is "Error: " plus the block without its tags |
| SolrClient.TagsRemoved | src/SolrClient.py:280-281 | removing the tags from a block whose body has none gives the body back |
| EntityTagging.CheckOrderCategories | src/entityTagging.py:107-128 | the tests cover each of the 11 supported categories once |
| EntityTagging.TypesDisjoint | src/entityTagging.py:87-97 | the category type sets are pairwise disjoint |
| EntityTagging.EmptyBuckets | src/entityTagging.py:99-102 | every supported category starts with an empty set |
| EntityTagging.AddAllEffect | src/entityTagging.py:107-128 | the tests raise iff a collecting category is tested and the item has no name; otherwise exactly those buckets gain its non-empty name |
| EntityTagging.ItemStepEffect | src/entityTagging.py:105-128 | one item raises exactly when Raises says so; otherwise it adds its name only to the buckets it contributes to |
| EntityTagging.ExtractEntities | src/entityTagging.py:82-131 | KeyError iff some item raises; otherwise the keys are the 11 categories and a name is in a bucket iff some entity item of a collected type carries it |
| EntityTagging.ExtractEmpty | src/entityTagging.py:104 | an empty answer gives all-empty buckets |
| EntityTagging.ContributedName | src/entityTagging.py:107-128 | every collected name is the name of some input item |
| EntityTagging.ContributesOnce | src/entityTagging.py:87-128 | an item lands in at most one category |
| FileUtil.FindSep | src/FileUtil.py:183 | the first '/' or '\' at or after a position, or none |
| FileUtil.SplitPath | src/FileUtil.py:183 | the tail has no separator and is a suffix of the path |
| FileUtil.PathLeaf | src/FileUtil.py:181-184 | the leaf never contains '/' or '\' and is never longer than the path |
| FileUtil.PathLeafPiece | src/FileUtil.py:181-184 | the leaf is a contiguous piece of the path |
| FileUtil.PathLeafAfterLastSep | src/FileUtil.py:181-184 | without a trailing separator the leaf is the text after the last separator (or drive) |
| FileUtil.PathLeafTrailing | src/FileUtil.py:183-184 | for any path, with or without a drive, that ends in separators after a non-empty component, the leaf is that last component, taken after the drive and ending where the trailing separators start |
| FileUtil.DriveOfPrefix | src/FileUtil.py:183 | a prefix that ends in a non-separator and reaches past the drive has the same drive (so the head ntpath.split returns keeps the path's drive) |
| FileUtil.LineTuple | src/FileUtil.py:125-126 | the first field is the text before the leftmost delimiter, and the second runs from just after it to the next delimiter or the end of the line; neither contains the delimiter |
| FileUtil.LineTupleUnique | src/FileUtil.py:125-126 | any two fields placed that way are LineTuple's, so the contract fixes both fields |
| FileUtil.LoadTupleList | src/FileUtil.py:117-128 | one tuple per line in order; ValueError on an empty delimiter and IndexError on a line without it |
| FileUtil.MissingSecondField | src/FileUtil.py:125-126 | a line without the delimiter splits into one field |
| FileUtil.GroupedStep | src/FileUtil.py:101-110 | one data row adds its id in first-seen order and its extracted term to that id's set |
| FileUtil.GroupedSkip | src/FileUtil.py:99-100 | a header row changes neither the ids nor any id's terms |
| FileUtil.GroupedDictMeaning | src/FileUtil.py:99-110 | the dictionary the loop builds holds every non-header id once, in first-seen order, with exactly the terms extracted from that id's rows |
| FileUtil.LoadSentTermDict | src/FileUtil.py:92-115 | fails iff some row is short or the extractor raises on some data row's sentence, with the error of the first such row (IndexError, or the extractor's); otherwise the loop's dictionary, whose keys are the non-header ids in first-seen order, each with the union of its rows' extracted terms |

## Left out

- Transport: HTTP and Solr requests, the JSON result wrappers and the
  `urlsplit` set-up. Every Solr answer (documents per page, `docs` per ttf
  request, field analysis) is an input function.
- Libraries: NLTK and TextBlob (sentence tokeniser, tagger, regexp
  chunker, stopword corpus), `TermUtil.normalise`, `distance.nlevenshtein`
  and `math.log`. They are parameters; normalisation failing with
  `AttributeError` is `None`.
- Floating point: scores and similarities are `real`, and `log2` is an
  abstract function.
- Parallelism: `MultiprocPool.starmap` is a sequential map that keeps order.
- Interface mismatch: `totaltermfreq` returns one dict, while its callers
  unpack two. `frequency_filtering` therefore takes the ttf map and the
  term-to-normal-form map as explicit inputs. `calculate` and
  `sum_ttf_candidates` take a function from a set of terms to the values of
  the ttf dict, in its order, together with the normaliser, and
  `calculate` fails with `AttributeError` first when the term does not
  normalise, since the request normalises it.
- Persistence and export: sqlite, CSV export and pickle,
  `save_ranked_candidates_to_db`, `export_ranked_terms_to_csv`, and the
  final CSV write of `synonym_aggregation`.
- File reads: `read_by_line`, `load_terms_from_csv` and the trie's
  `load_dict_from_csv`. The lines and CSV rows read are inputs; a blank CSV
  line is an empty row.
- Configuration: the `configparser` fallbacks in the constructors. The
  settings are parameters.
- `term_variations_detection`: it reads an undefined global and calls a
  dict, so it has no coherent behaviour.
- Out-of-scope files: `gazetteerExtractor.py`, `integration.py` and
  `IntegrationService.py`.
- Network and HTML helpers: `Calais.rest_POST`, `is_image`,
  `is_url_accessible`. `extract_tagged_term_from_sent` is an input
  function that may raise: it reads `found` even when its regex did not
  match, so a sentence without a `<term id…</term>` snippet raises
  UnboundLocalError (src/FileUtil.py:146-150); the model lets it
  return `Failure(UnboundLocalError)`, and `LoadSentTermDict` passes that on.
- `load_ann_sent_dict_from_acl_rd_tec_file`: it is not part of the core.
- The global `NodeCount` and `WordCount` counters.
- TrieTagger.Trie: nodes live in one arena of indices rather than one
  object per node, so sharing a node between two tries is not modelled.
- IndustryTermRecogniser.FinalizeDoc: `list(set(...))` has an unspecified
  order. The field is modelled as a set, and multi-valued document fields
  are sets.
- IndustryTermRecogniser.FinalTermSetIndexing: documents are values. The
  updated page is returned rather than changed in place, and the batches
  Solr commits are the method's result.
- IndustryTermRecogniser.BatchCandidateTagging: it works on document
  values in the same way.
- TaggingProcessor.TermDictionaryTagging: the set order that `starmap`
  sees is irrelevant to the resulting set and is not modelled.
- SolrClient.Decode: `Value` models four JSON kinds: strings, integers,
  floats (as exact reals) and arrays. JSON null, booleans and objects are
  not modelled. An array key is the only unhashable key.
- SolrClient.DecodeDict: Python's `dict` treats equal numbers as one key,
  so the keys `1` and `1.0` merge into one entry (the first key object with
  the last value). The model compares keys as `Value`s, so `Int(1)` and
  `Float(1.0)` stay two entries. Solr's term-vector keys are strings, where
  the two agree.
- EntityTagging.ExtractEntities: items are string-valued maps, so a
  non-string `name` or `_type` is not modelled. A falsy `json_result` is the
  empty sequence of items, and the keys of the outer dict play no part.
- FileUtil.PathLeaf: `ntpath` is modelled as `splitdrive` behaves before
  Python 3.12 (UNC and drive-letter prefixes). Python 3.12's `splitroot`
  is not modelled.
