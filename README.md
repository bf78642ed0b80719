# url-tagger: the tag aggregation of UrlTagger

`UrlTagger` classifies a URL with tags. It holds three compiled rule sets,
for the URL, for the raw HTML body and for the text extracted from that body.
Each rule set, evaluated on a string, yields an object whose keys are tag
names; the tagger collects a key when its value is truthy
(src/index.js:16, 31, 40). The model takes each value as a `bool` that stands
for the outcome of that truthiness test.

- `runUrl(url)` evaluates the URL rules on the URL. It returns the names whose
  outcome is true, in key order, without sorting them.
- `runContent(url)` fetches the body. It returns the names satisfied by the
  HTML rules on the raw body, followed by those satisfied by the content rules
  on the extracted text.
- `run(url)` concatenates both lists and sorts the result with the default
  string order. It then keeps an entry only when it is the last occurrence of
  its value.

The model has five modules:

- `Tags`: the tag type and the order `sort()` uses, proved to be a total order.
  It also defines sorted, strictly sorted, duplicate-free and the set of
  elements of a tag list.
- `TagSort`: sorting, specified as the unique ascending rearrangement.
- `LastOccurrence`: `lastIndexOf` and the `filter` that keeps last occurrences.
- `RuleResults`: an evaluator's output as an ordered list of (tag, outcome)
  pairs with distinct keys, and the satisfied-tag filter.
- `Tagger`: the `UrlTagger` class. Its `RunUrl` and `RunContent` are loops that
  push onto a result list, proved against `SatisfiedTags`. `Run` returns
  `Merge` of the two lists, and the lemmas about `Merge` state sortedness,
  distinctness, set union and length.

`runUrl` does not sort: its test expects
`["github", "not-https", "github-not-https"]`, the rule-definition order
(test/index_test.js:41-45). `run` keeps the last occurrence of each tag
(src/index.js:53); once the list is sorted, equal copies are adjacent and
identical, so keeping the last copy cannot be told apart from keeping the
first.

## Model

| member | source | states |
|---|---|---|
| Tags.LessEqReflexive | src/index.js:50 | Every tag compares at most itself under the default string order. |
| Tags.LessEqAntisymmetric | src/index.js:50 | Two tags that each compare at most the other are equal. |
| Tags.LessEqTransitive | src/index.js:50 | The default string order is transitive. |
| Tags.LessEqTotal | src/index.js:50 | Any two tags are comparable, so the order is total. |
| Tags.ElementsBound | src/index.js:48-54 | A list never has more distinct tags than entries. |
| Tags.DistinctCount | src/index.js:52-54 | A duplicate-free list has exactly as many distinct tags as entries. |
| Tags.StrictlySortedUnique | src/index.js:48-54 | Two strictly ascending lists with the same set of tags are identical. |
| TagSort.InsertCorrect | src/index.js:50 | Inserting into an ascending list keeps it ascending and adds exactly one copy of the new tag. |
| TagSort.SortTagsCorrect | src/index.js:48-50 | The sorted list is ascending and is a permutation of the concatenation. |
| TagSort.SortedUnique | src/index.js:50 | Two ascending permutations of the same multiset of tags are equal. |
| TagSort.AnySortAgrees | src/index.js:50 | Any ascending permutation of the input, whatever the algorithm, equals the modelled sort. |
| TagSort.SortTagsSortedIdentity | src/index.js:50 | Sorting an already ascending list leaves it unchanged. |
| TagSort.SortTagsElements | src/index.js:48-50 | Sorting keeps exactly the set of tags it was given. |
| LastOccurrence.LastIndexOf | src/index.js:53 | Returns -1 exactly when the tag is absent. Otherwise it returns an index holding the tag with no later index holding it. |
| LastOccurrence.FilterLastInvariant | src/index.js:52-54 | After the filter visits n indices, it holds exactly the tags whose last occurrence is below n, ordered by last occurrence. |
| LastOccurrence.KeepLastElements | src/index.js:52-54 | The filter keeps every value of its input and invents none (set equality). |
| LastOccurrence.KeepLastOrder | src/index.js:52-54 | Survivors keep the relative order of their last occurrences, and none appears twice. |
| LastOccurrence.KeepLastLength | src/index.js:52-54 | The output length equals the number of distinct input values, which is at most the input length. |
| LastOccurrence.KeepLastSorted | src/index.js:50-54 | Filtering an ascending list yields a strictly ascending list. |
| LastOccurrence.FilterLastNoDuplicates | src/index.js:52-54 | On a duplicate-free list, the first n visited indices are all kept, in place. |
| LastOccurrence.KeepLastIdentity | src/index.js:52-54 | Filtering a duplicate-free (for example strictly sorted) list returns it unchanged. |
| RuleResults.SatisfiedTagsMembers | src/index.js:14-19 | A name is collected exactly when the evaluator reported it with outcome true. |
| RuleResults.SatisfiedTagsLength | src/index.js:14-21 | At most one name is collected per rule. |
| RuleResults.SatisfiedTagsOrder | src/index.js:14-21 | With distinct keys, collected names follow the evaluator's key order and contain no duplicate. |
| Tagger.MergeStrictlySorted | src/index.js:48-54 | `run`'s sort-then-filter yields a strictly ascending list: sorted, no duplicate. |
| Tagger.MergeElements | src/index.js:48-54 | As a set, the merged list is the union of the URL tags and the content tags. |
| Tagger.MergeLength | src/index.js:48-54 | The merged length is the number of distinct tags in the concatenation, at most the sum of both lengths. |
| Tagger.MergeCanonical | src/index.js:48-54 | The merged list depends only on the union of its inputs, not on counts, order or which input holds a tag. |
| Tagger.MergeCommutes | src/index.js:48-49 | Swapping the URL list and the content list does not change the result. |
| Tagger.MergeCanonicalInput | src/index.js:50-54 | A strictly ascending list passes through sort and filter unchanged. |
| Tagger.UrlTagger.constructor | src/index.js:5-9 | The tagger keeps the three given rule sets (url, content, html). |
| Tagger.UrlTagger.RunUrl | src/index.js:11-22 | Returns the satisfied URL-rule names in key order. A name is returned iff its outcome is true. No duplicates; at most one per rule. |
| Tagger.UrlTagger.RunContent | src/index.js:24-45 | Returns the satisfied HTML-rule names on the raw body, then the satisfied content-rule names on the extracted text. Membership iff satisfied in either set. Bounded by the two rule counts. |
| Tagger.UrlTagger.Run | src/index.js:47-55 | Returns Merge of the runUrl and runContent lists. Strictly ascending; as a set, their union; length = distinct tags in the concatenation, at most the sum of both lengths. |
| Tagger.RunUrlKeepsDefinitionOrder | test/index_test.js:40-46 | When all three URL rules match, the result keeps definition order, and that list is not sorted. |
| Tagger.RunSortsAcrossSources | test/index_test.js:108-114 | "michael-url" from the URL and "michael-content" from the content merge to `["michael-content", "michael-url"]`. |

## Left out

- The network fetch `request.get(url)` (src/index.js:28) is I/O. `RunContent` and `Run` take the body it resolves to as the parameter `html`. Its failures, and the promise machinery of `async`/`await`, are not modelled.
- `getContent` (src/index.js:57-59) calls the `unfluff` extractor, a foreign library. It is the parameter `extract: string -> string`.
- Compiling the rule definitions with `RegexRules` (src/index.js:6-8) and evaluating them (regex matching, negation, conjunction groups) belong to a library that is not part of this model. The constructor takes each compiled rule set as an evaluator, a function from the target string to an `Evaluation`. An `Evaluation` is the ordered (tag, outcome) list with distinct keys.
- The engine's `for...in` order puts integer-like keys first. The model enumerates keys in the order the evaluator lists them.
- `sort()` runs in place on the fresh array that `concat` returns. The model sorts a sequence by value. Nothing else refers to that array, so in-place update cannot be observed. `TagSort.AnySortAgrees` shows that the engine's choice of algorithm cannot change the result.
- Character order: `Tags.LessEq` compares characters as Unicode scalar values, whereas the engine compares UTF-16 code units. The two orders differ only between characters above U+FFFF and characters in U+E000..U+FFFF. Tag names holding an unpaired surrogate (U+D800..U+DFFF), which a JavaScript string may contain but a Dafny `char` cannot, are outside the model.
- Caching, cache keys, TTLs, timeouts and a content-size gate do not appear in src/index.js, so the model has none of them.
