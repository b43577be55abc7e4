# Phrase lookup and search, modelled in Dafny

This project models the phrase service of the localize-translation-search API
(`packages/api/src/services/phrase-service.ts`). The service answers three
read-only queries over a collection of phrase records that it reads from a JSON
data file on every call:

- `getPhraseById` returns the first record with a given `id`, with its
  `translations` removed.
- `getPhraseTranslationByLanguage` returns one language's translation of the
  first record with a given `id`.
- `getPhrasesBySearch` returns every record when the query is missing or blank.
  Otherwise it keeps the records whose text contains the query, ignoring case.
  It then sorts them with a comparator on one field (default `phrase`), in
  ascending (default) or descending order.

Every query is a pure function here. Its first argument `loaded` stands for the
read and parse of the data file. It is either `Success(records)` or
`Failure(error)`, and every query returns a `Failure` unchanged, as the source's
`catch … throw error` blocks do.

Modules, one file each:

- `Wrappers` (`wrappers.dfy`): `Option` (where JavaScript uses `undefined`) and `Result` (a thrown exception).
- `PhraseTypes` (`phrase.dfy`): the `Phrase` record of `packages/common/src/types/phrase.ts`, the errors, and the redaction.
- `JsStrings` (`js_strings.dfy`): the JavaScript string operations the queries use: `trim`, `toLowerCase`, `includes`, and `<` on strings.
- `PhraseSort` (`phrase_sort.dfy`): the comparator of the search, and the stable sort that `Array.prototype.sort` performs with it.
- `PhraseService` (`phrase_service.dfy`): the three queries, the lemmas about them, and the corrected translation lookup of the finding below.
- `PhraseExamples` (`phrase_examples.dfy`): worked examples proved on concrete records. The Hello/Goodbye examples follow `packages/api/src/tests/services/phrase-service.test.ts`.

The sort is an insertion sort. `PhraseSort.StableSortUnique` proves that there
is only one sorted, stable permutation of a sequence under this comparator. So
the model's result is the same one that any stable sort produces, including the
JavaScript engine's own.

Where the service's documented behaviour and its code differ, the model follows the code:

- A stored empty translation is reported as not found (the falsy test at line 36).
- A record with no `translations` map makes the lookup throw (see Findings).
- The sort key and order default to `phrase` and `asc` (line 47).
- `id` can also be a sort key, because `keyof Phrase` allows it.
- The search query is lower-cased but not trimmed before matching (line 58).

## Model

| member | source | states |
|---|---|---|
| `PhraseTypes.Redacted` | packages/api/src/services/phrase-service.ts:15 | the redacted record has no translations and keeps every other field |
| `PhraseService.FindById` | packages/api/src/services/phrase-service.ts:9 | `find` returns the position of the first record with the id, or None when no record has it |
| `PhraseService.GetPhraseById` | packages/api/src/services/phrase-service.ts:5-22 | a load failure comes back unchanged; no record with the id gives None; otherwise the result is the first such record with translations removed and every other field kept |
| `PhraseService.GetPhraseByIdFound` | packages/api/src/services/phrase-service.ts:9-17 | on loaded data the lookup always succeeds; it finds a record exactly when some record has the id, and the record it returns carries that id and no translations |
| `PhraseService.GetPhraseTranslationByLanguage` | packages/api/src/services/phrase-service.ts:24-45 | a load failure comes back unchanged; no record with the id gives None; a first record without translations fails with a TypeError; otherwise the result is the stored translation if the language is present and non-empty, and None if not |
| `PhraseService.TranslationFound` | packages/api/src/services/phrase-service.ts:28-40 | a translation that is returned is non-empty and is the one stored under the language in the first record with the id |
| `JsStrings.TrimStart` | packages/api/src/services/phrase-service.ts:53 | stripping leading white space leaves a suffix that starts with a non-blank character; everything removed is white space |
| `JsStrings.TrimEnd` | packages/api/src/services/phrase-service.ts:53 | stripping trailing white space leaves a prefix that ends with a non-blank character; everything removed is white space |
| `JsStrings.Trim` | packages/api/src/services/phrase-service.ts:53 | `trim()` is empty exactly when every character is white space, so a query counts as blank exactly when it is all white space |
| `JsStrings.Lower` | packages/api/src/services/phrase-service.ts:58 | lower-casing keeps the length, leaves no upper-case letter, and changes only upper-case letters, each to its lower-case form |
| `JsStrings.Includes` | packages/api/src/services/phrase-service.ts:58 | `includes` holds exactly when the needle occurs at some position of the text |
| `JsStrings.OccursShift` | packages/api/src/services/phrase-service.ts:58 | when the needle is not a prefix, its occurrences in the text are those in the text without its first character |
| `JsStrings.IsWhiteSpace` | packages/api/src/services/phrase-service.ts:53 | the characters `trim` strips are ECMAScript's WhiteSpace and LineTerminator; in ASCII exactly space and tab to carriage return, and never a letter or digit |
| `JsStrings.Less` | packages/api/src/services/phrase-service.ts:60-64 | `a < b` on strings holds exactly when, at the first position where they differ, `a` has ended while `b` goes on or `a` has the smaller character |
| `JsStrings.LessAtShift` | packages/api/src/services/phrase-service.ts:60 | with equal first characters, the first difference of two strings is one position after that of their tails |
| `JsStrings.LessIrreflexive` | packages/api/src/services/phrase-service.ts:60 | no string is less than itself under `<` |
| `JsStrings.LessAsymmetric` | packages/api/src/services/phrase-service.ts:60-64 | `a < b` and `a > b` never both hold |
| `JsStrings.LessTransitive` | packages/api/src/services/phrase-service.ts:60 | `<` on strings is transitive |
| `JsStrings.LessTotal` | packages/api/src/services/phrase-service.ts:60-64 | two different strings are ordered one way or the other |
| `PhraseSort.KeyLess` | packages/api/src/services/phrase-service.ts:60 | `a[sortKey] < b[sortKey]`: numeric order on `id`, string `<` on the text fields; records with the same field value are never less than one another |
| `PhraseSort.KeyTrichotomy` | packages/api/src/services/phrase-service.ts:60-68 | for each sort key, exactly one of: less, greater, or an equal field value |
| `PhraseSort.KeyNotLessTransitive` | packages/api/src/services/phrase-service.ts:60-64 | "not less on the key" is transitive |
| `PhraseSort.NotLessTransitive` | packages/api/src/services/phrase-service.ts:60 | "not less" on strings is transitive |
| `PhraseSort.Compare` | packages/api/src/services/phrase-service.ts:51-69 | the comparator is zero exactly on equal keys, negative exactly when the first record's key is smaller (ascending) or larger (descending), and positive in the reverse case |
| `PhraseSort.CompareAntisymmetric` | packages/api/src/services/phrase-service.ts:59-69 | swapping the arguments negates the comparator, so it is consistent |
| `PhraseSort.CompareNotAfterTransitive` | packages/api/src/services/phrase-service.ts:59-69 | "not after" under the comparator is transitive |
| `PhraseSort.SortedPairwise` | packages/api/src/services/phrase-service.ts:59-69 | in a sorted sequence every earlier record's key is not greater (ascending) or not smaller (descending) than every later one's |
| `PhraseSort.Ties` | packages/api/src/services/phrase-service.ts:59 | the group of ties of a record holds only input records with the same key, and no more records than the input |
| `PhraseSort.Insert` | packages/api/src/services/phrase-service.ts:59 | inserting adds exactly one occurrence of the record, and the result starts with it or with the old first record |
| `PhraseSort.InsertSorted` | packages/api/src/services/phrase-service.ts:59 | inserting into a sorted sequence keeps it sorted |
| `PhraseSort.InsertTies` | packages/api/src/services/phrase-service.ts:59 | the inserted record goes ahead of the records it ties with, and those keep their order |
| `PhraseSort.Sort` | packages/api/src/services/phrase-service.ts:59-69 | `sort(comparator)` returns a permutation of its input, sorted by the comparator, in which records with equal keys keep their input order |
| `PhraseSort.SortedTail` | packages/api/src/services/phrase-service.ts:59 | dropping the first record keeps a sequence sorted |
| `PhraseSort.TiesTail` | packages/api/src/services/phrase-service.ts:59 | dropping the first record removes it from its own group of ties only |
| `PhraseSort.SortedHeadsTie` | packages/api/src/services/phrase-service.ts:59 | two sorted permutations of the same records start with records of equal key |
| `PhraseSort.StableHeadsEqual` | packages/api/src/services/phrase-service.ts:59 | two sorted permutations of the same records that order every group of ties alike start with the same record |
| `PhraseSort.TailsTie` | packages/api/src/services/phrase-service.ts:59 | removing a common first record keeps every group of ties alike |
| `PhraseSort.MultisetTail` | packages/api/src/services/phrase-service.ts:59 | dropping the first record removes exactly one occurrence of it from the multiset |
| `PhraseSort.StableTails` | packages/api/src/services/phrase-service.ts:59 | the tails of two such permutations are again sorted, stable permutations of the same records |
| `PhraseSort.StableSortUnique` | packages/api/src/services/phrase-service.ts:59-69 | two sorted, stable permutations of the same records are equal, so every stable sort gives this result |
| `PhraseService.IsBlank` | packages/api/src/services/phrase-service.ts:53 | `!query?.trim()` holds exactly when the query is missing or consists only of white space |
| `PhraseService.Matches` | packages/api/src/services/phrase-service.ts:58 | a record matches exactly when the lower-cased query occurs at some position of its lower-cased text; the empty query matches every record |
| `PhraseService.KeyOrDefault` | packages/api/src/services/phrase-service.ts:47 | the sort key is the one given, or `phrase` when the caller passes none |
| `PhraseService.OrderOrDefault` | packages/api/src/services/phrase-service.ts:47 | the sort order is the one given, or ascending when the caller passes none |
| `PhraseService.KeepMatching` | packages/api/src/services/phrase-service.ts:57-58 | the filter keeps exactly the records whose lower-cased text contains the lower-cased query, each as often as in the input |
| `PhraseService.KeepMatchingAppend` | packages/api/src/services/phrase-service.ts:57-58 | filtering keeps the input order: it distributes over concatenation |
| `PhraseService.KeepMatchingCons` | packages/api/src/services/phrase-service.ts:57-58 | filtering a sequence keeps its first record exactly when that record matches, ahead of the filtered rest |
| `PhraseService.GetPhrasesBySearch` | packages/api/src/services/phrase-service.ts:47-74 | a load failure comes back unchanged; a missing or blank query returns the records as loaded, unsorted; otherwise the result holds exactly the matching records, sorted on the key (default phrase) in the order (default ascending), with ties in filter order |
| `PhraseService.SearchWithoutMatchIsEmpty` | packages/api/src/services/phrase-service.ts:57-58 | a non-blank query that matches nothing gives the empty sequence, not None or an error |
| `PhraseService.SearchIsTheStableSort` | packages/api/src/services/phrase-service.ts:57-69 | any sorted, stable permutation of the matching records is the search result |
| `PhraseExamples.HelloMatches` | packages/api/src/tests/services/phrase-service.test.ts:98-107 | "Hello" matches the query "hello" |
| `PhraseExamples.GoodbyeDoesNotMatch` | packages/api/src/tests/services/phrase-service.test.ts:98-107 | "Goodbye" does not match the query "hello" |
| `PhraseExamples.HelloIsNotBlank` | packages/api/src/services/phrase-service.ts:53 | "hello" is not a blank query |
| `PhraseExamples.FilterHelloExample` | packages/api/src/tests/services/phrase-service.test.ts:98-107 | filtering "Hello" and "Goodbye" on "hello" keeps "Hello" only |
| `PhraseExamples.SearchHelloExample` | packages/api/src/tests/services/phrase-service.test.ts:98-107 | searching "hello" in "Hello" and "Goodbye" returns "Hello" only |
| `PhraseExamples.SortDescendingExample` | packages/api/src/services/phrase-service.ts:59-69 | a descending sort on the text puts "B" before "A" |
| `PhraseExamples.EmptyTranslationExample` | packages/api/src/services/phrase-service.ts:36-38 | a stored empty translation reads as not found |
| `PhraseExamples.MissingTranslationsThrows` | packages/api/src/services/phrase-service.ts:34-44 | a record without translations makes the translation lookup fail with a TypeError |
| `PhraseService.GetPhraseTranslationOrNone` | packages/api/src/services/phrase-service.ts:30-40 | corrected lookup: never fails on loaded data, reports a record without translations as not found, and agrees with the source's lookup wherever that succeeds |

## Left out

- Reading `data/phrases.json` and `JSON.parse` (lines 7-8, 26-27, 49-50) are I/O and a foreign parser. They are the `loaded` argument of each query. A parse result that is not an array of records is not modelled.
- Fields missing from a record are not modelled; every `Phrase` has all five required fields, with `translations` as an `Option`. In the source, a sort on a field that every record lacks compares `undefined` and treats every pair as equal. When only some records lack it, just the pairs that involve a missing value compare 0. The comparator is then inconsistent, and the order the engine returns is not defined.
- `async`/`Promise` and the `console.error` logging (lines 19, 42, 71) are not modelled; the queries are synchronous functions.
- Sorting on `translations` is not modelled: comparing two objects with `<` orders nothing.
- JsStrings.Lower: lowers only ASCII letters; `toLowerCase` applies full Unicode case mapping.
- JsStrings.Less: compares Unicode code points; JavaScript compares UTF-16 code units, which orders characters above U+FFFF differently from those in U+E000 to U+FFFF.
- PhraseService.GetPhraseTranslationByLanguage: looks up only the record's own language keys. A JavaScript object also yields inherited properties, such as `constructor`, for `translations[language]`.
- PhraseService.GetPhraseTranslationByLanguage: a `translations` value of JSON `null` is read as absent, which throws the same `TypeError` as a missing map.
- `packages/api/src/controllers/phrase-controller.ts` is not part of this model. It maps results to HTTP statuses and registers the routes.
- `packages/api/src/index.ts` (server start-up) and `packages/api/jest.config.ts` (test configuration) are not part of this model.
- Repeated calls on unchanged data return the same result. This needs no lemma, because every query is a function.

## Findings

| source | as written | input that shows it | evidently intended | confidence | as-written member | corrected member |
|---|---|---|---|---|---|---|
| packages/api/src/services/phrase-service.ts:34 | `phrase.translations[language]` indexes `undefined` when the record has no `translations`, so the call throws a TypeError. The controller turns that into a 500 response. | records `[{id: 1, phrase: "Hello"}]`, id 1, language `es` | report the translation as not found (None, a 404), as for a missing language; the record type declares `translations` optional | medium; not executed | `PhraseExamples.MissingTranslationsThrows` | `PhraseService.GetPhraseTranslationOrNone` |
