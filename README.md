# Drug-lookup service: indexing and query core

The service loads three CSV datasets at start-up:
- drug–drug interactions;
- a drug type catalog (brand name, generic name and manufacturer per row);
- drug contraindication records.

From them it builds in-memory indices: a sorted list of normalised drug names, a per-type index of filter values, and a sorted list of contraindication terms. It then answers seven read routes over those structures:
- `search-drug`
- `check-interactions`
- `drug-filters`
- `drugs-by-type`
- `search-contraindications`
- `contraindication-suggestions`
- `drug-suggestions-by-contra`

`api/index.js` and `index.js` hold the same logic; they differ only in route prefixes and file plumbing. The model follows `api/index.js`, and the `index.js` equivalents are:

| api/index.js | index.js |
|---|---|
| loaders, lines 31-113 | lines 27-100 |
| routes, lines 129-271 | lines 114-251 |

Modules:

- `Strings` (strings.dfy): JavaScript's `toLowerCase`, `trim`, `startsWith`, `includes` and `split` on `seq<char>`, with their laws. It covers the round trip of `split`, trim/lower commuting, and `includes` as "occurs at some offset".
- `Sequences` (sequences.dfy):
  - a JavaScript `Set` as a duplicate-free sequence in insertion order;
  - `Array.prototype.filter`, characterised by the ascending list of matching positions;
  - `Array.prototype.slice`, including negative indices.
- `LexOrder` (lexorder.dfy): the default `sort()` order on strings and a sort function, with proofs that it is a total order and that sorting a set gives its elements strictly ascending.
- `Records` (records.dfy): the CSV rows and the JSON values the routes answer with.
- `Loader` (loader.dfy): the class `DrugData`, whose fields are the service's module-level collections.
  - The three stream handlers are methods with `modifies` frames. Each `'data'` handler is proved against a fold function over the rows delivered so far, and each `'end'` handler against the sort it performs.
  - `Startup` runs the three streams one after the other.
  - Lemmas state exactly what each finished index contains.
- `Queries` (queries.dfy): six of the routes. The loop-free ones are functions. `drug-suggestions-by-contra` is a method with a loop proved against a specification function.
- `Interactions` (interactions.dfy): `check-interactions`, a method with the source's nested loops proved against a specification function, plus lemmas on pair enumeration and first-match lookup.

For the page window, the code computes `slice((page-1)*20, page*20)`, and JavaScript's `slice` counts negative indices from the end. So page 0 is empty, but page -1 returns the window `[-40, -20)` counted from the end, which is non-empty when there are more than 20 matches. The model follows the code: `Sequences.Slice` resolves negative indices as JavaScript does, and `Queries.DrugsByTypePage` promises an empty page only for page 0 and for pages past the last.

## Model

| member | source | states |
|---|---|---|
| Loader.DrugData.constructor | api/index.js:12-17 | Before any stream runs, every collection is empty. |
| Loader.DrugData.Startup | api/index.js:31-113 | After the three streams end: `interactions` is all interaction rows; `uniqueDrugNames` is the drug-name index; `drugDetails` is the catalog rows with a non-empty `Type`, in order; `allFilterData` is the filter index; `contraindicationData` is all records; `contraindicationTerms` is the term index. |
| Loader.DrugData.OnInteractionRow | api/index.js:31-35 | Appends the row. Adds each non-empty drug column, trimmed then lower-cased, to the name set, which stays free of repeats. |
| Loader.DrugData.OnInteractionsEnd | api/index.js:36-40 | Replaces the name set by its sorted array. |
| Loader.DrugData.LoadInteractions | api/index.js:31-40 | Run from the start-up state over every row and then the end event, `interactions` becomes the rows and `uniqueDrugNames` becomes the drug-name index. |
| Loader.DrugData.OnTypeRow | api/index.js:50-75 | A row with a non-empty `Type` is appended to `drugDetails`. If its lower-cased, trimmed type is non-empty, that type's entry is created if missing, and the three kept column values are added to it. |
| Loader.DrugData.OnTypesEnd | api/index.js:76-85 | Every type's three sets are replaced by their sorted arrays; no key is added or lost. |
| Loader.DrugData.LoadTypes | api/index.js:50-85 | Run from the start-up state over every row and then the end event, `drugDetails` becomes exactly the rows with a type, in order, and `allFilterData` becomes the filter index. |
| Loader.TypeRowStep | api/index.js:51-73 | Delivering one more row appends it to `drugDetails` when its `Type` is non-empty, and folds it into the filter map. |
| Loader.DrugData.OnContraRow | api/index.js:95-107 | Appends the record. Adds every trimmed `,`/`;` piece of its lower-cased text that is longer than 2 and not "false". |
| Loader.DrugData.OnContraEnd | api/index.js:108-113 | Replaces the term set by its sorted array. |
| Loader.DrugData.LoadContraindications | api/index.js:95-113 | Run from the start-up state over every record and then the end event, `contraindicationData` becomes the records and `contraindicationTerms` becomes the term index. |
| Loader.WithDrugNamesMembers | api/index.js:33-34 | One row adds exactly its non-empty drug columns, trimmed then lower-cased, to the name set, and keeps it free of repeats. |
| Loader.NameSetExact | api/index.js:31-35 | After any rows, the name set holds no repeats and holds exactly the names some row contributes. |
| Loader.NamedStep | api/index.js:33-34 | One more row adds to the contributed names exactly that row's names. |
| Loader.DrugNameIndexExact | api/index.js:33-37 | The drug-name index is strictly ascending, with no repeats. A string is in it iff it is the trimmed, lower-cased value of a non-empty `Drug 1` or `Drug 2` of some row. |
| Loader.DrugNamesNormalised | api/index.js:33-34 | Every indexed name is already trimmed and lower-case. |
| Loader.AddKeptMembers | api/index.js:65-69 | `addToSet` adds the trimmed value exactly when the untrimmed value is non-empty and does not lower-case to "false", and keeps the set free of repeats. |
| Loader.HasTypeStep | api/index.js:51-55 | One more row adds its normalised type to the types present exactly when that type is non-empty. |
| Loader.ListedStep | api/index.js:71-73 | One more row adds to the listed values exactly what that row lists. |
| Loader.UnlistedType | api/index.js:57-63 | A type the filter map has no key for has no listed values. |
| Loader.WithTypeRowColumn | api/index.js:57-73 | After one row, each column list of each type holds no repeats and holds exactly the values listed by the rows so far. |
| Loader.WithTypeRowExact | api/index.js:50-75 | One row keeps the filter map exact: its keys are the non-empty types present, and its lists hold exactly the listed values, without repeats. |
| Loader.FilterFoldExact | api/index.js:50-75 | After any rows, the filter map is exact for those rows. |
| Loader.SortEntryColumn | api/index.js:78-82 | Sorting a type's entry makes each of its three lists strictly ascending and keeps its members. |
| Loader.FilterIndexExact | api/index.js:57-82 | The finished filter index has a key for exactly each non-empty normalised type. Each key's three lists are strictly ascending and hold exactly the trimmed values of that type's kept `Brand-Name`, `GenericName` and `Manufacturer` cells. |
| Loader.FilterKeysNormalised | api/index.js:54-55 | Every filter-index key is non-empty, trimmed and lower-case. |
| Loader.BlankValueListed | api/index.js:65-67 | A cell holding only white space passes `addToSet`'s untrimmed tests, so "" is listed for its type. |
| Loader.BlankTypeUnindexed | api/index.js:51-55 | A row whose `Type` is only white space is kept in `drugDetails` but opens no filter-index entry. |
| Loader.PaddedFalseListed | api/index.js:65-73 | `addToSet` tests the value before trimming, so a cell " false " passes the "false" test and its type's list holds "false". |
| Loader.AddTermsMembers | api/index.js:101-106 | The pieces of one record add exactly their trimmed kept pieces to the term set, and keep it free of repeats. |
| Loader.TermSetExact | api/index.js:95-107 | After any records, the term set holds no repeats and holds exactly the kept pieces of those records. |
| Loader.TermIndexExact | api/index.js:98-110 | The term index is strictly ascending. A string is in it iff it is a trimmed `,`/`;` piece of some record's lower-cased text that is longer than 2 and is not "false". |
| Loader.TermsNormalised | api/index.js:98-104 | Every indexed term is longer than 2, is not "false", and is trimmed and lower-case. |
| Loader.PiecesLowerCase | api/index.js:98-99 | Every piece of a lower-cased text is lower-case. |
| Queries.PrefixHead | api/index.js:134-137 | The first ten entries of a list that start with the term are entries starting with it. Over a strictly ascending list they are the least such entries, in order. |
| Queries.SearchDrugSpec | api/index.js:129-138 | An empty term gives `[]`. Otherwise the result is at most 10 entries of the list, each starting with the lower-cased term. Over a strictly ascending list they come in order, and any matching entry left out is larger than all 10 returned. |
| Queries.SearchDrugOverIndex | api/index.js:129-138 | Over the built name index, the results are exactly the least (up to 10) normalised drug names that start with the lower-cased term, in ascending order. |
| Queries.DrugFiltersSpec | api/index.js:172-179 | A type no catalog row has gives three empty lists and never an error. A known type gives its three strictly ascending lists of exactly its kept trimmed values. |
| Queries.DrugFiltersUntrimmedMisses | api/index.js:173-174 | The query type is not trimmed, so a type with surrounding white space finds three empty lists. |
| Queries.DrugsByTypeRejectsEmptyType | api/index.js:188-190 | The route answers 400 "No drug type provided." exactly when the type is empty. |
| Queries.DrugsByTypePage | api/index.js:191-218 | `totalMatches` is the number of rows whose trimmed, lower-cased `Type` equals the type and whose columns pass every non-empty filter. `drugs` is the window `[(page-1)*20, page*20)` of those rows in catalog order: at most 20 entries, empty for page 0 and past the last page. `pageSize` is 20 and `currentPage` is the page. |
| Queries.PageWindow | api/index.js:205-207 | The window `slice((page-1)*20, page*20)` has at most 20 entries, none for page 0 or past the last page. From page 1 on, entry i is the list's entry (page-1)*20+i. |
| Queries.TotalMatchesIgnoresPage | api/index.js:204 | The count does not depend on the page asked for. |
| Queries.SearchContraindicationsSpec | api/index.js:221-242 | A trimmed term shorter than 3 or a drug shorter than 2 gives `[]`. Otherwise the result is, in dataset order, the five-field projection of exactly the records whose lower-cased text contains the term at some offset and whose lower-cased `drug_name` equals the drug. |
| Queries.PaddedNameNeverFound | api/index.js:231 | The stored name is not trimmed, so a record whose `drug_name` starts with white space is never found by name. |
| Queries.ContraindicationSuggestionsSpec | api/index.js:244-252 | A trimmed term shorter than 2 gives `[]`. Otherwise the result is at most 10 list entries starting with the term. Over a strictly ascending list they are the least such entries, in order. |
| Queries.ContraindicationSuggestionsOverIndex | api/index.js:244-252 | Over the built term index, the suggestions are the least (up to 10) indexed contraindication pieces starting with the term, ascending. |
| Queries.DrugSuggestionsByContra | api/index.js:254-271 | The route's `forEach` over the records with its set, then sort and `slice(0, 10)`, yields the specification function's answer. |
| Queries.MatchingNamesExact | api/index.js:261-269 | The collected names have no repeats. They are exactly the original-case names of the records whose text contains the term and whose lower-cased name starts with the drug term. |
| Queries.DrugSuggestionsSpec | api/index.js:256-270 | Either trimmed input shorter than 2 gives `[]`. Otherwise the result is at most 10 distinct original-case names, strictly ascending, each from a matching record. A matching record's name is left out only when 10 smaller names are returned. |
| Interactions.CheckInteractions | api/index.js:141-170 | The route body yields the specification function's answer, including both 400 cases. |
| Interactions.FindPairs | api/index.js:150-168 | The nested loops over the pairs i < j leave, in pair order, one entry per pair that has a matching row. |
| Interactions.NormaliseAllSpec | api/index.js:146 | The drug list has one entry per comma-separated piece of the query: the piece trimmed, then lower-cased. |
| Interactions.FindFirst | api/index.js:155-160 | `find` returns a row iff some row's lower-cased columns are the two drugs in either order, and then it returns the first such row. |
| Interactions.FindSymmetric | api/index.js:155-160 | Swapping the two drugs finds the same row. |
| Interactions.RowFindsMembers | api/index.js:151-167 | The inner loop for position i reports exactly the pairs (i, j) with a matching row, and no more entries than there are candidates j. |
| Interactions.AllFindsMembers | api/index.js:150-168 | The outer loop reports exactly the pairs i < j with a matching row. |
| Interactions.PairCountClosed | api/index.js:150-151 | The pairs i < j of the first i rows of the triangle number i(2n-i-1)/2. |
| Interactions.AllFindsCount | api/index.js:150-168 | The answer after the first i rounds has no more entries than the pairs visited in those rounds. |
| Interactions.CheckInteractionsSpec | api/index.js:141-170 | An empty query gives "No drugs provided.". A query without a comma gives "Please provide at least two drugs.". Otherwise entry k of the answer is the entry of the k-th pair of positions i < j, in lexicographic pair order, whose trimmed, lower-cased names some row joins. So there is exactly one entry per such pair, in that order and nothing else, with the names in list order and the first joining row's description, and at most n(n-1)/2 entries. |
| Interactions.PairsSpec | api/index.js:151-152 | The pairs the two loops visit are every pair of positions a < b < n exactly once, in lexicographic order, and there are PairCount(n, n) = n(n-1)/2 of them. |
| Interactions.RowFindsInOrder | api/index.js:152-166 | The inner loop for position a pushes, in ascending b, one entry per pair (a, b) whose lookup succeeds, and nothing for the others. |
| Interactions.AllFindsInOrder | api/index.js:151-167 | After the outer loop's first i rounds, entry k is the entry of the k-th matched pair among the visited pairs, in visiting order. |
| Interactions.CheckResult | api/index.js:141-170 | The route's answer as a function of the rows and the query. Specified by `CheckInteractionsSpec`, and computed by `CheckInteractions`. |
| Interactions.Find | api/index.js:155-160 | `interactions.find` with the route's callback. Specified by `FindFirst` (the first joining row, if any) and `FindSymmetric`. |
| Interactions.NormaliseAll | api/index.js:146 | `.map(d => d.trim().toLowerCase())`: one entry per piece. Specified by its own length clause and `NormaliseAllSpec`. |
| Interactions.DrugList | api/index.js:146 | `drugQuery.split(',')` then the normalising map. Specified by `NormaliseAllSpec` and, for its length, `SplitCount`. |
| Interactions.Joins | api/index.js:155-159 | The `find` callback: the row's `Drug 1`/`Drug 2` columns, lower-cased but not trimmed, are the two drugs in either order. Specified through `FindFirst` and `FindSymmetric`. |
| Interactions.Hit | api/index.js:155-166 | One pair's lookup and push: one entry when `find` succeeds, none otherwise. Specified by `RowFindsInOrder`. |
| Interactions.RowFinds | api/index.js:152-167 | What the inner loop for position i has pushed once j reaches a bound. Specified by `RowFindsInOrder` and `RowFindsMembers`. |
| Interactions.AllFinds | api/index.js:150-168 | `foundInteractions` once the outer loop reaches i. Specified by `AllFindsInOrder`, `AllFindsMembers` and `AllFindsCount`. |
| Interactions.RowPairs | api/index.js:152 | The pairs (a, b) the inner loop visits for one a. Specified by `RowPairsSpec`: b runs from a+1 upwards. |
| Interactions.Pairs | api/index.js:151-152 | The pairs the two loops visit, in visiting order. Specified by `PairsSpec`. |
| Interactions.RowPairsSpec | api/index.js:152 | The inner loop visits (a, a+1), (a, a+2) and so on up to the bound, in that order. |
| Interactions.JoinedPair | api/index.js:155-161 | The lookup for the names at a pair's two positions finds a row. Specified through `FindFirst`. |
| Interactions.Entry | api/index.js:161-165 | The object a matched pair pushes: the two names in list order and the found row's `Interaction Description`. Its place in the answer is stated by `AllFindsInOrder` and `CheckInteractionsSpec`. |
| Interactions.ReportedIsFirstJoin | api/index.js:155-166 | A reported pair carries the description of the first row, in dataset order, that names both drugs in either order. |
| Interactions.JoinedPairReported | api/index.js:155-166 | A pair some row joins is always reported, and the named order does not change the row found. |
| Queries.SearchDrug | api/index.js:129-138 | The search-drug answer. Specified by `SearchDrugSpec` and, over the built index, by `SearchDrugOverIndex`. |
| Queries.DrugFilters | api/index.js:172-179 | The drug-filters answer. Specified by `DrugFiltersSpec` and `DrugFiltersUntrimmedMisses`. |
| Queries.DrugsByType | api/index.js:181-219 | The drugs-by-type answer. Specified by `DrugsByTypeRejectsEmptyType`, `DrugsByTypePage` and `TotalMatchesIgnoresPage`. |
| Queries.SearchContraindications | api/index.js:221-242 | The search-contraindications answer. Specified by `SearchContraindicationsSpec` and `PaddedNameNeverFound`. |
| Queries.ContraindicationSuggestions | api/index.js:244-252 | The contraindication-suggestions answer. Specified by `ContraindicationSuggestionsSpec` and `ContraindicationSuggestionsOverIndex`. |
| Queries.DrugSuggestions | api/index.js:254-271 | The drug-suggestions-by-contra answer. Computed by `DrugSuggestionsByContra` and specified by `DrugSuggestionsSpec`. |
| Queries.Check | api/index.js:195-198 | The `check` helper: an empty filter passes, otherwise the trimmed, lower-cased cell must equal it. Specified by `DrugsByTypePage`. |
| Queries.DetailMatch | api/index.js:191-203 | The drugs-by-type `filter` callback: the type test, then `check` on the three columns. Specified by `DrugsByTypePage`. |
| Queries.View | api/index.js:208-212 | The projection of one catalog row. Specified by `DrugsByTypePage`. |
| Queries.Views | api/index.js:208-212 | The `map` over the page. Specified by `DrugsByTypePage`. |
| Queries.ContraMatch | api/index.js:229-233 | The search-contraindications `filter` callback: the lower-cased text includes the term, and the lower-cased, untrimmed name equals the drug. Specified by `SearchContraindicationsSpec` and `PaddedNameNeverFound`. |
| Queries.Project | api/index.js:234-240 | The projection of one record. Specified by `SearchContraindicationsSpec`. |
| Queries.Projections | api/index.js:234-240 | The `map` over the matches. Specified by `SearchContraindicationsSpec`. |
| Queries.Suggests | api/index.js:263-266 | The `forEach` test: the lower-cased text includes the term, and the lower-cased name starts with the drug term. Specified by `MatchingNamesExact`. |
| Queries.MatchingNames | api/index.js:261-269 | The set `matchingDrugs` after the `forEach`. Specified by `MatchingNamesExact`. |
| Queries.StartsWithTerm | api/index.js:134-135 | The `startsWith` callback of search-drug and contraindication-suggestions. Specified by `PrefixHead`. |
| Queries.TypeMatches | api/index.js:191-203 | `filteredResults`. Specified by `DrugsByTypePage`. |
| Loader.WithTypeRow | api/index.js:50-74 | What one catalog row does to the filter map. Specified by `WithTypeRowColumn`, `WithTypeRowExact`, `BlankValueListed` and `BlankTypeUnindexed`. |
| Loader.AddTerms | api/index.js:101-106 | What one record's pieces add to the term set. Specified by `AddTermsMembers`. |
| Loader.TypeKey | api/index.js:54 | The filter-index key: `Type` lower-cased, then trimmed. Specified by `FilterKeysNormalised` and `BlankTypeUnindexed`. |
| Loader.Kept | api/index.js:66 | The `addToSet` test on the untrimmed value. Specified by `AddKeptMembers`, `BlankValueListed` and `PaddedFalseListed`. |
| Loader.AddKept | api/index.js:65-69 | `addToSet`: stores the trimmed value when it passes the test. Specified by `AddKeptMembers`. |
| Loader.Pieces | api/index.js:98-99 | The lower-cased `contraindications` text split on `,` and `;`. Specified by `PiecesLowerCase` and `TermIndexExact`. |
| Loader.KeptTerm | api/index.js:102-103 | The term test on a trimmed piece: non-empty, longer than 2 and not "false". Specified by `TermsNormalised` and `TermIndexExact`. |
| Loader.WithDrugNames | api/index.js:33-34 | `uniqueDrugNames` after one interaction row. Specified by `WithDrugNamesMembers`. |
| Loader.DrugNameIndex | api/index.js:31-37 | `uniqueDrugNames` once its stream has ended. Specified by `DrugNameIndexExact` and `DrugNamesNormalised`. |
| Loader.SortAll | api/index.js:78-82 | The end handler's loop sorting every entry's three lists. Specified by `SortEntryColumn`. |
| Loader.FilterIndex | api/index.js:50-82 | `allFilterData` once its stream has ended. Specified by `FilterIndexExact` and `FilterKeysNormalised`. |
| Loader.TermIndex | api/index.js:95-110 | `contraindicationTerms` once its stream has ended. Specified by `TermIndexExact` and `TermsNormalised`. |
| Loader.HasTypeValue | api/index.js:51 | The `if (row.Type)` test: the row is kept in `drugDetails`. Specified by `TypeRowStep`, `BlankTypeUnindexed` and the `Startup` ensures. |
| Loader.NameSet | api/index.js:31-35 | `uniqueDrugNames` while its stream runs. Specified by `NameSetExact`. |
| Loader.FilterFold | api/index.js:50-75 | `allFilterData` while its stream runs. Specified by `FilterFoldExact` and `TypeRowStep`. |
| Loader.TermSet | api/index.js:95-107 | `contraindicationTerms` while its stream runs. Specified by `TermSetExact`. |
| Loader.SortEntry | api/index.js:79-81 | The three sorts of one entry in the end handler. Specified by `SortEntryColumn`. |
| Strings.Lower | api/index.js:130 | `toLowerCase`. Specified by `LowerEmpty` and `TrimLowerCommute`. |
| Strings.Trim | api/index.js:33 | `trim`. Specified by `TrimEmpty` and `TrimLowerCommute`. |
| Strings.Split | api/index.js:99 | `split` on a set of delimiter characters. Specified by `SplitRoundTrip` and `SplitCount`. |
| Strings.Contains | api/index.js:230 | `includes`. Specified by `ContainsAt`. |
| Strings.StartsWith | api/index.js:135 | `startsWith`: the string's first characters are the prefix. Specified through `PrefixHead`, `SearchDrugSpec` and `ContraindicationSuggestionsSpec`. |
| Strings.IsSpace | api/index.js:33 | The characters `trim` removes: the ECMAScript WhiteSpace and LineTerminator code points. Specified through `TrimEmpty` and `TrimmedHasNoOuterSpace`. |
| Strings.LowerChar | api/index.js:130 | `toLowerCase` on one character, ASCII letters only. Specified through `LowerEmpty` and `TrimLowerCommute`. |
| Strings.TrimStart | api/index.js:33 | The leading half of `trim`. Specified by `TrimStartShape`. |
| Strings.TrimEnd | api/index.js:33 | The trailing half of `trim`. Specified by `TrimEndShape`. |
| Strings.TrimStartShape | api/index.js:33 | Trimming the start drops a prefix made only of white space and leaves a string that is empty or starts with a non-space. |
| Strings.TrimEndShape | api/index.js:33 | Trimming the end drops a suffix made only of white space and leaves a string that is empty or ends with a non-space. |
| Strings.TrimIdempotent | api/index.js:33 | Trimming twice is trimming once. |
| Strings.TrimmedHasNoOuterSpace | api/index.js:33 | A trimmed string neither starts nor ends with white space. |
| Sequences.Filter | api/index.js:191-203 | `Array.prototype.filter`. Specified by `FilterByIndices`. |
| Sequences.Slice | api/index.js:205-207 | `Array.prototype.slice`. Specified by `SliceIndex` and, for the first n, `LexOrder.SliceHeadLeast`. |
| Strings.TrimLowerCommute | api/index.js:33-54 | Trimming then lower-casing equals lower-casing then trimming, so the name index's order of normalisation and the other indices' order agree. |
| Strings.InterleaveCons | api/index.js:99 | Putting a character in front of the first piece puts it in front of the rejoined string. |
| Strings.SplitRoundTrip | api/index.js:99 | `split` on a delimiter set yields one more piece than there are delimiters. No piece holds a delimiter, and rejoining the pieces gives back the input. |
| Strings.SplitCount | api/index.js:146-147 | A string splits into 2 or more pieces exactly when it holds a delimiter. |
| Strings.ContainsAt | api/index.js:230 | `includes` holds iff the term occurs at some offset. |
| Strings.TrimEmpty | api/index.js:54-55 | Trimming leaves nothing exactly when the string is all white space. |
| Strings.LowerEmpty | api/index.js:130-131 | A parameter lower-cases to "" only when it is "". |
| Sequences.AddToSet | api/index.js:33 | `Set.add` keeps the set free of repeats and adds exactly the given element. |
| Sequences.FilterFrom | api/index.js:191-203 | `filter` of a suffix yields exactly the elements at the ascending matching positions of that suffix. |
| Sequences.FilterByIndices | api/index.js:191-203 | `filter` yields, in order, exactly the elements at the ascending positions that satisfy the test. |
| Sequences.SliceIndex | api/index.js:205-207 | `slice` resolves an index into 0..length, counting negative indices from the end. |
| LexOrder.SortStrings | api/index.js:37 | `sort()` yields an ascending permutation of its input. |
| LexOrder.Insert | api/index.js:37 | Inserting into a sorted list keeps it sorted and adds exactly the element. |
| LexOrder.SortSet | api/index.js:37 | Sorting a set's elements yields the same elements, each once, strictly ascending. |
| LexOrder.LessEq | api/index.js:37 | The default `sort()` comparison. Specified by `Reflexive`, `Total`, `Transitive` and `Antisymmetric`. |
| LexOrder.Reflexive | api/index.js:37 | Every string sorts at or before itself. |
| LexOrder.Total | api/index.js:37 | Any two strings are comparable. |
| LexOrder.Transitive | api/index.js:37 | The order is transitive. |
| LexOrder.Antisymmetric | api/index.js:37 | Two strings each at or before the other are equal. |
| LexOrder.StrictlySortedUnique | api/index.js:37 | Two strictly ascending lists with the same members are the same list. |
| LexOrder.SortUnique | api/index.js:37 | On a list without repeats, any strictly ascending list of its elements equals `SortStrings`' result, so the model's insertion sort gives what any correct `sort()` gives. |
| LexOrder.SliceHeadLeast | api/index.js:137 | `slice(0, n)` of a strictly ascending list keeps its n least elements. |

## Left out

- Express plumbing (app set-up, CORS, static and HTML page routes, `listen`, `module.exports`) is HTTP transport. Each route is a function or method from the already-extracted query strings and the built collections to its answer. A missing query parameter is taken as "".
- A repeated query parameter, which Express delivers as an array rather than a string, is not modelled. Every parameter is a string.
- CSV reading (`createReadStream`, the `csv-parser` parser, the `'error'` handlers) is file I/O and a foreign parser. Each dataset is a sequence of rows, and a missing column is "". After a read error the `'end'` handler never runs, which the model does not capture.
- In the JSON answers, a missing column is omitted by JavaScript, while the model gives "".
- The interleaving of the three asynchronous loads, the `filesLoaded` readiness counter and the console logging are not modelled. `DrugData.Startup` runs the streams one after the other, and every route is modelled against the finished collections. Before a stream's `'end'` handler runs, `uniqueDrugNames` and `contraindicationTerms` are still `Set`s. A `Set` has no `filter`, so search-drug (api/index.js:134) and contraindication-suggestions (api/index.js:250) throw a TypeError and Express answers 500. Drug-filters (api/index.js:175) serialises each still-unsorted `Set` as `{}`. Check-interactions (api/index.js:155), drugs-by-type, search-contraindications and drug-suggestions-by-contra see only the rows delivered so far.
- `parseInt` of the page string, including its `'1'` default and NaN, is string parsing. `page` is an integer parameter.
- Queries.DrugsByTypePage: promises an empty window only for page 0 and for pages past the last, because for negative pages `slice` counts from the end and the window can be non-empty.
- Strings.Lower: lower-cases ASCII letters only, because Unicode case mapping is library data. `trim` removes the JavaScript white-space and line-terminator characters.
- LexOrder.SortStrings: compares whole characters rather than UTF-16 code units, which differs only for characters outside the Basic Multilingual Plane.
- Loader.KeptTerm, Queries.SearchContraindications, Queries.ContraindicationSuggestions and Queries.DrugSuggestions: their length tests (api/index.js:103, 225, 247, 258) count characters, while JavaScript's `length` counts UTF-16 code units. A character outside the Basic Multilingual Plane counts 2 in the source and 1 here. For example, the contra term "😀a" has length 3 in JavaScript and passes the `>= 3` test, while the model answers `[]`.
- `allFilterData` is a plain object in the source, so `allFilterData[type]` also finds inherited keys such as "constructor". The model uses a map with no such keys.
- navbar.js is menu event handling in the browser and holds none of this logic.
