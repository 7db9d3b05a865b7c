/** The read routes other than `check-interactions` (api/index.js lines
    129-138 and 172-271; index.js lines 114-123 and 156-251). Each route
    body is a function, or a method where the source loops, from the
    already-extracted query strings and the finished collections to the
    JSON value it answers with. A missing query parameter reads as "". */
module Queries {
  import opened Strings
  import opened LexOrder
  import opened Sequences
  import opened Records
  import Loader

  const PAGE_SIZE := 20

  /** The suggestion routes answer with `slice(0, 10)`. */
  const SUGGESTION_LIMIT := 10

  /** `t => t.startsWith(term)` */
  function StartsWithTerm(term: string): string -> bool {
    t => StartsWith(t, term)
  }

  /** The first ten entries of a list that start with `term`: each is an
      entry starting with it, and over a strictly ascending list they are
      the least such entries, in order. */
  lemma PrefixHead(list: seq<string>, term: string)
    ensures var r := Slice(Filter(list, StartsWithTerm(term)), 0, SUGGESTION_LIMIT);
      && |r| <= SUGGESTION_LIMIT
      && (forall x :: x in r ==> x in list && StartsWith(x, term))
      && (StrictlySorted(list) ==>
            && StrictlySorted(r)
            && forall x :: x in list && StartsWith(x, term) && x !in r ==>
                 |r| == SUGGESTION_LIMIT && forall y :: y in r ==> Less(y, x))
  {
    var f := Filter(list, StartsWithTerm(term));
    FilterMembers(list, StartsWithTerm(term));
    SliceHead(f, SUGGESTION_LIMIT);
    if StrictlySorted(list) {
      FilterStrictlySorted(list, StartsWithTerm(term));
      SliceHeadLeast(f, SUGGESTION_LIMIT);
    }
  }

  // ---------------------------------------------------------------------
  // search-drug

  /** `GET /api/search-drug?term=`: the query is lower-cased but not trimmed. */
  function SearchDrug(uniqueDrugNames: seq<string>, termParam: string): seq<string> {
    var term := Lower(termParam);
    if term == [] then []
    else Slice(Filter(uniqueDrugNames, StartsWithTerm(term)), 0, SUGGESTION_LIMIT)
  }

  /** An empty term finds nothing; otherwise at most ten index entries, each
      starting with the lower-cased term. Over a strictly ascending index
      they are the least such entries, in order: any matching entry left out
      is larger than all ten returned. */
  lemma SearchDrugSpec(names: seq<string>, termParam: string)
    ensures var r := SearchDrug(names, termParam);
      && (termParam == [] ==> r == [])
      && |r| <= SUGGESTION_LIMIT
      && (forall x :: x in r ==> x in names && StartsWith(x, Lower(termParam)))
      && (StrictlySorted(names) && termParam != [] ==>
            && StrictlySorted(r)
            && forall x :: x in names && StartsWith(x, Lower(termParam)) && x !in r ==>
                 |r| == SUGGESTION_LIMIT && forall y :: y in r ==> Less(y, x))
  {
    LowerEmpty(termParam);
    if termParam != [] {
      PrefixHead(names, Lower(termParam));
    }
  }

  /** Over the index the interactions stream builds: every name returned is
      a normalised drug name of the rows that starts with the lower-cased
      term, and each such name is returned unless ten smaller ones are. */
  lemma SearchDrugOverIndex(rows: seq<InteractionRow>, termParam: string)
    requires termParam != []
    ensures var r := SearchDrug(Loader.DrugNameIndex(rows), termParam);
      && StrictlySorted(r)
      && (forall x :: x in r ==> Loader.NamedIn(rows, x) && StartsWith(x, Lower(termParam)))
      && forall x :: Loader.NamedIn(rows, x) && StartsWith(x, Lower(termParam)) && x !in r ==>
           |r| == SUGGESTION_LIMIT && forall y :: y in r ==> Less(y, x)
  {
    Loader.DrugNameIndexExact(rows);
    SearchDrugSpec(Loader.DrugNameIndex(rows), termParam);
  }

  // ---------------------------------------------------------------------
  // drug-filters

  /** `GET /api/drug-filters?type=`: the entry of the lower-cased (untrimmed)
      type, or three empty lists. */
  function DrugFilters(allFilterData: map<string, FilterSets>, typeParam: string): FilterSets {
    var drugType := Lower(typeParam);
    if drugType in allFilterData then allFilterData[drugType] else NoFilters
  }

  /** Over the finished filter index: a type no catalog row has gives three
      empty lists (never an error); a known type gives its three lists,
      strictly ascending and holding exactly the kept trimmed values of that
      type's rows. */
  lemma DrugFiltersSpec(rows: seq<TypeRow>, typeParam: string)
    ensures var r := DrugFilters(Loader.FilterIndex(rows), typeParam);
      && (!Loader.HasType(rows, Lower(typeParam)) ==> r == NoFilters)
      && forall c :: StrictlySorted(ListOf(r, c))
           && forall x :: x in ListOf(r, c) <==> Loader.ListedIn(rows, Lower(typeParam), c, x)
  {
    Loader.FilterIndexExact(rows);
    var k := Lower(typeParam);
    if k !in Loader.FilterIndex(rows) {
      forall c ensures StrictlySorted(ListOf(NoFilters, c)) {
        match c
        case Brand =>
        case Generic =>
        case Maker =>
      }
    }
  }

  /** The type is not trimmed before the lookup, while the index keys are:
      a type written with white space around it finds nothing. */
  lemma DrugFiltersUntrimmedMisses(rows: seq<TypeRow>, typeParam: string)
    requires Trim(Lower(typeParam)) != Lower(typeParam)
    ensures DrugFilters(Loader.FilterIndex(rows), typeParam) == NoFilters
  {
    if Lower(typeParam) in Loader.FilterIndex(rows) {
      Loader.FilterKeysNormalised(rows, Lower(typeParam));
    }
  }

  // ---------------------------------------------------------------------
  // drugs-by-type

  /** `check(csvValue, filterValue)`: an empty filter accepts anything,
      otherwise the trimmed lower-cased cell must equal it. */
  predicate Check(csvValue: string, filterValue: string) {
    filterValue == [] || Trim(Lower(csvValue)) == filterValue
  }

  /** The `filter` callback of `drugs-by-type`, for lower-cased parameters. */
  function DetailMatch(drugType: string, brandName: string, genericName: string, manufacturer: string): TypeRow -> bool {
    (drug: TypeRow) =>
      && Trim(Lower(drug.drugType)) == drugType
      && Check(drug.brandName, brandName)
      && Check(drug.genericName, genericName)
      && Check(drug.manufacturer, manufacturer)
  }

  function View(d: TypeRow): DrugView {
    DrugView(d.brandName, d.genericName, d.manufacturer)
  }

  function Views(ds: seq<TypeRow>): seq<DrugView> {
    seq(|ds|, i requires 0 <= i < |ds| => View(ds[i]))
  }

  /** The catalog rows `drugs-by-type` counts, in catalog order. */
  function TypeMatches(drugDetails: seq<TypeRow>, typeParam: string, brandParam: string,
                       genericParam: string, manufacturerParam: string): seq<TypeRow> {
    Filter(drugDetails, DetailMatch(Lower(typeParam), Lower(brandParam), Lower(genericParam), Lower(manufacturerParam)))
  }

  /** `GET /api/drugs-by-type?type=&brandName=&genericName=&manufacturer=&page=`:
      the four strings are lower-cased but not trimmed. */
  function DrugsByType(drugDetails: seq<TypeRow>, typeParam: string, brandParam: string,
                       genericParam: string, manufacturerParam: string, page: int): Response<TypePage> {
    var drugType := Lower(typeParam);
    var brandName := Lower(brandParam);
    var genericName := Lower(genericParam);
    var manufacturer := Lower(manufacturerParam);
    if drugType == [] then BadRequest("No drug type provided.")
    else
      var filteredResults := Filter(drugDetails, DetailMatch(drugType, brandName, genericName, manufacturer));
      var totalMatches := |filteredResults|;
      var startIndex := (page - 1) * PAGE_SIZE;
      var endIndex := page * PAGE_SIZE;
      var paginatedDrugs := Slice(filteredResults, startIndex, endIndex);
      Ok(TypePage(Views(paginatedDrugs), totalMatches, page, PAGE_SIZE))
  }

  /** The route fails with status 400 exactly when no type is given. */
  lemma DrugsByTypeRejectsEmptyType(drugDetails: seq<TypeRow>, typeParam: string, brandParam: string,
                                    genericParam: string, manufacturerParam: string, page: int)
    ensures var r := DrugsByType(drugDetails, typeParam, brandParam, genericParam, manufacturerParam, page);
      r.BadRequest? <==> typeParam == []
    ensures typeParam == [] ==>
      DrugsByType(drugDetails, typeParam, brandParam, genericParam, manufacturerParam, page)
        == BadRequest("No drug type provided.")
  {
    LowerEmpty(typeParam);
  }

  /** `totalMatches` counts the catalog rows whose trimmed lower-cased `Type`
      is the type and whose other columns pass every non-empty filter; it
      does not depend on the page. `drugs` is the 20-row window
      `[(page-1)*20, page*20)` of those rows in catalog order, so it is never
      longer than 20 and is empty for page 0 and for every page past
      ceil(totalMatches / 20). `pageSize` is 20 and `currentPage` is `page`. */
  lemma DrugsByTypePage(drugDetails: seq<TypeRow>, typeParam: string, brandParam: string,
                        genericParam: string, manufacturerParam: string, page: int)
    requires typeParam != []
    ensures var r := DrugsByType(drugDetails, typeParam, brandParam, genericParam, manufacturerParam, page);
      var p := DetailMatch(Lower(typeParam), Lower(brandParam), Lower(genericParam), Lower(manufacturerParam));
      var matches := TypeMatches(drugDetails, typeParam, brandParam, genericParam, manufacturerParam);
      && r.Ok?
      && r.body.totalMatches == |MatchIndices(drugDetails, p)| == |matches|
      && r.body.pageSize == PAGE_SIZE && r.body.currentPage == page
      && |r.body.drugs| <= PAGE_SIZE
      && (page == 0 ==> r.body.drugs == [])
      && (page >= 1 && page > (|matches| + PAGE_SIZE - 1) / PAGE_SIZE ==> r.body.drugs == [])
      && (page >= 1 ==>
            && |r.body.drugs| == (if |matches| <= (page - 1) * PAGE_SIZE then 0
                                  else if |matches| >= page * PAGE_SIZE then PAGE_SIZE
                                  else |matches| - (page - 1) * PAGE_SIZE)
            && forall i :: 0 <= i < |r.body.drugs| ==>
                 (page - 1) * PAGE_SIZE + i < |matches|
                 && r.body.drugs[i] == View(matches[(page - 1) * PAGE_SIZE + i]))
  {
    LowerEmpty(typeParam);
    var p := DetailMatch(Lower(typeParam), Lower(brandParam), Lower(genericParam), Lower(manufacturerParam));
    FilterByIndices(drugDetails, p);
    PageWindow(Filter(drugDetails, p), page);
  }

  /** The window `slice((page-1)*20, page*20)` of a list: at most 20
      entries; none for page 0 or past the last page; for page 1 on, the
      entries from position `(page-1)*20` on, in order. */
  lemma PageWindow<T>(s: seq<T>, page: int)
    ensures var w := Slice(s, (page - 1) * PAGE_SIZE, page * PAGE_SIZE);
      && |w| <= PAGE_SIZE
      && (page == 0 ==> w == [])
      && (page >= 1 && page > (|s| + PAGE_SIZE - 1) / PAGE_SIZE ==> w == [])
      && (page >= 1 ==>
            && |w| == (if |s| <= (page - 1) * PAGE_SIZE then 0
                       else if |s| >= page * PAGE_SIZE then PAGE_SIZE
                       else |s| - (page - 1) * PAGE_SIZE)
            && forall i :: 0 <= i < |w| ==> (page - 1) * PAGE_SIZE + i < |s| && w[i] == s[(page - 1) * PAGE_SIZE + i])
  {
    var start := (page - 1) * PAGE_SIZE;
    assert page * PAGE_SIZE == start + PAGE_SIZE;
    if page >= 1 && page > (|s| + PAGE_SIZE - 1) / PAGE_SIZE {
      assert |s| <= start;
    }
  }

  /** The answer's count is the same whichever page is asked for. */
  lemma TotalMatchesIgnoresPage(drugDetails: seq<TypeRow>, typeParam: string, brandParam: string,
                                genericParam: string, manufacturerParam: string, page1: int, page2: int)
    requires typeParam != []
    ensures var r1 := DrugsByType(drugDetails, typeParam, brandParam, genericParam, manufacturerParam, page1);
      var r2 := DrugsByType(drugDetails, typeParam, brandParam, genericParam, manufacturerParam, page2);
      r1.Ok? && r2.Ok? && r1.body.totalMatches == r2.body.totalMatches
  {
    LowerEmpty(typeParam);
  }

  // ---------------------------------------------------------------------
  // search-contraindications

  /** The `filter` callback of `search-contraindications`: the record's
      text contains the term, and its lower-cased (untrimmed) drug name is
      the drug. */
  function ContraMatch(contraTerm: string, drugName: string): ContraRow -> bool {
    (row: ContraRow) => Contains(Lower(row.contraindications), contraTerm) && Lower(row.drugName) == drugName
  }

  function Project(row: ContraRow): ContraView {
    ContraView(row.drugName, row.manufacturer, row.indications, row.sideEffects, row.warnings)
  }

  function Projections(rows: seq<ContraRow>): seq<ContraView> {
    seq(|rows|, i requires 0 <= i < |rows| => Project(rows[i]))
  }

  /** `GET /api/search-contraindications?contra=&drug=` */
  function SearchContraindications(contraindicationData: seq<ContraRow>, contraParam: string, drugParam: string): seq<ContraView> {
    var contraTerm := Trim(Lower(contraParam));
    var drugName := Trim(Lower(drugParam));
    if |contraTerm| < 3 || |drugName| < 2 then []
    else Projections(Filter(contraindicationData, ContraMatch(contraTerm, drugName)))
  }

  /** A normalised contra term shorter than 3 or drug shorter than 2 gives
      `[]`. Otherwise the answer lists, in dataset order, the projection of
      exactly the records whose lower-cased text contains the term at some
      offset and whose lower-cased name is the drug: entry `i` is the
      projection of the `i`-th such record. */
  lemma SearchContraindicationsSpec(data: seq<ContraRow>, contraParam: string, drugParam: string)
    ensures var contraTerm := Trim(Lower(contraParam));
      var drugName := Trim(Lower(drugParam));
      var r := SearchContraindications(data, contraParam, drugParam);
      && (|contraTerm| < 3 || |drugName| < 2 ==> r == [])
      && (|contraTerm| >= 3 && |drugName| >= 2 ==>
            var ix := MatchIndices(data, ContraMatch(contraTerm, drugName));
            && |r| == |ix| && Increasing(ix)
            && (forall k :: k in ix <==>
                  (0 <= k < |data|
                   && (exists i :: OccursAt(Lower(data[k].contraindications), contraTerm, i))
                   && Lower(data[k].drugName) == drugName))
            && forall i :: 0 <= i < |r| ==> ix[i] < |data| && r[i] == Project(data[ix[i]]))
  {
    var contraTerm := Trim(Lower(contraParam));
    var drugName := Trim(Lower(drugParam));
    if |contraTerm| >= 3 && |drugName| >= 2 {
      FilterByIndices(data, ContraMatch(contraTerm, drugName));
      forall k | 0 <= k < |data|
        ensures Contains(Lower(data[k].contraindications), contraTerm)
            <==> exists i :: OccursAt(Lower(data[k].contraindications), contraTerm, i)
      {
        ContainsAt(Lower(data[k].contraindications), contraTerm);
      }
    }
  }

  /** The stored name is compared untrimmed: a record whose `drug_name`
      starts with white space is never found by name. */
  lemma PaddedNameNeverFound(data: seq<ContraRow>, contraParam: string, drugParam: string, k: nat)
    requires k < |data| && data[k].drugName != [] && IsSpace(data[k].drugName[0])
    ensures Project(data[k]) !in SearchContraindications(data, contraParam, drugParam)
  {
    var contraTerm := Trim(Lower(contraParam));
    var drugName := Trim(Lower(drugParam));
    if |contraTerm| >= 3 && |drugName| >= 2 {
      var p := ContraMatch(contraTerm, drugName);
      var r := SearchContraindications(data, contraParam, drugParam);
      FilterByIndices(data, p);
      assert Lower(data[k].drugName) != drugName by {
        TrimIdempotent(Lower(drugParam));
        TrimmedHasNoOuterSpace(drugName);
        assert Lower(data[k].drugName)[0] == LowerChar(data[k].drugName[0]);
        LowerCharSpace(data[k].drugName[0]);
      }
      var ix := MatchIndices(data, p);
      forall i | 0 <= i < |r| ensures r[i].drugName != data[k].drugName {
        assert ix[i] in ix;
      }
    }
  }

  // ---------------------------------------------------------------------
  // contraindication-suggestions

  /** `GET /api/contraindication-suggestions?term=` */
  function ContraindicationSuggestions(contraindicationTerms: seq<string>, termParam: string): seq<string> {
    var term := Trim(Lower(termParam));
    if |term| < 2 then []
    else Slice(Filter(contraindicationTerms, StartsWithTerm(term)), 0, SUGGESTION_LIMIT)
  }

  /** A normalised term shorter than 2 gives `[]`. Otherwise at most ten
      indexed terms, each starting with the term; over a strictly ascending
      index they are the least such terms, in order. */
  lemma ContraindicationSuggestionsSpec(terms: seq<string>, termParam: string)
    ensures var term := Trim(Lower(termParam));
      var r := ContraindicationSuggestions(terms, termParam);
      && (|term| < 2 ==> r == [])
      && |r| <= SUGGESTION_LIMIT
      && (forall x :: x in r ==> x in terms && StartsWith(x, term))
      && (StrictlySorted(terms) && |term| >= 2 ==>
            && StrictlySorted(r)
            && forall x :: x in terms && StartsWith(x, term) && x !in r ==>
                 |r| == SUGGESTION_LIMIT && forall y :: y in r ==> Less(y, x))
  {
    var term := Trim(Lower(termParam));
    if |term| >= 2 {
      PrefixHead(terms, term);
    }
  }

  /** Over the index the contraindication stream builds: every suggestion
      is a kept piece of some record starting with the term, and each such
      piece is suggested unless ten smaller ones are. */
  lemma ContraindicationSuggestionsOverIndex(rows: seq<ContraRow>, termParam: string)
    requires |Trim(Lower(termParam))| >= 2
    ensures var term := Trim(Lower(termParam));
      var r := ContraindicationSuggestions(Loader.TermIndex(rows), termParam);
      && StrictlySorted(r)
      && (forall x :: x in r ==> Loader.TermOf(rows, x) && StartsWith(x, term))
      && forall x :: Loader.TermOf(rows, x) && StartsWith(x, term) && x !in r ==>
           |r| == SUGGESTION_LIMIT && forall y :: y in r ==> Less(y, x)
  {
    Loader.TermIndexExact(rows);
    ContraindicationSuggestionsSpec(Loader.TermIndex(rows), termParam);
  }

  // ---------------------------------------------------------------------
  // drug-suggestions-by-contra

  /** The `forEach` test of `drug-suggestions-by-contra`. */
  predicate Suggests(row: ContraRow, contraTerm: string, drugTerm: string) {
    Contains(Lower(row.contraindications), contraTerm) && StartsWith(Lower(row.drugName), drugTerm)
  }

  /** `matchingDrugs` after the `forEach` has visited the given rows. */
  function MatchingNames(rows: seq<ContraRow>, contraTerm: string, drugTerm: string): seq<string>
    decreases |rows|
  {
    if rows == [] then []
    else
      var before := MatchingNames(rows[..|rows| - 1], contraTerm, drugTerm);
      var row := rows[|rows| - 1];
      if Suggests(row, contraTerm, drugTerm) then AddToSet(before, row.drugName) else before
  }

  /** What `drug-suggestions-by-contra` answers. */
  function DrugSuggestions(data: seq<ContraRow>, contraParam: string, termParam: string): seq<string> {
    var contraTerm := Trim(Lower(contraParam));
    var drugTerm := Trim(Lower(termParam));
    if |contraTerm| < 2 || |drugTerm| < 2 then []
    else Slice(SortStrings(MatchingNames(data, contraTerm, drugTerm)), 0, SUGGESTION_LIMIT)
  }

  /** `GET /api/drug-suggestions-by-contra?contra=&term=` */
  method DrugSuggestionsByContra(contraindicationData: seq<ContraRow>, contraParam: string, termParam: string)
    returns (r: seq<string>)
    ensures r == DrugSuggestions(contraindicationData, contraParam, termParam)
  {
    var contraTerm := Trim(Lower(contraParam));
    var drugTerm := Trim(Lower(termParam));
    if |contraTerm| < 2 || |drugTerm| < 2 {
      return [];
    }
    var matchingDrugs: seq<string> := [];
    for i := 0 to |contraindicationData|
      invariant matchingDrugs == MatchingNames(contraindicationData[..i], contraTerm, drugTerm)
    {
      var row := contraindicationData[i];
      var drugName := row.drugName;
      var contraMatch := Contains(Lower(row.contraindications), contraTerm);
      var drugMatch := StartsWith(Lower(drugName), drugTerm);
      if contraMatch && drugMatch {
        matchingDrugs := AddToSet(matchingDrugs, drugName);
      }
      assert contraindicationData[..i + 1][..i] == contraindicationData[..i];
    }
    assert contraindicationData[..|contraindicationData|] == contraindicationData;
    r := Slice(SortStrings(matchingDrugs), 0, SUGGESTION_LIMIT);
  }

  /** Some record among `rows` is suggested under the name `x`. */
  ghost predicate SuggestedIn(rows: seq<ContraRow>, contraTerm: string, drugTerm: string, x: string) {
    exists row :: row in rows && Suggests(row, contraTerm, drugTerm) && row.drugName == x
  }

  /** The collected names hold no repeats, and are exactly the names of the
      suggested records. */
  lemma {:induction false} MatchingNamesExact(rows: seq<ContraRow>, contraTerm: string, drugTerm: string)
    ensures NoDup(MatchingNames(rows, contraTerm, drugTerm))
    ensures forall x :: x in MatchingNames(rows, contraTerm, drugTerm) <==> SuggestedIn(rows, contraTerm, drugTerm, x)
    decreases |rows|
  {
    if rows != [] {
      var n := |rows| - 1;
      MatchingNamesExact(rows[..n], contraTerm, drugTerm);
      assert rows == rows[..n] + [rows[n]];
      forall x ensures SuggestedIn(rows, contraTerm, drugTerm, x)
        <==> SuggestedIn(rows[..n], contraTerm, drugTerm, x)
             || (Suggests(rows[n], contraTerm, drugTerm) && rows[n].drugName == x)
      {
        if SuggestedIn(rows, contraTerm, drugTerm, x) {
          var row :| row in rows && Suggests(row, contraTerm, drugTerm) && row.drugName == x;
          if row != rows[n] { assert row in rows[..n]; }
        }
        if SuggestedIn(rows[..n], contraTerm, drugTerm, x) {
          var row :| row in rows[..n] && Suggests(row, contraTerm, drugTerm) && row.drugName == x;
          assert row in rows;
        }
      }
    }
  }

  /** Either normalised input shorter than 2 gives `[]`. Otherwise the
      answer is at most ten distinct original-case names in strictly
      ascending order, each the name of a record whose text contains the
      contra term and whose lower-cased name starts with the drug term; a
      matching record's name is left out only when ten smaller names are
      returned. */
  lemma DrugSuggestionsSpec(data: seq<ContraRow>, contraParam: string, termParam: string)
    ensures var contraTerm := Trim(Lower(contraParam));
      var drugTerm := Trim(Lower(termParam));
      var r := DrugSuggestions(data, contraParam, termParam);
      && (|contraTerm| < 2 || |drugTerm| < 2 ==> r == [])
      && |r| <= SUGGESTION_LIMIT && StrictlySorted(r)
      && (forall x :: x in r ==> SuggestedIn(data, contraTerm, drugTerm, x))
      && (|contraTerm| >= 2 && |drugTerm| >= 2 ==>
            forall row :: row in data && Suggests(row, contraTerm, drugTerm) && row.drugName !in r ==>
              |r| == SUGGESTION_LIMIT && forall y :: y in r ==> Less(y, row.drugName))
  {
    var contraTerm := Trim(Lower(contraParam));
    var drugTerm := Trim(Lower(termParam));
    if |contraTerm| >= 2 && |drugTerm| >= 2 {
      var names := MatchingNames(data, contraTerm, drugTerm);
      MatchingNamesExact(data, contraTerm, drugTerm);
      SortSet(names);
      SliceHeadLeast(SortStrings(names), SUGGESTION_LIMIT);
      forall row | row in data && Suggests(row, contraTerm, drugTerm)
        ensures row.drugName in SortStrings(names)
      {
        assert row.drugName in names;
      }
    }
  }
}
