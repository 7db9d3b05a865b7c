/** Start-up: the three CSV streams and what their 'data' and 'end' handlers
    build (api/index.js lines 12-17 and 31-113; index.js lines 11-16 and
    27-100). Each handler is a method of `DrugData`, whose fields are the
    module-level collections of the service; the functions below give, for
    the rows delivered so far, the value each collection holds, and the
    lemmas say what the finished indices contain. */
module Loader {
  import opened Strings
  import opened LexOrder
  import opened Sequences
  import opened Records

  // ---------------------------------------------------------------------
  // Drug-name index (interactions stream)

  /** `x` is what row `r` adds to the drug-name set: a drug column that is
      non-empty as read, trimmed and then lower-cased. */
  predicate RowNames(r: InteractionRow, x: string) {
    || (r.drug1 != "" && x == Lower(Trim(r.drug1)))
    || (r.drug2 != "" && x == Lower(Trim(r.drug2)))
  }

  ghost predicate NamedIn(rows: seq<InteractionRow>, x: string) {
    exists r :: r in rows && RowNames(r, x)
  }

  /** The drug-name set after one 'data' event. */
  function WithDrugNames(names: seq<string>, row: InteractionRow): seq<string> {
    var afterFirst := if row.drug1 != "" then AddToSet(names, Lower(Trim(row.drug1))) else names;
    if row.drug2 != "" then AddToSet(afterFirst, Lower(Trim(row.drug2))) else afterFirst
  }

  /** The drug-name set after the given rows, starting from `names`. */
  function NameSet(names: seq<string>, rows: seq<InteractionRow>): seq<string>
    decreases |rows|
  {
    if rows == [] then names
    else WithDrugNames(NameSet(names, rows[..|rows| - 1]), rows[|rows| - 1])
  }

  /** `uniqueDrugNames` once the stream has ended. */
  function DrugNameIndex(rows: seq<InteractionRow>): seq<string> {
    SortStrings(NameSet([], rows))
  }

  lemma WithDrugNamesMembers(names: seq<string>, row: InteractionRow)
    ensures NoDup(names) ==> NoDup(WithDrugNames(names, row))
    ensures forall x :: x in WithDrugNames(names, row) <==> x in names || RowNames(row, x)
  {
  }

  lemma {:induction false} NameSetExact(rows: seq<InteractionRow>)
    ensures NoDup(NameSet([], rows))
    ensures forall x :: x in NameSet([], rows) <==> NamedIn(rows, x)
    decreases |rows|
  {
    if rows != [] {
      var n := |rows| - 1;
      NameSetExact(rows[..n]);
      WithDrugNamesMembers(NameSet([], rows[..n]), rows[n]);
      assert NameSet([], rows) == WithDrugNames(NameSet([], rows[..n]), rows[n]);
      assert rows == rows[..n] + [rows[n]];
      forall x ensures NamedIn(rows, x) <==> NamedIn(rows[..n], x) || RowNames(rows[n], x) {
        NamedStep(rows[..n], rows[n], x);
      }
    }
  }

  lemma NamedStep(rows: seq<InteractionRow>, row: InteractionRow, x: string)
    ensures NamedIn(rows + [row], x) <==> NamedIn(rows, x) || RowNames(row, x)
  {
    if NamedIn(rows + [row], x) {
      var r :| r in rows + [row] && RowNames(r, x);
      if r != row { assert r in rows; }
    }
  }

  /** The finished drug-name index holds exactly the normalised non-empty
      `Drug 1`/`Drug 2` values of the rows, each once, in ascending order. */
  lemma DrugNameIndexExact(rows: seq<InteractionRow>)
    ensures StrictlySorted(DrugNameIndex(rows))
    ensures forall x :: x in DrugNameIndex(rows) <==> NamedIn(rows, x)
  {
    NameSetExact(rows);
    SortSet(NameSet([], rows));
  }

  /** Every indexed name is already trimmed and lower-case, so it is its
      own normal form. */
  lemma DrugNamesNormalised(rows: seq<InteractionRow>, x: string)
    requires x in DrugNameIndex(rows)
    ensures Trim(x) == x && Lower(x) == x
  {
    DrugNameIndexExact(rows);
    var r :| r in rows && RowNames(r, x);
    var d := if r.drug1 != "" && x == Lower(Trim(r.drug1)) then r.drug1 else r.drug2;
    assert x == Lower(Trim(d));
    LowerIdempotent(Trim(d));
    TrimLowerCommute(Trim(d));
    TrimIdempotent(d);
  }

  // ---------------------------------------------------------------------
  // Filter index (type-catalog stream)

  /** The catalog rows `drugDetails` keeps: those whose `Type` is truthy. */
  predicate HasTypeValue(r: TypeRow) {
    r.drugType != ""
  }

  /** The filter-index key of a row: its `Type`, lower-cased and trimmed. */
  function TypeKey(r: TypeRow): string {
    Trim(Lower(r.drugType))
  }

  /** `addToSet` keeps a value that is truthy and whose lower-cased form is
      not "false"; both tests look at the value as read, untrimmed. */
  predicate Kept(v: string) {
    v != "" && Lower(v) != "false"
  }

  function AddKept(values: seq<string>, v: string): seq<string> {
    if Kept(v) then AddToSet(values, Trim(v)) else values
  }

  /** `allFilterData` after one 'data' event. */
  function WithTypeRow(m: map<string, FilterSets>, row: TypeRow): map<string, FilterSets> {
    if !HasTypeValue(row) then m
    else
      var k := TypeKey(row);
      if k == "" then m
      else
        var e := if k in m then m[k] else NoFilters;
        m[k := FilterSets(
          AddKept(e.brandNames, row.brandName),
          AddKept(e.genericNames, row.genericName),
          AddKept(e.manufacturers, row.manufacturer))]
  }

  function FilterFold(m: map<string, FilterSets>, rows: seq<TypeRow>): map<string, FilterSets>
    decreases |rows|
  {
    if rows == [] then m
    else WithTypeRow(FilterFold(m, rows[..|rows| - 1]), rows[|rows| - 1])
  }

  function SortEntry(e: FilterSets): FilterSets {
    FilterSets(SortStrings(e.brandNames), SortStrings(e.genericNames), SortStrings(e.manufacturers))
  }

  /** What the 'end' handler's loop over the types leaves. */
  function SortAll(m: map<string, FilterSets>): map<string, FilterSets> {
    map k | k in m :: SortEntry(m[k])
  }

  /** `allFilterData` once the stream has ended. */
  function FilterIndex(rows: seq<TypeRow>): map<string, FilterSets> {
    SortAll(FilterFold(map[], rows))
  }

  /** Row `r` contributes value `x` to column `c` of type `k`. */
  predicate Listed(r: TypeRow, k: string, c: Column, x: string) {
    HasTypeValue(r) && k != "" && TypeKey(r) == k && Kept(ColumnOf(r, c)) && x == Trim(ColumnOf(r, c))
  }

  ghost predicate HasType(rows: seq<TypeRow>, k: string) {
    k != "" && exists r :: r in rows && HasTypeValue(r) && TypeKey(r) == k
  }

  ghost predicate ListedIn(rows: seq<TypeRow>, k: string, c: Column, x: string) {
    exists r :: r in rows && Listed(r, k, c, x)
  }

  ghost predicate ExactFor(m: map<string, FilterSets>, rows: seq<TypeRow>) {
    && (forall k :: k in m <==> HasType(rows, k))
    && (forall k, c :: k in m ==> NoDup(ListOf(m[k], c)))
    && (forall k, c, x :: k in m ==> (x in ListOf(m[k], c) <==> ListedIn(rows, k, c, x)))
  }

  lemma AddKeptMembers(values: seq<string>, v: string)
    ensures NoDup(values) ==> NoDup(AddKept(values, v))
    ensures forall x :: x in AddKept(values, v) <==> x in values || (Kept(v) && x == Trim(v))
  {
  }

  lemma HasTypeStep(rows: seq<TypeRow>, row: TypeRow, k: string)
    ensures HasType(rows + [row], k) <==> HasType(rows, k) || (k != "" && HasTypeValue(row) && TypeKey(row) == k)
  {
    if HasType(rows + [row], k) {
      var r :| r in rows + [row] && HasTypeValue(r) && TypeKey(r) == k;
      if r != row { assert r in rows; }
    }
  }

  lemma ListedStep(rows: seq<TypeRow>, row: TypeRow, k: string, c: Column, x: string)
    ensures ListedIn(rows + [row], k, c, x) <==> ListedIn(rows, k, c, x) || Listed(row, k, c, x)
  {
    if ListedIn(rows + [row], k, c, x) {
      var r :| r in rows + [row] && Listed(r, k, c, x);
      if r != row { assert r in rows; }
    }
  }

  /** A type the index has no key for has no listed values. */
  lemma UnlistedType(m: map<string, FilterSets>, rows: seq<TypeRow>, k: string, c: Column, x: string)
    requires ExactFor(m, rows) && k !in m
    ensures !ListedIn(rows, k, c, x)
  {
  }

  lemma WithTypeRowColumn(m: map<string, FilterSets>, rows: seq<TypeRow>, row: TypeRow, k: string, c: Column)
    requires ExactFor(m, rows) && k in WithTypeRow(m, row)
    ensures NoDup(ListOf(WithTypeRow(m, row)[k], c))
    ensures forall x :: x in ListOf(WithTypeRow(m, row)[k], c) <==> ListedIn(rows + [row], k, c, x)
  {
    var m' := WithTypeRow(m, row);
    if HasTypeValue(row) && TypeKey(row) == k && k != "" {
      var e := if k in m then m[k] else NoFilters;
      assert ListOf(m'[k], c) == AddKept(ListOf(e, c), ColumnOf(row, c)) by {
        match c
        case Brand =>
        case Generic =>
        case Maker =>
      }
      AddKeptMembers(ListOf(e, c), ColumnOf(row, c));
      forall x ensures x in ListOf(m'[k], c) <==> ListedIn(rows + [row], k, c, x) {
        ListedStep(rows, row, k, c, x);
        if k !in m { UnlistedType(m, rows, k, c, x); }
      }
    } else {
      assert m'[k] == m[k];
      forall x ensures x in ListOf(m'[k], c) <==> ListedIn(rows + [row], k, c, x) {
        ListedStep(rows, row, k, c, x);
      }
    }
  }

  lemma WithTypeRowExact(m: map<string, FilterSets>, rows: seq<TypeRow>, row: TypeRow)
    requires ExactFor(m, rows)
    ensures ExactFor(WithTypeRow(m, row), rows + [row])
  {
    var m' := WithTypeRow(m, row);
    forall k ensures k in m' <==> HasType(rows + [row], k) {
      HasTypeStep(rows, row, k);
    }
    forall k, c | k in m'
      ensures NoDup(ListOf(m'[k], c))
      ensures forall x :: x in ListOf(m'[k], c) <==> ListedIn(rows + [row], k, c, x)
    {
      WithTypeRowColumn(m, rows, row, k, c);
    }
  }

  lemma {:induction false} FilterFoldExact(rows: seq<TypeRow>)
    ensures ExactFor(FilterFold(map[], rows), rows)
    decreases |rows|
  {
    if rows == [] {
      assert forall k :: !HasType(rows, k);
    } else {
      var n := |rows| - 1;
      FilterFoldExact(rows[..n]);
      WithTypeRowExact(FilterFold(map[], rows[..n]), rows[..n], rows[n]);
      assert rows == rows[..n] + [rows[n]];
    }
  }

  /** The finished filter index has a key for exactly the non-empty
      normalised types of the catalog, and under each key three lists that
      are strictly ascending and hold exactly the trimmed values of the
      kept `Brand-Name`, `GenericName` and `Manufacturer` cells of that
      type's rows. */
  lemma FilterIndexExact(rows: seq<TypeRow>)
    ensures var m := FilterIndex(rows);
      && (forall k :: k in m <==> HasType(rows, k))
      && (forall k, c :: k in m ==> StrictlySorted(ListOf(m[k], c)))
      && (forall k, c, x :: k in m ==> (x in ListOf(m[k], c) <==> ListedIn(rows, k, c, x)))
  {
    var f := FilterFold(map[], rows);
    FilterFoldExact(rows);
    var m := FilterIndex(rows);
    forall k, c | k in m
      ensures StrictlySorted(ListOf(m[k], c))
      ensures forall x :: x in ListOf(m[k], c) <==> ListedIn(rows, k, c, x)
    {
      SortEntryColumn(f[k], c);
    }
  }

  /** Sorting an entry sorts each of its three lists and keeps their members. */
  lemma SortEntryColumn(e: FilterSets, c: Column)
    requires NoDup(ListOf(e, c))
    ensures StrictlySorted(ListOf(SortEntry(e), c))
    ensures forall x :: x in ListOf(SortEntry(e), c) <==> x in ListOf(e, c)
  {
    SortSet(ListOf(e, c));
    assert ListOf(SortEntry(e), c) == SortStrings(ListOf(e, c)) by {
      match c
      case Brand =>
      case Generic =>
      case Maker =>
    }
  }

  /** Every key of the filter index is trimmed and lower-case. */
  lemma FilterKeysNormalised(rows: seq<TypeRow>, k: string)
    requires k in FilterIndex(rows)
    ensures k != "" && Trim(k) == k && Lower(k) == k
  {
    FilterIndexExact(rows);
    var r :| r in rows && HasTypeValue(r) && TypeKey(r) == k;
    TrimIdempotent(Lower(r.drugType));
    TrimLowerCommute(Lower(r.drugType));
    LowerIdempotent(r.drugType);
  }

  /** `addToSet` tests the value as read, before trimming: a cell holding
      only white space passes both tests and is stored trimmed, as "". */
  lemma BlankValueListed(rows: seq<TypeRow>, row: TypeRow, c: Column)
    requires row in rows && HasTypeValue(row) && TypeKey(row) != ""
    requires ColumnOf(row, c) != "" && AllSpace(ColumnOf(row, c))
    ensures TypeKey(row) in FilterIndex(rows) && "" in ListOf(FilterIndex(rows)[TypeKey(row)], c)
  {
    var v := ColumnOf(row, c);
    TrimEmpty(v);
    assert Lower(v) != "false" by {
      assert Lower(v)[0] == LowerChar(v[0]);
      LowerCharSpace(v[0]);
    }
    assert Listed(row, TypeKey(row), c, "");
    FilterIndexExact(rows);
    assert HasType(rows, TypeKey(row));
  }

  /** For the same reason, a cell holding "false" with white space around it
      passes the "false" test and is stored trimmed, as "false". */
  lemma PaddedFalseListed(rows: seq<TypeRow>, row: TypeRow, c: Column)
    requires row in rows && HasTypeValue(row) && TypeKey(row) != ""
    requires ColumnOf(row, c) == " false "
    ensures TypeKey(row) in FilterIndex(rows) && "false" in ListOf(FilterIndex(rows)[TypeKey(row)], c)
  {
    var v := ColumnOf(row, c);
    assert Lower(v) != "false" by {
      assert |Lower(v)| == 7;
    }
    assert Trim(v) == "false" by {
      assert TrimStart(v) == v[1..];
      assert TrimEnd(v[1..]) == v[1..6];
    }
    assert Listed(row, TypeKey(row), c, "false");
    FilterIndexExact(rows);
    assert HasType(rows, TypeKey(row));
  }

  /** A row whose `Type` is only white space is kept in `drugDetails` but
      opens no entry of the filter index. */
  lemma BlankTypeUnindexed(rows: seq<TypeRow>, row: TypeRow)
    requires row in rows && row.drugType != "" && AllSpace(row.drugType)
    ensures row in Filter(rows, HasTypeValue)
    ensures TypeKey(row) == "" && TypeKey(row) !in FilterIndex(rows)
  {
    FilterMembers(rows, HasTypeValue);
    var lowered := Lower(row.drugType);
    forall i | 0 <= i < |lowered| ensures IsSpace(lowered[i]) {
      LowerCharSpace(row.drugType[i]);
    }
    TrimEmpty(lowered);
    if "" in FilterIndex(rows) {
      FilterKeysNormalised(rows, "");
    }
  }

  /** Delivering row `i` extends both catalog collections by that row. */
  lemma TypeRowStep(rows: seq<TypeRow>, i: nat)
    requires i < |rows|
    ensures Filter(rows[..i + 1], HasTypeValue)
      == Filter(rows[..i], HasTypeValue) + (if HasTypeValue(rows[i]) then [rows[i]] else [])
    ensures FilterFold(map[], rows[..i + 1]) == WithTypeRow(FilterFold(map[], rows[..i]), rows[i])
  {
    assert rows[..i + 1] == rows[..i] + [rows[i]];
    FilterAppend(rows[..i], [rows[i]], HasTypeValue);
    assert rows[..i + 1][..i] == rows[..i];
  }

  // ---------------------------------------------------------------------
  // Contraindication-term index (contraindication stream)

  const TermDelimiters: set<char> := {',', ';'}

  /** The record's `contraindications` text, lower-cased and split on `,`
      and `;`. */
  function Pieces(row: ContraRow): seq<string> {
    Split(Lower(row.contraindications), TermDelimiters)
  }

  /** A trimmed piece is indexed when it is longer than two characters and
      is not "false". */
  predicate KeptTerm(t: string) {
    t != "" && |t| > 2 && t != "false"
  }

  /** The term set after the `forEach` over some pieces. */
  function AddTerms(terms: seq<string>, pieces: seq<string>): seq<string>
    decreases |pieces|
  {
    if pieces == [] then terms
    else
      var before := AddTerms(terms, pieces[..|pieces| - 1]);
      var t := Trim(pieces[|pieces| - 1]);
      if KeptTerm(t) then AddToSet(before, t) else before
  }

  function TermSet(terms: seq<string>, rows: seq<ContraRow>): seq<string>
    decreases |rows|
  {
    if rows == [] then terms
    else AddTerms(TermSet(terms, rows[..|rows| - 1]), Pieces(rows[|rows| - 1]))
  }

  /** `contraindicationTerms` once the stream has ended. */
  function TermIndex(rows: seq<ContraRow>): seq<string> {
    SortStrings(TermSet([], rows))
  }

  predicate PieceTerm(pieces: seq<string>, t: string) {
    exists p :: p in pieces && t == Trim(p) && KeptTerm(t)
  }

  ghost predicate TermOf(rows: seq<ContraRow>, t: string) {
    exists r :: r in rows && PieceTerm(Pieces(r), t)
  }

  lemma {:induction false} AddTermsMembers(terms: seq<string>, pieces: seq<string>)
    ensures NoDup(terms) ==> NoDup(AddTerms(terms, pieces))
    ensures forall t :: t in AddTerms(terms, pieces) <==> t in terms || PieceTerm(pieces, t)
    decreases |pieces|
  {
    if pieces != [] {
      var n := |pieces| - 1;
      AddTermsMembers(terms, pieces[..n]);
      assert pieces == pieces[..n] + [pieces[n]];
      forall t ensures PieceTerm(pieces, t) <==> PieceTerm(pieces[..n], t) || (t == Trim(pieces[n]) && KeptTerm(t)) {
        if PieceTerm(pieces, t) {
          var p :| p in pieces && t == Trim(p) && KeptTerm(t);
          if p != pieces[n] { assert p in pieces[..n]; }
        }
      }
    }
  }

  lemma {:induction false} TermSetExact(rows: seq<ContraRow>)
    ensures NoDup(TermSet([], rows))
    ensures forall t :: t in TermSet([], rows) <==> TermOf(rows, t)
    decreases |rows|
  {
    if rows != [] {
      var n := |rows| - 1;
      TermSetExact(rows[..n]);
      AddTermsMembers(TermSet([], rows[..n]), Pieces(rows[n]));
      assert rows == rows[..n] + [rows[n]];
      forall t ensures TermOf(rows, t) <==> TermOf(rows[..n], t) || PieceTerm(Pieces(rows[n]), t) {
        if TermOf(rows, t) {
          var r :| r in rows && PieceTerm(Pieces(r), t);
          if r != rows[n] { assert r in rows[..n]; }
        }
      }
    }
  }

  /** The finished term index holds exactly the kept trimmed pieces of all
      records, each once, in ascending order. */
  lemma TermIndexExact(rows: seq<ContraRow>)
    ensures StrictlySorted(TermIndex(rows))
    ensures forall t :: t in TermIndex(rows) <==> TermOf(rows, t)
  {
    TermSetExact(rows);
    SortSet(TermSet([], rows));
  }

  /** Every indexed term is longer than two characters, is not "false", is
      trimmed and is lower-case. */
  lemma TermsNormalised(rows: seq<ContraRow>, t: string)
    requires t in TermIndex(rows)
    ensures |t| > 2 && t != "false" && Trim(t) == t && Lower(t) == t
  {
    TermIndexExact(rows);
    var r :| r in rows && PieceTerm(Pieces(r), t);
    var p :| p in Pieces(r) && t == Trim(p) && KeptTerm(t);
    TrimIdempotent(p);
    PiecesLowerCase(Lower(r.contraindications), p);
    TrimLowerCommute(p);
  }

  /** The pieces of a lower-cased text are lower-case. */
  lemma {:induction false} PiecesLowerCase(text: string, p: string)
    requires Lower(text) == text && p in Split(text, TermDelimiters)
    ensures Lower(p) == p
    decreases |text|
  {
    var pieces := Split(text, TermDelimiters);
    if text != [] {
      var rest := Split(text[1..], TermDelimiters);
      assert Lower(text[1..]) == text[1..] by { LowerPrefix(text, 1); }
      if text[0] in TermDelimiters {
        if p != [] { PiecesLowerCase(text[1..], p); }
      } else if p == pieces[0] {
        PiecesLowerCase(text[1..], rest[0]);
        assert LowerChar(text[0]) == text[0] by { assert Lower(text)[0] == LowerChar(text[0]); }
        LowerAppend([text[0]], rest[0]);
      } else {
        assert p in rest[1..];
        PiecesLowerCase(text[1..], p);
      }
    }
  }

  // ---------------------------------------------------------------------
  // The service state

  /** The module-level collections of the service. Each set of the source
      is a sequence here: its elements in insertion order while a stream is
      running, the sorted array the 'end' handler puts in its place
      afterwards. */
  class DrugData {
    var interactions: seq<InteractionRow>
    var uniqueDrugNames: seq<string>
    var drugDetails: seq<TypeRow>
    var allFilterData: map<string, FilterSets>
    var contraindicationData: seq<ContraRow>
    var contraindicationTerms: seq<string>

    /** The state before any stream has delivered a row. */
    constructor ()
      ensures interactions == [] && uniqueDrugNames == []
      ensures drugDetails == [] && allFilterData == map[]
      ensures contraindicationData == [] && contraindicationTerms == []
    {
      interactions, uniqueDrugNames := [], [];
      drugDetails, allFilterData := [], map[];
      contraindicationData, contraindicationTerms := [], [];
    }

    /** Start-up: the three streams run to their end, one after the other. */
    constructor Startup(interactionRows: seq<InteractionRow>, typeRows: seq<TypeRow>, contraRows: seq<ContraRow>)
      ensures interactions == interactionRows && uniqueDrugNames == DrugNameIndex(interactionRows)
      ensures drugDetails == Filter(typeRows, HasTypeValue) && allFilterData == FilterIndex(typeRows)
      ensures contraindicationData == contraRows && contraindicationTerms == TermIndex(contraRows)
    {
      interactions, uniqueDrugNames := [], [];
      drugDetails, allFilterData := [], map[];
      contraindicationData, contraindicationTerms := [], [];
      new;
      LoadInteractions(interactionRows);
      LoadTypes(typeRows);
      LoadContraindications(contraRows);
    }

    /** 'data' handler of the interactions stream. */
    method OnInteractionRow(row: InteractionRow)
      modifies this`interactions, this`uniqueDrugNames
      ensures interactions == old(interactions) + [row]
      ensures uniqueDrugNames == WithDrugNames(old(uniqueDrugNames), row)
      ensures NoDup(old(uniqueDrugNames)) ==> NoDup(uniqueDrugNames)
    {
      interactions := interactions + [row];
      if row.drug1 != "" {
        uniqueDrugNames := AddToSet(uniqueDrugNames, Lower(Trim(row.drug1)));
      }
      if row.drug2 != "" {
        uniqueDrugNames := AddToSet(uniqueDrugNames, Lower(Trim(row.drug2)));
      }
    }

    /** 'end' handler of the interactions stream. */
    method OnInteractionsEnd()
      modifies this`uniqueDrugNames
      ensures uniqueDrugNames == SortStrings(old(uniqueDrugNames))
    {
      uniqueDrugNames := SortStrings(uniqueDrugNames);
    }

    /** The interactions stream, which runs once from the start-up state:
        each row in order, then the end. */
    method LoadInteractions(rows: seq<InteractionRow>)
      modifies this`interactions, this`uniqueDrugNames
      requires interactions == [] && uniqueDrugNames == []
      ensures interactions == rows && uniqueDrugNames == DrugNameIndex(rows)
    {
      for i := 0 to |rows|
        invariant interactions == old(interactions) + rows[..i]
        invariant uniqueDrugNames == NameSet(old(uniqueDrugNames), rows[..i])
      {
        OnInteractionRow(rows[i]);
        assert rows[..i + 1][..i] == rows[..i];
      }
      assert rows[..|rows|] == rows;
      assert [] + rows == rows;
      OnInteractionsEnd();
    }

    /** 'data' handler of the type-catalog stream. */
    method OnTypeRow(row: TypeRow)
      modifies this`drugDetails, this`allFilterData
      ensures drugDetails == old(drugDetails) + (if HasTypeValue(row) then [row] else [])
      ensures allFilterData == WithTypeRow(old(allFilterData), row)
    {
      if row.drugType != "" {
        drugDetails := drugDetails + [row];
        var drugType := Trim(Lower(row.drugType));
        if drugType == "" {
          return;
        }
        if drugType !in allFilterData {
          allFilterData := allFilterData[drugType := NoFilters];
        }
        var e := allFilterData[drugType];
        allFilterData := allFilterData[drugType := FilterSets(
          AddKept(e.brandNames, row.brandName),
          AddKept(e.genericNames, row.genericName),
          AddKept(e.manufacturers, row.manufacturer))];
      }
    }

    /** 'end' handler of the type-catalog stream: sorts the three sets of
        every type. */
    method OnTypesEnd()
      modifies this`allFilterData
      ensures allFilterData == SortAll(old(allFilterData))
    {
      ghost var loaded := allFilterData;
      var pending := allFilterData.Keys;
      while pending != {}
        invariant allFilterData.Keys == loaded.Keys && pending <= loaded.Keys
        invariant forall k :: k in loaded ==>
          allFilterData[k] == if k in pending then loaded[k] else SortEntry(loaded[k])
        decreases pending
      {
        var k :| k in pending;
        allFilterData := allFilterData[k := SortEntry(allFilterData[k])];
        pending := pending - {k};
      }
    }

    /** The type-catalog stream, which runs once from the start-up state:
        each row in order, then the end. */
    method LoadTypes(rows: seq<TypeRow>)
      modifies this`drugDetails, this`allFilterData
      requires drugDetails == [] && allFilterData == map[]
      ensures drugDetails == Filter(rows, HasTypeValue) && allFilterData == FilterIndex(rows)
    {
      for i := 0 to |rows|
        invariant drugDetails == Filter(rows[..i], HasTypeValue)
        invariant allFilterData == FilterFold(map[], rows[..i])
      {
        OnTypeRow(rows[i]);
        TypeRowStep(rows, i);
      }
      assert rows[..|rows|] == rows;
      OnTypesEnd();
    }

    /** 'data' handler of the contraindication stream. */
    method OnContraRow(row: ContraRow)
      modifies this`contraindicationData, this`contraindicationTerms
      ensures contraindicationData == old(contraindicationData) + [row]
      ensures contraindicationTerms == AddTerms(old(contraindicationTerms), Pieces(row))
    {
      contraindicationData := contraindicationData + [row];
      var terms := Lower(row.contraindications);
      var splitTerms := Split(terms, TermDelimiters);
      for i := 0 to |splitTerms|
        invariant contraindicationData == old(contraindicationData) + [row]
        invariant contraindicationTerms == AddTerms(old(contraindicationTerms), splitTerms[..i])
      {
        var cleanedTerm := Trim(splitTerms[i]);
        if cleanedTerm != "" && |cleanedTerm| > 2 && cleanedTerm != "false" {
          contraindicationTerms := AddToSet(contraindicationTerms, cleanedTerm);
        }
        assert splitTerms[..i + 1][..i] == splitTerms[..i];
      }
      assert splitTerms[..|splitTerms|] == splitTerms;
    }

    /** 'end' handler of the contraindication stream. */
    method OnContraEnd()
      modifies this`contraindicationTerms
      ensures contraindicationTerms == SortStrings(old(contraindicationTerms))
    {
      contraindicationTerms := SortStrings(contraindicationTerms);
    }

    /** The contraindication stream, which runs once from the start-up
        state: each row in order, then the end. */
    method LoadContraindications(rows: seq<ContraRow>)
      modifies this`contraindicationData, this`contraindicationTerms
      requires contraindicationData == [] && contraindicationTerms == []
      ensures contraindicationData == rows && contraindicationTerms == TermIndex(rows)
    {
      for i := 0 to |rows|
        invariant contraindicationData == old(contraindicationData) + rows[..i]
        invariant contraindicationTerms == TermSet(old(contraindicationTerms), rows[..i])
      {
        OnContraRow(rows[i]);
        assert rows[..i + 1][..i] == rows[..i];
      }
      assert rows[..|rows|] == rows;
      assert [] + rows == rows;
      OnContraEnd();
    }
  }
}
