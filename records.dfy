/** The rows of the three CSV datasets, the derived filter entry, and the
    values the routes answer with. A column missing from a row reads as "". */
module Records {

  /** A row of the interactions dataset (columns `Drug 1`, `Drug 2`,
      `Interaction Description`). */
  datatype InteractionRow = InteractionRow(drug1: string, drug2: string, description: string)

  /** A row of the type catalog (columns `Type`, `Brand-Name`, `GenericName`,
      `Manufacturer`). */
  datatype TypeRow = TypeRow(drugType: string, brandName: string, genericName: string, manufacturer: string)

  /** A row of the contraindication dataset. */
  datatype ContraRow = ContraRow(
    drugName: string, manufacturer: string, indications: string,
    sideEffects: string, warnings: string, contraindications: string)

  /** `allFilterData[type]`: the three value sets of one drug type (kept in
      insertion order while loading, sorted at the end of the load). */
  datatype FilterSets = FilterSets(brandNames: seq<string>, genericNames: seq<string>, manufacturers: seq<string>)

  const NoFilters := FilterSets([], [], [])

  /** The three catalog columns the filter index groups. */
  datatype Column = Brand | Generic | Maker

  function ColumnOf(row: TypeRow, c: Column): string {
    match c
    case Brand => row.brandName
    case Generic => row.genericName
    case Maker => row.manufacturer
  }

  function ListOf(e: FilterSets, c: Column): seq<string> {
    match c
    case Brand => e.brandNames
    case Generic => e.genericNames
    case Maker => e.manufacturers
  }

  /** A reported interaction: `{ drugs: [drugA, drugB], description }`. */
  datatype Interaction = Interaction(drugs: seq<string>, description: string)

  /** One entry of a `drugs-by-type` page. */
  datatype DrugView = DrugView(brandName: string, genericName: string, manufacturer: string)

  /** The `drugs-by-type` answer. */
  datatype TypePage = TypePage(drugs: seq<DrugView>, totalMatches: nat, currentPage: int, pageSize: nat)

  /** One entry of a `search-contraindications` answer. */
  datatype ContraView = ContraView(
    drugName: string, manufacturer: string, indications: string,
    sideEffects: string, warnings: string)

  /** A route's answer: a JSON body, or status 400 with `{ error: message }`. */
  datatype Response<T> = Ok(body: T) | BadRequest(message: string)
}
