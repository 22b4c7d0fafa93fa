/** The entities of the crosswalk: municipality identities, mutation records, crosswalk rows and the
    configuration errors that abort a run. */
module Municipalities {

  /** A municipality as the Federal Statistical Office lists it at one point in time:
      canton abbreviation, district number, municipality number (BFS number) and name. */
  datatype Identity = Identity(canton: string, districtNr: int, municipalityNr: int, name: string)

  /** One row of the list of mutated communes: on day `date` the municipality `oldId` became `newId`.
      Dates are day numbers; only their order is used. */
  datatype Record = Record(changeNr: int, oldId: Identity, newId: Identity, date: int)

  /** One row of the crosswalk: the identity at the earlier date and the identity at the later date. */
  datatype Mapping = Mapping(oldId: Identity, newId: Identity)

  /** The errors `create_crosswalk` raises before producing any output. */
  datatype Error =
    | DateTooEarly      // since before 09/12/1848
    | DateInFuture      // to after today
    | DatesReversed     // since after to
    | DuplicateCantons  // the canton list repeats an entry
    | UnknownCanton     // the canton list holds something that is not one of the 26 abbreviations
    | SourceOutdated    // since after the day the list of mutated communes was last updated
    | InvalidFormat     // an output format other than csv, Stata and Pandas
    | StorePathWithPandas  // a store path given together with the Pandas output format
    | MissingColumn(column: string)  // pandas KeyError on a column that does not exist
    | MissingValue(column: string)   // an integer cast of a column holding blank cells

  /** A record whose old and new identity agree in all four fields (a territory change only). */
  predicate Degenerate(r: Record) {
    && r.oldId.canton == r.newId.canton
    && r.oldId.districtNr == r.newId.districtNr
    && r.oldId.municipalityNr == r.newId.municipalityNr
    && r.oldId.name == r.newId.name
  }
}
