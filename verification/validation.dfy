/** The input checks `create_crosswalk` runs before it touches any data. */
module Validation {
  import opened Wrappers
  import opened Municipalities
  import opened Seqs

  /** A calendar date as `strptime` parses it; dates compare chronologically. */
  datatype Date = Date(year: int, month: int, day: int)

  predicate Before(a: Date, b: Date) {
    || a.year < b.year
    || (a.year == b.year && a.month < b.month)
    || (a.year == b.year && a.month == b.month && a.day < b.day)
  }

  /** 12 September 1848, the founding of the federal state: the earliest admissible `since`. */
  const EarliestSince := Date(1848, 9, 12)

  /** The date checks, in the order the source runs them; `today` stands for `datetime.today()`. */
  function ValidateDates(since: Date, to: Date, today: Date): (o: Outcome<Error>)
    ensures o == Pass <==> !Before(since, EarliestSince) && !Before(today, to) && !Before(to, since)
    ensures o == Fail(DateTooEarly) <==> Before(since, EarliestSince)
    ensures o == Fail(DateInFuture) <==> !Before(since, EarliestSince) && Before(today, to)
    ensures o == Fail(DatesReversed) <==> !Before(since, EarliestSince) && !Before(today, to) && Before(to, since)
  {
    if Before(since, EarliestSince) then Fail(DateTooEarly)
    else if Before(today, to) then Fail(DateInFuture)
    else if Before(to, since) then Fail(DatesReversed)
    else Pass
  }

  /** Accepted dates lie in order between 1848 and today. */
  lemma AcceptedDatesOrdered(since: Date, to: Date, today: Date)
    requires ValidateDates(since, to, today) == Pass
    ensures !Before(since, EarliestSince) && !Before(to, EarliestSince)
    ensures !Before(to, since) && !Before(today, to) && !Before(today, since)
  {
  }

  /** The `cantons` argument: either a string (`""` and `"all"` select every canton) or a list of
      canton abbreviations. */
  datatype Cantons = Text(text: string) | Codes(codes: seq<string>)

  /** The 26 canton abbreviations the source accepts. */
  const CantonCodes: set<string> := {
    "AG", "AI", "AR", "BE", "BL", "BS", "FR", "GE", "GL", "GR", "JU", "LU", "NE",
    "NW", "OW", "SG", "SH", "SO", "SZ", "TG", "TI", "UR", "VD", "VS", "ZG", "ZH" }

  /** What Python iterates over: the entries of a list, or the one-character strings of a string. */
  function Items(c: Cantons): (items: seq<string>) {
    match c
    case Text(s) => seq(|s|, k requires 0 <= k < |s| => [s[k]])
    case Codes(l) => l
  }

  predicate SelectsAll(c: Cantons) {
    c == Text("") || c == Text("all")
  }

  /** The canton check: skipped for `""` and `"all"`; otherwise duplicates are rejected first, then
      anything outside the 26 abbreviations. */
  function ValidateCantons(c: Cantons): (o: Outcome<Error>)
    ensures o == Pass <==> SelectsAll(c) || (Distinct(Items(c)) && forall x :: x in Items(c) ==> x in CantonCodes)
    ensures o == Fail(DuplicateCantons) <==> !SelectsAll(c) && !Distinct(Items(c))
    ensures o == Fail(UnknownCanton) <==> !SelectsAll(c) && Distinct(Items(c)) && exists x :: x in Items(c) && x !in CantonCodes
  {
    DistinctCardinality(Items(c));
    if SelectsAll(c) then Pass
    else if |Elements(Items(c))| != |Items(c)| then Fail(DuplicateCantons)
    else if Elements(Items(c)) <= CantonCodes then Pass
    else Fail(UnknownCanton)
  }

  /** A string other than `""` and `"all"` is iterated character by character, and no single
      character is a canton abbreviation, so it is always rejected. */
  lemma TextSelectionRejected(s: string)
    requires s != "" && s != "all"
    ensures ValidateCantons(Text(s)).Fail?
  {
    var items := Items(Text(s));
    assert |items[0]| == 1 && items[0] in items;
    assert items[0] !in CantonCodes;
  }

  /** The freshness check of the later version: `lastUpdated` is the end date the query page of the
      Federal Statistical Office reports, and a `since` after it is rejected. */
  function ValidateFreshness(since: Date, lastUpdated: Date): (o: Outcome<Error>)
    ensures o == Pass <==> !Before(lastUpdated, since)
    ensures o.Fail? ==> o.error == SourceOutdated
  {
    if Before(lastUpdated, since) then Fail(SourceOutdated) else Pass
  }

  /** The output formats the later version writes. */
  datatype Format = Csv | Stata | Pandas

  /** The output checks of the later version: the format must be one of three names, and a store
      path may only be given for a file format. */
  function ValidateOutput(format: string, storePath: string): (r: Result<Format, Error>)
    ensures r.Success? <==> format in {"csv", "Stata", "Pandas"} && (format == "Pandas" ==> storePath == "")
    ensures r == Success(Csv) <==> format == "csv"
    ensures r == Success(Stata) <==> format == "Stata"
    ensures r == Success(Pandas) <==> format == "Pandas" && storePath == ""
    ensures r.Failure? ==> (r.error == InvalidFormat <==> format !in {"csv", "Stata", "Pandas"})
    ensures format == "Pandas" && storePath != "" ==> r == Failure(StorePathWithPandas)
  {
    if format == "csv" then Success(Csv)
    else if format == "Stata" then Success(Stata)
    else if format == "Pandas" then (if storePath != "" then Failure(StorePathWithPandas) else Success(Pandas))
    else Failure(InvalidFormat)
  }

  /** The first failing check of a sequence run in order. */
  function FirstFailure(checks: seq<Outcome<Error>>): (o: Outcome<Error>)
    ensures o == Pass <==> forall k :: 0 <= k < |checks| ==> checks[k] == Pass
    ensures o.Fail? ==> exists k :: 0 <= k < |checks| && checks[k] == o && forall m :: 0 <= m < k ==> checks[m] == Pass
  {
    if checks == [] then Pass
    else if checks[0].Fail? then checks[0]
    else
      var o := FirstFailure(checks[1..]);
      assert forall k :: 1 <= k < |checks| ==> checks[k] == checks[1..][k - 1];
      o
  }

  /** The input checks of the earlier version: dates, then cantons. */
  function ValidateEarlier(since: Date, to: Date, today: Date, cantons: Cantons): (o: Outcome<Error>)
    ensures o == Pass <==> ValidateDates(since, to, today) == Pass && ValidateCantons(cantons) == Pass
    ensures ValidateDates(since, to, today).Fail? ==> o == ValidateDates(since, to, today)
    ensures ValidateDates(since, to, today) == Pass ==> o == ValidateCantons(cantons)
  {
    var checks := [ValidateDates(since, to, today), ValidateCantons(cantons)];
    assert checks[0] == ValidateDates(since, to, today) && checks[1] == ValidateCantons(cantons);
    FirstFailure(checks)
  }

  /** The input checks of the later version: dates, freshness, cantons, then output format and
      store path. The result carries the chosen format. */
  function ValidateLater(since: Date, to: Date, today: Date, lastUpdated: Date, cantons: Cantons,
                         format: string, storePath: string): (r: Result<Format, Error>)
    ensures r.Success? <==>
      && ValidateDates(since, to, today) == Pass && ValidateFreshness(since, lastUpdated) == Pass
      && ValidateCantons(cantons) == Pass && ValidateOutput(format, storePath).Success?
    ensures r.Success? ==> r == ValidateOutput(format, storePath)
    ensures ValidateDates(since, to, today).Fail? ==> r == Failure(ValidateDates(since, to, today).error)
    ensures ValidateDates(since, to, today) == Pass && ValidateFreshness(since, lastUpdated).Fail? ==>
      r == Failure(SourceOutdated)
    ensures (ValidateDates(since, to, today) == Pass && ValidateFreshness(since, lastUpdated) == Pass
             && ValidateCantons(cantons).Fail?) ==> r == Failure(ValidateCantons(cantons).error)
    ensures (ValidateDates(since, to, today) == Pass && ValidateFreshness(since, lastUpdated) == Pass
             && ValidateCantons(cantons) == Pass) ==> r == ValidateOutput(format, storePath)
  {
    var checks := [ValidateDates(since, to, today), ValidateFreshness(since, lastUpdated), ValidateCantons(cantons)];
    assert checks[0] == ValidateDates(since, to, today) && checks[1] == ValidateFreshness(since, lastUpdated);
    assert checks[2] == ValidateCantons(cantons);
    var o := FirstFailure(checks);
    if o.Fail? then Failure(o.error) else ValidateOutput(format, storePath)
  }
}
