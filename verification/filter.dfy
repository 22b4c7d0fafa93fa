/** The mutation filter: degenerate records are dropped, and a list of several cantons restricts the
    records to those touching one of them. */
module Filter {
  import opened Wrappers
  import opened Municipalities
  import opened Validation

  /** Keeps the records that change at least one of the four identity fields, in their order. */
  function FilterDegenerate(recs: seq<Record>): (kept: seq<Record>)
    ensures forall r :: r in kept <==> r in recs && !Degenerate(r)
  {
    if recs == [] then []
    else
      (if Degenerate(recs[0]) then [] else [recs[0]]) + FilterDegenerate(recs[1..])
  }

  /** Every non-degenerate record is kept as often as it occurs, and no degenerate one. */
  lemma {:induction false} FilterDegenerateCounts(recs: seq<Record>)
    ensures forall r :: multiset(FilterDegenerate(recs))[r] == if Degenerate(r) then 0 else multiset(recs)[r]
  {
    if recs != [] {
      FilterDegenerateCounts(recs[1..]);
      assert recs == [recs[0]] + recs[1..];
      assert multiset(recs) == multiset([recs[0]]) + multiset(recs[1..]);
    }
  }

  /** The filter acts record by record, so it keeps the order of the records it keeps. */
  lemma {:induction false} FilterDegenerateAppend(a: seq<Record>, b: seq<Record>)
    ensures FilterDegenerate(a + b) == FilterDegenerate(a) + FilterDegenerate(b)
  {
    if a != [] {
      var head := if Degenerate(a[0]) then [] else [a[0]];
      assert (a + b)[0] == a[0] && (a + b)[1..] == a[1..] + b;
      assert FilterDegenerate(a + b) == head + FilterDegenerate(a[1..] + b);
      FilterDegenerateAppend(a[1..], b);
      assert FilterDegenerate(a) == head + FilterDegenerate(a[1..]);
    } else {
      assert a + b == b;
    }
  }

  /** Records that all change something pass unchanged and in order. */
  lemma {:induction false} FilterDegenerateKeepsChanges(recs: seq<Record>)
    requires forall r :: r in recs ==> !Degenerate(r)
    ensures FilterDegenerate(recs) == recs
  {
    if recs != [] {
      FilterDegenerateKeepsChanges(recs[1..]);
    }
  }

  /** The guard of the multi-canton restriction: not `"all"` and more than one entry. */
  predicate SeveralCantons(c: Cantons) {
    c != Text("all") && |Items(c)| > 1
  }

  /** The multi-canton restriction as written: it selects the columns `canton_old` and `canton_new`,
      which the table does not have (its columns are `old_canton` and `new_canton`), so pandas raises
      a KeyError whenever the guard holds. */
  function RestrictCantonsAsWritten(recs: seq<Record>, c: Cantons): (r: Result<seq<Record>, Error>)
    ensures r.Failure? <==> SeveralCantons(c)
    ensures r.Success? ==> r.value == recs
  {
    if SeveralCantons(c) then Failure(MissingColumn("canton_old")) else Success(recs)
  }

  predicate Touches(r: Record, codes: seq<string>) {
    r.oldId.canton in codes || r.newId.canton in codes
  }

  /** The intended multi-canton restriction: keep the records whose old or new canton is selected. */
  function RestrictCantons(recs: seq<Record>, c: Cantons): (kept: seq<Record>)
    ensures SeveralCantons(c) ==> forall r :: r in kept <==> r in recs && Touches(r, Items(c))
    ensures !SeveralCantons(c) ==> kept == recs
    ensures forall r :: r in kept ==> r in recs
  {
    if SeveralCantons(c) then Touching(recs, Items(c)) else recs
  }

  function Touching(recs: seq<Record>, codes: seq<string>): (kept: seq<Record>)
    ensures forall r :: r in kept <==> r in recs && Touches(r, codes)
  {
    if recs == [] then []
    else (if Touches(recs[0], codes) then [recs[0]] else []) + Touching(recs[1..], codes)
  }

  /** The record list used by the witnesses below: one change inside Bern and one inside Zurich. */
  const BernRecord := Record(1, Identity("BE", 1, 1, "A"), Identity("BE", 1, 2, "B"), 10)
  const ZurichRecord := Record(2, Identity("ZH", 2, 3, "C"), Identity("ZH", 2, 4, "D"), 10)

  /** Asking for Bern and Zurich fails as written but keeps both records when corrected; asking
      for Bern and Geneva keeps only the Bern record. */
  lemma SeveralCantonsWitness()
    ensures RestrictCantonsAsWritten([BernRecord, ZurichRecord], Codes(["BE", "ZH"])).Failure?
    ensures RestrictCantons([BernRecord, ZurichRecord], Codes(["BE", "ZH"])) == [BernRecord, ZurichRecord]
    ensures RestrictCantons([BernRecord, ZurichRecord], Codes(["BE", "GE"])) == [BernRecord]
  {
    var both := [BernRecord, ZurichRecord];
    assert both[1..] == [ZurichRecord];
    assert Touching(both, ["BE", "ZH"]) == [BernRecord] + Touching([ZurichRecord], ["BE", "ZH"]);
    assert Touching(both, ["BE", "GE"]) == [BernRecord] + Touching([ZurichRecord], ["BE", "GE"]);
  }
}
