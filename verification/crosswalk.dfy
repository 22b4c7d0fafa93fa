/** `create_crosswalk` end to end, in its two versions: the input checks, the mutation filter, the
    cascade, the collapse to first and last hop and, in the later version, the municipalities without
    changes. Downloads, the clock and the export are parameters or left out. */
module Crosswalk {
  import opened Wrappers
  import opened Municipalities
  import opened Validation
  import opened Filter
  import opened Chains
  import opened Cascade
  import opened Collapse
  import opened Roster

  /** The records the cascade works on: the non-degenerate ones, restricted to the selected cantons
      when several are selected. */
  function Selected(recs: seq<Record>, cantons: Cantons): (sel: seq<Record>)
    ensures forall r :: r in sel ==> r in recs && !Degenerate(r)
    ensures forall r :: r in recs && !Degenerate(r) && (SeveralCantons(cantons) ==> Touches(r, Items(cantons))) ==> r in sel
    ensures SeveralCantons(cantons) ==> forall r :: r in sel ==> Touches(r, Items(cantons))
  {
    RestrictCantons(FilterDegenerate(recs), cantons)
  }

  /** The canton restriction cannot make the cascade loop: when the non-degenerate records have no
      chain that repeats a record, neither has any selection of them. */
  lemma SelectedTerminates(recs: seq<Record>, cantons: Cantons)
    requires NoRevisit(FilterDegenerate(recs))
    ensures NoRevisit(Selected(recs, cantons))
  {
    NoRevisitSubset(Selected(recs, cantons), FilterDegenerate(recs));
  }

  /** The cascade and the collapse: the rows of the result are exactly the start-to-end mappings of
      the settled chains of changes (those that cannot be continued in order, or whose continuation
      was rejected as out of order); in particular every chain that cannot be continued is there. */
  method ResolveMappings(sel: seq<Record>) returns (pairs: seq<Mapping>)
    requires NoRevisit(sel)
    ensures |pairs| >= |sel|
    ensures forall m :: m in pairs ==> exists c :: IsChain(c, sel) && Settled(c, sel) && m == Net(c)
    ensures forall c :: Maximal(c, sel) ==> Net(c) in pairs
    ensures forall c :: IsChain(c, sel) && Settled(c, sel) ==> Net(c) in pairs
  {
    var rows, n := BuildCascade(sel);
    assert forall j :: 0 <= j < |rows| ==> rows[j] in rows;
    pairs := CollapseTable(rows, n);
    forall m | m in pairs ensures exists c :: IsChain(c, sel) && Settled(c, sel) && m == Net(c) {
      var k :| 0 <= k < |pairs| && pairs[k] == m;
      assert IsChain(rows[k], sel) && Settled(rows[k], sel);
    }
    forall c | Maximal(c, sel) ensures Net(c) in pairs {
      MaximalIsRow(rows, sel, n, c);
      var j :| 0 <= j < |rows| && rows[j] == c;
      assert pairs[j] == Net(c);
    }
    forall c | IsChain(c, sel) && Settled(c, sel) ensures Net(c) in pairs {
      var j :| 0 <= j < |rows| && rows[j] == c;
      assert pairs[j] == Net(c);
    }
  }

  /** The later version. `today` stands for the clock, `lastUpdated` for the date scraped from the
      query page, `recs` for the downloaded list of mutated communes and `roster` for the downloaded
      list of municipalities at the later date. The result is the table the chosen format receives. */
  method CreateCrosswalk(recs: seq<Record>, since: Date, to: Date, today: Date, lastUpdated: Date, cantons: Cantons,
                         format: string, storePath: string, changesOnly: bool, roster: seq<Identity>)
    returns (r: Result<seq<Mapping>, Error>)
    requires ValidateLater(since, to, today, lastUpdated, cantons, format, storePath).Success? ==>
      NoRevisit(Selected(recs, cantons))
    ensures r.Failure? <==> ValidateLater(since, to, today, lastUpdated, cantons, format, storePath).Failure?
    ensures r.Failure? ==> r.error == ValidateLater(since, to, today, lastUpdated, cantons, format, storePath).error
    ensures r.Success? ==> forall c :: Maximal(c, Selected(recs, cantons)) ==> Net(c) in r.value
    ensures r.Success? ==> forall c :: IsChain(c, Selected(recs, cantons)) && Settled(c, Selected(recs, cantons)) ==>
      Net(c) in r.value
    ensures r.Success? ==> forall m :: m in r.value ==>
      || (exists c :: IsChain(c, Selected(recs, cantons)) && Settled(c, Selected(recs, cantons)) && m == Net(c))
      || (&& !changesOnly && m.oldId == m.newId && m.newId in roster
          && forall c :: IsChain(c, Selected(recs, cantons)) && Settled(c, Selected(recs, cantons)) ==> Net(c).newId != m.newId)
    ensures r.Success? && !changesOnly ==> forall id :: id in roster ==> exists m :: m in r.value && m.newId == id
  {
    var checked := ValidateLater(since, to, today, lastUpdated, cantons, format, storePath);
    if checked.Failure? {
      return Failure(checked.error);
    }
    var sel := Selected(recs, cantons);
    var pairs := ResolveMappings(sel);
    if changesOnly {
      return Success(pairs);
    }
    var out := AddUnchanged(pairs, roster);
    forall m | m in pairs ensures m in out {
      AddUnchangedRows(pairs, roster, m);
    }
    forall m | m in out
      ensures || (exists c :: IsChain(c, sel) && Settled(c, sel) && m == Net(c))
              || (&& m.oldId == m.newId && m.newId in roster
                  && forall c :: IsChain(c, sel) && Settled(c, sel) ==> Net(c).newId != m.newId)
    {
      AddUnchangedRows(pairs, roster, m);
      if m !in pairs {
        forall c | IsChain(c, sel) && Settled(c, sel) ensures Net(c).newId != m.newId {
          assert Net(c) in pairs;
        }
      }
    }
    forall id | id in roster ensures exists m :: m in out && m.newId == id {
      AddUnchangedCoversRoster(pairs, roster, id);
    }
    return Success(out);
  }

  /** The earlier version: no freshness or output checks, no municipalities without changes, and the
      collapse with its rename corrected to hop N. */
  method CreateCrosswalkEarlier(recs: seq<Record>, since: Date, to: Date, today: Date, cantons: Cantons)
    returns (r: Result<seq<Mapping>, Error>)
    requires ValidateEarlier(since, to, today, cantons) == Pass ==> NoRevisit(Selected(recs, cantons))
    ensures r.Failure? <==> ValidateEarlier(since, to, today, cantons).Fail?
    ensures r.Failure? ==> r.error == ValidateEarlier(since, to, today, cantons).error
    ensures r.Success? ==> forall c :: Maximal(c, Selected(recs, cantons)) ==> Net(c) in r.value
    ensures r.Success? ==> forall c :: IsChain(c, Selected(recs, cantons)) && Settled(c, Selected(recs, cantons)) ==>
      Net(c) in r.value
    ensures r.Success? ==> forall m :: m in r.value ==>
      exists c :: IsChain(c, Selected(recs, cantons)) && Settled(c, Selected(recs, cantons)) && m == Net(c)
  {
    var checked := ValidateEarlier(since, to, today, cantons);
    if checked.Fail? {
      return Failure(checked.error);
    }
    var sel := Selected(recs, cantons);
    var pairs := ResolveMappings(sel);
    return Success(pairs);
  }

  /** The example of the source's comment: A became B and later B became C. Both A and B map to C,
      and no settled chain maps A to B, so A to B is not in the crosswalk. */
  lemma ChangesCascade(a: Identity, b: Identity, c: Identity, d1: int, d2: int)
    requires a != b && b != c && a != c && d1 < d2
    ensures var ab, bc := Record(1, a, b, d1), Record(2, b, c, d2);
      && NoRevisit([ab, bc])
      && Maximal([ab, bc], [ab, bc]) && Net([ab, bc]) == Mapping(a, c)
      && Maximal([bc], [ab, bc]) && Net([bc]) == Mapping(b, c)
      && !Maximal([ab], [ab, bc])
      && forall ch :: Settled(ch, [ab, bc]) ==> Net(ch) != Mapping(a, b)
  {
    var ab, bc := Record(1, a, b, d1), Record(2, b, c, d2);
    var recs := [ab, bc];
    StrictlyLaterContinuations(recs);
    assert IsChain([ab, bc], recs);
    assert bc in recs;
    forall ch | Settled(ch, recs) ensures Net(ch) != Mapping(a, b) {
      if |ch| > 1 {
        ChainStep(ch, recs, |ch| - 2);
      }
    }
  }

  /** A fan-out with one branch rejected: A became B, and B became C later but D earlier. The D
      branch is blanked, which leaves the row A to B behind next to A to C; both chains are settled,
      so the crosswalk holds A to B as well as A to C. */
  lemma RejectedBranchKept(a: Identity, b: Identity, c: Identity, d: Identity, d1: int, d2: int, d3: int)
    requires a != b && b != c && b != d && a != c && a != d && c != d && d3 < d1 < d2
    ensures var ab, bc, bd := Record(1, a, b, d1), Record(2, b, c, d2), Record(3, b, d, d3);
      && NoRevisit([ab, bc, bd])
      && !Maximal([ab], [ab, bc, bd]) && Settled([ab], [ab, bc, bd]) && Net([ab]) == Mapping(a, b)
      && Maximal([ab, bc], [ab, bc, bd]) && Net([ab, bc]) == Mapping(a, c)
  {
    var ab, bc, bd := Record(1, a, b, d1), Record(2, b, c, d2), Record(3, b, d, d3);
    var recs := [ab, bc, bd];
    forall ch: seq<Record> | Revisits(ch, recs) ensures false {
      if |ch| >= 3 {
        ChainStep(ch, recs, 0);
        ChainStep(ch, recs, 1);
        assert false;
      } else if |ch| == 2 {
        ChainStep(ch, recs, 0);
        assert false;
      }
    }
    assert bd in recs && bd.oldId == [ab][0].newId;
    assert IsChain([ab, bc], recs);
  }

  /** A change dated before the one it would continue is not appended: with B to C before A to B,
      A maps to B. */
  lemma OutOfOrderNotAppended(a: Identity, b: Identity, c: Identity, d1: int, d2: int)
    requires a != b && b != c && a != c && d2 < d1
    ensures var ab, bc := Record(1, a, b, d1), Record(2, b, c, d2);
      && NoRevisit([ab, bc])
      && !IsChain([ab, bc], [ab, bc])
      && Maximal([ab], [ab, bc]) && Net([ab]) == Mapping(a, b)
      && Maximal([bc], [ab, bc]) && Net([bc]) == Mapping(b, c)
  {
    var ab, bc := Record(1, a, b, d1), Record(2, b, c, d2);
    var recs := [ab, bc];
    assert forall x, y :: x in recs && y in recs && x.newId == y.oldId ==> x == ab && y == bc;
    assert !Linked([ab, bc]) by {
      assert [ab, bc][1].date < [ab, bc][0].date;
    }
    forall ch: seq<Record> | Revisits(ch, recs) ensures false {
      if |ch| >= 2 {
        ChainStep(ch, recs, 0);
        assert false;
      }
    }
  }

  /** A record whose old and new identity agree is dropped before the cascade, which would
      otherwise never stop on it. */
  lemma DegenerateRecordDropped(recs: seq<Record>, x: Record, cantons: Cantons)
    requires x in recs && Degenerate(x)
    ensures x !in Selected(recs, cantons)
    ensures !NoRevisit(recs)
  {
    DegenerateRevisits(recs, x);
  }
}
