/** Chains of mutation records and the condition under which the cascade terminates. */
module Chains {
  import opened Municipalities
  import opened Seqs

  /** Consecutive records connect (the new identity of one is the old identity of the next) and
      are not dated backwards. */
  predicate Linked(c: seq<Record>) {
    forall k :: 0 <= k < |c| - 1 ==> c[k].newId == c[k + 1].oldId && c[k].date <= c[k + 1].date
  }

  /** A non-empty linked sequence of records taken from `recs`. */
  predicate IsChain(c: seq<Record>, recs: seq<Record>) {
    |c| >= 1 && (forall k :: 0 <= k < |c| ==> c[k] in recs) && Linked(c)
  }

  /** No chain over `recs` uses a record twice. The source loops for ever when this fails: a chain
      that repeats a record can be extended by the same records again and again. */
  ghost predicate NoRevisit(recs: seq<Record>) {
    forall c :: !Revisits(c, recs)
  }

  /** A chain over `recs` that uses some record twice. */
  predicate Revisits(c: seq<Record>, recs: seq<Record>) {
    IsChain(c, recs) && !Distinct(c)
  }

  /** Under `NoRevisit` no chain is longer than the record list: the cascade needs at most that
      many extension steps. */
  lemma ChainLength(c: seq<Record>, recs: seq<Record>)
    requires NoRevisit(recs) && IsChain(c, recs)
    ensures |c| <= |recs|
  {
    assert !Revisits(c, recs);
    DistinctDrawnBound(c, recs);
  }

  /** Chains over part of the records are chains over all of them. */
  lemma NoRevisitSubset(sub: seq<Record>, recs: seq<Record>)
    requires forall r :: r in sub ==> r in recs
    requires NoRevisit(recs)
    ensures NoRevisit(sub)
  {
    forall c: seq<Record> | Revisits(c, sub) ensures false {
      assert Revisits(c, recs);
    }
  }

  /** A chain followed by a record that continues its last one, on or after its date, is a chain. */
  lemma ChainExtend(c: seq<Record>, recs: seq<Record>, x: Record)
    requires IsChain(c, recs) && x in recs
    requires c[|c| - 1].newId == x.oldId && c[|c| - 1].date <= x.date
    ensures IsChain(c + [x], recs)
  {
    var y := c + [x];
    forall k | 0 <= k < |y| - 1 ensures y[k].newId == y[k + 1].oldId && y[k].date <= y[k + 1].date {
      if k < |c| - 1 {
        assert y[k] == c[k] && y[k + 1] == c[k + 1];
      }
    }
  }

  /** Two consecutive records of a chain: both are records, the second continues the first and is
      not dated before it. */
  lemma ChainStep(c: seq<Record>, recs: seq<Record>, k: nat)
    requires IsChain(c, recs) && k + 1 < |c|
    ensures c[k] in recs && c[k + 1] in recs
    ensures c[k].newId == c[k + 1].oldId && c[k].date <= c[k + 1].date
  {
  }

  /** A chain that no record continues on or after its last date: the cascade cannot extend it. */
  predicate Maximal(c: seq<Record>, recs: seq<Record>) {
    && IsChain(c, recs)
    && forall x :: x in recs && x.oldId == c[|c| - 1].newId ==> x.date < c[|c| - 1].date
  }

  /** A chain the cascade leaves as a row of its own: either no record continues it in order, or a
      record continuing its last hop was dated before it and blanked, which leaves the unextended row
      behind. */
  predicate Settled(c: seq<Record>, recs: seq<Record>) {
    || Maximal(c, recs)
    || (IsChain(c, recs) && exists x :: x in recs && x.oldId == c[|c| - 1].newId && x.date < c[|c| - 1].date)
  }

  /** When no chain is longer than `bound`, every chain extends to a maximal one. */
  lemma ExtendToMaximal(c: seq<Record>, recs: seq<Record>, bound: nat)
    requires IsChain(c, recs) && forall d :: IsChain(d, recs) ==> |d| <= bound
    ensures exists m :: Maximal(m, recs) && c <= m
    decreases bound - |c|
  {
    if !Maximal(c, recs) {
      var x :| x in recs && x.oldId == c[|c| - 1].newId && c[|c| - 1].date <= x.date;
      ChainExtend(c, recs, x);
      ExtendToMaximal(c + [x], recs, bound);
      var m :| Maximal(m, recs) && c + [x] <= m;
      assert c <= m;
    } else {
      assert c <= c;
    }
  }

  /** A degenerate record continues itself, so the degenerate filter is needed for termination. */
  lemma DegenerateRevisits(recs: seq<Record>, x: Record)
    requires x in recs && Degenerate(x)
    ensures !NoRevisit(recs)
  {
    var c := [x, x];
    assert IsChain(c, recs);
    assert c[0] == c[1];
    assert Revisits(c, recs);
  }

  /** The degenerate filter is not enough: two records that undo each other on the same day form
      a chain that repeats, and the source's loop never stops on them. */
  lemma SameDayReversalRevisits(a: Identity, b: Identity, day: int)
    requires a != b
    ensures !Degenerate(Record(1, a, b, day)) && !Degenerate(Record(2, b, a, day))
    ensures !NoRevisit([Record(1, a, b, day), Record(2, b, a, day)])
  {
    var there, back := Record(1, a, b, day), Record(2, b, a, day);
    var c := [there, back, there];
    assert IsChain(c, [there, back]);
    assert c[0] == c[2];
    assert Revisits(c, [there, back]);
  }

  lemma {:induction false} DatesIncrease(c: seq<Record>, j: nat, k: nat)
    requires forall m :: 0 <= m < |c| - 1 ==> c[m].date < c[m + 1].date
    requires j < k < |c|
    ensures c[j].date < c[k].date
  {
    if j + 1 < k {
      DatesIncrease(c, j, k - 1);
    }
  }

  /** A sufficient condition for `NoRevisit`: every continuation of a record is dated strictly later. */
  lemma StrictlyLaterContinuations(recs: seq<Record>)
    requires forall x, y :: x in recs && y in recs && x.newId == y.oldId ==> x.date < y.date
    ensures NoRevisit(recs)
  {
    forall c: seq<Record> | Revisits(c, recs) ensures false {
      assert forall m :: 0 <= m < |c| - 1 ==> c[m].date < c[m + 1].date by {
        forall m | 0 <= m < |c| - 1 ensures c[m].date < c[m + 1].date {
          assert c[m] in recs && c[m + 1] in recs;
        }
      }
      forall j, k | 0 <= j < k < |c| ensures c[j] != c[k] {
        DatesIncrease(c, j, k);
      }
    }
  }
}
