/** Keeping only the first and the last hop of every row: the wide table's hop-N columns are filled
    from the hops before them, latest first, and then renamed to the crosswalk's `new_` columns. */
module Collapse {
  import opened Wrappers
  import opened Municipalities
  import opened Chains
  import opened Cascade

  /** The crosswalk row of a cascade row: its hop 0 and its last hop. */
  function Net(r: Row): (m: Mapping)
    requires |r| >= 1
    ensures m.oldId == r[0].oldId && m.newId == Last(r).newId
  {
    Mapping(r[0].oldId, Last(r).newId)
  }

  /** The hop columns `new0_` … `newN_` of a row of the wide table: hop 0 is the old identity of its
      first record, hop k the new identity of its k-th record, and the hops after its last are blank.
      The present cells form a prefix, so the last present cell is the row's last hop. */
  function Widen(r: Row, n: nat): (w: seq<Option<Identity>>)
    requires 1 <= |r| <= n
    ensures |w| == n + 1
    ensures w[0] == Some(r[0].oldId)
    ensures forall k :: 1 <= k <= |r| ==> w[k] == Some(r[k - 1].newId)
    ensures forall k :: 0 <= k <= n ==> (w[k].Some? <==> k <= |r|)
    ensures LastPresent(w) == Some(Last(r).newId)
  {
    var w := seq(n + 1, k requires 0 <= k <= n => if k == 0 then Some(r[0].oldId) else if k <= |r| then Some(r[k - 1].newId) else None);
    LastPresentAt(w, |r|);
    w
  }

  /** The last present cell of a sequence of cells, or None if every cell is blank. */
  function LastPresent<T>(s: seq<Option<T>>): (o: Option<T>)
    ensures o.Some? <==> exists k :: 0 <= k < |s| && s[k].Some?
    ensures o.Some? ==> exists k :: 0 <= k < |s| && s[k] == o && forall m :: k < m < |s| ==> s[m].None?
  {
    if s == [] then None
    else
      var rest := LastPresent(s[1..]);
      assert forall k :: 1 <= k < |s| ==> s[k] == s[1..][k - 1];
      if rest.Some? then rest else s[0]
  }

  /** A present cell followed by blank cells only is the last present one. */
  lemma {:induction false} LastPresentAt<T>(s: seq<Option<T>>, k: nat)
    requires k < |s| && s[k].Some? && forall m :: k < m < |s| ==> s[m].None?
    ensures LastPresent(s) == s[k]
  {
    if k > 0 {
      LastPresentAt(s[1..], k - 1);
    } else {
      assert forall m :: 0 <= m < |s| - 1 ==> s[1..][m] == s[m + 1];
    }
  }

  /** The fillna loop of one column: `newN = newN.fillna(new_k)` for k from N - 1 down to 0, applied
      to every row at once. Every row ends up with its hop 0 as `old` and its last hop as `new`. */
  method CollapseTable(rows: seq<Row>, n: nat) returns (pairs: seq<Mapping>)
    requires forall j :: 0 <= j < |rows| ==> 1 <= |rows[j]| <= n
    ensures |pairs| == |rows|
    ensures forall j :: 0 <= j < |rows| ==> pairs[j] == Net(rows[j])
  {
    var last := seq(|rows|, j requires 0 <= j < |rows| => Widen(rows[j], n)[n]);
    var k := n;
    while k > 0
      invariant 0 <= k <= n && |last| == |rows|
      invariant forall j :: 0 <= j < |rows| ==> last[j] == LastPresent(Widen(rows[j], n)[k..])
    {
      k := k - 1;
      forall j | 0 <= j < |rows| ensures Widen(rows[j], n)[k..][1..] == Widen(rows[j], n)[k + 1..] {
      }
      last := seq(|rows|, j requires 0 <= j < |rows| => if last[j].Some? then last[j] else Widen(rows[j], n)[k]);
    }
    forall j | 0 <= j < |rows| ensures last[j] == Some(Last(rows[j]).newId) {
      assert Widen(rows[j], n)[0..] == Widen(rows[j], n);
    }
    pairs := seq(|rows|, j requires 0 <= j < |rows| => Mapping(rows[j][0].oldId, last[j].value));
  }

  /** The earlier version's last two steps as written: it renames the columns of hop 5, not of hop N,
      to `new_`, then casts the district and municipality numbers to integers. With fewer than five
      steps there is no `new_canton` column to select; with more, the hop-5 cells were never filled
      and rows without a fifth hop make the integer cast fail. Only N = 5 gives a crosswalk. From 50
      steps on the rename also hits the columns of hops 50 to 59, which this model does not follow. */
  function CollapseAsWritten(rows: seq<Row>, n: nat): (r: Result<seq<Mapping>, Error>)
    requires forall j :: 0 <= j < |rows| ==> 1 <= |rows[j]| <= n
    requires n < 50
    ensures n < 5 ==> r == Failure(MissingColumn("new_canton"))
    ensures n > 5 && (exists j :: 0 <= j < |rows| && |rows[j]| < 5) ==> r == Failure(MissingValue("new_district_nr"))
    ensures n == 5 ==> r.Success? && |r.value| == |rows| && forall j :: 0 <= j < |rows| ==> r.value[j] == Net(rows[j])
  {
    if n < 5 then Failure(MissingColumn("new_canton"))
    else if n == 5 then
      Success(seq(|rows|, j requires 0 <= j < |rows| => Mapping(rows[j][0].oldId, LastPresent(Widen(rows[j], n)).GetOr(rows[j][0].oldId))))
    else if exists j :: 0 <= j < |rows| && Widen(rows[j], n)[5].None? then Failure(MissingValue("new_district_nr"))
    else Success(seq(|rows|, j requires 0 <= j < |rows| => Mapping(rows[j][0].oldId, Widen(rows[j], n)[5].GetOr(rows[j][0].oldId))))
  }

  /** On the final table of a non-empty record list the earlier version's rename works for N = 5
      only: the record ending a longest chain starts a row of one hop, which has no hop 5. */
  lemma EarlierRenameFails(rows: seq<Row>, recs: seq<Record>, n: nat)
    requires Resolved(rows, recs, n) && recs != [] && 1 <= n < 50 && n != 5
    ensures forall j :: 0 <= j < |rows| ==> 1 <= |rows[j]| <= n
    ensures CollapseAsWritten(rows, n).Failure?
  {
    assert forall j :: 0 <= j < |rows| ==> rows[j] in rows;
    ShortRowExists(rows, recs, n);
    var y :| y in rows && |y| == 1;
    var j :| 0 <= j < |rows| && rows[j] == y;
    assert |rows[j]| < 5;
  }

  /** Two changes in a row, A to B and then B to C, resolve in two steps; the earlier version then
      finds no `new_canton` column, while the corrected collapse maps A and B to C. */
  lemma EarlierRenameTwoSteps(a: Identity, b: Identity, c: Identity)
    ensures var ab, bc := Record(1, a, b, 1), Record(2, b, c, 2);
      && CollapseAsWritten([[ab, bc], [bc]], 2) == Failure(MissingColumn("new_canton"))
      && Net([ab, bc]) == Mapping(a, c) && Net([bc]) == Mapping(b, c)
  {
  }
}
