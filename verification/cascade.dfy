/** The cascade builder: starting from one row per record, each step left-joins every row's last hop
    against the old identities of all records, blanks candidates dated before the row's last hop, and
    stops when no row received a new hop. */
module Cascade {
  import opened Wrappers
  import opened Municipalities
  import opened Chains

  /** A row of the wide table: its hops in order; hop k + 1 is `row[k].newId` and hop 0 is
      `row[0].oldId`. The blank hops after the last one are not stored. */
  type Row = seq<Record>

  function Last(r: Row): (x: Record)
    requires |r| >= 1
  {
    r[|r| - 1]
  }

  /** A row during step i: its hops and the candidate hop i + 1 the join brought (None: blank cells). */
  datatype Joined = Joined(hops: Row, next: Option<Record>)

  /** The start table: one row per record, its hop 0 the old identity and hop 1 the new one. */
  function Initial(recs: seq<Record>): (rows: seq<Row>)
    ensures |rows| == |recs|
    ensures forall k :: 0 <= k < |recs| ==> rows[k] == [recs[k]]
    ensures forall r :: r in rows ==> IsChain(r, recs) && |r| == 1
    ensures forall c :: IsChain(c, recs) && |c| == 1 ==> c in rows
  {
    var rows := seq(|recs|, k requires 0 <= k < |recs| => [recs[k]]);
    assert forall c :: IsChain(c, recs) && |c| == 1 ==> c in rows by {
      forall c | IsChain(c, recs) && |c| == 1 ensures c in rows {
        var k :| 0 <= k < |recs| && recs[k] == c[0];
        assert c == rows[k];
      }
    }
    rows
  }

  /** The table invariant at step i: every row is a chain over the records with at most i hops. */
  predicate Table(rows: seq<Row>, recs: seq<Record>, i: nat) {
    forall r :: r in rows ==> IsChain(r, recs) && |r| <= i
  }

  /** The records whose old identity is `id`, in table order (the right side of the join). */
  function Matches(id: Identity, recs: seq<Record>): (m: seq<Record>)
    ensures forall x :: x in m <==> x in recs && x.oldId == id
  {
    if recs == [] then []
    else (if recs[0].oldId == id then [recs[0]] else []) + Matches(id, recs[1..])
  }

  /** The left join of one row at step i. A row whose hop i is present is replaced by one row per
      record continuing that hop, or kept with a blank candidate if none does; a row that ended
      earlier has a blank key and matches nothing. */
  function JoinRow(r: Row, recs: seq<Record>, i: nat): (t: seq<Joined>)
    requires |r| >= 1
    ensures |t| == if |r| == i && Matches(Last(r).newId, recs) != [] then |Matches(Last(r).newId, recs)| else 1
    ensures forall j :: 0 <= j < |t| ==> t[j].hops == r
    ensures forall j :: 0 <= j < |t| && t[j].next.Some? ==>
      |r| == i && t[j].next.value in recs && t[j].next.value.oldId == Last(r).newId
    ensures forall x :: x in recs && |r| == i && x.oldId == Last(r).newId ==> Joined(r, Some(x)) in t
  {
    var m := if |r| == i then Matches(Last(r).newId, recs) else [];
    if m == [] then [Joined(r, None)]
    else
      var t := seq(|m|, k requires 0 <= k < |m| => Joined(r, Some(m[k])));
      assert forall x :: x in m ==> Joined(r, Some(x)) in t by {
        forall x | x in m ensures Joined(r, Some(x)) in t {
          var k :| 0 <= k < |m| && m[k] == x;
          assert t[k] == Joined(r, Some(x));
        }
      }
      t
  }

  /** The candidates of a row are exactly the records continuing its hop i: a row of i hops that
      some record continues is replaced by one row per matching record, in the order of the records
      and with repetitions kept; any other row keeps a single blank candidate. */
  lemma JoinRowCandidates(r: Row, recs: seq<Record>, i: nat)
    requires |r| >= 1
    ensures var t, m := JoinRow(r, recs, i), Matches(Last(r).newId, recs);
      && (|r| == i && m != [] ==> |t| == |m| && forall j :: 0 <= j < |t| ==> t[j] == Joined(r, Some(m[j])))
      && (|r| != i || m == [] ==> t == [Joined(r, None)])
  {
  }

  /** `df_left.merge(df_right, on=merge_varlist(i), how='left')`: the rows are joined one by one, in
      order, so the join never drops a row. */
  function LeftJoin(rows: seq<Row>, recs: seq<Record>, i: nat): (t: seq<Joined>)
    requires forall r :: r in rows ==> |r| >= 1
    ensures |t| >= |rows| && (rows == [] ==> t == [])
    ensures forall j :: 0 <= j < |t| ==> |t[j].hops| >= 1
  {
    if rows == [] then [] else JoinRow(rows[0], recs, i) + LeftJoin(rows[1..], recs, i)
  }

  /** Every joined row extends a row of the table, with a record continuing its hop i. */
  lemma {:induction false} LeftJoinSound(rows: seq<Row>, recs: seq<Record>, i: nat, j: nat)
    requires forall r :: r in rows ==> |r| >= 1
    requires j < |LeftJoin(rows, recs, i)|
    ensures var t := LeftJoin(rows, recs, i);
      && t[j].hops in rows
      && (t[j].next.Some? ==>
            |t[j].hops| == i && t[j].next.value in recs && t[j].next.value.oldId == Last(t[j].hops).newId)
  {
    var head, tail := JoinRow(rows[0], recs, i), LeftJoin(rows[1..], recs, i);
    assert LeftJoin(rows, recs, i) == head + tail;
    if j >= |head| {
      LeftJoinSound(rows[1..], recs, i, j - |head|);
      assert (head + tail)[j] == tail[j - |head|];
      assert tail[j - |head|].hops in rows[1..];
    } else {
      assert (head + tail)[j] == head[j];
    }
  }

  /** A joined row of i hops with a blank candidate has no record continuing its hop i. */
  lemma {:induction false} LeftJoinUnmatched(rows: seq<Row>, recs: seq<Record>, i: nat, j: nat)
    requires forall r :: r in rows ==> |r| >= 1
    requires j < |LeftJoin(rows, recs, i)|
    requires LeftJoin(rows, recs, i)[j].next.None? && |LeftJoin(rows, recs, i)[j].hops| == i
    ensures forall x :: x in recs ==> x.oldId != Last(LeftJoin(rows, recs, i)[j].hops).newId
  {
    var head, tail := JoinRow(rows[0], recs, i), LeftJoin(rows[1..], recs, i);
    assert LeftJoin(rows, recs, i) == head + tail;
    if j >= |head| {
      assert (head + tail)[j] == tail[j - |head|];
      LeftJoinUnmatched(rows[1..], recs, i, j - |head|);
    } else {
      assert (head + tail)[j] == head[j];
      JoinRowCandidates(rows[0], recs, i);
    }
  }

  /** No row is dropped: each row of the table is the hops of some joined row. */
  lemma {:induction false} LeftJoinKeepsRow(rows: seq<Row>, recs: seq<Record>, i: nat, r: Row)
    requires forall r :: r in rows ==> |r| >= 1
    requires r in rows
    ensures exists j :: 0 <= j < |LeftJoin(rows, recs, i)| && LeftJoin(rows, recs, i)[j].hops == r
  {
    var t := LeftJoin(rows, recs, i);
    var head := JoinRow(rows[0], recs, i);
    if r == rows[0] {
      assert t[0].hops == r;
    } else {
      assert r in rows[1..];
      LeftJoinKeepsRow(rows[1..], recs, i, r);
      var j :| 0 <= j < |LeftJoin(rows[1..], recs, i)| && LeftJoin(rows[1..], recs, i)[j].hops == r;
      assert t[j + |head|].hops == r;
    }
  }

  /** Every record continuing a row's hop i shows up as that row's candidate. */
  lemma {:induction false} LeftJoinComplete(rows: seq<Row>, recs: seq<Record>, i: nat, r: Row, x: Record)
    requires forall r :: r in rows ==> |r| >= 1
    requires r in rows && x in recs && |r| == i && x.oldId == Last(r).newId
    ensures Joined(r, Some(x)) in LeftJoin(rows, recs, i)
  {
    if r != rows[0] {
      assert r in rows[1..];
      LeftJoinComplete(rows[1..], recs, i, r, x);
    }
  }

  /** The join distributes over the rows: it treats each row on its own. */
  lemma {:induction false} LeftJoinAppend(a: seq<Row>, b: seq<Row>, recs: seq<Record>, i: nat)
    requires forall r :: r in a + b ==> |r| >= 1
    ensures LeftJoin(a + b, recs, i) == LeftJoin(a, recs, i) + LeftJoin(b, recs, i)
  {
    if a == [] {
      assert a + b == b;
    } else {
      assert (a + b)[0] == a[0] && (a + b)[1..] == a[1..] + b;
      LeftJoinAppend(a[1..], b, recs, i);
    }
  }

  /** `df_left.loc[date2 < date1, newvars] = nan`: a candidate dated strictly before the row's hop i is
      blanked; hops 0..i are untouched and equal dates are accepted. */
  function Blank(t: seq<Joined>): (b: seq<Joined>)
    requires forall j :: 0 <= j < |t| ==> |t[j].hops| >= 1
    ensures |b| == |t|
    ensures forall j :: 0 <= j < |t| ==> b[j].hops == t[j].hops
    ensures forall j :: 0 <= j < |t| && b[j].next.Some? ==>
      b[j].next == t[j].next && Last(t[j].hops).date <= b[j].next.value.date
    ensures forall j :: 0 <= j < |t| && t[j].next.Some? && Last(t[j].hops).date <= t[j].next.value.date ==>
      b[j].next == t[j].next
  {
    seq(|t|, j requires 0 <= j < |t| =>
      if t[j].next.Some? && t[j].next.value.date < Last(t[j].hops).date then Joined(t[j].hops, None) else t[j])
  }

  /** `len(df_left[date_{i+1}].dropna())`: the number of rows that received a hop. */
  function Extensions(t: seq<Joined>): (c: nat)
    ensures c <= |t|
    ensures c == 0 <==> forall j :: 0 <= j < |t| ==> t[j].next.None?
  {
    if t == [] then 0
    else
      assert forall j :: 1 <= j < |t| ==> t[j] == t[1..][j - 1];
      (if t[0].next.Some? then 1 else 0) + Extensions(t[1..])
  }

  /** The table after the step: each row with its candidate, when present, as hop i + 1. */
  function Appended(t: seq<Joined>): (rows: seq<Row>) {
    seq(|t|, j requires 0 <= j < |t| => if t[j].next.Some? then t[j].hops + [t[j].next.value] else t[j].hops)
  }

  /** A step keeps every row a chain: an appended hop continues the row's last hop and is not dated
      before it. The table grows by at most one hop. */
  lemma StepKeepsChains(rows: seq<Row>, recs: seq<Record>, i: nat)
    requires Table(rows, recs, i)
    ensures Table(Appended(Blank(LeftJoin(rows, recs, i))), recs, i + 1)
  {
    var next := Appended(Blank(LeftJoin(rows, recs, i)));
    forall y: Row | y in next ensures IsChain(y, recs) && |y| <= i + 1 {
      var j :| 0 <= j < |next| && next[j] == y;
      StepRowChain(rows, recs, i, j);
    }
  }

  /** Row j of the next table is a chain of at most i + 1 records. */
  lemma StepRowChain(rows: seq<Row>, recs: seq<Record>, i: nat, j: nat)
    requires Table(rows, recs, i)
    requires j < |LeftJoin(rows, recs, i)|
    ensures IsChain(Appended(Blank(LeftJoin(rows, recs, i)))[j], recs)
    ensures |Appended(Blank(LeftJoin(rows, recs, i)))[j]| <= i + 1
  {
    var joined := LeftJoin(rows, recs, i);
    var t := Blank(joined);
    LeftJoinSound(rows, recs, i, j);
    var r := joined[j].hops;
    assert t[j].hops == r && r in rows;
    assert Appended(t)[j] == if t[j].next.Some? then r + [t[j].next.value] else r;
    RowStepChain(r, t[j].next, recs, i);
  }

  /** A chain of at most i records, extended by an in-order continuation of its hop i when it has
      one, is a chain of at most i + 1 records. */
  lemma RowStepChain(r: Row, next: Option<Record>, recs: seq<Record>, i: nat)
    requires IsChain(r, recs) && |r| <= i
    requires next.Some? ==> |r| == i && next.value in recs && next.value.oldId == Last(r).newId && Last(r).date <= next.value.date
    ensures var y := if next.Some? then r + [next.value] else r; IsChain(y, recs) && |y| <= i + 1
  {
    if next.Some? {
      ChainExtend(r, recs, next.value);
    }
  }

  /** A step drops no row: every row is the prefix of a row of the next table. */
  lemma StepKeepsRows(rows: seq<Row>, recs: seq<Record>, i: nat)
    requires forall r :: r in rows ==> |r| >= 1
    ensures var next := Appended(Blank(LeftJoin(rows, recs, i)));
      && |next| >= |rows| && (rows == [] ==> next == [])
      && forall r :: r in rows ==> exists y :: y in next && r <= y
  {
    var joined := LeftJoin(rows, recs, i);
    var next := Appended(Blank(joined));
    forall r: Row | r in rows ensures exists y :: y in next && r <= y {
      LeftJoinKeepsRow(rows, recs, i, r);
      var j :| 0 <= j < |joined| && joined[j].hops == r;
      assert next[j] in next && r <= next[j];
    }
  }

  /** The count of the step is positive exactly when some row reached hop i + 1. */
  lemma StepCountsExtensions(rows: seq<Row>, recs: seq<Record>, i: nat)
    requires forall r :: r in rows ==> 1 <= |r| <= i
    ensures var t := Blank(LeftJoin(rows, recs, i));
      Extensions(t) > 0 <==> exists y :: y in Appended(t) && |y| == i + 1
  {
    var t := Blank(LeftJoin(rows, recs, i));
    var next := Appended(t);
    if Extensions(t) > 0 {
      var j :| 0 <= j < |t| && t[j].next.Some?;
      LeftJoinSound(rows, recs, i, j);
      assert next[j] in next && |next[j]| == i + 1;
    } else {
      forall y | y in next ensures |y| <= i {
        var j :| 0 <= j < |next| && next[j] == y;
        LeftJoinSound(rows, recs, i, j);
      }
    }
  }

  /** A row the step leaves as it was is settled: either the join found no record continuing its hop
      i, or the blanking rejected the one it found. Rows that ended before hop i stay settled. */
  lemma StepSettles(rows: seq<Row>, recs: seq<Record>, i: nat)
    requires Table(rows, recs, i) && forall y :: y in rows && |y| < i ==> Settled(y, recs)
    ensures forall y :: y in Appended(Blank(LeftJoin(rows, recs, i))) && |y| <= i ==> Settled(y, recs)
  {
    var joined := LeftJoin(rows, recs, i);
    var t := Blank(joined);
    var next := Appended(t);
    forall y | y in next && |y| <= i ensures Settled(y, recs) {
      var j :| 0 <= j < |next| && next[j] == y;
      StepRowSettled(rows, recs, i, j);
    }
  }

  /** Row j of the next table, when the step left it as it was, is settled. */
  lemma StepRowSettled(rows: seq<Row>, recs: seq<Record>, i: nat, j: nat)
    requires Table(rows, recs, i) && forall y :: y in rows && |y| < i ==> Settled(y, recs)
    requires j < |LeftJoin(rows, recs, i)|
    ensures |Appended(Blank(LeftJoin(rows, recs, i)))[j]| <= i ==> Settled(Appended(Blank(LeftJoin(rows, recs, i)))[j], recs)
  {
    var joined := LeftJoin(rows, recs, i);
    var t := Blank(joined);
    LeftJoinSound(rows, recs, i, j);
    var r := joined[j].hops;
    assert t[j].hops == r && r in rows;
    if t[j].next.None? && |r| == i {
      if joined[j].next.None? {
        LeftJoinUnmatched(rows, recs, i, j);
      }
      RowSettled(r, joined[j].next, recs);
    }
  }

  /** A row whose candidate was blank after the join, or was blanked as dated before it, is settled. */
  lemma RowSettled(r: Row, cand: Option<Record>, recs: seq<Record>)
    requires IsChain(r, recs)
    requires cand.None? ==> forall x :: x in recs ==> x.oldId != Last(r).newId
    requires cand.Some? ==> cand.value in recs && cand.value.oldId == Last(r).newId && cand.value.date < Last(r).date
    ensures Settled(r, recs)
  {
    if cand.Some? {
      var x := cand.value;
      assert x in recs && x.oldId == r[|r| - 1].newId && x.date < r[|r| - 1].date;
    }
  }

  /** Step i keeps every settled chain of at most i records that the table holds or, having i
      records, covers: it is a row of the next table as it was. */
  lemma StepKeepsSettled(rows: seq<Row>, recs: seq<Record>, i: nat)
    requires Table(rows, recs, i) && Covers(rows, recs, i)
    requires forall c :: Settled(c, recs) && |c| < i ==> c in rows
    ensures forall c :: Settled(c, recs) && |c| <= i ==> c in Appended(Blank(LeftJoin(rows, recs, i)))
  {
    forall c | Settled(c, recs) && |c| <= i ensures c in Appended(Blank(LeftJoin(rows, recs, i))) {
      if |c| == i {
        CoveredFullRow(rows, recs, i, c);
      }
      StepKeepsSettledRow(rows, recs, i, c);
    }
  }

  /** A settled row survives the step unextended: a row that ended before hop i has a blank key, a
      row with a continuation dated before it leaves the rejected copy behind, and a row of i hops
      that nothing continues keeps its blank candidate. */
  lemma StepKeepsSettledRow(rows: seq<Row>, recs: seq<Record>, i: nat, c: Row)
    requires forall r :: r in rows ==> |r| >= 1
    requires c in rows && |c| <= i && Settled(c, recs)
    ensures c in Appended(Blank(LeftJoin(rows, recs, i)))
  {
    var joined := LeftJoin(rows, recs, i);
    LeftJoinKeepsRow(rows, recs, i, c);
    var j :| 0 <= j < |joined| && joined[j].hops == c;
    LeftJoinSound(rows, recs, i, j);
    if joined[j].next.Some? {
      SettledRejects(c, joined[j].next.value, recs);
      var x :| x in recs && x.oldId == Last(c).newId && x.date < Last(c).date;
      StepKeepsRejected(rows, recs, i, c, x);
    } else {
      assert Appended(Blank(joined))[j] == c;
    }
  }

  /** A settled chain that some record continues has a continuation dated before its last hop. */
  lemma SettledRejects(c: Row, x: Record, recs: seq<Record>)
    requires Settled(c, recs) && x in recs && x.oldId == Last(c).newId
    ensures exists y :: y in recs && y.oldId == Last(c).newId && y.date < Last(c).date
  {
    if Maximal(c, recs) {
      assert x.date < Last(c).date;
    }
  }

  /** Some row of the table extends `c`. */
  ghost predicate Covered(c: seq<Record>, rows: seq<Row>) {
    exists y :: y in rows && c <= y
  }

  /** Every chain of at most i records is the prefix of some row of the table. */
  ghost predicate Covers(rows: seq<Row>, recs: seq<Record>, i: nat) {
    forall c {:trigger Covered(c, rows)} :: IsChain(c, recs) && |c| <= i ==> Covered(c, rows)
  }

  /** The join misses no chain: the chains already covered stay covered, and a chain of i + 1
      records is the row of its first i records with its last record as an in-order candidate, so
      the step appends it. */
  lemma StepCovers(rows: seq<Row>, recs: seq<Record>, i: nat)
    requires 1 <= i && Table(rows, recs, i) && Covers(rows, recs, i)
    ensures Covers(Appended(Blank(LeftJoin(rows, recs, i))), recs, i + 1)
  {
    var next := Appended(Blank(LeftJoin(rows, recs, i)));
    forall c: seq<Record> | IsChain(c, recs) && |c| <= i + 1 ensures Covered(c, next) {
      if |c| <= i {
        StepKeepsCovered(rows, recs, i, c);
      } else {
        StepAppendsChain(rows, recs, i, c);
      }
    }
  }

  /** A chain covered before the step is covered after it. */
  lemma StepKeepsCovered(rows: seq<Row>, recs: seq<Record>, i: nat, c: seq<Record>)
    requires forall r :: r in rows ==> |r| >= 1
    requires Covered(c, rows)
    ensures Covered(c, Appended(Blank(LeftJoin(rows, recs, i))))
  {
    var next := Appended(Blank(LeftJoin(rows, recs, i)));
    StepKeepsRows(rows, recs, i);
    var r :| r in rows && c <= r;
    var y :| y in next && r <= y;
    assert c <= y;
  }

  /** A chain of i + 1 records is a row after step i. */
  lemma StepAppendsChain(rows: seq<Row>, recs: seq<Record>, i: nat, c: seq<Record>)
    requires 1 <= i && Table(rows, recs, i) && Covers(rows, recs, i)
    requires IsChain(c, recs) && |c| == i + 1
    ensures Covered(c, Appended(Blank(LeftJoin(rows, recs, i))))
  {
    var p := c[..i];
    ChainPrefix(c, recs, i);
    CoveredFullRow(rows, recs, i, p);
    assert c == p + [c[i]] && Last(p) == c[i - 1];
    StepAppends(rows, recs, i, p, c[i]);
    assert c <= c;
  }

  /** A chain of i records covered by a table whose rows have at most i hops is one of its rows. */
  lemma CoveredFullRow(rows: seq<Row>, recs: seq<Record>, i: nat, p: seq<Record>)
    requires Table(rows, recs, i) && Covers(rows, recs, i)
    requires IsChain(p, recs) && |p| == i
    ensures p in rows
  {
    assert Covered(p, rows);
    var r :| r in rows && p <= r;
    assert r == p;
  }

  /** A row of i hops followed by an in-order continuation is a row of the next table. */
  lemma StepAppends(rows: seq<Row>, recs: seq<Record>, i: nat, p: Row, x: Record)
    requires forall r :: r in rows ==> |r| >= 1
    requires p in rows && |p| == i && x in recs && x.oldId == Last(p).newId && Last(p).date <= x.date
    ensures p + [x] in Appended(Blank(LeftJoin(rows, recs, i)))
  {
    var joined := LeftJoin(rows, recs, i);
    var next := Appended(Blank(joined));
    LeftJoinComplete(rows, recs, i, p, x);
    var k :| 0 <= k < |joined| && joined[k] == Joined(p, Some(x));
    assert next[k] == p + [x];
  }

  /** The first m records of a chain form a chain. */
  lemma ChainPrefix(c: seq<Record>, recs: seq<Record>, m: nat)
    requires IsChain(c, recs) && 1 <= m <= |c|
    ensures IsChain(c[..m], recs)
  {
    var p := c[..m];
    assert forall k :: 0 <= k < m ==> p[k] == c[k];
  }

  /** When a step appends nothing, no chain is longer than i records. */
  lemma StepLongest(rows: seq<Row>, recs: seq<Record>, i: nat)
    requires 1 <= i && Table(rows, recs, i) && Covers(rows, recs, i)
    requires Extensions(Blank(LeftJoin(rows, recs, i))) == 0
    ensures forall c :: IsChain(c, recs) ==> |c| <= i
  {
    StepKeepsChains(rows, recs, i);
    StepCountsExtensions(rows, recs, i);
    StepCovers(rows, recs, i);
    NoLongerChain(Appended(Blank(LeftJoin(rows, recs, i))), recs, i);
  }

  /** A table that covers every chain of i + 1 records but has no row of i + 1 hops shows that no
      chain is longer than i records. */
  lemma NoLongerChain(rows: seq<Row>, recs: seq<Record>, i: nat)
    requires Table(rows, recs, i + 1) && Covers(rows, recs, i + 1)
    requires !exists y :: y in rows && |y| == i + 1
    ensures forall c :: IsChain(c, recs) ==> |c| <= i
  {
    forall c: seq<Record> | IsChain(c, recs) ensures |c| <= i {
      if |c| > i {
        CoveredLongChain(rows, recs, i, c);
        assert false;
      }
    }
  }

  /** A chain longer than i records has a prefix of i + 1 records, which a covering table holds as
      a row. */
  lemma CoveredLongChain(rows: seq<Row>, recs: seq<Record>, i: nat, c: seq<Record>)
    requires Table(rows, recs, i + 1) && Covers(rows, recs, i + 1)
    requires IsChain(c, recs) && |c| > i
    ensures exists y :: y in rows && |y| == i + 1
  {
    ChainPrefix(c, recs, i + 1);
    assert Covered(c[..i + 1], rows);
  }

  /** A table of chains with a row of i hops proves a chain of i records, so i is bounded. */
  lemma ReachedHopBounded(rows: seq<Row>, recs: seq<Record>, i: nat)
    requires NoRevisit(recs) && Table(rows, recs, i)
    requires exists r :: r in rows && |r| == i
    ensures i <= |recs|
  {
    var r :| r in rows && |r| == i;
    ChainLength(r, recs);
  }

  /** A row of i hops survives a step that appends nothing. */
  lemma PrefixLength(rows: seq<Row>, next: seq<Row>, i: nat)
    requires forall r :: r in rows ==> exists y :: y in next && r <= y
    requires forall y :: y in next ==> |y| <= i
    requires exists r :: r in rows && |r| == i
    ensures exists y :: y in next && |y| == i
  {
    var r :| r in rows && |r| == i;
    var y :| y in next && r <= y;
  }

  /** The loop invariant at step i: the rows are chains of at most i records, they cover every
      chain of at most i records, and some row has i hops. */
  ghost predicate Reached(rows: seq<Row>, recs: seq<Record>, i: nat) {
    Table(rows, recs, i) && Covers(rows, recs, i) && (recs != [] ==> exists y :: y in rows && |y| == i)
  }

  /** Every record starts a chain of one record. */
  lemma InitialReached(recs: seq<Record>)
    ensures Reached(Initial(recs), recs, 1)
  {
    var rows := Initial(recs);
    if recs != [] {
      assert rows[0] in rows;
    }
    forall c: seq<Record> | IsChain(c, recs) && |c| <= 1 ensures Covered(c, rows) {
      var k :| 0 <= k < |recs| && recs[k] == c[0];
      assert c == rows[k] && rows[k] in rows;
    }
  }

  /** A step that appends some hop reaches step i + 1, which the record count bounds. */
  lemma StepGrows(rows: seq<Row>, recs: seq<Record>, i: nat)
    requires NoRevisit(recs) && 1 <= i && Reached(rows, recs, i)
    requires Extensions(Blank(LeftJoin(rows, recs, i))) > 0
    ensures Reached(Appended(Blank(LeftJoin(rows, recs, i))), recs, i + 1) && i + 1 <= |recs|
  {
    StepKeepsChains(rows, recs, i);
    StepCountsExtensions(rows, recs, i);
    StepCovers(rows, recs, i);
    ReachedHopBounded(Appended(Blank(LeftJoin(rows, recs, i))), recs, i + 1);
  }

  /** A step that appends nothing leaves the table at step i, and no chain is longer than i. */
  lemma StepStops(rows: seq<Row>, recs: seq<Record>, i: nat)
    requires 1 <= i && Reached(rows, recs, i)
    requires Extensions(Blank(LeftJoin(rows, recs, i))) == 0
    ensures Reached(Appended(Blank(LeftJoin(rows, recs, i))), recs, i)
    ensures forall c :: IsChain(c, recs) ==> |c| <= i
  {
    var next := Appended(Blank(LeftJoin(rows, recs, i)));
    StepKeepsChains(rows, recs, i);
    StepKeepsRows(rows, recs, i);
    StepCountsExtensions(rows, recs, i);
    StepCovers(rows, recs, i);
    StepLongest(rows, recs, i);
    if recs != [] {
      PrefixLength(rows, next, i);
    }
  }

  /** The final table: its rows are chains of at most `n` records, every chain over the records is
      the prefix of a row, no chain is longer than `n` records, some row has `n` hops, and every
      record started a row. Its rows are exactly the settled chains, with repetitions. */
  ghost predicate Resolved(rows: seq<Row>, recs: seq<Record>, n: nat) {
    && Table(rows, recs, n)
    && Covers(rows, recs, n)
    && (forall c :: IsChain(c, recs) ==> |c| <= n)
    && (recs != [] ==> n <= |recs| && exists y :: y in rows && |y| == n)
    && (recs == [] ==> rows == [])
    && |rows| >= |recs|
    && (forall y :: y in rows ==> Settled(y, recs))
    && (forall c :: Settled(c, recs) ==> c in rows)
  }

  /** The `while changes > 0` loop of the source: each pass performs the join, the blanking, the count
      and the renumbering of one step, and N_changes is the last step. */
  method BuildCascade(recs: seq<Record>) returns (rows: seq<Row>, n: nat)
    requires NoRevisit(recs)
    ensures 1 <= n && Resolved(rows, recs, n)
  {
    rows := Initial(recs);
    InitialReached(recs);
    var i := 1;
    var changes := 1;
    while changes > 0
      invariant 1 <= i && changes >= 0 && |rows| >= |recs| && (recs == [] ==> rows == [])
      invariant changes > 0 ==> i <= |recs| + 1 && Reached(rows, recs, i)
      invariant changes == 0 ==> i >= 2 && Reached(rows, recs, i - 1) && forall c :: IsChain(c, recs) ==> |c| <= i - 1
      invariant forall y :: y in rows && |y| < i ==> Settled(y, recs)
      invariant forall c :: Settled(c, recs) && |c| < i ==> c in rows
      decreases |recs| + 2 - i
    {
      StepKeepsRows(rows, recs, i);
      StepSettles(rows, recs, i);
      StepKeepsSettled(rows, recs, i);
      var joined := LeftJoin(rows, recs, i);
      joined := Blank(joined);
      changes := Extensions(joined);
      if changes == 0 {
        StepStops(rows, recs, i);
      } else {
        StepGrows(rows, recs, i);
      }
      rows := Appended(joined);
      i := i + 1;
    }
    n := i - 1;
    if recs != [] {
      var y :| y in rows && |y| == n;
      ChainLength(y, recs);
    }
  }

  /** Every maximal chain over the records is a row of the final table. */
  lemma MaximalIsRow(rows: seq<Row>, recs: seq<Record>, n: nat, c: seq<Record>)
    requires Resolved(rows, recs, n) && Maximal(c, recs)
    ensures c in rows
  {
    assert Covered(c, rows);
    var y: Row :| y in rows && c <= y;
    if |y| > |c| {
      ContinuationOfPrefix(c, y, recs);
      assert false;
    }
    assert y == c;
  }

  /** The hop of a chain after one of its prefixes continues that prefix in order. */
  lemma ContinuationOfPrefix(c: seq<Record>, y: seq<Record>, recs: seq<Record>)
    requires IsChain(y, recs) && 1 <= |c| < |y| && c <= y
    ensures y[|c|] in recs && y[|c|].oldId == c[|c| - 1].newId && c[|c| - 1].date <= y[|c|].date
  {
    assert y[|c| - 1] == c[|c| - 1];
  }

  /** Every record is the first hop of a maximal chain, which is a row of the final table. */
  lemma RecordStartsRow(rows: seq<Row>, recs: seq<Record>, n: nat, x: Record)
    requires Resolved(rows, recs, n) && x in recs
    ensures exists y :: y in rows && Maximal(y, recs) && y[0] == x
  {
    assert IsChain([x], recs);
    ExtendToMaximal([x], recs, n);
    var m :| Maximal(m, recs) && [x] <= m;
    MaximalIsRow(rows, recs, n, m);
    assert m[0] == x;
  }

  /** Rows the join extended by a candidate dated before their last hop stay in the table as they
      were: a rejected branch of a fan-out leaves a copy of the row behind. */
  lemma StepKeepsRejected(rows: seq<Row>, recs: seq<Record>, i: nat, r: Row, x: Record)
    requires forall r :: r in rows ==> |r| >= 1
    requires r in rows && |r| == i && x in recs && x.oldId == Last(r).newId && x.date < Last(r).date
    ensures r in Appended(Blank(LeftJoin(rows, recs, i)))
  {
    var joined := LeftJoin(rows, recs, i);
    var next := Appended(Blank(joined));
    LeftJoinComplete(rows, recs, i, r, x);
    var k :| 0 <= k < |joined| && joined[k] == Joined(r, Some(x));
    assert next[k] == r;
  }

  /** The record that ends a longest chain starts a row of one hop: any continuation of it would
      make a longer chain. */
  lemma ShortRowExists(rows: seq<Row>, recs: seq<Record>, n: nat)
    requires Resolved(rows, recs, n) && recs != []
    ensures exists y :: y in rows && |y| == 1
  {
    var y :| y in rows && |y| == n;
    var x := Last(y);
    assert IsChain([x], recs);
    assert Covered([x], rows);
    var z: Row :| z in rows && [x] <= z;
    if |z| > 1 {
      assert z[0] == x && IsChain(z, recs);
      assert z[1] in recs && z[0].newId == z[1].oldId && z[0].date <= z[1].date;
      ChainExtend(y, recs, z[1]);
      assert false;
    }
  }
}
