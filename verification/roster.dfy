/** Adding the municipalities without changes: the crosswalk is outer-merged with the roster of
    municipalities at the later date on the four `new_` columns, and the `old_` cells the merge leaves
    blank are filled from the `new_` cells of the same row. */
module Roster {
  import opened Wrappers
  import opened Municipalities

  /** A row of the outer merge: roster rows that no crosswalk row reaches have blank `old_` cells. */
  datatype Merged = Merged(oldId: Option<Identity>, newId: Identity)

  /** How many roster rows carry `id`. */
  function Occurrences(id: Identity, roster: seq<Identity>): (c: nat)
    ensures c == 0 <==> id !in roster
    ensures c <= |roster|
  {
    if roster == [] then 0
    else (if roster[0] == id then 1 else 0) + Occurrences(id, roster[1..])
  }

  /** A crosswalk row after the merge: one copy per roster row with the same identity, or one copy
      when there is none. */
  function Matched(p: Mapping, roster: seq<Identity>): (ms: seq<Merged>)
    ensures |ms| == if p.newId in roster then Occurrences(p.newId, roster) else 1
    ensures forall k :: 0 <= k < |ms| ==> ms[k] == Merged(Some(p.oldId), p.newId)
  {
    var copies := if p.newId in roster then Occurrences(p.newId, roster) else 1;
    seq(copies, k requires 0 <= k < copies => Merged(Some(p.oldId), p.newId))
  }

  /** The left part of the outer merge: the crosswalk rows in order, each matched with the roster. */
  function LeftPart(pairs: seq<Mapping>, roster: seq<Identity>): (ms: seq<Merged>)
    ensures |ms| >= |pairs|
    ensures forall m :: m in ms <==> exists p :: p in pairs && m == Merged(Some(p.oldId), p.newId)
  {
    if pairs == [] then []
    else
      var head := Matched(pairs[0], roster);
      var rest := LeftPart(pairs[1..], roster);
      assert head[0] in head;
      assert forall p :: p in pairs ==> p == pairs[0] || p in pairs[1..];
      head + rest
  }

  /** Whether some crosswalk row ends at `id`. */
  predicate EndsAt(id: Identity, pairs: seq<Mapping>) {
    exists p :: p in pairs && p.newId == id
  }

  /** The right-only part of the outer merge: the roster rows no crosswalk row ends at, with blank
      `old_` cells. */
  function Unreached(pairs: seq<Mapping>, roster: seq<Identity>): (ms: seq<Merged>)
    ensures forall m :: m in ms <==> m.oldId.None? && m.newId in roster && !EndsAt(m.newId, pairs)
  {
    if roster == [] then []
    else (if EndsAt(roster[0], pairs) then [] else [Merged(None, roster[0])]) + Unreached(pairs, roster[1..])
  }

  /** `df_final.merge(df_all, on=[new_ columns], how='outer')`. */
  function OuterMerge(pairs: seq<Mapping>, roster: seq<Identity>): (merged: seq<Merged>)
    ensures |merged| >= |pairs|
    ensures forall m :: m in merged <==>
      || (exists p :: p in pairs && m == Merged(Some(p.oldId), p.newId))
      || (m.oldId.None? && m.newId in roster && !EndsAt(m.newId, pairs))
  {
    LeftPart(pairs, roster) + Unreached(pairs, roster)
  }

  /** `old = old.fillna(new)`: a blank old identity is the new one. */
  function FillOld(m: Merged): (p: Mapping)
    ensures p.newId == m.newId
    ensures p.oldId == if m.oldId.Some? then m.oldId.value else m.newId
  {
    Mapping(m.oldId.GetOr(m.newId), m.newId)
  }

  /** The roster step of `create_crosswalk` when `changes_only` is false. */
  function AddUnchanged(pairs: seq<Mapping>, roster: seq<Identity>): (out: seq<Mapping>)
    ensures |out| >= |pairs|
  {
    var merged := OuterMerge(pairs, roster);
    seq(|merged|, k requires 0 <= k < |merged| => FillOld(merged[k]))
  }

  /** The rows of the result are exactly the crosswalk rows and, for every roster identity no
      crosswalk row ends at, that identity mapped to itself. */
  lemma AddUnchangedRows(pairs: seq<Mapping>, roster: seq<Identity>, m: Mapping)
    ensures m in AddUnchanged(pairs, roster) <==>
      m in pairs || (m.oldId == m.newId && m.newId in roster && !EndsAt(m.newId, pairs))
  {
    var merged := OuterMerge(pairs, roster);
    var out := AddUnchanged(pairs, roster);
    if m in out {
      var k :| 0 <= k < |out| && out[k] == m;
      assert merged[k] in merged;
      if k < |LeftPart(pairs, roster)| {
        assert merged[k] in LeftPart(pairs, roster);
      } else {
        assert merged[k] in Unreached(pairs, roster);
      }
    }
    if m in pairs {
      var e := Merged(Some(m.oldId), m.newId);
      assert e in LeftPart(pairs, roster);
      assert e in merged;
      var k :| 0 <= k < |merged| && merged[k] == e;
      assert out[k] == m;
    } else if m.oldId == m.newId && m.newId in roster && !EndsAt(m.newId, pairs) {
      var e := Merged(None, m.newId);
      assert e in Unreached(pairs, roster);
      assert e in merged;
      var k :| 0 <= k < |merged| && merged[k] == e;
      assert out[k] == m;
    }
  }

  /** Every municipality of the roster is the new identity of some row of the result. */
  lemma AddUnchangedCoversRoster(pairs: seq<Mapping>, roster: seq<Identity>, id: Identity)
    requires id in roster
    ensures exists m :: m in AddUnchanged(pairs, roster) && m.newId == id
  {
    if EndsAt(id, pairs) {
      var p :| p in pairs && p.newId == id;
      AddUnchangedRows(pairs, roster, p);
    } else {
      AddUnchangedRows(pairs, roster, Mapping(id, id));
    }
  }

  /** Without a roster the crosswalk is returned as it is. */
  lemma {:induction false} AddUnchangedEmptyRoster(pairs: seq<Mapping>)
    ensures AddUnchanged(pairs, []) == pairs
  {
    LeftPartEmptyRoster(pairs);
    assert OuterMerge(pairs, []) == LeftPart(pairs, []);
  }

  lemma {:induction false} LeftPartEmptyRoster(pairs: seq<Mapping>)
    ensures LeftPart(pairs, []) == seq(|pairs|, k requires 0 <= k < |pairs| => Merged(Some(pairs[k].oldId), pairs[k].newId))
  {
    if pairs != [] {
      LeftPartEmptyRoster(pairs[1..]);
    }
  }
}
