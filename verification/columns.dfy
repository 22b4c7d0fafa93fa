/** `merge_varlist`: the names of the four identity columns of hop `i` in the wide table. */
module Columns {
  import opened Seqs

  /** Python's `str(n)` for a natural number. */
  function Decimal(n: nat): (s: string)
    ensures |s| >= 1
    ensures forall k :: 0 <= k < |s| ==> '0' <= s[k] <= '9'
  {
    if n < 10 then [DigitChar(n)] else Decimal(n / 10) + [DigitChar(n % 10)]
  }

  function DigitChar(d: nat): (c: char)
    requires d < 10
    ensures '0' <= c <= '9'
  {
    "0123456789"[d]
  }

  /** Reads back a string of decimal digits. */
  function DecimalValue(s: string): (n: nat)
    requires forall k :: 0 <= k < |s| ==> '0' <= s[k] <= '9'
  {
    if s == [] then 0 else DecimalValue(s[..|s| - 1]) * 10 + (s[|s| - 1] as int - '0' as int)
  }

  lemma {:induction false} DecimalRoundTrip(n: nat)
    ensures DecimalValue(Decimal(n)) == n
  {
    var s := Decimal(n);
    if n < 10 {
      assert s[..0] == [];
    } else {
      DecimalRoundTrip(n / 10);
      assert s[..|s| - 1] == Decimal(n / 10);
    }
  }

  /** The identity fields, in the order the source merges on them. */
  const IdentityFields: seq<string> := ["canton", "district_nr", "municipality_nr", "municipality"]

  /** `merge_varlist(i)`: key k is the column of identity field k at hop i. */
  function MergeKeys(i: nat): (keys: seq<string>)
    ensures |keys| == |IdentityFields|
    ensures forall k :: 0 <= k < |keys| ==> keys[k] == "new" + Decimal(i) + "_" + IdentityFields[k]
    ensures Distinct(keys)
  {
    var prefix := "new" + Decimal(i) + "_";
    seq(|IdentityFields|, k requires 0 <= k < |IdentityFields| => prefix + IdentityFields[k])
  }

  /** Different hops never share a merge key, so each join matches exactly one hop's columns. */
  lemma MergeKeysInjective(i: nat, j: nat)
    requires MergeKeys(i)[0] == MergeKeys(j)[0]
    ensures i == j
  {
    var a := "new" + Decimal(i) + "_" + "canton";
    var b := "new" + Decimal(j) + "_" + "canton";
    assert a[3..|a| - 7] == Decimal(i);
    assert b[3..|b| - 7] == Decimal(j);
    DecimalRoundTrip(i);
    DecimalRoundTrip(j);
  }
}
