/** The date-string helpers: US dates `mm/dd/yyyy`, Swiss dates `dd.mm.yyyy` and `yyyy-mm-dd`.
    They split on a separator, reorder the fields and join them again, as Python's
    `str.split` and `str.join` do; a missing field is Python's IndexError. */
module DateStrings {
  import opened Wrappers

  /** Python's `s.split(sep)`: the maximal separator-free pieces, `[""]` for the empty string. */
  function Split(s: string, sep: char): (parts: seq<string>)
    ensures |parts| >= 1
    ensures forall p :: p in parts ==> sep !in p
    ensures |parts| == 1 <==> sep !in s
    ensures forall p, ch :: p in parts && ch in p ==> ch in s
  {
    if s == [] then [""]
    else
      var rest := Split(s[1..], sep);
      if s[0] == sep then [""] + rest
      else [[s[0]] + rest[0]] + rest[1..]
  }

  /** Python's `sep.join(parts)` for a non-empty list. */
  function Join(parts: seq<string>, sep: char): (s: string)
    requires |parts| >= 1
  {
    if |parts| == 1 then parts[0] else parts[0] + [sep] + Join(parts[1..], sep)
  }

  /** Joining the pieces of a split gives back the string. */
  lemma {:induction false} JoinSplit(s: string, sep: char)
    ensures Join(Split(s, sep), sep) == s
  {
    if s != [] {
      var rest := Split(s[1..], sep);
      JoinSplit(s[1..], sep);
      if s[0] == sep {
        JoinEmptyFirst(rest, sep);
      } else {
        JoinExtendFirst(s[0], rest, sep);
      }
      assert s == [s[0]] + s[1..];
    }
  }

  /** Joining after an empty first piece puts a separator in front. */
  lemma JoinEmptyFirst(rest: seq<string>, sep: char)
    requires |rest| >= 1
    ensures Join([""] + rest, sep) == [sep] + Join(rest, sep)
  {
    assert ([""] + rest)[1..] == rest;
  }

  /** Joining after a character is prepended to the first piece prepends it to the join. */
  lemma JoinExtendFirst(c: char, rest: seq<string>, sep: char)
    requires |rest| >= 1
    ensures Join([[c] + rest[0]] + rest[1..], sep) == [c] + Join(rest, sep)
  {
    var parts := [[c] + rest[0]] + rest[1..];
    assert parts[0] == [c] + rest[0] && parts[1..] == rest[1..];
  }

  lemma {:induction false} SplitPlain(w: string, sep: char)
    requires sep !in w
    ensures Split(w, sep) == [w]
  {
    if w != [] {
      SplitPlain(w[1..], sep);
      assert w == [w[0]] + w[1..];
    }
  }

  lemma {:induction false} SplitFirst(w: string, t: string, sep: char)
    requires sep !in w
    ensures Split(w + [sep] + t, sep) == [w] + Split(t, sep)
  {
    var s := w + [sep] + t;
    if w == [] {
      assert s[0] == sep && s[1..] == t;
    } else {
      assert s[0] == w[0] && s[1..] == w[1..] + [sep] + t;
      SplitFirst(w[1..], t, sep);
      assert w == [w[0]] + w[1..];
    }
  }

  /** Splitting a join of separator-free pieces gives back the pieces. */
  lemma {:induction false} SplitJoin(parts: seq<string>, sep: char)
    requires |parts| >= 1
    requires forall p :: p in parts ==> sep !in p
    ensures Split(Join(parts, sep), sep) == parts
  {
    if |parts| == 1 {
      SplitPlain(parts[0], sep);
    } else {
      assert parts[0] in parts;
      SplitFirst(parts[0], Join(parts[1..], sep), sep);
      SplitJoin(parts[1..], sep);
      assert parts == [parts[0]] + parts[1..];
    }
  }

  /** `date_US_to_CH`: swaps the first two fields and joins with '.'. */
  function UsToCh(s: string): (r: Option<string>)
    ensures r.Some? <==> '/' in s
  {
    var p := Split(s, '/');
    if |p| < 2 then None else Some(Join([p[1], p[0]] + p[2..], '.'))
  }

  /** `date_CH_to_US`: swaps the first two fields and joins with '/'. */
  function ChToUs(s: string): (r: Option<string>)
    ensures r.Some? <==> '.' in s
  {
    var p := Split(s, '.');
    if |p| < 2 then None else Some(Join([p[1], p[0]] + p[2..], '/'))
  }

  /** `date_US_to_ymd`: fields 2, 0, 1 joined with '-'; needs at least three fields. */
  function UsToYmd(s: string): (r: Option<string>)
    ensures r.Some? <==> |Split(s, '/')| >= 3
  {
    var p := Split(s, '/');
    if |p| < 3 then None else Some(Join([p[2], p[0], p[1]], '-'))
  }

  /** A US date without dots survives the trip to the Swiss format and back. */
  lemma UsChRoundTrip(s: string)
    requires '/' in s && '.' !in s
    ensures UsToCh(s).Some? && ChToUs(UsToCh(s).value) == Some(s)
  {
    var p := Split(s, '/');
    var swapped := [p[1], p[0]] + p[2..];
    forall q | q in swapped ensures '.' !in q && '/' !in q {
      assert q in p;
    }
    SplitJoin(swapped, '.');
    var back := [swapped[1], swapped[0]] + swapped[2..];
    assert back == p;
    JoinSplit(s, '/');
  }

  lemma JoinOfDate(a: string, b: string, c: string)
    ensures forall sep: char :: Join([a, b, c], sep) == a + [sep] + b + [sep] + c
  {
    forall sep: char ensures Join([a, b, c], sep) == a + [sep] + b + [sep] + c {
      assert [a, b, c][1..] == [b, c];
      assert [b, c][1..] == [c];
      assert Join([b, c], sep) == b + [sep] + c;
      assert Join([a, b, c], sep) == a + [sep] + (b + [sep] + c);
    }
  }

  /** On `mm/dd/yyyy` the conversion gives `dd.mm.yyyy`. */
  lemma UsToChOfDate(mm: string, dd: string, yyyy: string)
    requires '/' !in mm && '/' !in dd && '/' !in yyyy
    ensures UsToCh(mm + "/" + dd + "/" + yyyy) == Some(dd + "." + mm + "." + yyyy)
  {
    var s := mm + "/" + dd + "/" + yyyy;
    JoinOfDate(mm, dd, yyyy);
    SplitJoin([mm, dd, yyyy], '/');
    assert [dd, mm] + [mm, dd, yyyy][2..] == [dd, mm, yyyy];
    JoinOfDate(dd, mm, yyyy);
  }

  /** On `mm/dd/yyyy` the conversion gives `yyyy-mm-dd`. */
  lemma UsToYmdOfDate(mm: string, dd: string, yyyy: string)
    requires '/' !in mm && '/' !in dd && '/' !in yyyy
    ensures UsToYmd(mm + "/" + dd + "/" + yyyy) == Some(yyyy + "-" + mm + "-" + dd)
  {
    var s := mm + "/" + dd + "/" + yyyy;
    JoinOfDate(mm, dd, yyyy);
    SplitJoin([mm, dd, yyyy], '/');
    JoinOfDate(yyyy, mm, dd);
  }
}
