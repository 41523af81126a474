/**
 * The aggregation engine of the service-hours tracker (school.py): the
 * diagnostics scan over all rows, the fold of approved hours into a
 * per-student dictionary with its sorted emission, the case-insensitive
 * look-up of one student's total, and the second fold, over Student objects,
 * that sums every valid row whatever its approval.
 *
 * Rows arrive already split into fields; positions are 1-based.
 */
module School {
  import opened Wrappers
  import opened Text
  import opened Numbers
  import opened Validator

  // ----- Specification of the two folds -----

  /** Which valid rows a fold takes in: the summary counts approved rows, the student tally all of them. */
  datatype Tally = ApprovedOnly | AllValid

  /** The status field of a row says the hours were approved. */
  predicate IsApproved(row: seq<string>)
    requires |row| >= 4
  {
    EqualsIgnoringCase(Trim(row[3]), "true")
  }

  predicate Included(row: seq<string>, t: Tally)
  {
    WellFormed(row) && (t == AllValid || IsApproved(row))
  }

  /** The trimmed names of the rows a fold takes in. Case is kept: "Ann" and "ann" differ. */
  function Names(rows: seq<seq<string>>, t: Tally): set<string>
  {
    if rows == [] then {}
    else
      var last := rows[|rows| - 1];
      Names(rows[..|rows| - 1], t) + (if Included(last, t) then {Trim(last[0])} else {})
  }

  /** The hours of the rows a fold takes in whose trimmed name is exactly name. */
  function Total(rows: seq<seq<string>>, name: string, t: Tally): real
  {
    if rows == [] then 0.0
    else
      var last := rows[|rows| - 1];
      Total(rows[..|rows| - 1], name, t)
      + (if Included(last, t) && Trim(last[0]) == name then HoursOf(last) else 0.0)
  }

  /** Adding one row at the end changes each fold by that row's contribution alone. */
  lemma FoldStep(prefix: seq<seq<string>>, row: seq<string>, t: Tally)
    ensures Names(prefix + [row], t) == Names(prefix, t) + (if Included(row, t) then {Trim(row[0])} else {})
    ensures forall n ::
      Total(prefix + [row], n, t) == Total(prefix, n, t) + (if Included(row, t) && Trim(row[0]) == n then HoursOf(row) else 0.0)
  {
    assert (prefix + [row])[..|prefix|] == prefix;
  }

  /** A row the fold does not take in (corrupted, or unapproved for the summary) changes nothing. */
  lemma FoldSkips(prefix: seq<seq<string>>, row: seq<string>, t: Tally)
    requires !Included(row, t)
    ensures Names(prefix + [row], t) == Names(prefix, t)
    ensures forall n :: Total(prefix + [row], n, t) == Total(prefix, n, t)
  {
    FoldStep(prefix, row, t);
  }

  lemma {:induction false} TotalNonNegative(rows: seq<seq<string>>, name: string, t: Tally)
    ensures Total(rows, name, t) >= 0.0
  {
    if rows != [] {
      TotalNonNegative(rows[..|rows| - 1], name, t);
    }
  }

  /** A name no row contributes has total zero. */
  lemma {:induction false} TotalOfAbsentName(rows: seq<seq<string>>, name: string, t: Tally)
    requires name !in Names(rows, t)
    ensures Total(rows, name, t) == 0.0
  {
    if rows != [] {
      TotalOfAbsentName(rows[..|rows| - 1], name, t);
    }
  }

  /** Approved hours never exceed all valid hours, and every approved name is a valid name. */
  lemma {:induction false} ApprovedWithinAllValid(rows: seq<seq<string>>, name: string)
    ensures Total(rows, name, ApprovedOnly) <= Total(rows, name, AllValid)
    ensures Names(rows, ApprovedOnly) <= Names(rows, AllValid)
  {
    if rows != [] {
      ApprovedWithinAllValid(rows[..|rows| - 1], name);
    }
  }

  lemma {:induction false} TotalAppend(a: seq<seq<string>>, b: seq<seq<string>>, name: string, t: Tally)
    ensures Total(a + b, name, t) == Total(a, name, t) + Total(b, name, t)
  {
    if b == [] {
      assert a + b == a;
    } else {
      assert (a + b)[..|a + b| - 1] == a + b[..|b| - 1];
      TotalAppend(a, b[..|b| - 1], name, t);
    }
  }

  lemma {:induction false} NamesAppend(a: seq<seq<string>>, b: seq<seq<string>>, t: Tally)
    ensures Names(a + b, t) == Names(a, t) + Names(b, t)
  {
    if b == [] {
      assert a + b == a;
    } else {
      assert (a + b)[..|a + b| - 1] == a + b[..|b| - 1];
      NamesAppend(a, b[..|b| - 1], t);
    }
  }

  /** Taking the same element out of two equal multisets leaves equal multisets. */
  lemma MultisetCancel<T>(a: seq<T>, x: T, front: seq<T>, back: seq<T>)
    requires multiset(a + [x]) == multiset(front + ([x] + back))
    ensures multiset(a) == multiset(front + back)
  {
    var A, F, B, X := multiset(a), multiset(front), multiset(back), multiset{x};
    assert multiset(a + [x]) == A + X;
    assert multiset(front + ([x] + back)) == F + X + B;
    forall y ensures A[y] == (F + B)[y] {
      assert (A + X)[y] == A[y] + X[y];
      assert (F + B + X)[y] == (F + B)[y] + X[y];
    }
    assert A == F + B;
  }

  /** A row of b that equals the last row of a splits b around it, leaving the rest a permutation. */
  lemma SplitAround(a: seq<seq<string>>, b: seq<seq<string>>) returns (j: nat)
    requires a != [] && multiset(a) == multiset(b)
    ensures j < |b| && b[j] == a[|a| - 1]
    ensures b == b[..j] + ([b[j]] + b[j + 1..])
    ensures multiset(a[..|a| - 1]) == multiset(b[..j] + b[j + 1..])
  {
    var x, a' := a[|a| - 1], a[..|a| - 1];
    assert a == a' + [x];
    assert x in multiset(b);
    j :| 0 <= j < |b| && b[j] == x;
    var front, back := b[..j], b[j + 1..];
    assert b == front + ([x] + back);
    MultisetCancel(a', x, front, back);
  }

  /** The totals do not depend on the order of the rows. */
  lemma {:induction false} TotalPermutation(a: seq<seq<string>>, b: seq<seq<string>>, name: string, t: Tally)
    requires multiset(a) == multiset(b)
    ensures Total(a, name, t) == Total(b, name, t)
  {
    if a == [] {
      assert |multiset(b)| == 0;
    } else {
      var j := SplitAround(a, b);
      var x, a', front, back := a[|a| - 1], a[..|a| - 1], b[..j], b[j + 1..];
      assert a == a' + [x];
      TotalPermutation(a', front + back, name, t);
      TotalAppend(a', [x], name, t);
      TotalAppend(front, [x] + back, name, t);
      TotalAppend([x], back, name, t);
      TotalAppend(front, back, name, t);
    }
  }

  /** The set of names does not depend on the order of the rows. */
  lemma {:induction false} NamesPermutation(a: seq<seq<string>>, b: seq<seq<string>>, t: Tally)
    requires multiset(a) == multiset(b)
    ensures Names(a, t) == Names(b, t)
  {
    if a == [] {
      assert |multiset(b)| == 0;
    } else {
      var j := SplitAround(a, b);
      var x, a', front, back := a[|a| - 1], a[..|a| - 1], b[..j], b[j + 1..];
      assert a == a' + [x];
      NamesPermutation(a', front + back, t);
      NamesAppend(a', [x], t);
      NamesAppend(front, [x] + back, t);
      NamesAppend([x], back, t);
      NamesAppend(front, back, t);
    }
  }

  // ----- check_for_corrupted_rows -----

  /** The row check the scan applies: is_row_corrupted with the row's 1-based number. */
  function RowCheck(row: seq<string>, rowNumber: nat): (bool, string)
  {
    IsRowCorrupted(row, Some(rowNumber))
  }

  /**
   * The verdict of a row check on each row, given its 1-based position. The
   * scan's properties below hold for any check; the scan itself uses RowCheck.
   */
  function Verdicts(rows: seq<seq<string>>, check: (seq<string>, nat) -> (bool, string)): (vs: seq<(bool, string)>)
    ensures |vs| == |rows|
  {
    seq(|rows|, i requires 0 <= i < |rows| => check(rows[i], i + 1))
  }

  /** The verdict at 1-based position p is the check on that row with the number p. */
  lemma VerdictAt(rows: seq<seq<string>>, check: (seq<string>, nat) -> (bool, string), p: nat)
    requires 1 <= p <= |rows|
    ensures Verdicts(rows, check)[p - 1] == check(rows[p - 1], p)
  {
  }

  /** (position, message) for each positive verdict, in order of position. */
  function Collect(verdicts: seq<(bool, string)>): seq<(nat, string)>
  {
    if verdicts == [] then []
    else
      var n := |verdicts|;
      Collect(verdicts[..n - 1]) + (if verdicts[n - 1].0 then [(n, verdicts[n - 1].1)] else [])
  }

  /** Extending the verdicts by one extends the collected list by that verdict's entry, if any. */
  lemma CollectStep(verdicts: seq<(bool, string)>, i: nat)
    requires i < |verdicts|
    ensures Collect(verdicts[..i + 1]) ==
      Collect(verdicts[..i]) + (if verdicts[i].0 then [(i + 1, verdicts[i].1)] else [])
  {
    assert verdicts[..i + 1][..i] == verdicts[..i];
  }

  /** The diagnostics list check_for_corrupted_rows builds. */
  function Diagnostics(rows: seq<seq<string>>, check: (seq<string>, nat) -> (bool, string)): seq<(nat, string)>
  {
    Collect(Verdicts(rows, check))
  }

  /**
   * The first components of a list of pairs: the row positions of a
   * diagnostics list, the names of a summary.
   */
  function Firsts<A, B>(pairs: seq<(A, B)>): (firsts: seq<A>)
    ensures |firsts| == |pairs|
  {
    seq(|pairs|, k requires 0 <= k < |pairs| => pairs[k].0)
  }

  /** Each collected entry is a positive verdict, at its own 1-based position, with its message. */
  lemma {:induction false} CollectEntry(verdicts: seq<(bool, string)>, k: nat)
    requires k < |Collect(verdicts)|
    ensures 1 <= Collect(verdicts)[k].0 <= |verdicts|
    ensures verdicts[Collect(verdicts)[k].0 - 1] == (true, Collect(verdicts)[k].1)
  {
    var n := |verdicts|;
    var prefix := verdicts[..n - 1];
    var d, p := Collect(verdicts), Collect(prefix);
    assert d == p + (if verdicts[n - 1].0 then [(n, verdicts[n - 1].1)] else []);
    if k < |p| {
      CollectEntry(prefix, k);
      assert d[k] == p[k];
      assert verdicts[p[k].0 - 1] == prefix[p[k].0 - 1];
    }
  }

  /** Collected positions strictly increase. */
  lemma {:induction false} CollectOrdered(verdicts: seq<(bool, string)>, k: nat, l: nat)
    requires k < l < |Collect(verdicts)|
    ensures Collect(verdicts)[k].0 < Collect(verdicts)[l].0
  {
    var n := |verdicts|;
    var prefix := verdicts[..n - 1];
    var d, p := Collect(verdicts), Collect(prefix);
    assert d == p + (if verdicts[n - 1].0 then [(n, verdicts[n - 1].1)] else []);
    assert d[k] == p[k];
    if l < |p| {
      CollectOrdered(prefix, k, l);
      assert d[l] == p[l];
    } else {
      CollectEntry(prefix, k);
    }
  }

  /** Every positive verdict is collected at its 1-based position. */
  lemma {:induction false} CollectComplete(verdicts: seq<(bool, string)>, i: nat)
    requires i < |verdicts| && verdicts[i].0
    ensures i + 1 in Firsts(Collect(verdicts))
  {
    var n := |verdicts|;
    var prefix := verdicts[..n - 1];
    var d, p := Collect(verdicts), Collect(prefix);
    assert d == p + (if verdicts[n - 1].0 then [(n, verdicts[n - 1].1)] else []);
    assert Firsts(d) == Firsts(p) + (if verdicts[n - 1].0 then [n] else []);
    if i < n - 1 {
      assert prefix[i] == verdicts[i];
      CollectComplete(prefix, i);
      var w :| 0 <= w < |Firsts(p)| && Firsts(p)[w] == i + 1;
      assert Firsts(d)[w] == i + 1;
    } else {
      assert Firsts(d)[|p|] == n;
    }
  }

  /** Entry k of the diagnostics names a flagged row and carries that row's message. */
  lemma DiagnosticAt(rows: seq<seq<string>>, check: (seq<string>, nat) -> (bool, string), k: nat)
    requires k < |Diagnostics(rows, check)|
    ensures 1 <= Diagnostics(rows, check)[k].0 <= |rows|
    ensures check(rows[Diagnostics(rows, check)[k].0 - 1], Diagnostics(rows, check)[k].0) ==
      (true, Diagnostics(rows, check)[k].1)
  {
    var vs := Verdicts(rows, check);
    var entry := Collect(vs)[k];
    CollectEntry(vs, k);
    VerdictAt(rows, check, entry.0);
  }

  /**
   * The diagnostics list holds exactly the flagged rows: each entry is the
   * 1-based position of a flagged row with that row's message, positions
   * strictly increase, and every flagged row has an entry.
   */
  lemma DiagnosticsExact(rows: seq<seq<string>>, check: (seq<string>, nat) -> (bool, string))
    ensures forall k :: 0 <= k < |Diagnostics(rows, check)| ==>
      1 <= Diagnostics(rows, check)[k].0 <= |rows|
      && check(rows[Diagnostics(rows, check)[k].0 - 1], Diagnostics(rows, check)[k].0) == (true, Diagnostics(rows, check)[k].1)
    ensures forall k, l :: 0 <= k < l < |Diagnostics(rows, check)| ==>
      Diagnostics(rows, check)[k].0 < Diagnostics(rows, check)[l].0
    ensures forall i :: 0 <= i < |rows| && check(rows[i], i + 1).0 ==> i + 1 in Firsts(Diagnostics(rows, check))
  {
    var vs, d := Verdicts(rows, check), Diagnostics(rows, check);
    forall k | 0 <= k < |d|
      ensures 1 <= d[k].0 <= |rows| && check(rows[d[k].0 - 1], d[k].0) == (true, d[k].1)
    {
      DiagnosticAt(rows, check, k);
    }
    forall k, l | 0 <= k < l < |d|
      ensures d[k].0 < d[l].0
    {
      CollectOrdered(vs, k, l);
    }
    forall i | 0 <= i < |rows| && check(rows[i], i + 1).0
      ensures i + 1 in Firsts(d)
    {
      VerdictAt(rows, check, i + 1);
      CollectComplete(vs, i);
    }
  }

  /** With is_row_corrupted as the check, the flagged rows are exactly the malformed ones. */
  lemma FlaggedIffMalformed(row: seq<string>, rowNumber: nat)
    ensures RowCheck(row, rowNumber).0 <==> !WellFormed(row)
  {
  }

  /** check_for_corrupted_rows on rows already read: one (position, message) pair per corrupted row. */
  method CheckForCorruptedRows(rows: seq<seq<string>>) returns (corrupted: seq<(nat, string)>)
    ensures corrupted == Diagnostics(rows, RowCheck)
  {
    corrupted := [];
    var i := 0;
    while i < |rows|
      invariant 0 <= i <= |rows|
      invariant corrupted == Collect(Verdicts(rows, RowCheck)[..i])
    {
      var rowNumber := i + 1;
      var (isCorrupted, message) := IsRowCorrupted(rows[i], Some(rowNumber));
      CollectStep(Verdicts(rows, RowCheck), i);
      if isCorrupted {
        corrupted := corrupted + [(rowNumber, message)];
      }
      i := i + 1;
    }
    assert Verdicts(rows, RowCheck)[..i] == Verdicts(rows, RowCheck);
  }

  // ----- create_total_hours_csv -----

  /**
   * What the summary of a set of rows is: one entry per approved name, sorted by
   * name with no repeats, each carrying the approved total of that name.
   */
  ghost predicate IsSummaryOf(summary: seq<(string, real)>, rows: seq<seq<string>>)
  {
    && StrictlySorted(Firsts(summary))
    && (forall n :: n in Firsts(summary) <==> n in Names(rows, ApprovedOnly))
    && (forall k :: 0 <= k < |summary| ==> summary[k].1 == Total(rows, summary[k].0, ApprovedOnly))
  }

  /** The smallest string of a non-empty set. */
  method Least(s: set<string>) returns (m: string)
    requires s != {}
    ensures m in s
    ensures forall x :: x in s && x != m ==> Less(m, x)
  {
    m :| m in s;
    var rest := s - {m};
    while rest != {}
      invariant rest <= s && m in s && m !in rest
      invariant forall x :: x in s && x !in rest && x != m ==> Less(m, x)
      decreases rest
    {
      var y :| y in rest;
      if Less(y, m) {
        forall x | x in s && x !in rest && x != m
          ensures Less(y, x)
        {
          LessTransitive(y, m, x);
        }
        m := y;
      } else if y != m {
        LessTotal(m, y);
      }
      rest := rest - {y};
    }
  }

  /** sorted() on the keys of a dictionary: every key once, in increasing order. */
  method SortedKeys(keys: set<string>) returns (sorted: seq<string>)
    ensures StrictlySorted(sorted)
    ensures forall x :: x in sorted <==> x in keys
  {
    sorted := [];
    var remaining := keys;
    while remaining != {}
      invariant remaining <= keys
      invariant forall x :: x in keys <==> x in sorted || x in remaining
      invariant StrictlySorted(sorted)
      invariant forall i, y :: 0 <= i < |sorted| && y in remaining ==> Less(sorted[i], y)
      decreases remaining
    {
      var m := Least(remaining);
      sorted := sorted + [m];
      remaining := remaining - {m};
    }
  }

  /** The dictionary the loop of create_total_hours_csv builds, row by row. */
  function HoursByName(rows: seq<seq<string>>, t: Tally): map<string, real>
  {
    if rows == [] then map[]
    else
      var m, last := HoursByName(rows[..|rows| - 1], t), rows[|rows| - 1];
      if Included(last, t) then AddHoursTo(m, Trim(last[0]), HoursOf(last)) else m
  }

  /** The dictionary after adding hours under a name, which starts at 0.0 when absent. */
  function AddHoursTo(m: map<string, real>, name: string, hours: real): (r: map<string, real>)
    ensures r.Keys == m.Keys + {name}
    ensures r[name] == (if name in m then m[name] else 0.0) + hours
    ensures forall n :: n in m && n != name ==> r[n] == m[n]
  {
    m[name := (if name in m then m[name] else 0.0) + hours]
  }

  /** One more row changes the dictionary only under that row's trimmed name, and only if it counts. */
  lemma HoursByNameStep(rows: seq<seq<string>>, i: nat, t: Tally, counted: bool, name: string, hours: real)
    requires i < |rows|
    requires counted <==> Included(rows[i], t)
    requires counted ==> name == Trim(rows[i][0]) && hours == HoursOf(rows[i])
    ensures HoursByName(rows[..i + 1], t) ==
      if counted then AddHoursTo(HoursByName(rows[..i], t), name, hours) else HoursByName(rows[..i], t)
  {
    assert rows[..i + 1][..i] == rows[..i];
  }

  /** The dictionary has one key per counted name, holding that name's total. */
  lemma {:induction false} HoursByNameIsFold(rows: seq<seq<string>>, t: Tally)
    ensures HoursByName(rows, t).Keys == Names(rows, t)
    ensures forall n :: n in HoursByName(rows, t) ==> HoursByName(rows, t)[n] == Total(rows, n, t)
  {
    if rows != [] {
      var prefix, last := rows[..|rows| - 1], rows[|rows| - 1];
      HoursByNameIsFold(prefix, t);
      assert prefix + [last] == rows;
      FoldStep(prefix, last, t);
      if Included(last, t) && Trim(last[0]) !in HoursByName(prefix, t) {
        TotalOfAbsentName(prefix, Trim(last[0]), t);
      }
    }
  }

  /**
   * The body of both loops over the rows for one row: a row that is not
   * corrupted counts, with its stripped name and its hours; for the summary
   * its stripped, lower-cased status must also be "true".
   */
  method CountedRow(row: seq<string>, rowNumber: nat, t: Tally) returns (counted: bool, name: string, hours: real)
    ensures counted <==> Included(row, t)
    ensures counted ==> name == Trim(row[0]) && hours == HoursOf(row)
  {
    counted, name, hours := false, "", 0.0;
    var (isCorrupted, _) := IsRowCorrupted(row, Some(rowNumber));
    if !isCorrupted && |row| >= 4 {
      name := Trim(row[0]);
      hours := ParseDecimal(Trim(row[2])).value;
      if t == ApprovedOnly {
        var status := Lower(Trim(row[3]));
        EqualsIgnoringCaseIsLower(Trim(row[3]), "true");
        counted := status == "true";
      } else {
        counted := true;
      }
    }
  }

  /** Reads row i of the loop and says how it changes the dictionary of totals. */
  method NextRow(rows: seq<seq<string>>, i: nat, t: Tally) returns (counted: bool, name: string, hours: real)
    requires i < |rows|
    ensures HoursByName(rows[..i + 1], t) ==
      if counted then AddHoursTo(HoursByName(rows[..i], t), name, hours) else HoursByName(rows[..i], t)
  {
    counted, name, hours := CountedRow(rows[i], i + 1, t);
    HoursByNameStep(rows, i, t, counted, name, hours);
  }

  /**
   * The aggregation of create_total_hours_csv: corrupted rows are skipped, the
   * hours of rows whose status case-folds to "true" are added up per trimmed
   * name, and the totals are emitted sorted by name.
   */
  method CreateTotalHours(rows: seq<seq<string>>) returns (summary: seq<(string, real)>)
    ensures IsSummaryOf(summary, rows)
  {
    var studentHours: map<string, real> := map[];
    var i := 0;
    while i < |rows|
      invariant 0 <= i <= |rows|
      invariant studentHours == HoursByName(rows[..i], ApprovedOnly)
    {
      var counted, name, hours := NextRow(rows, i, ApprovedOnly);
      if counted {
        ghost var before := studentHours;
        if name !in studentHours {
          studentHours := studentHours[name := 0.0];
        }
        studentHours := studentHours[name := studentHours[name] + hours];
        assert studentHours == AddHoursTo(before, name, hours);
      }
      i := i + 1;
    }
    assert rows[..i] == rows;
    HoursByNameIsFold(rows, ApprovedOnly);
    var names := SortedKeys(studentHours.Keys);
    summary := seq(|names|, k requires 0 <= k < |names| => (names[k], studentHours[names[k]]));
    assert Firsts(summary) == names;
  }

  /** Two strictly sorted sequences with the same elements are the same sequence. */
  lemma {:induction false} SortedSameElements(a: seq<string>, b: seq<string>)
    requires StrictlySorted(a) && StrictlySorted(b)
    requires forall x :: x in a <==> x in b
    ensures a == b
  {
    if a != [] {
      assert a[0] in b;
    }
    if b != [] {
      assert b[0] in a;
    }
    if a != [] && b != [] {
      if a[0] != b[0] {
        var i :| 0 <= i < |a| && a[i] == b[0];
        var j :| 0 <= j < |b| && b[j] == a[0];
        assert Less(a[0], b[0]) && Less(b[0], a[0]);
        LessTransitive(a[0], b[0], a[0]);
        LessIrreflexive(a[0]);
      }
      LessIrreflexive(a[0]);
      forall x | x in a[1..] ensures x in b[1..] {
        var i :| 1 <= i < |a| && a[i] == x;
        assert Less(a[0], x) && x in a;
        var j :| 0 <= j < |b| && b[j] == x;
        assert j != 0;
        assert b[1..][j - 1] == x;
      }
      forall x | x in b[1..] ensures x in a[1..] {
        var j :| 1 <= j < |b| && b[j] == x;
        assert Less(b[0], x) && x in b;
        var i :| 0 <= i < |a| && a[i] == x;
        assert i != 0;
        assert a[1..][i - 1] == x;
      }
      SortedSameElements(a[1..], b[1..]);
      assert a == [a[0]] + a[1..] && b == [b[0]] + b[1..];
    }
  }

  /** Aggregating the same rows twice yields identical summaries. */
  lemma SummaryUnique(s1: seq<(string, real)>, s2: seq<(string, real)>, rows: seq<seq<string>>)
    requires IsSummaryOf(s1, rows) && IsSummaryOf(s2, rows)
    ensures s1 == s2
  {
    SortedSameElements(Firsts(s1), Firsts(s2));
    assert forall k :: 0 <= k < |s1| ==> s1[k].0 == Firsts(s1)[k] == Firsts(s2)[k] == s2[k].0;
  }

  /** The summary of a set of rows is also the summary of any reordering of them. */
  lemma SummaryOrderIndependent(summary: seq<(string, real)>, a: seq<seq<string>>, b: seq<seq<string>>)
    requires IsSummaryOf(summary, a)
    requires multiset(a) == multiset(b)
    ensures IsSummaryOf(summary, b)
  {
    NamesPermutation(a, b, ApprovedOnly);
    forall k | 0 <= k < |summary|
      ensures summary[k].1 == Total(b, summary[k].0, ApprovedOnly)
    {
      TotalPermutation(a, b, summary[k].0, ApprovedOnly);
    }
  }

  // ----- get_student_total_hours -----

  /** A summary row names the student, ignoring case (the stored name is trimmed first). */
  predicate SameStudent(stored: string, studentName: string)
  {
    Lower(Trim(stored)) == Lower(studentName)
  }

  /** Entry k is the first summary row that names the student. */
  predicate IsFirstMatch(summary: seq<(string, real)>, studentName: string, k: nat)
  {
    k < |summary| && SameStudent(summary[k].0, studentName)
    && forall j :: 0 <= j < k ==> !SameStudent(summary[j].0, studentName)
  }

  /** The total of the first summary row naming the student, or 0.0 when there is none. */
  method StudentTotalHours(summary: seq<(string, real)>, studentName: string) returns (hours: real)
    ensures (exists k: nat :: IsFirstMatch(summary, studentName, k) && hours == summary[k].1)
         || ((forall k :: 0 <= k < |summary| ==> !SameStudent(summary[k].0, studentName)) && hours == 0.0)
  {
    var i := 0;
    while i < |summary|
      invariant 0 <= i <= |summary|
      invariant forall j :: 0 <= j < i ==> !SameStudent(summary[j].0, studentName)
    {
      var name := Trim(summary[i].0);
      if Lower(name) == Lower(studentName) {
        assert IsFirstMatch(summary, studentName, i);
        return summary[i].1;
      }
      i := i + 1;
    }
    return 0.0;
  }

  /** At most one summary row is the first one naming a student, so the lookup is deterministic. */
  lemma FirstMatchUnique(summary: seq<(string, real)>, studentName: string, k: nat, m: nat)
    requires IsFirstMatch(summary, studentName, k) && IsFirstMatch(summary, studentName, m)
    ensures k == m
  {
  }

  /**
   * With "Ann" and "ann" as two summary rows, a lookup of "ann" matches the
   * first of them, so it answers with the hours of "Ann".
   */
  lemma ExampleLookupTakesFirst()
    ensures IsFirstMatch([("Ann", 2.0), ("ann", 3.0)], "ann", 0)
  {
    var summary := [("Ann", 2.0), ("ann", 3.0)];
    assert Trim("Ann") == "Ann" by {
      assert LeadingSpaces("Ann") == 0;
      assert TrailingSpaces("Ann") == 0;
    }
    assert Lower("Ann") == "ann";
    assert Lower("ann") == "ann";
  }

  // ----- Dictionary keys keep case -----

  /**
   * The dictionary key is the trimmed name as written: two counted rows whose
   * trimmed names differ, even only in case ("Ann" and "ann"), give two keys
   * with a total each.
   */
  lemma {:induction false} CaseVariantsKeptApart(a: seq<string>, b: seq<string>, t: Tally)
    requires Included(a, t) && Included(b, t) && Trim(a[0]) != Trim(b[0])
    ensures Names([a, b], t) == {Trim(a[0]), Trim(b[0])}
    ensures Total([a, b], Trim(a[0]), t) == HoursOf(a)
    ensures Total([a, b], Trim(b[0]), t) == HoursOf(b)
  {
    var na, nb := Trim(a[0]), Trim(b[0]);
    FoldStep([], a, t);
    assert [] + [a] == [a];
    assert Names([a], t) == {na} && Total([a], na, t) == HoursOf(a) && Total([a], nb, t) == 0.0;
    FoldStep([a], b, t);
    assert [a] + [b] == [a, b];
  }

  // ----- Student and the module-level tally -----

  /** A student with a running total of hours. */
  class Student {
    const name: string
    var totalHours: real

    constructor (name: string)
      ensures this.name == name && totalHours == 0.0
    {
      this.name := name;
      totalHours := 0.0;
    }

    method AddHours(hours: real)
      modifies this
      ensures totalHours == old(totalHours) + hours
    {
      totalHours := totalHours + hours;
    }
  }

  /**
   * The module-level loop of school.py: every valid row, approved or not, adds
   * its hours to the Student object kept under its trimmed name.
   */
  method TallyStudents(rows: seq<seq<string>>) returns (students: map<string, Student>)
    ensures students.Keys == Names(rows, AllValid)
    ensures forall n :: n in students ==>
      fresh(students[n]) && students[n].name == n && students[n].totalHours == Total(rows, n, AllValid)
    ensures forall a, b :: a in students && b in students && a != b ==> students[a] != students[b]
  {
    students := map[];
    var i := 0;
    while i < |rows|
      invariant 0 <= i <= |rows|
      invariant students.Keys == HoursByName(rows[..i], AllValid).Keys
      invariant forall n :: n in students ==>
        fresh(students[n]) && students[n].name == n && students[n].totalHours == HoursByName(rows[..i], AllValid)[n]
      invariant forall a, b :: a in students && b in students && a != b ==> students[a] != students[b]
    {
      var counted, name, hours := NextRow(rows, i, AllValid);
      if counted {
        students := Credit(students, name, hours);
      }
      i := i + 1;
    }
    assert rows[..i] == rows;
    HoursByNameIsFold(rows, AllValid);
  }

  /**
   * One valid row of the module-level loop: the Student kept under the name is
   * created with zero hours if there is none yet, and then gets the hours added.
   */
  method Credit(students: map<string, Student>, name: string, hours: real) returns (r: map<string, Student>)
    requires forall a, b :: a in students && b in students && a != b ==> students[a] != students[b]
    modifies if name in students then {students[name]} else {}
    ensures r.Keys == students.Keys + {name}
    ensures forall n :: n in students && n != name ==> r[n] == students[n]
    ensures name in students ==> r[name] == students[name] && r[name].totalHours == old(students[name].totalHours) + hours
    ensures name !in students ==> fresh(r[name]) && r[name].name == name && r[name].totalHours == hours
    ensures forall a, b :: a in r && b in r && a != b ==> r[a] != r[b]
  {
    r := students;
    if name !in r {
      var student := new Student(name);
      r := r[name := student];
    }
    r[name].AddHours(hours);
  }
}
