/**
 * The `daily_temperatures` table (primary key `date`) and its service:
 * insert-or-ignore, the rows in date order, by year, by inclusive date
 * range, the latest date and the row count.
 *
 * The table is held as its rows in insertion order; `UniqueDates` is the
 * primary-key constraint. Dates compare as text (`Lex`).
 */
module DailyTemperatures {
  import opened Wrappers
  import opened Seqs
  import Lex

  datatype DailyTemperature = DailyTemperature(
    date: string, highTemperature: int, colorName: string, colorHex: string, year: int)

  /** A row to insert. `year` is None when the caller's number is NaN, which
      the store binds as NULL. */
  datatype DailyTemperatureInsert = DailyTemperatureInsert(
    date: string, highTemperature: int, colorName: string, colorHex: string, year: Option<int>)

  datatype DatabaseStats = DatabaseStats(total: nat, latest: Option<string>)

  /** The primary-key constraint on `date`. */
  predicate UniqueDates(rows: seq<DailyTemperature>)
  {
    forall i, j :: 0 <= i < j < |rows| ==> rows[i].date != rows[j].date
  }

  /** The row stored under `date`, if any. */
  function Lookup(rows: seq<DailyTemperature>, date: string): (r: Option<DailyTemperature>)
    ensures r.Some? ==> r.value in rows && r.value.date == date
    ensures r.None? <==> forall x :: x in rows ==> x.date != date
    decreases |rows|
  {
    if rows == [] then None
    else if rows[0].date == date then Some(rows[0])
    else
      assert forall x :: x in rows ==> x == rows[0] || x in rows[1..];
      Lookup(rows[1..], date)
  }

  lemma {:induction false} LookupAppend(rows: seq<DailyTemperature>, x: DailyTemperature, date: string)
    ensures Lookup(rows + [x], date)
      == if Lookup(rows, date).Some? then Lookup(rows, date)
         else if x.date == date then Some(x) else None
    decreases |rows|
  {
    if rows != [] {
      assert (rows + [x])[1..] == rows[1..] + [x];
      LookupAppend(rows[1..], x, date);
    }
  }

  function Stored(record: DailyTemperatureInsert): DailyTemperature
    requires record.year.Some?
  {
    DailyTemperature(record.date, record.highTemperature, record.colorName, record.colorHex, record.year.value)
  }

  // ----------------------------------------------------------------- insert

  /** `insert(record)` as `INSERT OR IGNORE`: the row is added, and true
      returned, exactly when its date is not yet stored and its year is not
      NULL; otherwise nothing changes and false is returned. */
  function InsertOrIgnore(rows: seq<DailyTemperature>, record: DailyTemperatureInsert): (res: (seq<DailyTemperature>, bool))
    ensures res.1 <==> record.year.Some? && Lookup(rows, record.date).None?
    ensures Lookup(res.0, record.date) == if res.1 then Some(Stored(record)) else Lookup(rows, record.date)
    ensures forall d :: d != record.date ==> Lookup(res.0, d) == Lookup(rows, d)
    ensures |res.0| == |rows| + (if res.1 then 1 else 0) && res.0[..|rows|] == rows
    ensures UniqueDates(rows) ==> UniqueDates(res.0)
  {
    if record.year.Some? && Lookup(rows, record.date).None? then
      var x := Stored(record);
      LookupAppend(rows, x, record.date);
      assert forall d :: d != record.date ==> Lookup(rows + [x], d) == Lookup(rows, d) by {
        forall d | d != record.date ensures Lookup(rows + [x], d) == Lookup(rows, d) {
          LookupAppend(rows, x, d);
        }
      }
      assert forall i :: 0 <= i < |rows| ==> rows[i] in rows;
      (rows + [x], true)
    else
      (rows, false)
  }

  class DailyTable {
    var rows: seq<DailyTemperature>

    ghost predicate Valid()
      reads this
    {
      UniqueDates(rows)
    }

    /** A freshly created, empty table. */
    constructor ()
      ensures Valid() && rows == []
    {
      rows := [];
    }

    /** `insert(record)`: reports whether a row was added. */
    method Insert(record: DailyTemperatureInsert) returns (added: bool)
      requires Valid()
      modifies this
      ensures Valid()
      ensures (rows, added) == InsertOrIgnore(old(rows), record)
    {
      var existing := Lookup(rows, record.date);
      if record.year.None? || existing.Some? {
        // ignored: the NOT NULL constraint on `year` or the primary key
        added := false;
      } else {
        rows := rows + [Stored(record)];
        added := true;
      }
    }
  }

  // ---------------------------------------------------------- ORDER BY date

  predicate AscendingByDate(rows: seq<DailyTemperature>)
  {
    forall i, j :: 0 <= i < j < |rows| ==> Lex.LessEq(rows[i].date, rows[j].date)
  }

  predicate StrictlyAscendingByDate(rows: seq<DailyTemperature>)
  {
    forall i, j :: 0 <= i < j < |rows| ==> Lex.Less(rows[i].date, rows[j].date)
  }

  lemma HeadBeforeInsert(h: DailyTemperature, x: DailyTemperature, rest: seq<DailyTemperature>, tail: seq<DailyTemperature>)
    requires AscendingByDate([h] + rest) && Lex.LessEq(h.date, x.date)
    requires AscendingByDate(tail) && multiset(tail) == multiset(rest) + multiset{x}
    ensures AscendingByDate([h] + tail)
  {
    forall k | 0 <= k < |tail| ensures Lex.LessEq(h.date, tail[k].date) {
      assert tail[k] in multiset(tail);
      if tail[k] != x {
        assert tail[k] in multiset(rest);
        var j :| 0 <= j < |rest| && rest[j] == tail[k];
        assert ([h] + rest)[0] == h && ([h] + rest)[j + 1] == rest[j];
      }
    }
  }

  lemma NewHeadBeforeAll(x: DailyTemperature, rows: seq<DailyTemperature>)
    requires AscendingByDate(rows) && rows != [] && Lex.Less(x.date, rows[0].date)
    ensures AscendingByDate([x] + rows)
  {
    forall k | 0 <= k < |rows| ensures Lex.LessEq(x.date, rows[k].date) {
      if k > 0 {
        Lex.LessEqTransitive(x.date, rows[0].date, rows[k].date);
      }
    }
  }

  /** Places `x` after every row whose date is not later. */
  function InsertByDate(x: DailyTemperature, rows: seq<DailyTemperature>): (r: seq<DailyTemperature>)
    requires AscendingByDate(rows)
    ensures AscendingByDate(r)
    ensures multiset(r) == multiset(rows) + multiset{x}
    decreases |rows|
  {
    if rows == [] then [x]
    else if Lex.Less(x.date, rows[0].date) then
      NewHeadBeforeAll(x, rows);
      [x] + rows
    else
      var tail := InsertByDate(x, rows[1..]);
      assert rows == [rows[0]] + rows[1..];
      Lex.LessTrichotomy(x.date, rows[0].date);
      HeadBeforeInsert(rows[0], x, rows[1..], tail);
      [rows[0]] + tail
  }

  /** `ORDER BY date`: the same rows, ascending by date. */
  function OrderByDate(rows: seq<DailyTemperature>): (r: seq<DailyTemperature>)
    ensures AscendingByDate(r)
    ensures multiset(r) == multiset(rows)
    decreases |rows|
  {
    if rows == [] then []
    else
      assert rows == rows[..|rows| - 1] + [rows[|rows| - 1]];
      InsertByDate(rows[|rows| - 1], OrderByDate(rows[..|rows| - 1]))
  }

  /** Removing one row keeps dates unique, and no remaining row shares its date. */
  lemma UniqueWithout(a: seq<DailyTemperature>, k: nat)
    requires UniqueDates(a) && k < |a|
    ensures UniqueDates(a[..k] + a[k + 1..])
    ensures forall y :: y in a[..k] + a[k + 1..] ==> y.date != a[k].date
  {
    var a' := a[..k] + a[k + 1..];
    forall i, j | 0 <= i < j < |a'| ensures a'[i].date != a'[j].date {
      var i0 := if i < k then i else i + 1;
      var j0 := if j < k then j else j + 1;
      assert a'[i] == a[i0] && a'[j] == a[j0];
    }
    forall y | y in a' ensures y.date != a[k].date {
      var m :| 0 <= m < |a'| && a'[m] == y;
      var m0 := if m < k then m else m + 1;
      assert a[m0] == a'[m];
    }
  }

  lemma SubMultisetWithoutLast<T>(a: seq<T>, b: seq<T>, k: nat)
    requires multiset(b) <= multiset(a) && b != [] && k < |a| && a[k] == b[|b| - 1]
    ensures multiset(b[..|b| - 1]) <= multiset(a[..k] + a[k + 1..])
  {
    var b', a' := b[..|b| - 1], a[..k] + a[k + 1..];
    assert b == b' + [a[k]];
    assert a == a[..k] + [a[k]] + a[k + 1..];
    assert multiset(b) == multiset(b') + multiset{a[k]};
    assert multiset(a) == multiset(a') + multiset{a[k]};
    forall y ensures multiset(b')[y] <= multiset(a')[y] {
      assert multiset(b)[y] <= multiset(a)[y];
    }
  }

  /** Rows drawn from a table with unique dates have unique dates too. */
  lemma {:induction false} UniqueDatesOfSubset(a: seq<DailyTemperature>, b: seq<DailyTemperature>)
    requires UniqueDates(a) && multiset(b) <= multiset(a)
    ensures UniqueDates(b)
    decreases |b|
  {
    if b != [] {
      var b' := b[..|b| - 1];
      var x := b[|b| - 1];
      assert b == b' + [x];
      assert x in multiset(a);
      var k :| 0 <= k < |a| && a[k] == x;
      var a' := a[..k] + a[k + 1..];
      UniqueWithout(a, k);
      SubMultisetWithoutLast(a, b, k);
      UniqueDatesOfSubset(a', b');
      forall i | 0 <= i < |b'| ensures b'[i].date != x.date {
        assert b'[i] in multiset(a');
      }
    }
  }

  /** A date-ordered listing with unique dates is strictly ascending. */
  lemma StrictWhenUnique(rows: seq<DailyTemperature>)
    requires AscendingByDate(rows) && UniqueDates(rows)
    ensures StrictlyAscendingByDate(rows)
  {
  }

  // ---------------------------------------------------------------- queries

  /** `getAll()`: every row, ascending by date. */
  function GetAll(rows: seq<DailyTemperature>): (r: seq<DailyTemperature>)
    ensures multiset(r) == multiset(rows)
    ensures AscendingByDate(r)
    ensures UniqueDates(rows) ==> StrictlyAscendingByDate(r)
  {
    var r := OrderByDate(rows);
    if UniqueDates(rows) then
      UniqueDatesOfSubset(rows, r);
      r
    else r
  }

  /** `getByYear(year)`: exactly the rows of that year, ascending by date. */
  function GetByYear(rows: seq<DailyTemperature>, year: int): (r: seq<DailyTemperature>)
    ensures forall x :: x in r <==> x in rows && x.year == year
    ensures AscendingByDate(r)
    ensures UniqueDates(rows) ==> StrictlyAscendingByDate(r)
  {
    var matching := Filter(rows, (x: DailyTemperature) => x.year == year);
    var r := OrderByDate(matching);
    assert forall x :: x in r <==> x in matching by {
      forall x ensures x in r <==> x in matching {
        assert x in r <==> x in multiset(r);
      }
    }
    if UniqueDates(rows) then
      UniqueDatesOfSubset(rows, r);
      r
    else r
  }

  /** `getByDateRange(start, end)`: exactly the rows with
      `start <= date <= end` as text, ascending by date. */
  function GetByDateRange(rows: seq<DailyTemperature>, start: string, end: string): (r: seq<DailyTemperature>)
    ensures forall x :: x in r <==> x in rows && Lex.LessEq(start, x.date) && Lex.LessEq(x.date, end)
    ensures AscendingByDate(r)
    ensures UniqueDates(rows) ==> StrictlyAscendingByDate(r)
  {
    var matching := Filter(rows, (x: DailyTemperature) => Lex.LessEq(start, x.date) && Lex.LessEq(x.date, end));
    var r := OrderByDate(matching);
    assert forall x :: x in r <==> x in matching by {
      forall x ensures x in r <==> x in matching {
        assert x in r <==> x in multiset(r);
      }
    }
    if UniqueDates(rows) then
      UniqueDatesOfSubset(rows, r);
      r
    else r
  }

  /** `getLastRecordedDate()`: `MAX(date)`, or None for an empty table. */
  function LastRecordedDate(rows: seq<DailyTemperature>): (d: Option<string>)
    ensures d.None? <==> rows == []
    ensures d.Some? ==> Lookup(rows, d.value).Some?
    ensures d.Some? ==> forall x :: x in rows ==> Lex.LessEq(x.date, d.value)
    decreases |rows|
  {
    if rows == [] then None
    else
      var rest := LastRecordedDate(rows[1..]);
      assert forall x :: x in rows ==> x == rows[0] || x in rows[1..];
      match rest
      case None => Some(rows[0].date)
      case Some(m) =>
        if Lex.Less(m, rows[0].date) then
          assert forall x :: x in rows[1..] ==> Lex.LessEq(x.date, rows[0].date) by {
            forall x | x in rows[1..] ensures Lex.LessEq(x.date, rows[0].date) {
              Lex.LessEqTransitive(x.date, m, rows[0].date);
            }
          }
          Some(rows[0].date)
        else
          Lex.LessTrichotomy(m, rows[0].date);
          Some(m)
  }

  /** `getStats()`: the row count and the latest date. */
  function GetStats(rows: seq<DailyTemperature>): (s: DatabaseStats)
    ensures s.total == |rows|
    ensures s.latest == LastRecordedDate(rows)
  {
    DatabaseStats(|rows|, LastRecordedDate(rows))
  }

  /** An insert that adds a row raises the count by one and makes the latest
      date the later of the old latest and the new date; an ignored insert
      leaves the statistics alone. */
  lemma StatsAfterInsert(rows: seq<DailyTemperature>, record: DailyTemperatureInsert)
    ensures var (after, added) := InsertOrIgnore(rows, record);
      && GetStats(after).total == GetStats(rows).total + (if added then 1 else 0)
      && GetStats(after).latest
         == if !added then LastRecordedDate(rows)
            else if rows != [] && Lex.Less(record.date, LastRecordedDate(rows).value) then LastRecordedDate(rows)
            else Some(record.date)
  {
    var (after, added) := InsertOrIgnore(rows, record);
    if added {
      var latest := LastRecordedDate(after).value;
      assert Stored(record) in after;
      assert Lex.LessEq(record.date, latest);
      var y := Lookup(after, latest).value;
      if rows != [] {
        var old_ := LastRecordedDate(rows).value;
        assert rows[..] == after[..|rows|];
        assert Lookup(rows, old_).value in after;
        assert Lex.LessEq(old_, latest);
        assert old_ != record.date;
        if y in rows {
          Lex.LessEqAntisymmetric(old_, latest);
        } else {
          assert y == Stored(record) by {
            var k :| 0 <= k < |after| && after[k] == y;
            if k < |rows| {
              assert after[k] == rows[k];
            }
          }
          assert !Lex.Less(record.date, old_) by {
            Lex.LessIrreflexive(record.date);
            if Lex.Less(old_, record.date) {
              Lex.LessAsymmetric(old_, record.date);
            }
          }
        }
      } else {
        assert after == [Stored(record)];
      }
    }
  }
}
