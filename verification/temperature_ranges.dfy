/**
 * The `temperature_ranges` table and its service: the rows in display order,
 * the colour for a temperature (first containing range by display order, or
 * the fallback colour), and seeding an empty table inside one transaction.
 */
module TemperatureRanges {
  import opened Seqs

  /** A stored row; `id` is assigned by the table on insert. */
  datatype TemperatureRange = TemperatureRange(
    id: int, minTemp: int, maxTemp: int, colorName: string, colorHex: string, displayOrder: int)

  /** A row to insert: every column but `id`. */
  datatype TemperatureRangeInsert = TemperatureRangeInsert(
    minTemp: int, maxTemp: int, colorName: string, colorHex: string, displayOrder: int)

  datatype ColorMapping = ColorMapping(colorName: string, colorHex: string)

  /** What the resolver answers when no range contains the temperature. */
  const Fallback := ColorMapping("Unknown", "#000000")

  /** The inclusive test `? >= min_temp AND ? <= max_temp`. */
  predicate Contains(r: TemperatureRange, t: int)
  {
    r.minTemp <= t <= r.maxTemp
  }

  function ColorOf(r: TemperatureRange): ColorMapping
  {
    ColorMapping(r.colorName, r.colorHex)
  }

  // ------------------------------------------------ ORDER BY display_order

  predicate ByDisplayOrder(rows: seq<TemperatureRange>)
  {
    forall i, j :: 0 <= i < j < |rows| ==> rows[i].displayOrder <= rows[j].displayOrder
  }

  /** Places `x` after every row whose display order is not greater. */
  function InsertByDisplayOrder(x: TemperatureRange, rows: seq<TemperatureRange>): (r: seq<TemperatureRange>)
    requires ByDisplayOrder(rows)
    ensures ByDisplayOrder(r)
    ensures multiset(r) == multiset(rows) + multiset{x}
    decreases |rows|
  {
    if rows == [] || x.displayOrder < rows[0].displayOrder then [x] + rows
    else
      var tail := InsertByDisplayOrder(x, rows[1..]);
      assert rows == [rows[0]] + rows[1..];
      HeadBelowInsert(rows[0], x, rows[1..], tail);
      [rows[0]] + tail
  }

  lemma HeadBelowInsert(h: TemperatureRange, x: TemperatureRange, rest: seq<TemperatureRange>, tail: seq<TemperatureRange>)
    requires ByDisplayOrder([h] + rest) && h.displayOrder <= x.displayOrder
    requires ByDisplayOrder(tail) && multiset(tail) == multiset(rest) + multiset{x}
    ensures ByDisplayOrder([h] + tail)
  {
    forall k | 0 <= k < |tail| ensures h.displayOrder <= tail[k].displayOrder {
      assert tail[k] in multiset(tail);
      if tail[k] != x {
        assert tail[k] in multiset(rest);
        var j :| 0 <= j < |rest| && rest[j] == tail[k];
        assert ([h] + rest)[0] == h && ([h] + rest)[j + 1] == rest[j];
      }
    }
  }

  /** `ORDER BY display_order`: the same rows, ascending by display order. */
  function OrderByDisplayOrder(rows: seq<TemperatureRange>): (r: seq<TemperatureRange>)
    ensures ByDisplayOrder(r)
    ensures multiset(r) == multiset(rows)
    decreases |rows|
  {
    if rows == [] then []
    else
      assert rows == rows[..|rows| - 1] + [rows[|rows| - 1]];
      InsertByDisplayOrder(rows[|rows| - 1], OrderByDisplayOrder(rows[..|rows| - 1]))
  }

  // ------------------------------------------------- getColorForTemperature

  /** `r` is a range of the table that contains `t` and no containing range
      has a smaller display order. */
  ghost predicate IsFirstMatch(rows: seq<TemperatureRange>, t: int, r: TemperatureRange)
  {
    && r in rows
    && Contains(r, t)
    && forall r' :: r' in rows && Contains(r', t) ==> r.displayOrder <= r'.displayOrder
  }

  lemma SameElements(a: seq<TemperatureRange>, b: seq<TemperatureRange>)
    requires multiset(a) == multiset(b)
    ensures forall r :: r in a <==> r in b
  {
    forall r ensures r in a <==> r in b {
      assert r in a <==> r in multiset(a);
      assert r in b <==> r in multiset(b);
    }
  }

  lemma HeadIsFirstMatch(rows: seq<TemperatureRange>, t: int, ordered: seq<TemperatureRange>)
    requires ordered == OrderByDisplayOrder(Filter(rows, r => Contains(r, t)))
    ensures ordered == [] <==> forall r :: r in rows ==> !Contains(r, t)
    ensures ordered != [] ==> IsFirstMatch(rows, t, ordered[0])
  {
    var matching := Filter(rows, r => Contains(r, t));
    SameElements(ordered, matching);
    assert forall r :: r in ordered <==> r in rows && Contains(r, t);
    if ordered != [] {
      assert ordered[0] in ordered;
      forall r' | r' in rows && Contains(r', t)
        ensures ordered[0].displayOrder <= r'.displayOrder
      {
        var k :| 0 <= k < |ordered| && ordered[k] == r';
      }
    }
  }

  /** `getColorForTemperature(t)`: the colour of the containing range with the
      smallest display order, or `Fallback` when no range contains `t`. */
  function ColorForTemperature(rows: seq<TemperatureRange>, t: int): (c: ColorMapping)
    ensures (exists r :: r in rows && Contains(r, t)) ==>
      exists r :: IsFirstMatch(rows, t, r) && c == ColorOf(r)
    ensures (forall r :: r in rows ==> !Contains(r, t)) ==> c == Fallback
  {
    var ordered := OrderByDisplayOrder(Filter(rows, r => Contains(r, t)));
    HeadIsFirstMatch(rows, t, ordered);
    if ordered == [] then Fallback else ColorOf(ordered[0])
  }

  /** When exactly one range contains `t`, its colour is the answer. */
  lemma ColorOfOnlyMatch(rows: seq<TemperatureRange>, t: int, i: int)
    requires 0 <= i < |rows| && Contains(rows[i], t)
    requires forall j :: 0 <= j < |rows| && Contains(rows[j], t) ==> rows[j] == rows[i]
    ensures ColorForTemperature(rows, t) == ColorOf(rows[i])
  {
    var c := ColorForTemperature(rows, t);
    assert rows[i] in rows;
    var r :| IsFirstMatch(rows, t, r) && c == ColorOf(r);
    var j :| 0 <= j < |rows| && rows[j] == r;
  }

  // ------------------------------------------------------------------ seed

  /** The row that inserting `r` creates under the autoincrement id `id`. */
  function RangeRow(id: int, r: TemperatureRangeInsert): TemperatureRange
  {
    TemperatureRange(id, r.minTemp, r.maxTemp, r.colorName, r.colorHex, r.displayOrder)
  }

  /** The rows that inserting `ranges` one by one into an empty table creates:
      the autoincrement ids run 1, 2, 3, ... */
  function Numbered(ranges: seq<TemperatureRangeInsert>): seq<TemperatureRange>
  {
    seq(|ranges|, i requires 0 <= i < |ranges| => RangeRow(i + 1, ranges[i]))
  }

  /** The `UNIQUE(min_temp, max_temp)` constraint. */
  predicate UniqueBands(rows: seq<TemperatureRange>)
  {
    forall i, j :: 0 <= i < j < |rows| ==> rows[i].minTemp != rows[j].minTemp || rows[i].maxTemp != rows[j].maxTemp
  }

  predicate HasBand(rows: seq<TemperatureRange>, minTemp: int, maxTemp: int)
  {
    exists i :: 0 <= i < |rows| && rows[i].minTemp == minTemp && rows[i].maxTemp == maxTemp
  }

  /** The table after `seed(ranges)`: unchanged unless it was empty; an empty
      table receives every range, unless two of them share a band, in which
      case the transaction rolls back. */
  function AfterSeed(rows: seq<TemperatureRange>, ranges: seq<TemperatureRangeInsert>): (r: seq<TemperatureRange>)
    ensures r == rows || r == Numbered(ranges)
    ensures UniqueBands(rows) ==> UniqueBands(r)
  {
    if rows != [] then rows
    else if UniqueBands(Numbered(ranges)) then Numbered(ranges)
    else rows
  }

  /** Seeding twice leaves the table as seeding once does. */
  lemma SeedIdempotent(rows: seq<TemperatureRange>, ranges: seq<TemperatureRangeInsert>)
    ensures AfterSeed(AfterSeed(rows, ranges), ranges) == AfterSeed(rows, ranges)
  {
  }

  /** How `seed` ends: it returns normally, or the transaction raised a
      UNIQUE violation at the insert with this index. */
  datatype SeedOutcome = Completed | UniqueConstraintFailed(index: nat)

  class RangeTable {
    var rows: seq<TemperatureRange>

    /** Ids are the autoincrement sequence 1..n and no band occurs twice. */
    ghost predicate Valid()
      reads this
    {
      && (forall i :: 0 <= i < |rows| ==> rows[i].id == i + 1)
      && UniqueBands(rows)
    }

    /** A freshly created, empty table. */
    constructor ()
      ensures Valid() && rows == []
    {
      rows := [];
    }

    /** `seed(ranges)`: counts the rows, and only when there are none inserts
        the ranges in order inside one transaction. */
    method Seed(ranges: seq<TemperatureRangeInsert>) returns (outcome: SeedOutcome)
      requires Valid()
      modifies this
      ensures Valid()
      ensures rows == AfterSeed(old(rows), ranges)
      ensures old(rows) != [] ==> outcome == Completed
      ensures old(rows) == [] && outcome == Completed ==>
        |rows| == |ranges| && forall i :: 0 <= i < |ranges| ==> rows[i] == RangeRow(i + 1, ranges[i])
      ensures outcome.UniqueConstraintFailed? <==> old(rows) == [] && !UniqueBands(Numbered(ranges))
      ensures outcome.UniqueConstraintFailed? ==>
        && outcome.index < |ranges|
        && UniqueBands(Numbered(ranges[..outcome.index]))
        && HasBand(Numbered(ranges[..outcome.index]), ranges[outcome.index].minTemp, ranges[outcome.index].maxTemp)
    {
      var count := |rows|;
      if count != 0 {
        return Completed;
      }
      var staged: seq<TemperatureRange> := [];
      var i := 0;
      while i < |ranges|
        invariant 0 <= i <= |ranges|
        invariant staged == Numbered(ranges[..i])
        invariant UniqueBands(staged)
      {
        var r := ranges[i];
        if HasBand(staged, r.minTemp, r.maxTemp) {
          // the insert fails; the transaction rolls back and `rows` stays empty
          var k :| 0 <= k < |staged| && staged[k].minTemp == r.minTemp && staged[k].maxTemp == r.maxTemp;
          assert Numbered(ranges)[k] == staged[k] && Numbered(ranges)[i] == RangeRow(i + 1, r);
          return UniqueConstraintFailed(i);
        }
        assert ranges[..i + 1] == ranges[..i] + [r];
        staged := staged + [RangeRow(i + 1, r)];
        i := i + 1;
      }
      assert ranges[..i] == ranges;
      rows := staged;
      outcome := Completed;
    }
  }
}
