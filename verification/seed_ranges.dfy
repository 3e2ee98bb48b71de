/**
 * The ten ranges the database is seeded with at start-up, and what they
 * guarantee: contiguous, non-overlapping bands that cover [-999, 999], so
 * the resolver never falls back inside that interval.
 */
module SeedRanges {
  import opened TemperatureRanges

  /** The list `seedTemperatureRanges` passes to `seed`, hottest first. */
  const SeedList: seq<TemperatureRangeInsert> := [
    TemperatureRangeInsert(100, 999, "Bright Orange", "#FF6600", 1),
    TemperatureRangeInsert(90, 99, "Yellow", "#FFD700", 2),
    TemperatureRangeInsert(79, 89, "Pink", "#FF69B4", 3),
    TemperatureRangeInsert(68, 78, "Turquoise", "#40E0D0", 4),
    TemperatureRangeInsert(55, 67, "Purple", "#800080", 5),
    TemperatureRangeInsert(45, 54, "Light Pink", "#FFB6C1", 6),
    TemperatureRangeInsert(34, 44, "Dark Green", "#006400", 7),
    TemperatureRangeInsert(22, 33, "Light Purple", "#9370DB", 8),
    TemperatureRangeInsert(1, 21, "Blue", "#0000FF", 9),
    TemperatureRangeInsert(-999, 0, "Light Blue", "#ADD8E6", 10)
  ]

  /** The rows of a table seeded from empty. */
  const SeededTable: seq<TemperatureRange> := Numbered(SeedList)

  /** Each band is non-empty and starts one degree above where the next one ends. */
  predicate Contiguous(rs: seq<TemperatureRangeInsert>)
  {
    && (forall i :: 0 <= i < |rs| ==> rs[i].minTemp <= rs[i].maxTemp)
    && (forall i :: 0 < i < |rs| ==> rs[i - 1].minTemp == rs[i].maxTemp + 1)
  }

  predicate InBand(r: TemperatureRangeInsert, t: int)
  {
    r.minTemp <= t <= r.maxTemp
  }

  lemma SeedListShape()
    ensures |SeedList| == 10 && Contiguous(SeedList)
    ensures SeedList[0].maxTemp == 999 && SeedList[9].minTemp == -999
    ensures forall i :: 0 <= i < |SeedList| ==> SeedList[i].displayOrder == i + 1
    ensures forall i :: 0 <= i < |SeedList| ==> SeedList[i].colorName != Fallback.colorName
  {
  }

  /** In a contiguous list, every later band lies wholly below every earlier one. */
  lemma {:induction false} ContiguousDescends(rs: seq<TemperatureRangeInsert>, i: int, j: int)
    requires Contiguous(rs) && 0 <= i < j < |rs|
    ensures rs[j].maxTemp < rs[i].minTemp
    decreases j - i
  {
    if i + 1 < j {
      ContiguousDescends(rs, i + 1, j);
    }
  }

  /** A contiguous list leaves no gap between its lowest and highest bound. */
  lemma {:induction false} ContiguousCovers(rs: seq<TemperatureRangeInsert>, t: int)
    requires Contiguous(rs) && |rs| > 0
    requires rs[|rs| - 1].minTemp <= t <= rs[0].maxTemp
    ensures exists i :: 0 <= i < |rs| && InBand(rs[i], t)
    decreases |rs|
  {
    if t < rs[0].minTemp {
      var rest := rs[1..];
      assert Contiguous(rest) by {
        forall i | 0 < i < |rest| ensures rest[i - 1].minTemp == rest[i].maxTemp + 1 {
          assert rest[i - 1] == rs[i] && rest[i] == rs[i + 1];
        }
      }
      ContiguousCovers(rest, t);
      var i :| 0 <= i < |rest| && InBand(rest[i], t);
      assert rs[i + 1] == rest[i];
    } else {
      assert InBand(rs[0], t);
    }
  }

  /** Between its lowest and highest bound, a contiguous list has exactly one
      band containing any given temperature. */
  lemma ContiguousPartition(rs: seq<TemperatureRangeInsert>, t: int)
    requires Contiguous(rs) && |rs| > 0
    requires rs[|rs| - 1].minTemp <= t <= rs[0].maxTemp
    ensures exists i :: 0 <= i < |rs| && InBand(rs[i], t)
    ensures forall i, j :: 0 <= i < |rs| && 0 <= j < |rs| && InBand(rs[i], t) && InBand(rs[j], t) ==> i == j
  {
    ContiguousCovers(rs, t);
    forall i, j | 0 <= i < |rs| && 0 <= j < |rs| && InBand(rs[i], t) && InBand(rs[j], t)
      ensures i == j
    {
      if i < j {
        ContiguousDescends(rs, i, j);
      } else if j < i {
        ContiguousDescends(rs, j, i);
      }
    }
  }

  /** A table seeded from a contiguous list resolves a temperature to the
      colour of the band that contains it (there is only one). */
  lemma ContiguousTableResolves(rs: seq<TemperatureRangeInsert>, rows: seq<TemperatureRange>, t: int, i: int)
    requires Contiguous(rs) && rows == Numbered(rs)
    requires 0 <= i < |rs| && InBand(rs[i], t)
    ensures ColorForTemperature(rows, t) == ColorMapping(rs[i].colorName, rs[i].colorHex)
  {
    ContiguousBounds(rs, i);
    ContiguousPartition(rs, t);
    assert forall j :: 0 <= j < |rows| && Contains(rows[j], t) ==> InBand(rs[j], t);
    ColorOfOnlyMatch(rows, t, i);
  }

  lemma ContiguousBounds(rs: seq<TemperatureRangeInsert>, j: int)
    requires Contiguous(rs) && 0 <= j < |rs|
    ensures rs[|rs| - 1].minTemp <= rs[j].minTemp && rs[j].maxTemp <= rs[0].maxTemp
  {
    if j < |rs| - 1 {
      ContiguousDescends(rs, j, |rs| - 1);
    }
    if 0 < j {
      ContiguousDescends(rs, 0, j);
    }
  }

  /** Below its lowest or above its highest bound, a table seeded from a
      contiguous list has no containing band and answers the fallback. */
  lemma ContiguousTableOutside(rs: seq<TemperatureRangeInsert>, rows: seq<TemperatureRange>, t: int)
    requires Contiguous(rs) && rows == Numbered(rs) && |rs| > 0
    requires t < rs[|rs| - 1].minTemp || rs[0].maxTemp < t
    ensures ColorForTemperature(rows, t) == Fallback
  {
    NoBandOutside(rs, rows, t);
  }

  lemma NoBandOutside(rs: seq<TemperatureRangeInsert>, rows: seq<TemperatureRange>, t: int)
    requires Contiguous(rs) && rows == Numbered(rs) && |rs| > 0
    requires t < rs[|rs| - 1].minTemp || rs[0].maxTemp < t
    ensures forall r :: r in rows ==> !Contains(r, t)
  {
    forall r | r in rows ensures !Contains(r, t) {
      var j :| 0 <= j < |rows| && rows[j] == r;
      assert r.minTemp == rs[j].minTemp && r.maxTemp == rs[j].maxTemp;
      ContiguousBounds(rs, j);
    }
  }

  /** Every integer of [-999, 999] lies in exactly one seeded band. */
  lemma SeedBandsPartition(t: int)
    requires -999 <= t <= 999
    ensures exists i :: 0 <= i < |SeedList| && InBand(SeedList[i], t)
    ensures forall i, j :: 0 <= i < |SeedList| && 0 <= j < |SeedList| && InBand(SeedList[i], t) && InBand(SeedList[j], t) ==> i == j
  {
    SeedListShape();
    ContiguousPartition(SeedList, t);
  }

  /** Display orders run 1..10 while the bands strictly descend; no two bands
      are equal, so the UNIQUE(min_temp, max_temp) constraint never fires. */
  lemma SeedOrdering()
    ensures forall i :: 0 <= i < |SeededTable| ==> SeededTable[i].displayOrder == i + 1 && SeededTable[i].id == i + 1
    ensures forall i, j :: 0 <= i < j < |SeededTable| ==> SeededTable[j].maxTemp < SeededTable[i].minTemp
    ensures UniqueBands(SeededTable)
  {
    SeedListShape();
    forall i, j | 0 <= i < j < |SeededTable| ensures SeededTable[j].maxTemp < SeededTable[i].minTemp {
      ContiguousDescends(SeedList, i, j);
    }
  }

  /** Inside [-999, 999] the resolver answers with the colour of the one band
      that contains the temperature, never with the fallback. */
  lemma SeededColorCovers(t: int)
    requires -999 <= t <= 999
    ensures exists i ::
      && 0 <= i < |SeedList|
      && InBand(SeedList[i], t)
      && ColorForTemperature(SeededTable, t) == ColorMapping(SeedList[i].colorName, SeedList[i].colorHex)
    ensures ColorForTemperature(SeededTable, t) != Fallback
  {
    SeedListShape();
    ContiguousCovers(SeedList, t);
    var i :| 0 <= i < |SeedList| && InBand(SeedList[i], t);
    ContiguousTableResolves(SeedList, SeededTable, t, i);
  }

  /** The colour of every temperature in the seeded table, band by band
      (so 90 is Yellow, 89 Pink, 100 Bright Orange, 1 Blue, 0 Light Blue). */
  lemma SeededBandColors(t: int)
    ensures 100 <= t <= 999 ==> ColorForTemperature(SeededTable, t) == ColorMapping("Bright Orange", "#FF6600")
    ensures 90 <= t <= 99 ==> ColorForTemperature(SeededTable, t) == ColorMapping("Yellow", "#FFD700")
    ensures 79 <= t <= 89 ==> ColorForTemperature(SeededTable, t) == ColorMapping("Pink", "#FF69B4")
    ensures 68 <= t <= 78 ==> ColorForTemperature(SeededTable, t) == ColorMapping("Turquoise", "#40E0D0")
    ensures 55 <= t <= 67 ==> ColorForTemperature(SeededTable, t) == ColorMapping("Purple", "#800080")
    ensures 45 <= t <= 54 ==> ColorForTemperature(SeededTable, t) == ColorMapping("Light Pink", "#FFB6C1")
    ensures 34 <= t <= 44 ==> ColorForTemperature(SeededTable, t) == ColorMapping("Dark Green", "#006400")
    ensures 22 <= t <= 33 ==> ColorForTemperature(SeededTable, t) == ColorMapping("Light Purple", "#9370DB")
    ensures 1 <= t <= 21 ==> ColorForTemperature(SeededTable, t) == ColorMapping("Blue", "#0000FF")
    ensures -999 <= t <= 0 ==> ColorForTemperature(SeededTable, t) == ColorMapping("Light Blue", "#ADD8E6")
    ensures t < -999 || 999 < t ==> ColorForTemperature(SeededTable, t) == Fallback
  {
    SeedListShape();
    if t < -999 || 999 < t {
      ContiguousTableOutside(SeedList, SeededTable, t);
    } else {
      var i := if 100 <= t then 0 else if 90 <= t then 1 else if 79 <= t then 2
        else if 68 <= t then 3 else if 55 <= t then 4 else if 45 <= t then 5
        else if 34 <= t then 6 else if 22 <= t then 7 else if 1 <= t then 8 else 9;
      ContiguousTableResolves(SeedList, SeededTable, t, i);
    }
  }

  /** `seedTemperatureRanges`: seeds the table with `SeedList`; an empty table
      ends up holding exactly the ten seeded rows and the seed never fails. */
  method SeedTemperatureRanges(table: RangeTable) returns (outcome: SeedOutcome)
    requires table.Valid()
    modifies table
    ensures table.Valid()
    ensures outcome == Completed
    ensures table.rows == if old(table.rows) == [] then SeededTable else old(table.rows)
  {
    SeedOrdering();
    outcome := table.Seed(SeedList);
  }
}
