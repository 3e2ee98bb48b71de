/**
 * The populate script's loop: for every fetched day, derive the year from
 * the date text, round the high temperature, look up its colour and
 * insert-or-ignore the record, counting the rows actually added.
 *
 * The weather fetch itself is outside the model; its result is the `days`
 * parameter.
 */
module PopulateData {
  import opened Wrappers
  import opened JsText
  import opened TemperatureRanges
  import opened DailyTemperatures

  /** One day of the weather response: its `YYYY-MM-DD` date and its high,
      already rounded to a whole degree. */
  datatype Day = Day(datetime: string, roundedTemp: int)

  /** `Number.parseInt(datetime.split('-')[0])`; None stands for NaN. */
  function YearOf(datetime: string): Option<int>
  {
    match ParseInt(Split(datetime, '-')[0])
    case Int(v) => Some(v)
    case NaN => None
  }

  /** A date that starts with a year and a dash yields that year. */
  lemma YearOfDate(year: nat, rest: string)
    ensures YearOf(DecimalString(year) + "-" + rest) == Some(year)
  {
    var y := DecimalString(year);
    SplitAfterPiece(y, '-', rest);
    ParseIntOfDecimal(year, []);
    assert y + [] == y;
  }

  /** The record the loop hands to `insert` for one day. */
  function DayRecord(ranges: seq<TemperatureRange>, day: Day): DailyTemperatureInsert
  {
    var color := ColorForTemperature(ranges, day.roundedTemp);
    DailyTemperatureInsert(day.datetime, day.roundedTemp, color.colorName, color.colorHex, YearOf(day.datetime))
  }

  /** `x` is the row stored for `day`: its date, its rounded high, that
      temperature's colour and the year read from the date. */
  predicate RecordOf(ranges: seq<TemperatureRange>, day: Day, x: DailyTemperature)
  {
    && x.date == day.datetime
    && x.highTemperature == day.roundedTemp
    && ColorMapping(x.colorName, x.colorHex) == ColorForTemperature(ranges, x.highTemperature)
    && YearOf(day.datetime) == Some(x.year)
  }

  /** The records the loop hands to `insert`, one per day, in order. */
  function Records(ranges: seq<TemperatureRange>, days: seq<Day>): (r: seq<DailyTemperatureInsert>)
    ensures |r| == |days|
    ensures forall i :: 0 <= i < |days| ==>
      && r[i].date == days[i].datetime
      && r[i].highTemperature == days[i].roundedTemp
      && ColorMapping(r[i].colorName, r[i].colorHex) == ColorForTemperature(ranges, days[i].roundedTemp)
      && r[i].year == YearOf(days[i].datetime)
  {
    seq(|days|, i requires 0 <= i < |days| => DayRecord(ranges, days[i]))
  }

  /** The loop's inserts, in order: the table afterwards and the
      `inserted` count. */
  function Ingest(rows: seq<DailyTemperature>, records: seq<DailyTemperatureInsert>): (res: (seq<DailyTemperature>, nat))
    ensures res.1 <= |records|
    ensures |res.0| == |rows| + res.1 && res.0[..|rows|] == rows
    ensures UniqueDates(rows) ==> UniqueDates(res.0)
    decreases |records|
  {
    if records == [] then (rows, 0)
    else
      var before := Ingest(rows, records[..|records| - 1]);
      var step := InsertOrIgnore(before.0, records[|records| - 1]);
      assert step.0[..|rows|] == step.0[..|before.0|][..|rows|];
      (step.0, before.1 + if step.1 then 1 else 0)
  }

  /** One more pass of the loop: the next record's insert. */
  lemma IngestAdvance(rows: seq<DailyTemperature>, records: seq<DailyTemperatureInsert>, i: nat)
    requires i < |records|
    ensures var before := Ingest(rows, records[..i]);
      var step := InsertOrIgnore(before.0, records[i]);
      Ingest(rows, records[..i + 1]) == (step.0, before.1 + if step.1 then 1 else 0)
  {
    assert records[..i + 1][..i] == records[..i];
  }

  /** The loop never replaces a stored row. */
  lemma {:induction false} IngestKeepsStored(rows: seq<DailyTemperature>, records: seq<DailyTemperatureInsert>, date: string)
    requires Lookup(rows, date).Some?
    ensures Lookup(Ingest(rows, records).0, date) == Lookup(rows, date)
    decreases |records|
  {
    if records != [] {
      IngestKeepsStored(rows, records[..|records| - 1], date);
    }
  }

  /** A date that none of the records carries is looked up as before. */
  lemma {:induction false} IngestKeepsOthers(rows: seq<DailyTemperature>, records: seq<DailyTemperatureInsert>, date: string)
    requires forall i :: 0 <= i < |records| ==> records[i].date != date
    ensures Lookup(Ingest(rows, records).0, date) == Lookup(rows, date)
    decreases |records|
  {
    if records != [] {
      IngestKeepsOthers(rows, records[..|records| - 1], date);
    }
  }

  /** `x` is one of the records that has a year, stored as given. */
  predicate StoredFrom(records: seq<DailyTemperatureInsert>, x: DailyTemperature)
  {
    exists i :: 0 <= i < |records| && records[i].year.Some? && x == Stored(records[i])
  }

  /** Every row the loop adds is one of the records, stored as given. */
  lemma {:induction false} IngestAddsRecords(rows: seq<DailyTemperature>, records: seq<DailyTemperatureInsert>)
    ensures forall k :: |rows| <= k < |Ingest(rows, records).0| ==> StoredFrom(records, Ingest(rows, records).0[k])
    decreases |records|
  {
    if records != [] {
      var prefix := records[..|records| - 1];
      var before := Ingest(rows, prefix).0;
      var final := Ingest(rows, records).0;
      IngestAddsRecords(rows, prefix);
      forall k | |rows| <= k < |final| ensures StoredFrom(records, final[k]) {
        if k < |before| {
          assert final[k] == final[..|before|][k] == before[k];
          assert StoredFrom(prefix, before[k]);
          var i :| 0 <= i < |prefix| && prefix[i].year.Some? && before[k] == Stored(prefix[i]);
          assert prefix[i] == records[i];
        } else {
          assert records[|records| - 1].year.Some? && final[k] == Stored(records[|records| - 1]);
        }
      }
    }
  }

  /** `x` holds one of the fetched days as the script stores it. */
  predicate FromSomeDay(ranges: seq<TemperatureRange>, days: seq<Day>, x: DailyTemperature)
  {
    exists i :: 0 <= i < |days| && RecordOf(ranges, days[i], x)
  }

  /** Every row the script adds holds one fetched day's date, rounded high,
      that temperature's colour and the year read from the date. */
  lemma PopulateAddsDays(rows: seq<DailyTemperature>, ranges: seq<TemperatureRange>, days: seq<Day>)
    ensures var final := Ingest(rows, Records(ranges, days)).0;
      forall k :: |rows| <= k < |final| ==> FromSomeDay(ranges, days, final[k])
  {
    var records := Records(ranges, days);
    var final := Ingest(rows, records).0;
    IngestAddsRecords(rows, records);
    forall k | |rows| <= k < |final| ensures FromSomeDay(ranges, days, final[k]) {
      assert StoredFrom(records, final[k]);
      var i :| 0 <= i < |records| && records[i].year.Some? && final[k] == Stored(records[i]);
      assert RecordOf(ranges, days[i], final[k]);
    }
  }

  /** Afterwards every record with a year has a row for its date. */
  lemma {:induction false} IngestCovers(rows: seq<DailyTemperature>, records: seq<DailyTemperatureInsert>)
    ensures forall i :: 0 <= i < |records| && records[i].year.Some? ==> Lookup(Ingest(rows, records).0, records[i].date).Some?
    decreases |records|
  {
    if records != [] {
      var prefix := records[..|records| - 1];
      IngestCovers(rows, prefix);
      forall i | 0 <= i < |records| && records[i].year.Some? ensures Lookup(Ingest(rows, records).0, records[i].date).Some? {
        if i < |prefix| {
          assert prefix[i] == records[i];
        }
      }
    }
  }

  /** When every record is already stored (or has no year), the loop adds
      nothing and counts nothing. */
  lemma {:induction false} IngestNothingNew(rows: seq<DailyTemperature>, records: seq<DailyTemperatureInsert>)
    requires forall i :: 0 <= i < |records| && records[i].year.Some? ==> Lookup(rows, records[i].date).Some?
    ensures Ingest(rows, records) == (rows, 0)
    decreases |records|
  {
    if records != [] {
      IngestNothingNew(rows, records[..|records| - 1]);
    }
  }

  /** Running the script a second time over the same days inserts nothing
      and leaves the table as it was. */
  lemma PopulateRerun(rows: seq<DailyTemperature>, records: seq<DailyTemperatureInsert>)
    ensures var final := Ingest(rows, records).0;
      Ingest(final, records) == (final, 0)
  {
    IngestCovers(rows, records);
    IngestNothingNew(Ingest(rows, records).0, records);
  }

  /** Records with distinct dates, none stored yet and all with a year, are
      all inserted, so `inserted` equals their number. */
  lemma {:induction false} IngestAllFresh(rows: seq<DailyTemperature>, records: seq<DailyTemperatureInsert>)
    requires forall i, j :: 0 <= i < j < |records| ==> records[i].date != records[j].date
    requires forall i :: 0 <= i < |records| ==> records[i].year.Some? && Lookup(rows, records[i].date).None?
    ensures Ingest(rows, records).1 == |records|
    decreases |records|
  {
    if records != [] {
      var prefix := records[..|records| - 1];
      IngestAllFresh(rows, prefix);
      IngestKeepsOthers(rows, prefix, records[|records| - 1].date);
    }
  }

  /** The script's loop over the live tables. */
  method Populate(ranges: RangeTable, daily: DailyTable, days: seq<Day>) returns (inserted: nat)
    requires daily.Valid()
    modifies daily
    ensures daily.Valid()
    ensures (daily.rows, inserted) == Ingest(old(daily.rows), Records(ranges.rows, days))
  {
    var bands := ranges.rows;  // the loop writes only `daily`
    ghost var records := Records(bands, days);
    ghost var start := daily.rows;
    inserted := 0;
    var i := 0;
    while i < |days|
      invariant 0 <= i <= |days| == |records|
      invariant daily.Valid()
      invariant (daily.rows, inserted) == Ingest(start, records[..i])
      decreases |days| - i
    {
      // the year and the colour of the rounded high, as in `DayRecord`
      var record := DayRecord(bands, days[i]);
      assert record == records[i];
      IngestAdvance(start, records, i);
      var success := daily.Insert(record);
      if success {
        inserted := inserted + 1;
      }
      i := i + 1;
    }
    assert records[..i] == records;
  }
}
