/**
 * The `progress` table and its service (`get` and `set`). The table's key
 * is pinned to 1 by a CHECK constraint, so it holds at most one row: the
 * last row of the blanket that has been knitted, by date.
 *
 * `CURRENT_TIMESTAMP` is a clock reading; it is passed in as `now`.
 */
module Progress {
  import opened Wrappers

  const SingletonId := 1

  datatype ProgressRow = ProgressRow(id: int, lastKnittedDate: Option<string>, updatedAt: string)

  /** The CHECK (id = 1) constraint on the only row the table can hold. */
  predicate Singleton(row: Option<ProgressRow>)
  {
    row.Some? ==> row.value.id == SingletonId
  }

  /** `set(date)`: update the existing row or insert row 1. Whichever branch
      runs, the table afterwards holds exactly row 1 with the new date. */
  function Upsert(row: Option<ProgressRow>, date: Option<string>, now: string): (r: Option<ProgressRow>)
    requires Singleton(row)
    ensures r == Some(ProgressRow(SingletonId, date, now))
    ensures Singleton(r)
  {
    match row
    case Some(existing) => Some(existing.(lastKnittedDate := date, updatedAt := now))
    case None => Some(ProgressRow(SingletonId, date, now))
  }

  /** A run of `set` calls, one per (date, clock reading). */
  function UpsertAll(row: Option<ProgressRow>, writes: seq<(Option<string>, string)>): (r: Option<ProgressRow>)
    requires Singleton(row)
    ensures Singleton(r)
    decreases |writes|
  {
    if writes == [] then row
    else UpsertAll(Upsert(row, writes[0].0, writes[0].1), writes[1..])
  }

  /** The last write wins: after any non-empty run of `set` calls the row
      holds the date of the last one, whatever was there before. */
  lemma {:induction false} LastWriteWins(row: Option<ProgressRow>, writes: seq<(Option<string>, string)>)
    requires Singleton(row) && writes != []
    ensures UpsertAll(row, writes)
      == Some(ProgressRow(SingletonId, writes[|writes| - 1].0, writes[|writes| - 1].1))
    decreases |writes|
  {
    if |writes| > 1 {
      LastWriteWins(Upsert(row, writes[0].0, writes[0].1), writes[1..]);
    }
  }

  class ProgressTable {
    var row: Option<ProgressRow>

    ghost predicate Valid()
      reads this
    {
      Singleton(row)
    }

    /** A freshly created table holds no row. */
    constructor ()
      ensures Valid() && row == None
    {
      row := None;
    }

    /** `get()`: row 1, or None when `set` has never been called. */
    method Get() returns (r: Option<ProgressRow>)
      requires Valid()
      ensures r == row
      ensures r.Some? ==> r.value.id == SingletonId
    {
      r := row;
    }

    /** `set(date)`. */
    method Set(date: Option<string>, now: string)
      requires Valid()
      modifies this
      ensures Valid()
      ensures row == Upsert(old(row), date, now)
    {
      var existing := Get();
      if existing.Some? {
        row := Some(existing.value.(lastKnittedDate := date, updatedAt := now));
      } else {
        row := Some(ProgressRow(SingletonId, date, now));
      }
    }
  }
}
