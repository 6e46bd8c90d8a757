/**
 * The habitable-planet catalog: rows of the Kepler objects-of-interest table
 * are filtered by a habitability rule and kept, in stream order, in a list.
 */
module Planets {

  /** One parsed row of the Kepler table, reduced to the columns the catalog reads. */
  datatype Row = Row(keplerName: string, koiDisposition: string, koiInsol: real, koiPrad: real)

  const CONFIRMED: string := "CONFIRMED"
  /** Insolation flux, in Earth units, must lie strictly between these two. */
  const MIN_INSOLATION: real := 0.36
  const MAX_INSOLATION: real := 1.11
  /** Planetary radius, in Earth radii, must lie strictly below this. */
  const MAX_RADIUS: real := 1.6

  predicate IsHabitablePlanet(row: Row)
  {
    && row.koiDisposition == CONFIRMED
    && row.koiInsol > MIN_INSOLATION
    && row.koiInsol < MAX_INSOLATION
    && row.koiPrad < MAX_RADIUS
  }

  /** The disposition must be exactly confirmed, and every numeric bound is strict. */
  lemma HabitableThresholds(row: Row)
    ensures row.koiDisposition != "CONFIRMED" ==> !IsHabitablePlanet(row)
    ensures row.koiInsol <= 0.36 || row.koiInsol >= 1.11 ==> !IsHabitablePlanet(row)
    ensures row.koiPrad >= 1.6 ==> !IsHabitablePlanet(row)
    ensures row.koiDisposition == "CONFIRMED" && 0.36 < row.koiInsol < 1.11 && row.koiPrad < 1.6 ==> IsHabitablePlanet(row)
  {
  }

  /** The rows of a stream that pass the habitability rule, in stream order. */
  function HabitableRows(rows: seq<Row>): (kept: seq<Row>)
    ensures |kept| <= |rows|
    ensures forall i :: 0 <= i < |kept| ==> IsHabitablePlanet(kept[i])
  {
    if rows == [] then []
    else
      var last := rows[|rows| - 1];
      assert rows == rows[..|rows| - 1] + [last];
      HabitableRows(rows[..|rows| - 1]) + (if IsHabitablePlanet(last) then [last] else [])
  }

  /** Filtering a stream piece by piece gives the pieces' results in order. */
  lemma {:induction false} HabitableRowsAppend(a: seq<Row>, b: seq<Row>)
    ensures HabitableRows(a + b) == HabitableRows(a) + HabitableRows(b)
  {
    if b != [] {
      var init := b[..|b| - 1];
      assert (a + b)[..|a + b| - 1] == a + init;
      assert (a + b)[|a + b| - 1] == b[|b| - 1];
      HabitableRowsAppend(a, init);
    } else {
      assert a + b == a;
    }
  }

  /** Every habitable row is kept as often as it occurs in the stream, and no other row is kept. */
  lemma {:induction false} HabitableRowsCount(rows: seq<Row>, row: Row)
    ensures multiset(HabitableRows(rows))[row] == if IsHabitablePlanet(row) then multiset(rows)[row] else 0
  {
    if rows != [] {
      var init, last := rows[..|rows| - 1], rows[|rows| - 1];
      assert rows == init + [last];
      HabitableRowsCount(init, row);
    }
  }

  /** A row is kept exactly when it occurs in the stream and is habitable. */
  lemma KeptIffHabitable(rows: seq<Row>, row: Row)
    ensures row in HabitableRows(rows) <==> row in rows && IsHabitablePlanet(row)
  {
    HabitableRowsCount(rows, row);
    assert row in HabitableRows(rows) <==> multiset(HabitableRows(rows))[row] > 0;
    assert row in rows <==> multiset(rows)[row] > 0;
  }

  /** Filtering is idempotent: a filtered stream passes the filter unchanged. */
  lemma {:induction false} HabitableRowsIdempotent(rows: seq<Row>)
    ensures HabitableRows(HabitableRows(rows)) == HabitableRows(rows)
  {
    if rows != [] {
      var init, last := rows[..|rows| - 1], rows[|rows| - 1];
      var tail := if IsHabitablePlanet(last) then [last] else [];
      assert HabitableRows(rows) == HabitableRows(init) + tail;
      HabitableRowsIdempotent(init);
      HabitableRowsAppend(HabitableRows(init), tail);
      if IsHabitablePlanet(last) {
        assert tail[..0] == [];
      }
      assert HabitableRows(tail) == tail;
    }
  }

  /** Reading the same stream twice keeps every habitable row twice: nothing is deduplicated. */
  lemma ReloadDuplicates(rows: seq<Row>)
    ensures HabitableRows(rows + rows) == HabitableRows(rows) + HabitableRows(rows)
    ensures |HabitableRows(rows + rows)| == 2 * |HabitableRows(rows)|
  {
    HabitableRowsAppend(rows, rows);
  }

  /** The module-level list of habitable planets that the loader appends to. */
  class PlanetCatalog {
    var habitablePlanets: seq<Row>

    constructor ()
      ensures habitablePlanets == []
    {
      habitablePlanets := [];
    }

    /**
     * Consumes an already-parsed stream of rows, one `data` event per row,
     * appending each habitable row to the list.
     */
    method LoadPlanetsData(rows: seq<Row>)
      modifies this
      ensures habitablePlanets == old(habitablePlanets) + HabitableRows(rows)
    {
      for i := 0 to |rows|
        invariant habitablePlanets == old(habitablePlanets) + HabitableRows(rows[..i])
      {
        ghost var seen := rows[..i + 1];
        assert seen[..|seen| - 1] == rows[..i] && seen[|seen| - 1] == rows[i];
        assert HabitableRows(seen) == HabitableRows(rows[..i]) + (if IsHabitablePlanet(rows[i]) then [rows[i]] else []);
        if IsHabitablePlanet(rows[i]) {
          habitablePlanets := habitablePlanets + [rows[i]];
        }
      }
      assert rows[..|rows|] == rows;
    }

    method GetAllPlanets() returns (planets: seq<Row>)
      ensures planets == habitablePlanets
    {
      planets := habitablePlanets;
    }
  }
}
