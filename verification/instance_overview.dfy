/**
  The database list of the instance overview page (`instance_overview` in
  dj_redis_panel/views.py): databases 0 to 15 are visited in order, each
  answering one with its key count; an empty database other than 0 is
  skipped, and the first database that raises ends the walk.
*/
module InstanceOverview {

  /** The overview looks at the sixteen databases of a default Redis configuration. */
  const DatabaseSlots := 16

  /** One line of the database table (the space estimate is not modelled). */
  datatype DatabaseRow = DatabaseRow(number: nat, keyCount: nat, isDefault: bool)

  /** Every database from 0 to `d` answered, so the walk got as far as `d`. */
  predicate Reached(sizes: map<nat, nat>, d: nat) {
    forall e: nat :: e <= d ==> e in sizes
  }

  /** The databases the page lists: reached, within the sixteen, and database 0 or not empty. */
  predicate Listed(sizes: map<nat, nat>, d: nat) {
    d < DatabaseSlots && Reached(sizes, d) && (d == 0 || sizes[d] > 0)
  }

  /**
    The loop over databases 0..15. `sizes` holds DBSIZE for each database
    whose SELECT and inspection succeed; a number absent from it stands for
    a database whose commands raise.
  */
  method ListDatabases(sizes: map<nat, nat>) returns (rows: seq<DatabaseRow>)
    ensures forall j :: 0 <= j < |rows| ==>
      && Listed(sizes, rows[j].number)
      && rows[j].keyCount == sizes[rows[j].number]
      && (rows[j].isDefault <==> rows[j].number == 0)
    ensures forall j, l :: 0 <= j < l < |rows| ==> rows[j].number < rows[l].number
    ensures forall d: nat :: Listed(sizes, d) ==> exists j :: 0 <= j < |rows| && rows[j].number == d
  {
    rows := [];
    var d: nat := 0;
    while d < DatabaseSlots
      invariant d <= DatabaseSlots
      invariant forall e: nat :: e < d ==> e in sizes
      invariant forall j :: 0 <= j < |rows| ==>
        && rows[j].number < d
        && Listed(sizes, rows[j].number)
        && rows[j].keyCount == sizes[rows[j].number]
        && (rows[j].isDefault <==> rows[j].number == 0)
      invariant forall j, l :: 0 <= j < l < |rows| ==> rows[j].number < rows[l].number
      invariant forall e: nat :: e < d && Listed(sizes, e) ==> exists j :: 0 <= j < |rows| && rows[j].number == e
    {
      if d !in sizes {
        assert forall e: nat :: e >= d ==> !Reached(sizes, e);
        return;
      }
      if sizes[d] == 0 && d > 0 {
        assert !Listed(sizes, d);
        d := d + 1;
        continue;
      }
      assert Listed(sizes, d);
      ghost var before := rows;
      rows := rows + [DatabaseRow(d, sizes[d], d == 0)];
      assert forall j :: 0 <= j < |before| ==> rows[j] == before[j];
      assert rows[|rows| - 1].number == d;
      d := d + 1;
    }
  }
}
