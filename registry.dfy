/** The services table and its seeding from the built-in catalog
    (DEFAULT_SERVICES and the seeding loop of init_db). */
module Registry {
  import opened Base

  /** One entry of the built-in catalog. public_url is not stored in the
      table; it is read back from the catalog when results are built. */
  datatype CatalogEntry = CatalogEntry(
    name: string,
    displayName: string,
    url: Option<string>,
    publicUrl: Option<string>,
    checkType: string,
    dockerContainer: Option<string>,
    iconEmoji: string,
    enabled: int)

  /** One row of the services table. check_type is free text, as in the
      table; created_at is not modelled. */
  datatype ServiceRow = ServiceRow(
    id: int,
    name: string,
    displayName: string,
    url: Option<string>,
    checkType: string,
    dockerContainer: Option<string>,
    iconEmoji: string,
    enabled: int)

  /** The services table: its rows in insertion order, and the next id
      AUTOINCREMENT hands out. */
  datatype ServiceTable = ServiceTable(rows: seq<ServiceRow>, nextId: int)

  const EmptyServices := ServiceTable([], 1)

  /** The table's own guarantees: ids grow with insertion order and stay
      below the next id, and names are UNIQUE. */
  ghost predicate ServicesValid(t: ServiceTable)
  {
    && (forall i :: 0 <= i < |t.rows| ==> t.rows[i].id < t.nextId)
    && (forall i, j :: 0 <= i < j < |t.rows| ==> t.rows[i].id < t.rows[j].id)
    && (forall i, j :: 0 <= i < j < |t.rows| ==> t.rows[i].name != t.rows[j].name)
  }

  /** SELECT id FROM services WHERE name = ? finds a row. */
  predicate HasName(rows: seq<ServiceRow>, name: string)
  {
    exists i :: 0 <= i < |rows| && rows[i].name == name
  }

  /** The row INSERT builds from a catalog entry. */
  function RowFor(e: CatalogEntry, id: int): ServiceRow
  {
    ServiceRow(id, e.name, e.displayName, e.url, e.checkType, e.dockerContainer, e.iconEmoji, e.enabled)
  }

  /** One step of the seeding loop. */
  function InsertIfMissing(t: ServiceTable, e: CatalogEntry): ServiceTable
  {
    if HasName(t.rows, e.name) then t
    else ServiceTable(t.rows + [RowFor(e, t.nextId)], t.nextId + 1)
  }

  /** The table after the seeding loop has run over the whole catalog. */
  function Seeded(t: ServiceTable, catalog: seq<CatalogEntry>): ServiceTable
    decreases |catalog|
  {
    if catalog == [] then t
    else InsertIfMissing(Seeded(t, catalog[..|catalog| - 1]), catalog[|catalog| - 1])
  }

  lemma InsertIfMissingValid(t: ServiceTable, e: CatalogEntry)
    requires ServicesValid(t)
    ensures ServicesValid(InsertIfMissing(t, e))
  {
  }

  /** Seeding keeps the table's guarantees. */
  lemma {:induction false} SeededValid(t: ServiceTable, catalog: seq<CatalogEntry>)
    requires ServicesValid(t)
    ensures ServicesValid(Seeded(t, catalog))
    decreases |catalog|
  {
    if catalog != [] {
      SeededValid(t, catalog[..|catalog| - 1]);
      InsertIfMissingValid(Seeded(t, catalog[..|catalog| - 1]), catalog[|catalog| - 1]);
    }
  }

  /** Existing rows are never overwritten: they stay, with their ids and
      fields, as a prefix of the seeded table, and ids only move forward. */
  lemma {:induction false} SeededKeepsRows(t: ServiceTable, catalog: seq<CatalogEntry>)
    ensures t.rows <= Seeded(t, catalog).rows
    ensures t.nextId <= Seeded(t, catalog).nextId
    decreases |catalog|
  {
    if catalog != [] {
      SeededKeepsRows(t, catalog[..|catalog| - 1]);
    }
  }

  /** Every row seeding adds is a catalog entry whose name was missing. */
  lemma {:induction false} SeededAddsOnlyMissing(t: ServiceTable, catalog: seq<CatalogEntry>, k: int)
    requires |t.rows| <= k < |Seeded(t, catalog).rows|
    ensures exists i :: (0 <= i < |catalog|
      && Seeded(t, catalog).rows[k] == RowFor(catalog[i], Seeded(t, catalog).rows[k].id)
      && !HasName(t.rows, catalog[i].name))
    decreases |catalog|
  {
    var init := catalog[..|catalog| - 1];
    var last := catalog[|catalog| - 1];
    var before := Seeded(t, init);
    SeededKeepsRows(t, init);
    if k < |before.rows| {
      SeededAddsOnlyMissing(t, init, k);
      var i :| 0 <= i < |init| && before.rows[k] == RowFor(init[i], before.rows[k].id)
        && !HasName(t.rows, init[i].name);
      assert catalog[i] == init[i];
    } else {
      assert k == |before.rows| && !HasName(before.rows, last.name);
      forall j | 0 <= j < |t.rows| ensures t.rows[j].name != last.name {
        assert before.rows[j] == t.rows[j];
      }
      assert catalog[|catalog| - 1] == last;
    }
  }

  /** After seeding, every catalog name has a row. */
  lemma {:induction false} SeededCoversCatalog(t: ServiceTable, catalog: seq<CatalogEntry>)
    ensures forall i :: 0 <= i < |catalog| ==> HasName(Seeded(t, catalog).rows, catalog[i].name)
    decreases |catalog|
  {
    if catalog != [] {
      var init := catalog[..|catalog| - 1];
      var before := Seeded(t, init);
      SeededCoversCatalog(t, init);
      forall i | 0 <= i < |catalog|
        ensures HasName(Seeded(t, catalog).rows, catalog[i].name)
      {
        if i < |init| {
          assert catalog[i] == init[i];
          var j :| 0 <= j < |before.rows| && before.rows[j].name == init[i].name;
          assert Seeded(t, catalog).rows[j] == before.rows[j];
        } else {
          var after := Seeded(t, catalog);
          if !HasName(before.rows, catalog[i].name) {
            assert after.rows[|before.rows|].name == catalog[i].name;
          }
        }
      }
    }
  }

  /** Seeding a table that already names every catalog entry changes nothing. */
  lemma {:induction false} SeededNoop(t: ServiceTable, catalog: seq<CatalogEntry>)
    requires forall i :: 0 <= i < |catalog| ==> HasName(t.rows, catalog[i].name)
    ensures Seeded(t, catalog) == t
    decreases |catalog|
  {
    if catalog != [] {
      var init := catalog[..|catalog| - 1];
      forall i | 0 <= i < |init| ensures HasName(t.rows, init[i].name) {
        assert init[i] == catalog[i];
      }
      SeededNoop(t, init);
    }
  }

  /** Seeding twice is the same as seeding once, so init_db may run on
      every start. */
  lemma SeededIdempotent(t: ServiceTable, catalog: seq<CatalogEntry>)
    ensures Seeded(Seeded(t, catalog), catalog) == Seeded(t, catalog)
  {
    SeededCoversCatalog(t, catalog);
    SeededNoop(Seeded(t, catalog), catalog);
  }

  /** On a valid table, seeding leaves every catalog name in exactly one row. */
  lemma SeededNamesOnce(t: ServiceTable, catalog: seq<CatalogEntry>, i: int)
    requires ServicesValid(t)
    requires 0 <= i < |catalog|
    ensures HasName(Seeded(t, catalog).rows, catalog[i].name)
    ensures var rows := Seeded(t, catalog).rows;
      forall k, l :: (0 <= k < |rows| && 0 <= l < |rows|
        && rows[k].name == catalog[i].name && rows[l].name == catalog[i].name) ==> k == l
  {
    SeededCoversCatalog(t, catalog);
    SeededValid(t, catalog);
  }
}
