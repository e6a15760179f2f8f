/** The dashboard database: the services table, seeded by init_db, and the
    health_checks table, written by save_health_check. */
module Storage {
  import opened Probes
  import opened Registry
  import opened History

  class Database {
    var services: ServiceTable
    var checks: CheckTable

    ghost predicate Valid()
      reads this
    {
      ServicesValid(services) && ChecksValid(checks)
    }

    /** A freshly created database: both tables empty. */
    constructor ()
      ensures Valid()
      ensures services == EmptyServices && checks == EmptyChecks
    {
      services := EmptyServices;
      checks := EmptyChecks;
    }

    /** The seeding loop of init_db: insert each catalog entry whose name
        has no row yet. */
    method Seed(catalog: seq<CatalogEntry>)
      requires Valid()
      modifies this
      ensures Valid()
      ensures services == Seeded(old(services), catalog)
      ensures checks == old(checks)
    {
      var i := 0;
      while i < |catalog|
        invariant 0 <= i <= |catalog|
        invariant services == Seeded(old(services), catalog[..i])
        invariant checks == old(checks)
        invariant Valid()
      {
        var e := catalog[i];
        assert catalog[..i + 1][..i] == catalog[..i];
        InsertIfMissingValid(services, e);
        if !HasName(services.rows, e.name) {
          services := ServiceTable(services.rows + [RowFor(e, services.nextId)], services.nextId + 1);
        }
        i := i + 1;
      }
      assert catalog[..i] == catalog;
    }

    /** save_health_check: record the verdict for a service at time `now`
        and prune records older than 7 days. */
    method SaveHealthCheck(serviceId: int, v: Verdict, now: int)
      requires Valid()
      modifies this
      ensures Valid()
      ensures checks == Saved(old(checks), serviceId, v, now)
      ensures services == old(services)
    {
      SavedValid(checks, serviceId, v, now);
      // append the new record
      checks := CheckTable(checks.rows + [NewRecord(checks, serviceId, v, now)], checks.nextId + 1);
      // then drop every record, of any service, older than the horizon
      checks := CheckTable(AtOrAfter(checks.rows, now - RetentionSeconds), checks.nextId);
    }
  }
}
