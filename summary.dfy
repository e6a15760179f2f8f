/** api_health: evaluate every enabled service, save each verdict, and
    attach the public url from the catalog and the 24-hour sparkline read
    before this round's saves. */
module Summary {
  import opened Base
  import opened Probes
  import opened Registry
  import opened Evaluator
  import opened History
  import opened Storage

  /** One element of the JSON list api_health returns. */
  datatype ServiceSummary = ServiceSummary(
    id: int,
    name: string,
    displayName: string,
    url: Option<string>,
    publicUrl: Option<string>,
    iconEmoji: string,
    status: Status,
    responseTimeMs: Option<int>,
    error: Option<string>,
    sparkline: seq<bool>)

  function SummaryOf(svc: ServiceRow, v: Verdict, publicUrl: Option<string>, sparkline: seq<bool>): ServiceSummary
  {
    ServiceSummary(svc.id, svc.name, svc.displayName, svc.url, publicUrl, svc.iconEmoji,
                   v.status, v.responseTimeMs, v.error, sparkline)
  }

  function VerdictOf(s: ServiceSummary): Verdict
  {
    Verdict(s.status, s.responseTimeMs, s.error)
  }

  /** The services whose enabled column is 1, in table order. */
  function EnabledRows(rows: seq<ServiceRow>): (r: seq<ServiceRow>)
    ensures |r| <= |rows|
    decreases |rows|
  {
    if rows == [] then []
    else
      var init := EnabledRows(rows[..|rows| - 1]);
      var last := rows[|rows| - 1];
      assert rows == rows[..|rows| - 1] + [last];
      if last.enabled == 1 then init + [last] else init
  }

  /** The rows returned are exactly the enabled services. */
  lemma {:induction false} EnabledRowsMembers(rows: seq<ServiceRow>)
    ensures forall x :: x in EnabledRows(rows) <==> x in rows && x.enabled == 1
    decreases |rows|
  {
    if rows != [] {
      EnabledRowsMembers(rows[..|rows| - 1]);
      assert rows == rows[..|rows| - 1] + [rows[|rows| - 1]];
    }
  }

  /** sparklines.get(id, []) */
  function SparklineOr(sparklines: map<int, seq<bool>>, serviceId: int): seq<bool>
  {
    if serviceId in sparklines then sparklines[serviceId] else []
  }

  /** Groups the query rows into one sparkline per service id. */
  method GroupSparklines(rows: seq<CheckRecord>) returns (sparklines: map<int, seq<bool>>)
    ensures forall sid :: sid in sparklines <==> exists i :: 0 <= i < |rows| && rows[i].serviceId == sid
    ensures forall sid :: SparklineOr(sparklines, sid) == Sparkline(rows, sid)
  {
    sparklines := map[];
    var i := 0;
    while i < |rows|
      invariant 0 <= i <= |rows|
      invariant forall sid :: sid in sparklines <==> exists j :: 0 <= j < i && rows[j].serviceId == sid
      invariant forall sid :: SparklineOr(sparklines, sid) == Sparkline(rows[..i], sid)
    {
      var sid := rows[i].serviceId;
      ghost var before := sparklines;
      sparklines := sparklines[sid := SparklineOr(sparklines, sid) + [rows[i].status == Up]];
      assert rows[..i + 1] == rows[..i] + [rows[i]];
      forall s ensures SparklineOr(sparklines, s) == Sparkline(rows[..i + 1], s) {
        SparklineAppend(rows[..i], rows[i], s);
        if s != sid {
          assert SparklineOr(sparklines, s) == SparklineOr(before, s);
        }
      }
      forall s ensures s in sparklines <==> exists j :: 0 <= j < i + 1 && rows[j].serviceId == s {
        if s == sid {
          assert rows[i].serviceId == s;
        }
      }
      i := i + 1;
    }
    assert rows[..i] == rows;
  }

  /** The public_url of the first catalog entry with the given name, or
      None when no entry has it. */
  function PublicUrlOf(catalog: seq<CatalogEntry>, name: string): (r: Option<string>)
    ensures (forall i :: 0 <= i < |catalog| ==> catalog[i].name != name) ==> r == None
    ensures forall i :: (0 <= i < |catalog| && catalog[i].name == name
      && (forall j :: 0 <= j < i ==> catalog[j].name != name)) ==> r == catalog[i].publicUrl
    decreases |catalog|
  {
    if catalog == [] then None
    else if catalog[0].name == name then catalog[0].publicUrl
    else
      var r := PublicUrlOf(catalog[1..], name);
      assert forall i :: 1 <= i < |catalog| ==> catalog[i] == catalog[1..][i - 1];
      r
  }

  /** The catalog search loop of api_health, stopping at the first match. */
  method FindPublicUrl(catalog: seq<CatalogEntry>, name: string) returns (publicUrl: Option<string>)
    ensures publicUrl == PublicUrlOf(catalog, name)
  {
    publicUrl := None;
    var i := 0;
    while i < |catalog|
      invariant 0 <= i <= |catalog|
      invariant forall j :: 0 <= j < i ==> catalog[j].name != name
    {
      if catalog[i].name == name {
        publicUrl := catalog[i].publicUrl;
        break;
      }
      i := i + 1;
    }
  }

  /** The health_checks table after saving each result in turn, the i-th at
      time clock(i). */
  function SaveRound(t: CheckTable, results: seq<ServiceSummary>, clock: nat -> int): CheckTable
    decreases |results|
  {
    if results == [] then t
    else
      var n := |results| - 1;
      Saved(SaveRound(t, results[..n], clock), results[n].id, VerdictOf(results[n]), clock(n))
  }

  /** One turn of api_health's service loop: evaluate the service, save
      its verdict at time `at`, and build its element of the answer. */
  method CheckAndSave(db: Database, svc: ServiceRow, h: HttpOutcome, d: DockerOutcome, at: int,
                      catalog: seq<CatalogEntry>, sparklines: map<int, seq<bool>>)
    returns (summary: ServiceSummary)
    requires db.Valid()
    modifies db
    ensures db.Valid() && db.services == old(db.services)
    ensures summary == SummaryOf(svc, Evaluate(svc, h, d), PublicUrlOf(catalog, svc.name), SparklineOr(sparklines, svc.id))
    ensures db.checks == Saved(old(db.checks), summary.id, VerdictOf(summary), at)
  {
    var health, _ := CheckServiceHealth(svc, h, d);
    db.SaveHealthCheck(svc.id, health, at);
    var publicUrl := FindPublicUrl(catalog, svc.name);
    summary := SummaryOf(svc, health, publicUrl, SparklineOr(sparklines, svc.id));
  }

  /** The answer api_health builds for the services `svcs`: for the i-th,
      its verdict from what the probes would observe, its catalog public
      url and its sparkline over the query rows `window`. */
  function RoundSummaries(svcs: seq<ServiceRow>, catalog: seq<CatalogEntry>, window: seq<CheckRecord>,
                          http: nat -> HttpOutcome, docker: nat -> DockerOutcome): seq<ServiceSummary>
    decreases |svcs|
  {
    if svcs == [] then []
    else
      var n := |svcs| - 1;
      RoundSummaries(svcs[..n], catalog, window, http, docker)
        + [SummaryOf(svcs[n], Evaluate(svcs[n], http(n), docker(n)),
                     PublicUrlOf(catalog, svcs[n].name), Sparkline(window, svcs[n].id))]
  }

  /** One summary per service, in order, each built from that service. */
  lemma {:induction false} RoundSummariesAt(svcs: seq<ServiceRow>, catalog: seq<CatalogEntry>, window: seq<CheckRecord>,
                                            http: nat -> HttpOutcome, docker: nat -> DockerOutcome)
    ensures var r := RoundSummaries(svcs, catalog, window, http, docker);
      && |r| == |svcs|
      && forall i :: 0 <= i < |svcs| ==>
           r[i] == SummaryOf(svcs[i], Evaluate(svcs[i], http(i), docker(i)),
                             PublicUrlOf(catalog, svcs[i].name), Sparkline(window, svcs[i].id))
    decreases |svcs|
  {
    if svcs != [] {
      var n := |svcs| - 1;
      var init := svcs[..n];
      RoundSummariesAt(init, catalog, window, http, docker);
      var prev := RoundSummaries(init, catalog, window, http, docker);
      var r := RoundSummaries(svcs, catalog, window, http, docker);
      assert r == prev + [SummaryOf(svcs[n], Evaluate(svcs[n], http(n), docker(n)),
                                    PublicUrlOf(catalog, svcs[n].name), Sparkline(window, svcs[n].id))];
      forall i | 0 <= i < |svcs|
        ensures r[i] == SummaryOf(svcs[i], Evaluate(svcs[i], http(i), docker(i)),
                                  PublicUrlOf(catalog, svcs[i].name), Sparkline(window, svcs[i].id))
      {
        if i < n {
          assert r[i] == prev[i] && init[i] == svcs[i];
        }
      }
    }
  }

  /** One more service extends the answer by that service's summary. */
  lemma RoundSummariesSnoc(svcs: seq<ServiceRow>, i: int, catalog: seq<CatalogEntry>, window: seq<CheckRecord>,
                           http: nat -> HttpOutcome, docker: nat -> DockerOutcome)
    requires 0 <= i < |svcs|
    ensures RoundSummaries(svcs[..i + 1], catalog, window, http, docker)
         == RoundSummaries(svcs[..i], catalog, window, http, docker)
            + [SummaryOf(svcs[i], Evaluate(svcs[i], http(i), docker(i)),
                         PublicUrlOf(catalog, svcs[i].name), Sparkline(window, svcs[i].id))]
  {
    assert svcs[..i + 1][..i] == svcs[..i];
  }

  /** One more result saves one more verdict, at the time of its position. */
  lemma SaveRoundSnoc(t: CheckTable, results: seq<ServiceSummary>, s: ServiceSummary, clock: nat -> int)
    ensures SaveRound(t, results + [s], clock)
         == Saved(SaveRound(t, results, clock), s.id, VerdictOf(s), clock(|results|))
  {
    assert (results + [s])[..|results|] == results;
  }

  /** api_health. `now` is the time of the sparkline query, clock(i) the
      time of the i-th save, and http(i), docker(i) what the probes of the
      i-th enabled service would observe. */
  method ApiHealth(db: Database, catalog: seq<CatalogEntry>, now: int, clock: nat -> int,
                   http: nat -> HttpOutcome, docker: nat -> DockerOutcome)
    returns (results: seq<ServiceSummary>)
    requires db.Valid()
    modifies db
    ensures db.Valid()
    ensures db.services == old(db.services)
    ensures results == RoundSummaries(EnabledRows(old(db.services).rows), catalog,
                                      WindowRows(old(db.checks).rows, now), http, docker)
    ensures db.checks == SaveRound(old(db.checks), results, clock)
  {
    var svcs := EnabledRows(db.services.rows);
    ghost var window := WindowRows(db.checks.rows, now);
    ghost var checks0 := db.checks;
    var sparklines := GroupSparklines(WindowRows(db.checks.rows, now));
    results := [];
    var i := 0;
    while i < |svcs|
      invariant 0 <= i <= |svcs| && |results| == i
      invariant db.Valid() && db.services == old(db.services)
      invariant results == RoundSummaries(svcs[..i], catalog, window, http, docker)
      invariant db.checks == SaveRound(checks0, results, clock)
    {
      var summary := CheckAndSave(db, svcs[i], http(i), docker(i), clock(i), catalog, sparklines);
      RoundSummariesSnoc(svcs, i, catalog, window, http, docker);
      SaveRoundSnoc(checks0, results, summary, clock);
      results := results + [summary];
      i := i + 1;
    }
    assert svcs[..i] == svcs;
  }
}
