/** The health_checks table: appending a verdict with retention pruning
    (save_health_check), and the 24-hour window read back for sparklines. */
module History {
  import opened Base
  import opened Probes

  /** One row of health_checks; checked_at is a time in seconds. */
  datatype CheckRecord = CheckRecord(
    id: int,
    serviceId: int,
    status: Status,
    responseTimeMs: Option<int>,
    error: Option<string>,
    checkedAt: int)

  /** The table: its rows in insertion order, and the next AUTOINCREMENT id. */
  datatype CheckTable = CheckTable(rows: seq<CheckRecord>, nextId: int)

  const EmptyChecks := CheckTable([], 1)

  /** How long a record is kept: 7 days, in seconds. */
  const RetentionSeconds: int := 7 * 24 * 60 * 60

  /** How far back the sparkline looks: 24 hours, in seconds. */
  const SparklineWindowSeconds: int := 24 * 60 * 60

  /** Ids grow with insertion order and stay below the next id. */
  ghost predicate ChecksValid(t: CheckTable)
  {
    && (forall i :: 0 <= i < |t.rows| ==> t.rows[i].id < t.nextId)
    && (forall i, j :: 0 <= i < j < |t.rows| ==> t.rows[i].id < t.rows[j].id)
  }

  ghost predicate IdsIncreasing(rows: seq<CheckRecord>)
  {
    forall i, j :: 0 <= i < j < |rows| ==> rows[i].id < rows[j].id
  }

  /** The rows whose checked_at is not earlier than `since`, in their order. */
  function AtOrAfter(rows: seq<CheckRecord>, since: int): (r: seq<CheckRecord>)
    ensures |r| <= |rows|
    decreases |rows|
  {
    if rows == [] then []
    else
      var init := AtOrAfter(rows[..|rows| - 1], since);
      var last := rows[|rows| - 1];
      assert rows == rows[..|rows| - 1] + [last];
      if last.checkedAt >= since then init + [last] else init
  }

  /** The kept rows are exactly the rows not earlier than the cutoff. */
  lemma {:induction false} AtOrAfterMembers(rows: seq<CheckRecord>, since: int)
    ensures forall x :: x in AtOrAfter(rows, since) <==> x in rows && x.checkedAt >= since
    decreases |rows|
  {
    if rows != [] {
      AtOrAfterMembers(rows[..|rows| - 1], since);
      assert rows == rows[..|rows| - 1] + [rows[|rows| - 1]];
    }
  }

  lemma {:induction false} AtOrAfterIdsIncreasing(rows: seq<CheckRecord>, since: int)
    requires IdsIncreasing(rows)
    ensures IdsIncreasing(AtOrAfter(rows, since))
    decreases |rows|
  {
    if rows != [] {
      var init := rows[..|rows| - 1];
      AtOrAfterIdsIncreasing(init, since);
      AtOrAfterMembers(init, since);
      var r := AtOrAfter(init, since);
      forall x | x in r ensures x.id < rows[|rows| - 1].id {
        var k :| 0 <= k < |init| && init[k] == x;
      }
    }
  }

  /** The record save_health_check inserts. */
  function NewRecord(t: CheckTable, serviceId: int, v: Verdict, now: int): CheckRecord
  {
    CheckRecord(t.nextId, serviceId, v.status, v.responseTimeMs, v.error, now)
  }

  /** save_health_check: insert the verdict stamped `now`, then delete every
      record, of any service, older than `now` minus 7 days. */
  function Saved(t: CheckTable, serviceId: int, v: Verdict, now: int): CheckTable
  {
    CheckTable(AtOrAfter(t.rows + [NewRecord(t, serviceId, v, now)], now - RetentionSeconds), t.nextId + 1)
  }

  /** What saving leaves in the table: the new record, every record not
      older than the retention horizon, and nothing else. */
  lemma SavedContents(t: CheckTable, serviceId: int, v: Verdict, now: int)
    ensures var r := Saved(t, serviceId, v, now);
      && r.nextId == t.nextId + 1
      && NewRecord(t, serviceId, v, now) in r.rows
      // nothing older than the retention horizon survives
      && (forall x :: x in r.rows ==> x.checkedAt >= now - RetentionSeconds)
      // every younger record is kept, and nothing but the new record appears
      && (forall x :: x in t.rows && x.checkedAt >= now - RetentionSeconds ==> x in r.rows)
      && (forall x :: x in r.rows ==> x in t.rows || x == NewRecord(t, serviceId, v, now))
  {
    AtOrAfterMembers(t.rows + [NewRecord(t, serviceId, v, now)], now - RetentionSeconds);
  }

  /** The saved table is the pruned old table, in its order, followed by
      the new record. */
  lemma SavedShape(t: CheckTable, serviceId: int, v: Verdict, now: int)
    ensures Saved(t, serviceId, v, now).rows
         == AtOrAfter(t.rows, now - RetentionSeconds) + [NewRecord(t, serviceId, v, now)]
  {
    var rows := t.rows + [NewRecord(t, serviceId, v, now)];
    assert rows[..|rows| - 1] == t.rows;
  }

  /** Saving keeps the table's guarantees and adds exactly one record with
      the new id: the one for the given service. */
  lemma SavedValid(t: CheckTable, serviceId: int, v: Verdict, now: int)
    requires ChecksValid(t)
    ensures ChecksValid(Saved(t, serviceId, v, now))
    ensures forall x :: x in Saved(t, serviceId, v, now).rows && x.id == t.nextId ==> x == NewRecord(t, serviceId, v, now)
  {
    var rows := t.rows + [NewRecord(t, serviceId, v, now)];
    assert IdsIncreasing(rows);
    AtOrAfterIdsIncreasing(rows, now - RetentionSeconds);
    SavedContents(t, serviceId, v, now);
    forall x | x in t.rows ensures x.id < t.nextId {
      var k :| 0 <= k < |t.rows| && t.rows[k] == x;
    }
  }

  /** Timestamps never decrease along the sequence. */
  predicate Chronological(rows: seq<CheckRecord>)
  {
    forall i, j :: 0 <= i < j < |rows| ==> rows[i].checkedAt <= rows[j].checkedAt
  }

  /** Puts x in front of the first row that is not earlier than it. */
  function InsertByTime(x: CheckRecord, rows: seq<CheckRecord>): (r: seq<CheckRecord>)
    ensures multiset(r) == multiset(rows) + multiset{x}
    decreases |rows|
  {
    if rows == [] || x.checkedAt <= rows[0].checkedAt then [x] + rows
    else
      assert rows == [rows[0]] + rows[1..];
      [rows[0]] + InsertByTime(x, rows[1..])
  }

  /** Every row is at `t` or later. */
  predicate NotBefore(rows: seq<CheckRecord>, t: int)
  {
    forall i :: 0 <= i < |rows| ==> t <= rows[i].checkedAt
  }

  lemma {:induction false} InsertByTimeNotBefore(x: CheckRecord, rows: seq<CheckRecord>, t: int)
    requires t <= x.checkedAt && NotBefore(rows, t)
    ensures NotBefore(InsertByTime(x, rows), t)
    decreases |rows|
  {
    if rows != [] && x.checkedAt > rows[0].checkedAt {
      InsertByTimeNotBefore(x, rows[1..], t);
      var rest := InsertByTime(x, rows[1..]);
      assert forall i :: 1 <= i < |[rows[0]] + rest| ==> ([rows[0]] + rest)[i] == rest[i - 1];
    }
  }

  /** A row followed by later rows in time order is in time order. */
  lemma ChronologicalCons(a: CheckRecord, rows: seq<CheckRecord>)
    requires NotBefore(rows, a.checkedAt) && Chronological(rows)
    ensures Chronological([a] + rows)
  {
    var r := [a] + rows;
    forall i, j | 0 <= i < j < |r| ensures r[i].checkedAt <= r[j].checkedAt {
      assert r[j] == rows[j - 1];
      if i > 0 {
        assert r[i] == rows[i - 1];
      }
    }
  }

  lemma {:induction false} InsertByTimeChronological(x: CheckRecord, rows: seq<CheckRecord>)
    requires Chronological(rows)
    ensures Chronological(InsertByTime(x, rows))
    decreases |rows|
  {
    if rows == [] || x.checkedAt <= rows[0].checkedAt {
      ChronologicalCons(x, rows);
    } else {
      var tail := rows[1..];
      assert Chronological(tail) && NotBefore(tail, rows[0].checkedAt);
      InsertByTimeChronological(x, tail);
      InsertByTimeNotBefore(x, tail, rows[0].checkedAt);
      ChronologicalCons(rows[0], InsertByTime(x, tail));
    }
  }

  /** ORDER BY checked_at ASC, as a stable insertion sort: rows with equal
      timestamps keep their insertion order. */
  function SortByTime(rows: seq<CheckRecord>): (r: seq<CheckRecord>)
    ensures Chronological(r)
    ensures multiset(r) == multiset(rows)
    decreases |rows|
  {
    if rows == [] then []
    else
      assert rows == [rows[0]] + rows[1..];
      InsertByTimeChronological(rows[0], SortByTime(rows[1..]));
      InsertByTime(rows[0], SortByTime(rows[1..]))
  }

  /** When timestamps already follow insertion order, sorting changes nothing. */
  lemma {:induction false} SortByTimeKeepsChronological(rows: seq<CheckRecord>)
    requires Chronological(rows)
    ensures SortByTime(rows) == rows
    decreases |rows|
  {
    if rows != [] {
      SortByTimeKeepsChronological(rows[1..]);
      assert rows == [rows[0]] + rows[1..];
    }
  }

  /** The rows of one service, in their order. */
  function ForService(rows: seq<CheckRecord>, serviceId: int): (r: seq<CheckRecord>)
    ensures |r| <= |rows|
    decreases |rows|
  {
    if rows == [] then []
    else
      var init := ForService(rows[..|rows| - 1], serviceId);
      var last := rows[|rows| - 1];
      assert rows == rows[..|rows| - 1] + [last];
      if last.serviceId == serviceId then init + [last] else init
  }

  /** The records kept are exactly those of the given service. */
  lemma {:induction false} ForServiceMembers(rows: seq<CheckRecord>, serviceId: int)
    ensures forall x :: x in ForService(rows, serviceId) <==> x in rows && x.serviceId == serviceId
    decreases |rows|
  {
    if rows != [] {
      ForServiceMembers(rows[..|rows| - 1], serviceId);
      assert rows == rows[..|rows| - 1] + [rows[|rows| - 1]];
    }
  }

  lemma {:induction false} ForServiceChronological(rows: seq<CheckRecord>, serviceId: int)
    requires Chronological(rows)
    ensures Chronological(ForService(rows, serviceId))
    decreases |rows|
  {
    if rows != [] {
      var init := rows[..|rows| - 1];
      ForServiceChronological(init, serviceId);
      ForServiceMembers(init, serviceId);
      forall x | x in ForService(init, serviceId) ensures x.checkedAt <= rows[|rows| - 1].checkedAt {
        var k :| 0 <= k < |init| && init[k] == x;
      }
    }
  }

  lemma {:induction false} ForServiceCount(rows: seq<CheckRecord>, serviceId: int, x: CheckRecord)
    ensures multiset(ForService(rows, serviceId))[x]
         == if x.serviceId == serviceId then multiset(rows)[x] else 0
    decreases |rows|
  {
    if rows != [] {
      var init := rows[..|rows| - 1];
      ForServiceCount(init, serviceId, x);
      assert rows == init + [rows[|rows| - 1]];
    }
  }

  /** Selecting one service's rows commutes with reordering. */
  lemma ForServicePermutation(a: seq<CheckRecord>, b: seq<CheckRecord>, serviceId: int)
    requires multiset(a) == multiset(b)
    ensures multiset(ForService(a, serviceId)) == multiset(ForService(b, serviceId))
  {
    forall x ensures multiset(ForService(a, serviceId))[x] == multiset(ForService(b, serviceId))[x] {
      ForServiceCount(a, serviceId, x);
      ForServiceCount(b, serviceId, x);
    }
  }

  /** `[r.status == "up" for r in rows]`. */
  function UpFlags(rows: seq<CheckRecord>): (r: seq<bool>)
    ensures |r| == |rows|
    ensures forall i :: 0 <= i < |rows| ==> r[i] == (rows[i].status == Up)
    decreases |rows|
  {
    if rows == [] then [] else UpFlags(rows[..|rows| - 1]) + [rows[|rows| - 1].status == Up]
  }

  lemma SparklineAppend(rows: seq<CheckRecord>, x: CheckRecord, serviceId: int)
    ensures Sparkline(rows + [x], serviceId)
         == Sparkline(rows, serviceId) + (if x.serviceId == serviceId then [x.status == Up] else [])
  {
    var all := rows + [x];
    assert all[..|all| - 1] == rows;
    var f := ForService(rows, serviceId);
    var g := f + [x];
    assert g[..|g| - 1] == f;
  }

  /** The sparkline query: the last 24 hours of checks, ascending by time. */
  function WindowRows(rows: seq<CheckRecord>, now: int): seq<CheckRecord>
  {
    SortByTime(AtOrAfter(rows, now - SparklineWindowSeconds))
  }

  /** The sparkline of one service over the given query rows. */
  function Sparkline(rows: seq<CheckRecord>, serviceId: int): seq<bool>
  {
    UpFlags(ForService(rows, serviceId))
  }

  /** A service's sparkline is one flag per record of that service from the
      last 24 hours, oldest first, and nothing else; so it is empty when the
      service has no such record. */
  lemma SparklineOfWindow(rows: seq<CheckRecord>, now: int, serviceId: int)
    ensures var w := ForService(WindowRows(rows, now), serviceId);
      && Chronological(w)
      && multiset(w) == multiset(ForService(AtOrAfter(rows, now - SparklineWindowSeconds), serviceId))
      && |Sparkline(WindowRows(rows, now), serviceId)| == |w|
      && (forall i :: 0 <= i < |w| ==> Sparkline(WindowRows(rows, now), serviceId)[i] == (w[i].status == Up))
    ensures (forall x :: x in rows && x.serviceId == serviceId ==> x.checkedAt < now - SparklineWindowSeconds)
      ==> Sparkline(WindowRows(rows, now), serviceId) == []
  {
    var recent := AtOrAfter(rows, now - SparklineWindowSeconds);
    ForServiceChronological(WindowRows(rows, now), serviceId);
    ForServicePermutation(WindowRows(rows, now), recent, serviceId);
    var w := ForService(WindowRows(rows, now), serviceId);
    if w != [] {
      assert w[0] in multiset(w);
      assert w[0] in ForService(recent, serviceId);
      ForServiceMembers(recent, serviceId);
      AtOrAfterMembers(rows, now - SparklineWindowSeconds);
    }
  }

  lemma {:induction false} AtOrAfterKeepsAll(rows: seq<CheckRecord>, since: int)
    requires NotBefore(rows, since)
    ensures AtOrAfter(rows, since) == rows
    decreases |rows|
  {
    if rows != [] {
      AtOrAfterKeepsAll(rows[..|rows| - 1], since);
    }
  }

  lemma {:induction false} ForServiceKeepsAll(rows: seq<CheckRecord>, serviceId: int)
    requires forall i :: 0 <= i < |rows| ==> rows[i].serviceId == serviceId
    ensures ForService(rows, serviceId) == rows
    decreases |rows|
  {
    if rows != [] {
      ForServiceKeepsAll(rows[..|rows| - 1], serviceId);
    }
  }

  /** Rows of the last 24 hours that are already in time order are the
      query's answer, as they are. */
  lemma WindowKeepsAll(rows: seq<CheckRecord>, now: int)
    requires NotBefore(rows, now - SparklineWindowSeconds) && Chronological(rows)
    ensures WindowRows(rows, now) == rows
  {
    AtOrAfterKeepsAll(rows, now - SparklineWindowSeconds);
    SortByTimeKeepsChronological(rows);
  }

  /** Three checks of one service, up, down, up, within the window give
      the sparkline true, false, true in the same order. */
  lemma SparklineExample(rows: seq<CheckRecord>, now: int)
    requires |rows| == 3
    requires rows[0].serviceId == rows[1].serviceId == rows[2].serviceId
    requires now - SparklineWindowSeconds <= rows[0].checkedAt <= rows[1].checkedAt <= rows[2].checkedAt
    requires rows[0].status == Up && rows[1].status == Down && rows[2].status == Up
    ensures Sparkline(WindowRows(rows, now), rows[0].serviceId) == [true, false, true]
  {
    WindowKeepsAll(rows, now);
    ForServiceKeepsAll(rows, rows[0].serviceId);
    var flags := UpFlags(rows);
    assert flags == [true, false, true];
  }
}
