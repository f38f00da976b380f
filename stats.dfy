/** The integer part of the analytics view: duration totals per session
    mode, the per-subject breakdown built in a dictionary and sorted by total,
    and the daily-goal percentage. Everything is recomputed from the ledger;
    sums are left folds, as `reduce` and `forEach` compute them. */
module Stats {
  import opened Ledger

  /** The sum of every session's duration. */
  function SumDurations(logs: seq<SessionLog>): nat {
    if logs == [] then 0
    else SumDurations(logs[..|logs| - 1]) + logs[|logs| - 1].duration
  }

  /** `logs.filter(l => l.type === kind).reduce((acc, l) => acc + l.duration, 0)`. */
  function TotalOfType(logs: seq<SessionLog>, kind: string): (n: nat)
    ensures n <= SumDurations(logs)
  {
    if logs == [] then 0
    else
      var last := logs[|logs| - 1];
      TotalOfType(logs[..|logs| - 1], kind) + (if last.kind == kind then last.duration else 0)
  }

  predicate IsKnownKind(kind: string) {
    kind == SelfStudy || kind == Coaching
  }

  /** The sessions whose mode is one of the two the page offers. */
  function KnownLogs(logs: seq<SessionLog>): (r: seq<SessionLog>)
    ensures forall x :: x in r ==> x in logs && IsKnownKind(x.kind)
  {
    if logs == [] then []
    else
      var last := logs[|logs| - 1];
      KnownLogs(logs[..|logs| - 1]) + (if IsKnownKind(last.kind) then [last] else [])
  }

  /** `totalSelf + totalCoach`: the summed duration of the self-study and
      coaching sessions. */
  function TotalTime(logs: seq<SessionLog>): (n: nat)
    ensures n == SumDurations(KnownLogs(logs))
  {
    TotalTimeIsKnownSum(logs);
    TotalOfType(logs, SelfStudy) + TotalOfType(logs, Coaching)
  }

  /** The two mode totals add up to the summed duration of exactly the
      self-study and coaching sessions. */
  lemma {:induction false} TotalTimeIsKnownSum(logs: seq<SessionLog>)
    ensures TotalOfType(logs, SelfStudy) + TotalOfType(logs, Coaching) == SumDurations(KnownLogs(logs))
  {
    if logs != [] {
      var init, last := logs[..|logs| - 1], logs[|logs| - 1];
      TotalTimeIsKnownSum(init);
      var k := KnownLogs(init);
      if IsKnownKind(last.kind) {
        assert (k + [last])[..|k|] == k;
      } else {
        assert k + [] == k;
      }
    }
  }

  /** When every session has one of the two modes, the total time is the
      summed duration of the whole ledger. */
  lemma {:induction false} TotalTimeAllKnown(logs: seq<SessionLog>)
    requires forall i :: 0 <= i < |logs| ==> IsKnownKind(logs[i].kind)
    ensures TotalTime(logs) == SumDurations(logs)
  {
    if logs != [] {
      var init := logs[..|logs| - 1];
      TotalTimeAllKnown(init);
    }
  }

  /** The sum of the durations of the sessions recorded under one subject. */
  function SubjectTotal(logs: seq<SessionLog>, subject: string): nat {
    if logs == [] then 0
    else
      var last := logs[|logs| - 1];
      SubjectTotal(logs[..|logs| - 1], subject) + (if last.subject == subject then last.duration else 0)
  }

  predicate NoDuplicates(keys: seq<string>) {
    forall i, j :: 0 <= i < j < |keys| ==> keys[i] != keys[j]
  }

  /** The position of the first session recorded under a subject, or
      `|logs|` when there is none. */
  function FirstIndex(logs: seq<SessionLog>, subject: string): (k: nat)
    ensures k <= |logs|
    ensures k < |logs| ==> logs[k].subject == subject
    ensures forall j :: 0 <= j < k ==> logs[j].subject != subject
  {
    if logs == [] then 0
    else
      var init := logs[..|logs| - 1];
      var k := FirstIndex(init, subject);
      if k < |init| then k
      else if logs[|logs| - 1].subject == subject then |logs| - 1
      else |logs|
  }

  /** The subjects in the order the breakdown loop first meets them (the
      key order of `Object.entries`); `DistinctSubjectsOrder` states that order. */
  function DistinctSubjects(logs: seq<SessionLog>): (d: seq<string>)
    ensures NoDuplicates(d)
    ensures forall i :: 0 <= i < |logs| ==> logs[i].subject in d
  {
    if logs == [] then []
    else
      var init, last := logs[..|logs| - 1], logs[|logs| - 1];
      var d := DistinctSubjects(init);
      assert forall i :: 0 <= i < |init| ==> logs[i] == init[i];
      if last.subject in d then d else d + [last.subject]
  }

  /** The subjects d are listed by strictly increasing position of their
      first session in logs, and each of them has one. */
  predicate InFirstOrder(logs: seq<SessionLog>, d: seq<string>) {
    && (forall i :: 0 <= i < |d| ==> FirstIndex(logs, d[i]) < |logs|)
    && (forall i, j :: 0 <= i < j < |d| ==> FirstIndex(logs, d[i]) < FirstIndex(logs, d[j]))
  }

  /** First-encounter order: every subject listed has a first session, and
      the subjects are listed by strictly increasing position of it. */
  lemma {:induction false} DistinctSubjectsOrder(logs: seq<SessionLog>)
    ensures InFirstOrder(logs, DistinctSubjects(logs))
  {
    if logs != [] {
      var init := logs[..|logs| - 1];
      var d := DistinctSubjects(init);
      DistinctSubjectsOrder(init);
      FirstIndexExtend(logs, d);
      if logs[|logs| - 1].subject !in d {
        assert forall i :: 0 <= i < |init| ==> logs[i] == init[i];
        FirstIndexNew(logs, d);
      }
    }
  }

  /** A subject already met before the last session keeps its first position. */
  lemma FirstIndexExtend(logs: seq<SessionLog>, d: seq<string>)
    requires logs != []
    requires InFirstOrder(logs[..|logs| - 1], d)
    ensures forall i :: 0 <= i < |d| ==> FirstIndex(logs, d[i]) == FirstIndex(logs[..|logs| - 1], d[i])
    ensures forall i :: 0 <= i < |d| ==> FirstIndex(logs, d[i]) < |logs| - 1
    ensures InFirstOrder(logs, d)
  {
  }

  /** A subject first met at the last session sits at its end, after every
      subject met before it. */
  lemma FirstIndexNew(logs: seq<SessionLog>, d: seq<string>)
    requires logs != []
    requires forall i :: 0 <= i < |logs| - 1 ==> logs[i].subject in d
    requires logs[|logs| - 1].subject !in d
    requires forall i :: 0 <= i < |d| ==> FirstIndex(logs, d[i]) < |logs| - 1
    requires InFirstOrder(logs, d)
    ensures InFirstOrder(logs, d + [logs[|logs| - 1].subject])
  {
    var x := logs[|logs| - 1].subject;
    assert FirstIndex(logs, x) == |logs| - 1;
    var d' := d + [x];
    assert forall i :: 0 <= i < |d| ==> d'[i] == d[i];
  }

  /** Every listed subject is carried by some session. */
  lemma {:induction false} DistinctSubjectsOccur(logs: seq<SessionLog>, s: string)
    requires s in DistinctSubjects(logs)
    ensures exists i :: 0 <= i < |logs| && logs[i].subject == s
  {
    var init := logs[..|logs| - 1];
    if s in DistinctSubjects(init) {
      DistinctSubjectsOccur(init, s);
      var i :| 0 <= i < |init| && init[i].subject == s;
      assert logs[i] == init[i];
    } else {
      assert logs[|logs| - 1].subject == s;
    }
  }

  /** A subject no session carries has total zero. */
  lemma {:induction false} SubjectAbsent(logs: seq<SessionLog>, subject: string)
    requires forall i :: 0 <= i < |logs| ==> logs[i].subject != subject
    ensures SubjectTotal(logs, subject) == 0
  {
    if logs != [] {
      SubjectAbsent(logs[..|logs| - 1], subject);
    }
  }

  /** One more session extends the subject order by its subject if new. */
  lemma DistinctStep(logs: seq<SessionLog>, i: nat)
    requires i < |logs|
    ensures var d := DistinctSubjects(logs[..i]);
      DistinctSubjects(logs[..i + 1]) == if logs[i].subject in d then d else d + [logs[i].subject]
  {
    assert logs[..i + 1][..i] == logs[..i];
  }

  /** One more session adds its duration to its own subject's total only. */
  lemma TotalStep(logs: seq<SessionLog>, i: nat, subject: string)
    requires i < |logs|
    ensures SubjectTotal(logs[..i + 1], subject)
         == SubjectTotal(logs[..i], subject) + (if logs[i].subject == subject then logs[i].duration else 0)
  {
    assert logs[..i + 1][..i] == logs[..i];
  }

  /** The body of the `forEach` callback: a subject seen for the first time
      (or holding 0) is set to 0, then the session's duration is added. */
  method Accumulate(stats: map<string, nat>, keys: seq<string>, log: SessionLog)
    returns (stats': map<string, nat>, keys': seq<string>)
    requires forall k :: k in stats <==> k in keys
    ensures keys' == if log.subject in keys then keys else keys + [log.subject]
    ensures forall k :: k in stats' <==> k in keys'
    ensures forall k :: k in stats' ==>
      stats'[k] == (if k in stats then stats[k] else 0) + (if k == log.subject then log.duration else 0)
  {
    stats', keys' := stats, keys;
    if log.subject !in stats' || stats'[log.subject] == 0 {
      if log.subject !in stats' {
        keys' := keys' + [log.subject];
      }
      stats' := stats'[log.subject := 0];
    }
    stats' := stats'[log.subject := stats'[log.subject] + log.duration];
  }

  /** The loop of the analytics view that fills the `subjectStats`
      dictionary. A Dafny map has no key order, so the insertion order the
      dictionary keeps is returned beside it. */
  method BuildSubjectStats(logs: seq<SessionLog>) returns (stats: map<string, nat>, keys: seq<string>)
    ensures keys == DistinctSubjects(logs)
    ensures forall k :: k in stats <==> k in keys
    ensures forall k :: k in stats ==> stats[k] == SubjectTotal(logs, k)
  {
    stats, keys := map[], [];
    var i := 0;
    assert logs[..0] == [];
    while i < |logs|
      invariant 0 <= i <= |logs|
      invariant keys == DistinctSubjects(logs[..i])
      invariant forall k :: k in stats <==> k in keys
      invariant forall k :: k in stats ==> stats[k] == SubjectTotal(logs[..i], k)
    {
      var log := logs[i];
      DistinctStep(logs, i);
      if log.subject !in stats {
        SubjectAbsent(logs[..i], log.subject);
      }
      ghost var before := stats;
      stats, keys := Accumulate(stats, keys, log);
      forall k | k in stats ensures stats[k] == SubjectTotal(logs[..i + 1], k) {
        TotalStep(logs, i, k);
      }
      i := i + 1;
    }
    assert logs[..i] == logs;
  }

  /** One row of the breakdown: a subject and its total in seconds. */
  type Row = (string, nat)

  /** The rows for the given subjects, in that order. */
  function RowsFor(logs: seq<SessionLog>, keys: seq<string>): (rows: seq<Row>)
    ensures |rows| == |keys|
    ensures forall i :: 0 <= i < |rows| ==> rows[i].0 == keys[i]
    ensures forall i :: 0 <= i < |rows| ==> rows[i].1 == SubjectTotal(logs, keys[i])
  {
    if keys == [] then []
    else
      var k := keys[|keys| - 1];
      RowsFor(logs, keys[..|keys| - 1]) + [(k, SubjectTotal(logs, k))]
  }

  /** `Object.entries(subjectStats)`: one row per subject, in first-encounter order. */
  function SubjectEntries(logs: seq<SessionLog>): (rows: seq<Row>)
    ensures |rows| == |DistinctSubjects(logs)|
    ensures forall i :: 0 <= i < |rows| ==>
      rows[i] == (DistinctSubjects(logs)[i], SubjectTotal(logs, DistinctSubjects(logs)[i]))
  {
    RowsFor(logs, DistinctSubjects(logs))
  }

  function SumRows(rows: seq<Row>): nat {
    if rows == [] then 0 else rows[0].1 + SumRows(rows[1..])
  }

  lemma {:induction false} SumRowsAppend(a: seq<Row>, b: seq<Row>)
    ensures SumRows(a + b) == SumRows(a) + SumRows(b)
  {
    if a == [] {
      assert a + b == b;
    } else {
      assert (a + b)[1..] == a[1..] + b;
      SumRowsAppend(a[1..], b);
    }
  }

  /** Adding one session to the ledger raises the row sum over distinct
      subjects by its duration exactly when its subject is among them. */
  lemma {:induction false} RowsForExtend(logs: seq<SessionLog>, x: SessionLog, keys: seq<string>)
    requires NoDuplicates(keys)
    ensures SumRows(RowsFor(logs + [x], keys))
         == SumRows(RowsFor(logs, keys)) + (if x.subject in keys then x.duration else 0)
  {
    assert (logs + [x])[..|logs|] == logs;
    if keys != [] {
      var init, k := keys[..|keys| - 1], keys[|keys| - 1];
      assert keys == init + [k];
      RowsForExtend(logs, x, init);
      SumRowsAppend(RowsFor(logs + [x], init), [(k, SubjectTotal(logs + [x], k))]);
      SumRowsAppend(RowsFor(logs, init), [(k, SubjectTotal(logs, k))]);
      assert x.subject in keys <==> x.subject in init || x.subject == k;
      assert x.subject == k ==> x.subject !in init;
    }
  }

  /** The per-subject totals add up to the summed duration of the ledger:
      every session is counted under exactly one subject. */
  lemma {:induction false} SubjectTotalsSum(logs: seq<SessionLog>)
    ensures SumRows(SubjectEntries(logs)) == SumDurations(logs)
  {
    if logs != [] {
      var init, x := logs[..|logs| - 1], logs[|logs| - 1];
      assert logs == init + [x];
      SubjectTotalsSum(init);
      var d := DistinctSubjects(init);
      RowsForExtend(init, x, d);
      if x.subject !in d {
        var d' := d + [x.subject];
        assert d'[..|d|] == d;
        forall i | 0 <= i < |init| ensures init[i].subject != x.subject {
          assert init[i].subject in d;
        }
        SubjectAbsent(init, x.subject);
        SumRowsAppend(RowsFor(logs, d), [(x.subject, SubjectTotal(logs, x.subject))]);
      }
    }
  }

  predicate SortedDescending(rows: seq<Row>) {
    forall i, j :: 0 <= i < j < |rows| ==> rows[i].1 >= rows[j].1
  }

  /** Insert a row in front of the first row with a total not above its own. */
  function Insert(x: Row, rows: seq<Row>): (r: seq<Row>)
    requires SortedDescending(rows)
    ensures SortedDescending(r)
    ensures multiset(r) == multiset(rows) + multiset{x}
    ensures SumRows(r) == x.1 + SumRows(rows)
    ensures r != [] && (r[0] == x || (rows != [] && r[0] == rows[0]))
  {
    if rows == [] || x.1 >= rows[0].1 then [x] + rows
    else
      var rest := Insert(x, rows[1..]);
      assert rows == [rows[0]] + rows[1..];
      assert ([rows[0]] + rest)[1..] == rest;
      forall j | 0 <= j < |rest| ensures rows[0].1 >= rest[j].1 {
        assert rest[j] in multiset(rest);
        if rest[j] != x {
          assert rest[j] in multiset(rows[1..]);
          var i :| 0 <= i < |rows[1..]| && rows[1..][i] == rest[j];
          assert rows[i + 1] == rest[j];
        }
      }
      PrependSorted(rows[0], rest);
      [rows[0]] + rest
  }

  /** A row no smaller than every row of a descending list can go in front. */
  lemma PrependSorted(h: Row, rows: seq<Row>)
    requires SortedDescending(rows)
    requires forall j :: 0 <= j < |rows| ==> h.1 >= rows[j].1
    ensures SortedDescending([h] + rows)
  {
    var r := [h] + rows;
    forall i, j | 0 <= i < j < |r| ensures r[i].1 >= r[j].1 {
      if i > 0 {
        assert r[i] == rows[i - 1] && r[j] == rows[j - 1];
      } else {
        assert r[j] == rows[j - 1];
      }
    }
  }

  /** `.sort(([, a], [, b]) => b - a)` as an insertion sort: the rows in
      non-increasing order of total, a permutation of the input. */
  function SortDescending(rows: seq<Row>): (r: seq<Row>)
    ensures SortedDescending(r)
    ensures multiset(r) == multiset(rows)
    ensures SumRows(r) == SumRows(rows)
  {
    if rows == [] then []
    else
      assert rows == [rows[0]] + rows[1..];
      Insert(rows[0], SortDescending(rows[1..]))
  }

  /** The breakdown the analytics view lists. */
  function Breakdown(logs: seq<SessionLog>): (rows: seq<Row>)
    ensures SortedDescending(rows)
    ensures multiset(rows) == multiset(SubjectEntries(logs))
  {
    SortDescending(SubjectEntries(logs))
  }

  /** The sorted breakdown lists every subject exactly once with its total,
      in non-increasing order, and its totals add up to the ledger's. */
  lemma BreakdownProperties(logs: seq<SessionLog>)
    ensures SortedDescending(Breakdown(logs))
    ensures multiset(Breakdown(logs)) == multiset(SubjectEntries(logs))
    ensures SumRows(Breakdown(logs)) == SumDurations(logs)
    ensures forall r :: r in Breakdown(logs) ==> r.1 == SubjectTotal(logs, r.0)
    ensures forall i :: 0 <= i < |logs| ==> exists r :: r in Breakdown(logs) && r.0 == logs[i].subject
  {
    SubjectTotalsSum(logs);
    BreakdownTotals(logs);
    BreakdownCovers(logs);
  }

  /** Every breakdown row carries its own subject's total. */
  lemma BreakdownTotals(logs: seq<SessionLog>)
    ensures forall r :: r in Breakdown(logs) ==> r.1 == SubjectTotal(logs, r.0)
  {
    var e := SubjectEntries(logs);
    var b := Breakdown(logs);
    assert multiset(b) == multiset(e);
    forall r | r in b ensures r.1 == SubjectTotal(logs, r.0) {
      assert r in multiset(b);
      assert r in multiset(e);
    }
  }

  /** Every subject of the ledger has a breakdown row. */
  lemma BreakdownCovers(logs: seq<SessionLog>)
    ensures forall i :: 0 <= i < |logs| ==> exists r :: r in Breakdown(logs) && r.0 == logs[i].subject
  {
    var e := SubjectEntries(logs);
    var b := Breakdown(logs);
    var d := DistinctSubjects(logs);
    assert multiset(b) == multiset(e);
    forall i | 0 <= i < |logs| ensures exists r :: r in b && r.0 == logs[i].subject {
      assert logs[i].subject in d;
      var j :| 0 <= j < |d| && d[j] == logs[i].subject;
      assert e[j] in multiset(e);
      assert e[j] in b;
    }
  }

  /** With every session in one of the two modes, the subject totals add up
      to `totalTime`, so the subject percentages add up to 100. */
  lemma BreakdownSumsToTotalTime(logs: seq<SessionLog>)
    requires forall i :: 0 <= i < |logs| ==> IsKnownKind(logs[i].kind)
    ensures SumRows(Breakdown(logs)) == TotalTime(logs)
  {
    BreakdownProperties(logs);
    TotalTimeAllKnown(logs);
  }

  /** What the breakdown area shows: an empty-state message when the total
      time is zero, otherwise the sorted rows. */
  datatype BarsView = NoData | Bars(rows: seq<Row>)

  /** The subject-breakdown part of the analytics view: builds the dictionary,
      takes its entries and sorts them. */
  method RenderBars(logs: seq<SessionLog>) returns (v: BarsView)
    ensures v.NoData? <==> TotalTime(logs) == 0
    ensures v.Bars? ==> v.rows == Breakdown(logs)
  {
    var stats, keys := BuildSubjectStats(logs);
    if TotalTime(logs) == 0 {
      return NoData;
    }
    var entries := seq(|keys|, i requires 0 <= i < |keys| => (keys[i], stats[keys[i]]));
    assert entries == SubjectEntries(logs);
    v := Bars(SortDescending(entries));
  }

  /** The fixed daily goal, in seconds. */
  const GoalSeconds: nat := 6 * 3600

  /** An integer idealisation of the sidebar goal bar,
      `Math.min(hours / 6 * 100, 100)`, with the percentage rounded down. */
  function GoalPercent(totalTime: nat): (p: nat)
    ensures p <= 100
    ensures p == 100 <==> totalTime >= GoalSeconds
    ensures p < 100 ==> p * GoalSeconds <= totalTime * 100 < (p + 1) * GoalSeconds
  {
    if totalTime >= GoalSeconds then 100 else totalTime * 100 / GoalSeconds
  }

  /** An hour and a half of sessions is a quarter of the goal; ten hours
      are still shown as 100. */
  lemma GoalExamples()
    ensures GoalPercent(3600 + 1800) == 25
    ensures GoalPercent(10 * 3600) == 100
  {
  }
}
