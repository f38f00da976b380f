/** The session ledger: immutable session records kept newest first, and the
    bounded recent view the dashboard shows. */
module Ledger {

  /** The two session modes the page offers. The mode is carried as the
      string the page passes to the timer, so a ledger may hold other values. */
  const SelfStudy: string := "self-study"
  const Coaching: string := "coaching"

  /** The number of rows the recent-activity table shows. */
  const RecentLimit: nat := 5

  /** One finished session. `date` is the ISO-8601 text of the end time;
      `duration` is in whole seconds. */
  datatype SessionLog = SessionLog(id: int, date: string, duration: nat, kind: string, subject: string)

  /** What the recent-activity table shows: a placeholder row when nothing is
      recorded, otherwise the newest sessions. */
  datatype LogsView = Placeholder | Rows(rows: seq<SessionLog>)

  function Min(a: nat, b: nat): nat {
    if a <= b then a else b
  }

  /** The rows of the recent-activity table for a non-empty ledger
      (`logs.slice(0, 5)`). */
  function Recent(logs: seq<SessionLog>): (r: seq<SessionLog>)
    ensures |r| == Min(RecentLimit, |logs|)
    ensures r <= logs
    ensures forall i :: 0 <= i < |r| ==> r[i] == logs[i]
  {
    if |logs| <= RecentLimit then logs else logs[..RecentLimit]
  }

  /** The recent-activity table: the placeholder exactly when the ledger is
      empty, otherwise the first `min(5, |logs|)` sessions, newest first. */
  function RenderLogs(logs: seq<SessionLog>): (v: LogsView)
    ensures v.Placeholder? <==> |logs| == 0
    ensures v.Rows? ==> 1 <= |v.rows| <= RecentLimit && v.rows <= logs
    ensures v.Rows? ==> |v.rows| == Min(RecentLimit, |logs|)
  {
    if |logs| == 0 then Placeholder else Rows(Recent(logs))
  }

  /** Newest first: the table shown right after a session is committed
      starts with that session, followed by the older rows in order. */
  lemma RecentAfterCommit(log: SessionLog, logs: seq<SessionLog>)
    ensures RenderLogs([log] + logs) == Rows(Recent([log] + logs))
    ensures Recent([log] + logs)[0] == log
    ensures Recent([log] + logs)[1..] == Recent(logs)[..Min(RecentLimit - 1, |logs|)]
  {
    var r := Recent([log] + logs);
    assert r[1..] == ([log] + logs)[1..|r|];
    assert ([log] + logs)[1..|r|] == logs[..|r| - 1];
  }
}
