/** The page's single state object: the session timer, the ledger, the
    syllabus list and the two records the page keeps in local storage. Each
    method is one event handler of the page, with its DOM work left out; the
    views it re-renders are the functions of `Ledger`, `Syllabus` and `Stats`
    applied to the new state. */
module App {
  import opened Ledger
  import opened Syllabus
  import Clock

  datatype Option<T> = None | Some(value: T)

  /** What a page load reads from a stored record: `JSON.parse(...) || []`,
      so a missing record reads as an empty list. */
  function Load<T>(record: Option<seq<T>>): seq<T> {
    match record
    case None => []
    case Some(items) => items
  }

  /** The two states of the session timer. */
  datatype TimerState = Idle | Running(kind: string)

  class AppState {
    var logs: seq<SessionLog>
    var syllabus: seq<Item>
    var seconds: nat
    var isRunning: bool
    var timerType: string
    /** The records under 'study_pro_logs' and 'study_pro_syllabus'. */
    var storedLogs: Option<seq<SessionLog>>
    var storedSyllabus: Option<seq<Item>>

    /** The timer only counts while it runs, and both stored records hold
        what is in memory (write-through). */
    ghost predicate Valid()
      reads this
    {
      && (!isRunning ==> seconds == 0)
      && Load(storedLogs) == logs
      && Load(storedSyllabus) == syllabus
    }

    /** The timer display, which the page refreshes whenever the count changes. */
    function Display(): (text: string)
      reads this
      ensures |text| >= 8 && text[|text| - 3] == ':' && text[|text| - 6] == ':'
      ensures seconds < 100 * 3600 ==> |text| == 8
      ensures seconds == 0 ==> text == "00:00:00"
    {
      if seconds == 0 then
        Clock.FormatZero();
        Clock.Format(0)
      else Clock.Format(seconds)
    }

    ghost function State(): TimerState
      reads this
    {
      if isRunning then Running(timerType) else Idle
    }

    /** Page load: both collections come from storage, the timer is idle at
        zero in self-study mode. */
    constructor (storedLogs: Option<seq<SessionLog>>, storedSyllabus: Option<seq<Item>>)
      ensures Valid() && State() == Idle
      ensures logs == Load(storedLogs) && syllabus == Load(storedSyllabus)
      ensures this.storedLogs == storedLogs && this.storedSyllabus == storedSyllabus
      ensures seconds == 0 && timerType == SelfStudy
    {
      logs := Load(storedLogs);
      syllabus := Load(storedSyllabus);
      seconds := 0;
      isRunning := false;
      timerType := SelfStudy;
      this.storedLogs := storedLogs;
      this.storedSyllabus := storedSyllabus;
    }

    /** `startTimer(type)`: ignored while a session runs; otherwise the timer
        runs in the given mode and keeps its count. */
    method StartTimer(kind: string)
      requires Valid()
      modifies this
      ensures Valid()
      ensures old(isRunning) ==> unchanged(this)
      ensures !old(isRunning) ==> State() == Running(kind) && seconds == old(seconds)
      ensures logs == old(logs) && syllabus == old(syllabus)
      ensures storedLogs == old(storedLogs) && storedSyllabus == old(storedSyllabus)
    {
      if isRunning {
        return;
      }
      timerType := kind;
      isRunning := true;
    }

    /** One firing of the one-second interval: the count grows by one and the
        display shows it (`Display()`). The interval exists only while the timer runs. */
    method Tick()
      requires Valid() && isRunning
      modifies this`seconds
      ensures Valid()
      ensures seconds == old(seconds) + 1
    {
      seconds := seconds + 1;
    }

    /** `stopTimer()`: the timer becomes idle at zero. A session longer than
        one second is committed, newest first, with the count, the mode and
        the given id, end time and subject, and the ledger is stored. */
    method StopTimer(id: int, date: string, subject: string)
      requires Valid()
      modifies this
      ensures Valid()
      ensures State() == Idle && seconds == 0
      ensures old(seconds) > 1 ==>
        logs == [SessionLog(id, date, old(seconds), old(timerType), subject)] + old(logs)
      ensures old(seconds) <= 1 ==> logs == old(logs) && storedLogs == old(storedLogs)
      ensures timerType == old(timerType)
      ensures syllabus == old(syllabus) && storedSyllabus == old(storedSyllabus)
    {
      isRunning := false;
      if seconds > 1 {
        var log := SessionLog(id, date, seconds, timerType, subject);
        logs := [log] + logs;
        storedLogs := Some(logs);
      }
      seconds := 0;
    }

    /** `addSyllabusItem()`: blank input is ignored; otherwise the trimmed
        text is appended as an open item and the list is stored. */
    method AddSyllabusItem(input: string, id: int)
      requires Valid()
      modifies this`syllabus, this`storedSyllabus
      ensures Valid()
      ensures Trim(input) == [] ==> syllabus == old(syllabus) && storedSyllabus == old(storedSyllabus)
      ensures Trim(input) != [] ==> syllabus == old(syllabus) + [Item(id, Trim(input), false)]
    {
      var text := Trim(input);
      if text == [] {
        return;
      }
      syllabus := syllabus + [Item(id, text, false)];
      storedSyllabus := Some(syllabus);
    }

    /** `toggleSyllabus(id)`: finds the first item with the id and flips its
        flag; an unknown id changes nothing and stores nothing. */
    method ToggleSyllabus(id: int)
      requires Valid()
      modifies this`syllabus, this`storedSyllabus
      ensures Valid()
      ensures syllabus == Toggled(old(syllabus), id)
      ensures !HasId(old(syllabus), id) ==> syllabus == old(syllabus) && storedSyllabus == old(storedSyllabus)
    {
      var i := 0;
      while i < |syllabus| && syllabus[i].id != id
        invariant 0 <= i <= |syllabus|
        invariant forall j :: 0 <= j < i ==> syllabus[j].id != id
      {
        i := i + 1;
      }
      if i == |syllabus| {
        ToggleUnknown(syllabus, id);
        return;
      }
      var item := syllabus[i];
      ToggleFirst(syllabus, id, i);
      syllabus := syllabus[i := item.(done := !item.done)];
      storedSyllabus := Some(syllabus);
    }

    /** `deleteSyllabus(id)`: drops every item with the id and stores the list. */
    method DeleteSyllabus(id: int)
      requires Valid()
      modifies this`syllabus, this`storedSyllabus
      ensures Valid()
      ensures syllabus == Deleted(old(syllabus), id)
    {
      syllabus := Deleted(syllabus, id);
      storedSyllabus := Some(syllabus);
    }

    /** `clearAllData()`: when the user confirms, both records are removed and
        the page reloads into the empty state; otherwise nothing changes. */
    method ClearAllData(confirmed: bool)
      requires Valid()
      modifies this
      ensures Valid()
      ensures !confirmed ==> unchanged(this)
      ensures confirmed ==> storedLogs == None && storedSyllabus == None
      ensures confirmed ==> logs == [] && syllabus == [] && State() == Idle && seconds == 0 && timerType == SelfStudy
    {
      if !confirmed {
        return;
      }
      storedLogs, storedSyllabus := None, None;
      logs, syllabus := Load(storedLogs), Load(storedSyllabus);
      seconds, isRunning, timerType := 0, false, SelfStudy;
    }
  }

  /** A client of the timer contracts: two sessions are committed newest
      first, and a start while running is ignored. */
  method SessionsNewestFirst(app: AppState, a: int, b: int)
    requires app.Valid() && app.State() == Idle
    modifies app
  {
    var before := app.logs;
    app.StartTimer(SelfStudy);
    app.Tick(); app.Tick(); app.Tick();
    app.StopTimer(a, "t1", "Maths");
    var first := SessionLog(a, "t1", 3, SelfStudy, "Maths");
    assert app.logs == [first] + before;

    app.StartTimer(Coaching);
    app.StartTimer(SelfStudy);
    assert app.State() == Running(Coaching);
    app.Tick(); app.Tick();
    app.StopTimer(b, "t2", "Physics");
    assert app.logs == [SessionLog(b, "t2", 2, Coaching, "Physics"), first] + before;
  }

  /** A client of the timer contracts: a one-second session leaves the
      ledger and its stored record as they were. */
  method ShortSessionDropped(app: AppState, id: int)
    requires app.Valid() && app.State() == Idle
    modifies app
  {
    var before, stored := app.logs, app.storedLogs;
    app.StartTimer(SelfStudy);
    app.Tick();
    app.StopTimer(id, "t", "Maths");
    assert app.logs == before && app.storedLogs == stored;
  }

  /** A client of the syllabus contracts: blank input is ignored, other input
      becomes one open item. */
  method SyllabusScenario(a: int, b: int)
  {
    var app := new AppState(None, None);
    TrimExamples();
    app.AddSyllabusItem("   ", a);
    assert app.syllabus == [];
    var text := "Read Ch.1";
    app.AddSyllabusItem(text, b);
    assert app.syllabus == [Item(b, text, false)];
  }
}
