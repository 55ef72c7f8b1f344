/**
 * The session store (ViewModels/SleepStore.swift): idle, or sleeping with one
 * in-progress record, plus the history of completed records.
 *
 * The store's behaviour is first given on values (StoreState and the
 * transition functions Started, Ended, Apply and Run), where the properties
 * of whole call sequences are proved; the class SleepStore then updates its
 * fields in place and is proved to follow those transitions.
 */
module ViewModels {
  import opened Wrappers
  import opened Models

  /**
   * What the store holds. `nextId` is the state of the id generator: every
   * id it hands out is new, as a UUID is.
   */
  datatype StoreState = StoreState(sleepRecords: seq<SleepRecord>, currentRecord: Option<SleepRecord>, nextId: RecordId)

  /** A call on the store, with the current time the clock would give it. */
  datatype Call = StartCall(note: string, now: Time) | EndCall(now: Time)

  /** The time at which a call happens. */
  function CallTime(c: Call): Time {
    match c
    case StartCall(_, now) => now
    case EndCall(now) => now
  }

  /** A fresh store: no history, no session. */
  const Initial := StoreState([], None, 0)

  /**
   * What every reachable state satisfies: every history record is complete,
   * the in-progress record is not, and ids are distinct and were all handed out.
   */
  ghost predicate Invariant(s: StoreState) {
    (forall i | 0 <= i < |s.sleepRecords| :: s.sleepRecords[i].IsComplete() && s.sleepRecords[i].id < s.nextId) &&
    (forall i, j | 0 <= i < j < |s.sleepRecords| :: s.sleepRecords[i].id != s.sleepRecords[j].id) &&
    (s.currentRecord.Some? ==>
       !s.currentRecord.value.IsComplete() &&
       s.currentRecord.value.id < s.nextId &&
       forall i | 0 <= i < |s.sleepRecords| :: s.sleepRecords[i].id != s.currentRecord.value.id)
  }

  /** startSleep: a new in-progress record replaces whatever was there. */
  function Started(s: StoreState, note: string, now: Time): StoreState {
    s.(currentRecord := Some(NewRecord(s.nextId, now, note := note)), nextId := s.nextId + 1)
  }

  /** endSleep: nothing when idle; otherwise stamp the wake time, append, clear. */
  function Ended(s: StoreState, now: Time): StoreState {
    match s.currentRecord
    case None => s
    case Some(record) =>
      var completed := NewRecord(record.id, record.sleepTime, Some(now), record.note);
      s.(sleepRecords := s.sleepRecords + [completed], currentRecord := None)
  }

  function Apply(s: StoreState, c: Call): StoreState {
    match c
    case StartCall(note, now) => Started(s, note, now)
    case EndCall(now) => Ended(s, now)
  }

  /** The state after the calls `cs`, in order. */
  function Run(s: StoreState, cs: seq<Call>): StoreState
    decreases |cs|
  {
    if cs == [] then s else Run(Apply(s, cs[0]), cs[1..])
  }

  /**
   * startSleep leaves the history alone and installs an in-progress record
   * with the given note and start time and an id never used before.
   */
  lemma StartedEffect(s: StoreState, note: string, now: Time)
    requires Invariant(s)
    ensures Started(s, note, now).sleepRecords == s.sleepRecords
    ensures Started(s, note, now).currentRecord.Some?
    ensures var r := Started(s, note, now).currentRecord.value;
      r.sleepTime == now && r.wakeTime == None && r.note == note &&
      (forall i | 0 <= i < |s.sleepRecords| :: s.sleepRecords[i].id != r.id) &&
      (s.currentRecord.Some? ==> s.currentRecord.value.id != r.id)
  {
  }

  /**
   * Starting while a session is active loses that session: its id is in
   * neither the history nor the new in-progress record.
   */
  lemma StartWhileSleepingDiscards(s: StoreState, note: string, now: Time)
    requires Invariant(s) && s.currentRecord.Some?
    ensures var t := Started(s, note, now);
      t.sleepRecords == s.sleepRecords &&
      t.currentRecord.value.id != s.currentRecord.value.id &&
      forall i | 0 <= i < |t.sleepRecords| :: t.sleepRecords[i].id != s.currentRecord.value.id
  {
  }

  /** endSleep with no session is a no-op. */
  lemma EndedWhenIdle(s: StoreState, now: Time)
    requires s.currentRecord.None?
    ensures Ended(s, now) == s
  {
  }

  /**
   * endSleep on an active session appends exactly one record, which keeps the
   * session's id, start and note and wakes at `now`, and leaves the store idle.
   */
  lemma EndedWhenSleeping(s: StoreState, now: Time)
    requires s.currentRecord.Some?
    ensures var t := Ended(s, now);
      var r := s.currentRecord.value;
      |t.sleepRecords| == |s.sleepRecords| + 1 &&
      s.sleepRecords <= t.sleepRecords &&
      t.sleepRecords[|s.sleepRecords|] == SleepRecord(r.id, r.sleepTime, Some(now), r.note) &&
      t.sleepRecords[|s.sleepRecords|].Duration() == Some(now - r.sleepTime) &&
      t.currentRecord == None && t.nextId == s.nextId
  {
  }

  /** Every call keeps the invariant. */
  lemma ApplyKeepsInvariant(s: StoreState, c: Call)
    requires Invariant(s)
    ensures Invariant(Apply(s, c))
  {
  }

  /** Every sequence of calls keeps the invariant. */
  lemma {:induction false} RunKeepsInvariant(s: StoreState, cs: seq<Call>)
    requires Invariant(s)
    ensures Invariant(Run(s, cs))
    decreases |cs|
  {
    if cs != [] {
      ApplyKeepsInvariant(s, cs[0]);
      RunKeepsInvariant(Apply(s, cs[0]), cs[1..]);
    }
  }

  /** Every state reached from a fresh store satisfies the invariant. */
  lemma ReachableInvariant(cs: seq<Call>)
    ensures Invariant(Run(Initial, cs))
  {
    RunKeepsInvariant(Initial, cs);
  }

  /** The history is append-only: the old history is a prefix of the new one. */
  lemma {:induction false} RunHistoryGrows(s: StoreState, cs: seq<Call>)
    ensures s.sleepRecords <= Run(s, cs).sleepRecords
    decreases |cs|
  {
    if cs != [] {
      var t := Apply(s, cs[0]);
      assert s.sleepRecords <= t.sleepRecords;
      RunHistoryGrows(t, cs[1..]);
    }
  }

  /** A session is active exactly when the last call was a startSleep. */
  lemma {:induction false} RunActiveIffLastStart(s: StoreState, cs: seq<Call>)
    requires cs != []
    ensures Run(s, cs).currentRecord.Some? <==> cs[|cs| - 1].StartCall?
    decreases |cs|
  {
    if |cs| > 1 {
      RunActiveIffLastStart(Apply(s, cs[0]), cs[1..]);
    }
  }

  /** The calls carry times that never go backwards. */
  predicate MonotoneClock(cs: seq<Call>) {
    forall i, j | 0 <= i < j < |cs| :: CallTime(cs[i]) <= CallTime(cs[j])
  }

  /** Every history record wakes no earlier than it started. */
  predicate HistoryNonNegative(s: StoreState) {
    forall i | 0 <= i < |s.sleepRecords| ::
      s.sleepRecords[i].Duration().Some? && s.sleepRecords[i].Duration().value >= 0
  }

  /** The in-progress session, if any, started no later than every call in `cs`. */
  predicate StartedBeforeAll(s: StoreState, cs: seq<Call>) {
    s.currentRecord.Some? ==> forall i | 0 <= i < |cs| :: s.currentRecord.value.sleepTime <= CallTime(cs[i])
  }

  /**
   * With a clock that never goes backwards, every completed record has a
   * non-negative duration. The store itself does not check this ordering.
   */
  lemma {:induction false} RunNonNegativeDurations(s: StoreState, cs: seq<Call>)
    requires HistoryNonNegative(s) && MonotoneClock(cs) && StartedBeforeAll(s, cs)
    ensures HistoryNonNegative(Run(s, cs))
    decreases |cs|
  {
    if cs != [] {
      var t := Apply(s, cs[0]);
      assert MonotoneClock(cs[1..]) by {
        forall i, j | 0 <= i < j < |cs[1..]| ensures CallTime(cs[1..][i]) <= CallTime(cs[1..][j]) {
          assert cs[1..][i] == cs[i + 1] && cs[1..][j] == cs[j + 1];
        }
      }
      assert StartedBeforeAll(t, cs[1..]) by {
        if t.currentRecord.Some? {
          forall i | 0 <= i < |cs[1..]| ensures t.currentRecord.value.sleepTime <= CallTime(cs[1..][i]) {
            assert cs[1..][i] == cs[i + 1];
          }
        }
      }
      assert HistoryNonNegative(t) by {
        if cs[0].EndCall? && s.currentRecord.Some? {
          assert t.sleepRecords == s.sleepRecords + [t.sleepRecords[|s.sleepRecords|]];
        }
      }
      RunNonNegativeDurations(t, cs[1..]);
    }
  }

  /** From a fresh store, a clock that never goes backwards gives non-negative durations. */
  lemma ReachableNonNegativeDurations(cs: seq<Call>)
    requires MonotoneClock(cs)
    ensures HistoryNonNegative(Run(Initial, cs))
  {
    RunNonNegativeDurations(Initial, cs);
  }

  /** startSleep("nap") at t0, endSleep() an hour later. */
  lemma NapScenario(t0: Time)
    ensures var t := Run(Initial, [StartCall("nap", t0), EndCall(t0 + 3600)]);
      |t.sleepRecords| == 1 && t.currentRecord == None &&
      t.sleepRecords[0].sleepTime == t0 && t.sleepRecords[0].wakeTime == Some(t0 + 3600) &&
      t.sleepRecords[0].note == "nap" && t.sleepRecords[0].Duration() == Some(3600)
  {
    var cs := [StartCall("nap", t0), EndCall(t0 + 3600)];
    var sleeping := Started(Initial, "nap", t0);
    assert Run(Initial, cs) == Run(sleeping, cs[1..]);
    assert Run(sleeping, cs[1..]) == Run(Ended(sleeping, t0 + 3600), []);
  }

  /** endSleep() on a fresh store changes nothing and raises nothing. */
  lemma EndWithoutStartScenario(now: Time)
    ensures Run(Initial, [EndCall(now)]) == Initial
  {
  }

  /** The store as the app holds it: two fields updated in place. */
  class SleepStore {
    var sleepRecords: seq<SleepRecord>
    var currentRecord: Option<SleepRecord>
    /** Stands in for the UUID generator. */
    var nextId: RecordId

    function State(): StoreState
      reads this
    {
      StoreState(sleepRecords, currentRecord, nextId)
    }

    ghost predicate Valid()
      reads this
    {
      Invariant(State())
    }

    constructor ()
      ensures Valid()
      ensures sleepRecords == [] && currentRecord == None
      ensures State() == Initial
    {
      sleepRecords := [];
      currentRecord := None;
      nextId := 0;
    }

    /** startSleep(note:), with the clock's reading passed in as `now`. */
    method StartSleep(now: Time, note: string := "")
      requires Valid()
      modifies this
      ensures Valid()
      ensures sleepRecords == old(sleepRecords)
      ensures currentRecord == Some(SleepRecord(old(nextId), now, None, note))
      ensures nextId == old(nextId) + 1
      ensures State() == Apply(old(State()), StartCall(note, now))
    {
      currentRecord := Some(NewRecord(nextId, now, note := note));
      nextId := nextId + 1;
    }

    /** endSleep(), with the clock's reading passed in as `now`. */
    method EndSleep(now: Time)
      requires Valid()
      modifies this
      ensures Valid()
      ensures old(currentRecord).None? ==> unchanged(this)
      ensures old(currentRecord).Some? ==>
        var r := old(currentRecord).value;
        sleepRecords == old(sleepRecords) + [SleepRecord(r.id, r.sleepTime, Some(now), r.note)] &&
        currentRecord == None && nextId == old(nextId)
      ensures State() == Apply(old(State()), EndCall(now))
    {
      if currentRecord.None? {
        return;
      }
      var record := currentRecord.value;
      record := NewRecord(record.id, record.sleepTime, Some(now), record.note);
      ApplyKeepsInvariant(State(), EndCall(now));
      sleepRecords := sleepRecords + [record];
      currentRecord := None;
    }
  }
}
