/** The sleep record value type (Models/SleepRecord.swift). */
module Models {
  import opened Wrappers

  /** A point in time, in whole seconds since a fixed epoch. */
  type Time = int

  /** A record identifier; stands in for the UUID the app generates. */
  type RecordId = nat

  /**
   * One sleep session. All fields are immutable: a record, once built, never
   * changes. `wakeTime` is absent while the session is still in progress.
   */
  datatype SleepRecord = SleepRecord(id: RecordId, sleepTime: Time, wakeTime: Option<Time>, note: string)
  {
    /** A record is complete once it carries a wake time. */
    predicate IsComplete() {
      wakeTime.Some?
    }

    /** How long the session lasted, in seconds; absent while it is in progress. */
    function Duration(): (d: Option<int>)
      ensures d.Some? <==> IsComplete()
      ensures d.Some? ==> sleepTime + d.value == wakeTime.value
    {
      match wakeTime
      case None => None
      case Some(w) => Some(w - sleepTime)
    }
  }

  /**
   * The record initializer. In Swift the id defaults to a fresh UUID and the
   * sleep time to the current date; here both are required arguments, which
   * the store fills from its `nextId` counter and its `now` parameter. The wake
   * time defaults to absent and the note to empty.
   */
  function NewRecord(id: RecordId, sleepTime: Time, wakeTime: Option<Time> := None, note: string := ""): (r: SleepRecord)
    ensures r.id == id && r.sleepTime == sleepTime && r.wakeTime == wakeTime && r.note == note
  {
    SleepRecord(id, sleepTime, wakeTime, note)
  }

  /** With the defaults, a new record is an in-progress session with an empty note. */
  lemma DefaultRecordInProgress(id: RecordId, sleepTime: Time)
    ensures !NewRecord(id, sleepTime).IsComplete()
    ensures NewRecord(id, sleepTime).note == ""
    ensures NewRecord(id, sleepTime).Duration() == None
  {
  }

  /**
   * The duration is non-negative exactly when the wake time is not before the
   * sleep time. Nothing in the record enforces that ordering.
   */
  lemma DurationNonNegativeIff(r: SleepRecord)
    requires r.IsComplete()
    ensures r.Duration().value >= 0 <==> r.wakeTime.value >= r.sleepTime
  {
  }
}
