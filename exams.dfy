/** The `Exam` row and its two time-window properties. Timestamps are
    seconds; the current time is a parameter. */
module Exams {
  import opened Wrappers

  datatype ExamStatus = Draft | Published | Started | Ended | ResultsPublished

  /** Default of `join_window_seconds`. */
  const DefaultJoinWindowSeconds := 300

  /** One row of the exams table. The parameters with a default value are the
      columns declared with one. */
  datatype Exam = Exam(
    id: string,
    createdBy: string,
    startAt: Option<int> := None,
    endAt: Option<int> := None,
    joinWindowSeconds: int := DefaultJoinWindowSeconds,
    status: ExamStatus := Draft,
    isActive: bool := false)

  /** A freshly created exam: a draft, inactive, with a five-minute join window. */
  function NewExam(id: string, createdBy: string, startAt: Option<int>, endAt: Option<int>): (e: Exam)
    ensures e.id == id && e.createdBy == createdBy && e.startAt == startAt && e.endAt == endAt
    ensures e.status == Draft && !e.isActive && e.joinWindowSeconds == 300
  {
    Exam(id, createdBy, startAt, endAt)
  }

  /** `is_joinable`, with the join deadline computed as intended: a started
      exam with a start time can be joined up to and including start plus the
      join window. */
  function IsJoinable(e: Exam, now: int): (r: bool)
    ensures r ==> e.status == Started && e.startAt.Some? && now <= e.startAt.value + e.joinWindowSeconds
  {
    if e.status != Started || e.startAt.None? then false
    else
      var joinDeadline := e.startAt.value + e.joinWindowSeconds;
      now <= joinDeadline
  }

  /** `is_active_now`: a started exam with both times set is active from its
      start to its end, both included. */
  function IsActiveNow(e: Exam, now: int): (r: bool)
    ensures r ==> e.status == Started && e.startAt.Some? && e.endAt.Some? &&
                  e.startAt.value <= now <= e.endAt.value
  {
    if e.status != Started || e.startAt.None? || e.endAt.None? then false
    else
      var start := e.startAt.value;
      var end := e.endAt.value;
      start <= now <= end
  }

  /** Joinable exactly when started, with a start time, and not past the
      inclusive deadline. */
  lemma JoinableIff(e: Exam, now: int)
    ensures IsJoinable(e, now) <==>
      e.status == Started && e.startAt.Some? && now <= e.startAt.value + e.joinWindowSeconds
  {
  }

  /** Once the join deadline has passed, the exam is never joinable again. */
  lemma JoinDeadlineIsFinal(e: Exam, now: int, later: int)
    requires now <= later && !IsJoinable(e, now)
    ensures !IsJoinable(e, later)
  {
  }

  /** Active exactly when started, with both times set, and inside the closed
      interval between them; so never when the start is after the end. */
  lemma ActiveNowIff(e: Exam, now: int)
    ensures IsActiveNow(e, now) <==>
      e.status == Started && e.startAt.Some? && e.endAt.Some? &&
      e.startAt.value <= now <= e.endAt.value
    ensures e.startAt.Some? && e.endAt.Some? && e.startAt.value > e.endAt.value ==> !IsActiveNow(e, now)
  {
  }

  /** An exam that is not started is neither joinable nor active, whatever the time. */
  lemma OnlyStartedExamsOpen(e: Exam, now: int)
    requires e.status != Started
    ensures !IsJoinable(e, now) && !IsActiveNow(e, now)
  {
  }

  /** While it is active, a started exam can be joined until its join window closes. */
  lemma ActiveWithinWindowIsJoinable(e: Exam, now: int)
    requires IsActiveNow(e, now)
    requires now <= e.startAt.value + e.joinWindowSeconds
    ensures IsJoinable(e, now)
  {
  }

  // ---------------------------------------------------------------------
  // `is_joinable` as written

  /** The outcome of evaluating the property in the original module, where a
      name it uses is not in scope. */
  datatype Evaluation = Value(b: bool) | NameError(name: string)

  /** `is_joinable` as written: the deadline arithmetic names `timedelta`,
      which the module never imports, so the started-with-start-time path
      raises instead of returning. */
  function IsJoinableAsWritten(e: Exam, now: int): (r: Evaluation)
    ensures r.Value? ==> r.b == IsJoinable(e, now)
  {
    if e.status != Started || e.startAt.None? then Value(false)
    else NameError("timedelta")
  }

  /** As written, the property never reports a started exam as joinable: the
      one path that could return true raises instead. */
  lemma JoinableAsWrittenNeverTrue(e: Exam, now: int)
    ensures IsJoinableAsWritten(e, now) != Value(true)
    ensures e.status == Started && e.startAt.Some? ==> IsJoinableAsWritten(e, now).NameError?
  {
  }

  /** A concrete started exam, joined one second after it starts: intended
      joinable, while the code as written raises. */
  lemma JoinableCounterexample()
    ensures var e := Exam("e1", "t1", Some(1000), Some(4600), 300, Started, true);
      IsJoinable(e, 1001) && IsJoinableAsWritten(e, 1001) == NameError("timedelta")
  {
  }
}
