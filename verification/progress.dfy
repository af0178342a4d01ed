/** The progress tracker: one Progress document per (user, lecture), updated
    by watch events and quiz submissions (backend/controllers/progressController.js,
    backend/models/progressModel.js). */
module ProgressTracker {
  import opened Js
  import opened Http

  type Id = string

  /** A timestamp in milliseconds, as `new Date()` gives it. */
  type Time = int

  /** The unique index of the collection: at most one record per (user, lecture). */
  datatype Key = Key(user: Id, lecture: Id)

  /** A Progress document. `completedAt` is None while unset or null,
      `quizScore` is None while it holds its default null. */
  datatype Progress = Progress(
    user: Id, course: Id, lecture: Id,
    watchedDuration: real, totalDuration: real,
    isCompleted: bool, completedAt: Option<Time>,
    quizScore: Option<int>, quizAttempted: bool)

  /** The schema defaults of a new document for (user, course, lecture). */
  function Defaults(user: Id, course: Id, lecture: Id): Progress
  {
    Progress(user, course, lecture, 0.0, 0.0, false, None, None, false)
  }

  /** What every stored record satisfies: the required references are present
      and match its key, a completion time exists exactly when the lecture is
      completed, and a quiz score exists exactly when the quiz was attempted. */
  predicate WellFormed(k: Key, p: Progress)
  {
    && p.user == k.user && p.lecture == k.lecture
    && p.user != "" && p.course != "" && p.lecture != ""
    && (p.isCompleted <==> p.completedAt.Some?)
    && (p.quizAttempted <==> p.quizScore.Some?)
  }

  predicate WellFormedStore(records: map<Key, Progress>)
  {
    forall k :: k in records ==> WellFormed(k, records[k])
  }

  lemma DefaultsAreNotStarted(user: Id, course: Id, lecture: Id)
    requires user != "" && course != "" && lecture != ""
    ensures var p := Defaults(user, course, lecture);
      && WellFormed(Key(user, lecture), p)
      && p.watchedDuration == 0.0 && p.totalDuration == 0.0
      && !p.isCompleted && p.completedAt == None
      && p.quizScore == None && !p.quizAttempted
  {
  }

  /** `watchedDuration / totalDuration * 100 >= 90` in JavaScript numbers.
      Dividing by zero gives Infinity for a positive numerator (completed),
      NaN for zero and -Infinity for a negative one (both not completed). */
  predicate Completes(watched: real, total: real)
  {
    if total == 0.0 then watched > 0.0
    else watched / total * 100.0 >= 90.0
  }

  /** For a positive total the threshold is exactly 90%, inclusive. */
  lemma CompletionThreshold(watched: real, total: real)
    requires total > 0.0
    ensures Completes(watched, total) <==> 10.0 * watched >= 9.0 * total
  {
    var q := watched / total;
    assert q * total == watched;
    if q * 100.0 >= 90.0 {
      assert 10.0 * watched == (10.0 * q) * total;
      assert 10.0 * q >= 9.0;
    } else {
      assert 10.0 * q < 9.0;
      assert 10.0 * watched == (10.0 * q) * total;
    }
  }

  /** The record after one `updateProgress` with present ids, given what was
      stored before. A first event creates the record with the supplied values;
      a later one is applied only when it reports a strictly larger watched
      duration, and completion is only ever switched on, stamped with `now`. */
  function AfterUpdate(prev: Option<Progress>, user: Id, course: Id, lecture: Id,
                       watched: real, total: real, now: Time): Progress
  {
    var done := Completes(watched, total);
    match prev
    case None =>
      Defaults(user, course, lecture).(
        watchedDuration := watched, totalDuration := total,
        isCompleted := done, completedAt := if done then Some(now) else None)
    case Some(p) =>
      if watched > p.watchedDuration then
        var p' := p.(watchedDuration := watched, totalDuration := total);
        if done && !p.isCompleted then p'.(isCompleted := true, completedAt := Some(now)) else p'
      else p
  }

  /** The single-step rules of `updateProgress` on an existing record. */
  lemma UpdateRules(p: Progress, course: Id, watched: real, total: real, now: Time)
    requires WellFormed(Key(p.user, p.lecture), p)
    ensures var q := AfterUpdate(Some(p), p.user, course, p.lecture, watched, total, now);
      && WellFormed(Key(p.user, p.lecture), q)
      && q.course == p.course
      && q.watchedDuration == (if watched > p.watchedDuration then watched else p.watchedDuration)
      && (watched <= p.watchedDuration ==> q == p)
      && (p.isCompleted ==> q.isCompleted && q.completedAt == p.completedAt)
      && (q.isCompleted <==> p.isCompleted || (watched > p.watchedDuration && Completes(watched, total)))
      && (q.completedAt != p.completedAt ==> !p.isCompleted && q.completedAt == Some(now))
      && q.quizScore == p.quizScore && q.quizAttempted == p.quizAttempted
  {
  }

  /** A first watch event creates a record holding the supplied values,
      stamped with `now` exactly when it already completes the lecture. */
  lemma CreateRules(user: Id, course: Id, lecture: Id, watched: real, total: real, now: Time)
    requires user != "" && course != "" && lecture != ""
    ensures var q := AfterUpdate(None, user, course, lecture, watched, total, now);
      && WellFormed(Key(user, lecture), q)
      && q.course == course && q.watchedDuration == watched && q.totalDuration == total
      && q.isCompleted == Completes(watched, total)
      && (q.completedAt.Some? <==> q.isCompleted)
      && (q.completedAt.Some? ==> q.completedAt == Some(now))
      && q.quizScore == None && !q.quizAttempted
  {
  }

  /** `progress.quizScore = score; progress.quizAttempted = true`. */
  function WithQuizScore(p: Progress, score: int): Progress
  {
    p.(quizScore := Some(score), quizAttempted := true)
  }

  /** A quiz submission overwrites any earlier score and leaves the watch and
      completion state as it was. */
  lemma QuizScoreRules(p: Progress, first: int, score: int)
    requires WellFormed(Key(p.user, p.lecture), p)
    ensures var q := WithQuizScore(p, score);
      && WellFormed(Key(p.user, p.lecture), q)
      && q.quizScore == Some(score) && q.quizAttempted
      && WithQuizScore(WithQuizScore(p, first), score) == q
      && q.watchedDuration == p.watchedDuration && q.totalDuration == p.totalDuration
      && q.isCompleted == p.isCompleted && q.completedAt == p.completedAt
  {
  }

  /** A request that reaches one (user, lecture) record. */
  datatype Event =
    | Watch(course: Id, watched: real, total: real, at: Time)
    | Quiz(score: int)

  /** The record of (user, lecture) after a sequence of successful requests;
      a quiz submission without a record fails and changes nothing. */
  function Replay(prev: Option<Progress>, user: Id, lecture: Id, events: seq<Event>): Option<Progress>
    decreases |events|
  {
    if events == [] then prev
    else
      var e := events[|events| - 1];
      var before := Replay(prev, user, lecture, events[..|events| - 1]);
      match e
      case Watch(course, watched, total, at) =>
        Some(AfterUpdate(before, user, course, lecture, watched, total, at))
      case Quiz(score) =>
        if before.Some? then Some(WithQuizScore(before.value, score)) else None
  }

  /** Over any sequence of requests the stored watched duration never
      decreases, a completed record stays completed with its first completion
      time, and the record stays well formed. */
  lemma {:induction false} ProgressIsMonotone(p: Progress, events: seq<Event>)
    requires WellFormed(Key(p.user, p.lecture), p)
    ensures var q := Replay(Some(p), p.user, p.lecture, events);
      && q.Some?
      && WellFormed(Key(p.user, p.lecture), q.value)
      && q.value.watchedDuration >= p.watchedDuration
      && q.value.course == p.course
      && (p.isCompleted ==> q.value.isCompleted && q.value.completedAt == p.completedAt)
    decreases |events|
  {
    if events != [] {
      var init := events[..|events| - 1];
      ProgressIsMonotone(p, init);
      var before := Replay(Some(p), p.user, p.lecture, init).value;
      match events[|events| - 1]
      case Watch(course, watched, total, at) =>
        UpdateRules(before, course, watched, total, at);
      case Quiz(score) =>
        QuizScoreRules(before, score, score);
    }
  }

  /** `getLectureProgress`: the stored record, or the literal reply
      `{isCompleted: false, watchedDuration: 0}`. */
  datatype LectureReply = Stored(progress: Progress) | NotStarted

  function ReplyIsCompleted(v: LectureReply): bool
  {
    match v
    case Stored(p) => p.isCompleted
    case NotStarted => false
  }

  function ReplyWatched(v: LectureReply): real
  {
    match v
    case Stored(p) => p.watchedDuration
    case NotStarted => 0.0
  }

  /** Never a 404: the caller's record of the lecture if there is one, and the
      not-started reply (not completed, nothing watched) otherwise. */
  function LectureProgress(records: map<Key, Progress>, user: Id, lecture: Id): (v: LectureReply)
    ensures v.Stored? <==> Key(user, lecture) in records
    ensures v.Stored? ==> v.progress == records[Key(user, lecture)]
    ensures v.NotStarted? ==> !ReplyIsCompleted(v) && ReplyWatched(v) == 0.0
  {
    if Key(user, lecture) in records then Stored(records[Key(user, lecture)]) else NotStarted
  }

  /** `getCourseProgress`: the caller's records of one course, unordered. */
  function CourseProgress(records: map<Key, Progress>, user: Id, course: Id): (rs: set<Progress>)
    ensures forall k :: k in records && records[k].user == user && records[k].course == course ==> records[k] in rs
    ensures forall p :: p in rs ==> p.user == user && p.course == course && p in records.Values
  {
    set k | k in records && records[k].user == user && records[k].course == course :: records[k]
  }

  /** Because of the unique (user, lecture) index, the records of one course
      name each lecture at most once. */
  lemma CourseProgressOnePerLecture(records: map<Key, Progress>, user: Id, course: Id, p: Progress, q: Progress)
    requires WellFormedStore(records)
    requires p in CourseProgress(records, user, course) && q in CourseProgress(records, user, course)
    requires p.lecture == q.lecture
    ensures p == q
  {
    var kp :| kp in records && records[kp] == p;
    var kq :| kq in records && records[kq] == q;
    assert kp == Key(user, p.lecture) && kq == Key(user, q.lecture);
  }

  /** The progress collection, one record per (user, lecture). */
  class Tracker {
    var records: map<Key, Progress>

    ghost predicate Valid()
      reads this
    {
      WellFormedStore(records)
    }

    constructor ()
      ensures Valid() && records == map[]
    {
      records := map[];
    }

    /** `updateProgress` for the authenticated `user`. */
    method UpdateProgress(user: Id, lecture: Id, course: Id, watched: real, total: real, now: Time)
      returns (r: Result<Progress>)
      requires Valid() && user != ""
      modifies this
      ensures Valid()
      ensures lecture == "" || course == "" ==>
        r == Err(Error(400, "Lecture ID and Course ID are required")) && records == old(records)
      ensures lecture != "" && course != "" ==>
        var k := Key(user, lecture);
        && records == old(records)[k := AfterUpdate(Get(old(records), k), user, course, lecture, watched, total, now)]
        && r == Ok(200, records[k])
      ensures Key(user, lecture) in old(records) ==>
        && records[Key(user, lecture)].watchedDuration >= old(records)[Key(user, lecture)].watchedDuration
        && (old(records)[Key(user, lecture)].isCompleted ==> records[Key(user, lecture)].isCompleted)
    {
      if lecture == "" || course == "" {
        return Err(Error(400, "Lecture ID and Course ID are required"));
      }
      var k := Key(user, lecture);
      var done := Completes(watched, total);
      var progress: Progress;
      if k in records {
        progress := records[k];
        UpdateRules(progress, course, watched, total, now);
        if watched > progress.watchedDuration {
          progress := progress.(watchedDuration := watched, totalDuration := total);
          if done && !progress.isCompleted {
            progress := progress.(isCompleted := true, completedAt := Some(now));
          }
          records := records[k := progress];
        }
      } else {
        CreateRules(user, course, lecture, watched, total, now);
        progress := Defaults(user, course, lecture).(
          watchedDuration := watched, totalDuration := total,
          isCompleted := done, completedAt := if done then Some(now) else None);
        records := records[k := progress];
      }
      r := Ok(200, progress);
    }

    /** `updateQuizScore` for the authenticated `user`. */
    method UpdateQuizScore(user: Id, lecture: Id, score: int) returns (r: Result<Progress>)
      requires Valid()
      modifies this
      ensures Valid()
      ensures Key(user, lecture) !in old(records) ==>
        r == Err(Error(404, "Progress not found")) && records == old(records)
      ensures Key(user, lecture) in old(records) ==>
        var k := Key(user, lecture);
        && records == old(records)[k := WithQuizScore(old(records)[k], score)]
        && r == Ok(200, records[k])
    {
      var k := Key(user, lecture);
      if k !in records {
        return Err(Error(404, "Progress not found"));
      }
      var progress := records[k];
      QuizScoreRules(progress, score, score);
      progress := progress.(quizScore := Some(score), quizAttempted := true);
      records := records[k := progress];
      r := Ok(200, progress);
    }
  }

  /** After a successful update the lecture reads back as stored, with at least
      the reported watched duration. */
  lemma ReadAfterUpdate(records: map<Key, Progress>, user: Id, course: Id, lecture: Id,
                        watched: real, total: real, now: Time)
    requires WellFormedStore(records) && user != "" && course != "" && lecture != ""
    ensures var k := Key(user, lecture);
      var after := records[k := AfterUpdate(Get(records, k), user, course, lecture, watched, total, now)];
      var v := LectureProgress(after, user, lecture);
      && v.Stored?
      && ReplyWatched(v) >= watched
      && (k in records ==> ReplyWatched(v) >= records[k].watchedDuration)
  {
  }
}
