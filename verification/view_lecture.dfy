/** The lecture page's client-side logic (frontend/src/pages/ViewLecture.jsx):
    the quiz session, the completion prompt after a progress update, and the
    per-lecture progress map. */
module ViewLecture {
  import opened Js
  import ProgressTracker

  /** A generated question. `correctAnswer` is whatever the generator put
      there; it is compared with `===` against the chosen option's index. */
  datatype Question = Question(question: string, options: seq<string>, correctAnswer: Value, explanation: string)

  /** `selectedAnswers[index] === q.correctAnswer`. An unanswered question
      reads as undefined, which is strictly equal only to an undefined
      `correctAnswer`. */
  predicate IsCorrect(q: Question, answers: map<nat, nat>, index: nat)
  {
    if index in answers then q.correctAnswer == Num(answers[index]) else q.correctAnswer == Undefined
  }

  /** The number of questions answered correctly. */
  function CountCorrect(quiz: seq<Question>, answers: map<nat, nat>): (n: nat)
    ensures n <= |quiz|
    decreases |quiz|
  {
    if quiz == [] then 0
    else
      CountCorrect(quiz[..|quiz| - 1], answers)
      + (if IsCorrect(quiz[|quiz| - 1], answers, |quiz| - 1) then 1 else 0)
  }

  /** A full score means every question was answered correctly, and a score
      of zero means none was. */
  lemma {:induction false} CountCorrectExtremes(quiz: seq<Question>, answers: map<nat, nat>)
    ensures CountCorrect(quiz, answers) == |quiz| <==> forall i :: 0 <= i < |quiz| ==> IsCorrect(quiz[i], answers, i)
    ensures CountCorrect(quiz, answers) == 0 <==> forall i :: 0 <= i < |quiz| ==> !IsCorrect(quiz[i], answers, i)
    decreases |quiz|
  {
    if quiz != [] {
      var init := quiz[..|quiz| - 1];
      CountCorrectExtremes(init, answers);
      assert forall i :: 0 <= i < |init| ==> init[i] == quiz[i];
    }
  }

  /** The questions that can score: the answered ones, and the unanswered
      ones whose `correctAnswer` is undefined. */
  function Scorable(quiz: seq<Question>, answers: map<nat, nat>): set<nat>
  {
    set i: nat | i < |quiz| && (i in answers || quiz[i].correctAnswer == Undefined)
  }

  /** Only answered questions score, apart from a question whose
      `correctAnswer` is undefined, which an unanswered question matches; so
      for a quiz with every `correctAnswer` given the score is at most the
      number of questions answered. */
  lemma {:induction false} ScoreAtMostAnswered(quiz: seq<Question>, answers: map<nat, nat>)
    ensures CountCorrect(quiz, answers) <= |Scorable(quiz, answers)|
    ensures (forall i :: 0 <= i < |quiz| ==> quiz[i].correctAnswer != Undefined) ==>
      CountCorrect(quiz, answers) <= |set i: nat | i < |quiz| && i in answers|
    decreases |quiz|
  {
    if quiz != [] {
      var n := |quiz| - 1;
      ScoreAtMostAnswered(quiz[..n], answers);
      var before := Scorable(quiz[..n], answers);
      var now := Scorable(quiz, answers);
      assert before == set i: nat | i < n && (i in answers || quiz[i].correctAnswer == Undefined);
      if n in answers || quiz[n].correctAnswer == Undefined {
        assert now == before + {n};
      } else {
        assert now == before;
      }
      if forall i :: 0 <= i < |quiz| ==> quiz[i].correctAnswer != Undefined {
        assert now == set i: nat | i < |quiz| && i in answers;
      }
    }
  }

  /** `submitQuiz`'s counting loop. */
  method ScoreQuiz(quiz: seq<Question>, answers: map<nat, nat>) returns (score: nat)
    ensures score == CountCorrect(quiz, answers)
    ensures score <= |quiz|
  {
    score := 0;
    var i := 0;
    while i < |quiz|
      invariant 0 <= i <= |quiz|
      invariant score == CountCorrect(quiz[..i], answers)
    {
      assert quiz[..i + 1][..i] == quiz[..i];
      if IsCorrect(quiz[i], answers, i) {
        score := score + 1;
      }
      i := i + 1;
    }
    assert quiz[..|quiz|] == quiz;
  }

  /** The indices below `n`. */
  function Below(n: nat): (s: set<nat>)
    ensures forall i: nat :: i in s <==> i < n
    ensures |s| == n
  {
    if n == 0 then {} else Below(n - 1) + {n - 1}
  }

  lemma {:induction false} SubsetCardinality(a: set<nat>, b: set<nat>)
    requires a <= b
    ensures |a| <= |b|
    ensures a != b ==> |a| < |b|
    decreases |b|
  {
    if b != {} {
      var x :| x in b;
      SubsetCardinality(a - {x}, b - {x});
      if x in a {
        assert a == (a - {x}) + {x};
        if a != b {
          assert a - {x} != b - {x};
        }
      } else {
        assert a - {x} == a;
      }
    }
  }

  /** The Submit button is enabled (`Object.keys(selectedAnswers).length >=
      quiz.length`) exactly when every question has an answer, since answers
      are only ever recorded for questions of the quiz. */
  lemma SubmitEnabledIffAllAnswered(answers: map<nat, nat>, n: nat)
    requires forall k :: k in answers ==> k < n
    ensures |answers| >= n <==> forall i :: 0 <= i < n ==> i in answers
  {
    var keys := answers.Keys;
    assert keys <= Below(n);
    SubsetCardinality(keys, Below(n));
    if forall i :: 0 <= i < n ==> i in answers {
      assert keys == Below(n);
    }
  }

  /** The result heading for a score. */
  datatype Verdict = KeepLearning | GoodJob | Excellent

  function VerdictFor(score: int): (v: Verdict)
    ensures v == Excellent <==> score >= 4
    ensures v == GoodJob <==> score == 3
    ensures v == KeepLearning <==> score <= 2
  {
    if score >= 4 then Excellent else if score >= 3 then GoodJob else KeepLearning
  }

  function Rank(v: Verdict): nat
  {
    match v
    case KeepLearning => 0
    case GoodJob => 1
    case Excellent => 2
  }

  /** A better score never earns a lesser verdict. */
  lemma VerdictIsMonotone(s: int, t: int)
    requires s <= t
    ensures Rank(VerdictFor(s)) <= Rank(VerdictFor(t))
  {
  }

  /** `updateVideoProgress`: the completion prompt opens when the lecture was
      not completed in the page's last known progress, the server reply says it
      is now, and the quiz has not been taken. `shown` is the page's
      `lectureProgress`: a stored record or the not-started reply (the empty
      initial state reads the same). */
  predicate OpensCompletionModal(shown: ProgressTracker.LectureReply, resp: ProgressTracker.Progress)
  {
    !ProgressTracker.ReplyIsCompleted(shown) && resp.isCompleted && !resp.quizAttempted
  }

  /** With the page showing the stored progress, the prompt opens exactly on
      the update that completes the lecture for the first time (the one that
      stamps `completedAt`) while the quiz is untaken, and it does not open
      again on the next update. */
  lemma CompletionModalOnFirstCompletion(records: map<ProgressTracker.Key, ProgressTracker.Progress>,
                                         user: string, course: string, lecture: string,
                                         watched: real, total: real, now: int,
                                         watched2: real, total2: real, now2: int)
    requires ProgressTracker.WellFormedStore(records)
    requires user != "" && course != "" && lecture != ""
    ensures var k := ProgressTracker.Key(user, lecture);
      var shown := ProgressTracker.LectureProgress(records, user, lecture);
      var resp := ProgressTracker.AfterUpdate(Get(records, k), user, course, lecture, watched, total, now);
      && (OpensCompletionModal(shown, resp) <==>
            (k !in records || !records[k].isCompleted) && resp.isCompleted && !resp.quizAttempted)
      && (OpensCompletionModal(shown, resp) ==> resp.completedAt == Some(now))
      && (OpensCompletionModal(shown, resp) ==>
            !OpensCompletionModal(ProgressTracker.Stored(resp),
              ProgressTracker.AfterUpdate(Some(resp), user, course, lecture, watched2, total2, now2)))
  {
  }

  /** `fetchCourseProgress`: the map from lecture id to record, filled in the
      order of the server's list. */
  method BuildProgressMap(records: seq<ProgressTracker.Progress>) returns (m: map<string, ProgressTracker.Progress>)
    ensures forall l :: l in m <==> exists i :: 0 <= i < |records| && records[i].lecture == l
    ensures forall l :: l in m ==> exists i :: 0 <= i < |records| && records[i] == m[l] && records[i].lecture == l
                                              && forall j :: i < j < |records| ==> records[j].lecture != l
  {
    m := map[];
    for n := 0 to |records|
      invariant forall l :: l in m <==> exists i :: 0 <= i < n && records[i].lecture == l
      invariant forall l :: l in m ==> exists i :: 0 <= i < n && records[i] == m[l] && records[i].lecture == l
                                                && forall j :: i < j < n ==> records[j].lecture != l
    {
      m := m[records[n].lecture := records[n]];
    }
  }

  /** The quiz panel's state. */
  class QuizSession {
    var quiz: seq<Question>
    var current: nat
    var answers: map<nat, nat>
    var submitted: bool
    var score: nat

    /** The question index stays within the quiz, answers are recorded only
        for questions of the quiz, and a submitted quiz shows its true score. */
    ghost predicate Valid()
      reads this
    {
      && (current < |quiz| || current == 0)
      && (forall k :: k in answers ==> k < |quiz|)
      && (submitted ==> score == CountCorrect(quiz, answers))
    }

    constructor ()
      ensures Valid()
      ensures quiz == [] && current == 0 && answers == map[] && !submitted && score == 0
    {
      quiz, current, answers, submitted, score := [], 0, map[], false, 0;
    }

    /** `fetchQuiz` on success: a fresh quiz at its first question with no
        answers; the previous score is left as it was. */
    method Start(q: seq<Question>)
      requires Valid()
      modifies this
      ensures Valid()
      ensures quiz == q && current == 0 && answers == map[] && !submitted && score == old(score)
    {
      quiz, current, answers, submitted := q, 0, map[], false;
    }

    /** `handleAnswerSelect(currentQuestion, option)`: ignored after
        submission, otherwise records the option for the current question
        only. */
    method SelectAnswer(option: nat)
      requires Valid()
      modifies this
      ensures Valid()
      ensures old(submitted) || quiz == [] ==> answers == old(answers)
      ensures !old(submitted) && quiz != [] ==> answers == old(answers)[current := option]
      ensures quiz == old(quiz) && current == old(current) && submitted == old(submitted) && score == old(score)
    {
      if submitted || quiz == [] {
        return;
      }
      answers := answers[current := option];
    }

    /** The Previous button: one question back, never below the first. */
    method Previous()
      requires Valid()
      modifies this
      ensures Valid()
      ensures current == (if old(current) == 0 then 0 else old(current) - 1)
      ensures quiz == old(quiz) && answers == old(answers) && submitted == old(submitted) && score == old(score)
    {
      current := if current == 0 then 0 else current - 1;
    }

    /** The Next button, which is rendered only before the last question. */
    method Next()
      requires Valid() && current + 1 < |quiz|
      modifies this
      ensures Valid()
      ensures current == old(current) + 1 && current < |quiz|
      ensures quiz == old(quiz) && answers == old(answers) && submitted == old(submitted) && score == old(score)
    {
      current := current + 1;
    }

    /** Whether the Submit button can be pressed: it is rendered at the last
        question of an unsubmitted quiz and enabled once there are as many
        answers as questions. */
    predicate SubmitEnabled()
      reads this
    {
      !submitted && quiz != [] && current == |quiz| - 1 && |answers| >= |quiz|
    }

    /** `submitQuiz`: counts the correct answers, shows the result, and
        returns the score it posts to the server. */
    method Submit() returns (posted: nat)
      requires Valid() && SubmitEnabled()
      modifies this
      ensures Valid()
      ensures forall i :: 0 <= i < |quiz| ==> i in answers
      ensures posted == CountCorrect(quiz, answers) && score == posted && submitted
      ensures quiz == old(quiz) && current == old(current) && answers == old(answers)
    {
      SubmitEnabledIffAllAnswered(answers, |quiz|);
      posted := ScoreQuiz(quiz, answers);
      score, submitted := posted, true;
    }

    /** The Reattempt button: back to the first question with no answers and
        a zero score, on the same quiz. */
    method Reattempt()
      requires Valid()
      modifies this
      ensures Valid()
      ensures quiz == old(quiz) && current == 0 && answers == map[] && !submitted && score == 0
    {
      current, answers, submitted, score := 0, map[], false, 0;
    }
  }
}
