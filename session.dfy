/**
 * The student's side of a quiz: the module-level variables the event handlers update in place
 * (`currentQuestionIndex`, `studentAnswers`, `violationCount`, `isLocked`, `isPaused`, ...)
 * gathered in one object, and one method per handler. Timer and timeout callbacks are events
 * of their own: `Tick` for one second of the question countdown, `HoldElapsed` for the 2.5 s
 * pause after a question, `BlurExpired` for the 2 s blur after a second violation.
 */
module Session {
  import opened Wrappers
  import opened Quiz
  import opened Scoring
  import opened Shuffle

  /** The question shown at display position `index` exists whenever the order is a shuffle of all questions. */
  lemma ShownQuestionExists(n: nat, shuffle: bool, order: seq<nat>, index: nat)
    requires index < n
    requires shuffle ==> IsPermutationOfRange(order, n)
    ensures QuestionIndex(shuffle, order, index).Some?
    ensures QuestionIndex(shuffle, order, index).value < n
  {
  }

  /** Without shuffling, the link's own score count gives the corrected result. */
  lemma AsWrittenAgreesWhenNotShuffled(s: QuizSession, completedAt: string)
    requires !s.shuffle
    ensures s.SubmittedAsWritten(completedAt) == s.Submitted(completedAt)
  {
    LinkScoreAgreesWhenNotShuffled(s.questions, s.order, s.answers, |s.questions|);
  }

  class QuizSession {
    /** The quiz as `joinQuiz` loaded it, and who is taking it. */
    const questions: seq<Question>
    const studentName: string
    const quizId: string

    /** `currentQuestionIndex`: the display position on screen. */
    var index: nat
    /** `studentAnswers`: chosen option per display position. */
    var answers: map<nat, int>
    /** `shuffleQuestions` and `originalQuestionOrder`. */
    var shuffle: bool
    var order: seq<nat>
    /** `violationCount` and `isLocked`. */
    var violations: nat
    var locked: bool
    /** `isPaused` and `pausedTimeLeft`. */
    var paused: bool
    var pausedTimeLeft: Option<int>
    /** The countdown of the running question timer and whether its interval is set. */
    var timeLeft: int
    var timerRunning: bool
    /** Scheduled `nextQuestion` hold callbacks that have not fired yet. */
    var holds: nat
    /** Whether the key, blur, focus and visibility listeners are attached. */
    var monitoring: bool
    /** Whether the quiz interface carries the `blurred` class, and pending un-blur callbacks. */
    var blurred: bool
    var pendingUnblur: nat
    /** How many times `finishQuiz` has run, and the score `calculateResults` last computed. */
    var finishes: nat
    var score: nat
    /** The result object `generateResultUrl` last encoded into the result link, if any. */
    var result: Option<StudentResult>

    /**
     * What holds between handlers: the countdown is within one question's time and positive
     * while its interval runs, the display position is a question, a lock only follows three
     * violations, the score is at most the number of questions, and a shuffled order is a
     * permutation of all question indices.
     */
    predicate Valid()
      reads this
    {
      0 <= timeLeft <= QuestionTime
      && (timerRunning ==> timeLeft > 0)
      && (index == 0 || index < |questions|)
      && (locked ==> violations >= 3)
      && score <= |questions|
      && (shuffle ==> IsPermutationOfRange(order, |questions|))
    }

    /** The question at the display position can be looked up (`questions[qIdx]` is defined). */
    predicate ShownQuestionValid()
      reads this
    {
      match QuestionIndex(shuffle, order, index)
      case Some(q) => q < |questions|
      case None => false
    }

    /**
     * The corrected result for the link: the fields `generateResultUrl` fills in, with the
     * shuffle-aware score `calculateResults` shows rather than the one its own loop counts.
     */
    function Submitted(completedAt: string): (r: StudentResult)
      reads this
      ensures r.studentName == studentName && r.quizId == quizId
      ensures r.answers == answers && r.completedAt == completedAt
      ensures 0 <= r.score <= r.totalQuestions == |questions|
    {
      StudentResult(studentName, quizId, Score(questions, shuffle, order, answers), |questions|, answers, completedAt)
    }

    /**
     * The result `generateResultUrl` builds as written: its score counts the answers that
     * match the question at the same display position, ignoring the shuffled order.
     */
    function SubmittedAsWritten(completedAt: string): (r: StudentResult)
      reads this
      ensures r.studentName == studentName && r.quizId == quizId
      ensures r.answers == answers && r.completedAt == completedAt
      ensures 0 <= r.score <= r.totalQuestions == |questions|
    {
      StudentResult(studentName, quizId, LinkCount(questions, answers, |questions|), |questions|, answers, completedAt)
    }

    /**
     * A session right after `joinQuiz`. Joining replaces the questions, the student's name and
     * the quiz id only: the violation count, the lock, the pause flag and the paused time are
     * module variables that keep what an earlier session in the same page left behind (all
     * zero, false or null after a page load). The display position, the answers, the order
     * and the score also carry over in the page, but `startQuiz` and `finishQuiz` overwrite
     * them before they are read, so the session starts them afresh.
     */
    constructor(questions: seq<Question>, studentName: string, quizId: string,
                priorViolations: nat, priorLocked: bool, priorPaused: bool, priorPausedTimeLeft: Option<int>)
      requires priorLocked ==> priorViolations >= 3
      ensures Valid()
      ensures this.questions == questions && this.studentName == studentName && this.quizId == quizId
      ensures violations == priorViolations && locked == priorLocked
      ensures paused == priorPaused && pausedTimeLeft == priorPausedTimeLeft
      ensures index == 0 && answers == map[] && !shuffle && order == []
      ensures timeLeft == QuestionTime && !timerRunning && holds == 0
      ensures !monitoring && !blurred && pendingUnblur == 0 && finishes == 0 && score == 0 && result == None
    {
      this.questions := questions;
      this.studentName := studentName;
      this.quizId := quizId;
      index := 0;
      answers := map[];
      shuffle := false;
      order := [];
      violations := priorViolations;
      locked := priorLocked;
      paused := priorPaused;
      pausedTimeLeft := priorPausedTimeLeft;
      timeLeft := QuestionTime;
      timerRunning := false;
      holds := 0;
      monitoring := false;
      blurred := false;
      pendingUnblur := 0;
      finishes := 0;
      score := 0;
      result := None;
    }

    /**
     * `startQuiz`: back to the first position with no answers, a fresh shuffled order when
     * shuffling is on (`picks[i]` stands for `Math.floor(Math.random() * (i + 1))`), the
     * listeners attached and the first question's timer started. The violation count, the
     * lock and the pause flag are left as they were.
     */
    /** The order `startQuiz` sets up: shuffled when shuffling is on, otherwise left as it was. */
    method Reorder(shuffleOn: bool, picks: seq<nat>)
      requires shuffleOn ==> ValidPicks(picks, |questions|)
      modifies this`shuffle, this`order
      ensures shuffle == shuffleOn
      ensures order == if shuffleOn then ShuffleFrom(Range(|questions|), picks, |questions| - 1) else old(order)
      ensures shuffleOn ==> IsPermutationOfRange(order, |questions|)
    {
      shuffle := shuffleOn;
      if shuffleOn {
        order := ShuffledOrder(|questions|, picks);
      }
    }

    method Start(shuffleOn: bool, picks: seq<nat>)
      requires Valid()
      requires shuffleOn ==> ValidPicks(picks, |questions|)
      modifies this
      ensures Valid()
      ensures index == 0 && answers == map[] && shuffle == shuffleOn && monitoring
      ensures order == if shuffleOn then ShuffleFrom(Range(|questions|), picks, |questions| - 1) else old(order)
      ensures |questions| > 0 ==> timerRunning && timeLeft == QuestionTime
      ensures |questions| == 0 ==> unchanged(this`timerRunning, this`timeLeft)
      ensures unchanged(this`violations, this`locked, this`paused, this`pausedTimeLeft, this`holds)
      ensures unchanged(this`blurred, this`pendingUnblur, this`finishes, this`score, this`result)
    {
      index := 0;
      answers := map[];
      Reorder(shuffleOn, picks);
      monitoring := true;
      ShowCurrentQuestion();
    }

    /** `showCurrentQuestion`: nothing for an empty quiz, otherwise the question timer restarts. */
    method ShowCurrentQuestion()
      modifies this`timeLeft, this`timerRunning
      ensures |questions| == 0 ==> unchanged(this)
      ensures |questions| > 0 ==> timerRunning && timeLeft == QuestionTime
    {
      if |questions| == 0 {
        return;
      }
      StartQuestionTimer();
    }

    /** `startQuestionTimer`: the countdown starts again from the full question time. */
    method StartQuestionTimer()
      modifies this`timeLeft, this`timerRunning
      ensures timerRunning && timeLeft == QuestionTime
    {
      timeLeft := QuestionTime;
      timerRunning := true;
    }

    /** A click on option `choice`: recorded for the current position unless the quiz is locked. */
    method SelectOption(choice: int)
      requires Valid()
      modifies this`answers
      ensures Valid()
      ensures answers == if old(locked) then old(answers) else old(answers)[index := choice]
    {
      if locked {
        return;
      }
      answers := answers[index := choice];
    }

    /**
     * One second of the question timer: nothing without a running interval or while paused;
     * otherwise the countdown drops by one, and on reaching zero the interval is cleared and
     * `nextQuestion` runs.
     */
    method Tick()
      requires Valid()
      modifies this`timeLeft, this`timerRunning, this`holds
      ensures Valid()
      ensures !old(timerRunning) || old(paused) ==> unchanged(this)
      ensures old(timerRunning) && !old(paused) ==> timeLeft == old(timeLeft) - 1
      ensures old(timerRunning) && !old(paused) && old(timeLeft) > 1 ==> timerRunning && holds == old(holds)
      ensures old(timerRunning) && !old(paused) && old(timeLeft) == 1 ==>
        !timerRunning && holds == if |questions| > 0 then old(holds) + 1 else old(holds)
    {
      if !timerRunning || paused {
        return;
      }
      timeLeft := timeLeft - 1;
      if timeLeft <= 0 {
        timerRunning := false;
        if |questions| > 0 {
          ShownQuestionExists(|questions|, shuffle, order, index);
        }
        NextQuestion();
      }
    }

    /**
     * `nextQuestion`: clears the timer and schedules the 2.5 s hold that moves on. Looking up
     * the question at the display position throws when there is none, and then nothing is
     * scheduled.
     */
    method NextQuestion()
      modifies this`timerRunning, this`holds
      ensures !timerRunning
      ensures holds == if old(ShownQuestionValid()) then old(holds) + 1 else old(holds)
    {
      timerRunning := false;
      if !ShownQuestionValid() {
        return;
      }
      holds := holds + 1;
    }

    /**
     * The hold callback: the next position when there is one, otherwise `finishQuiz`;
     * `now` is the clock reading `generateResultUrl` would stamp on the result.
     */
    method HoldElapsed(now: string)
      requires Valid()
      modifies this`holds, this`index, this`timerRunning, this`timeLeft, this`monitoring, this`blurred,
        this`finishes, this`score, this`result
      ensures Valid()
      ensures old(holds) == 0 ==> unchanged(this)
      ensures old(holds) > 0 && old(index) + 1 < |questions| ==>
        holds == old(holds) - 1 && index == old(index) + 1 && timerRunning && timeLeft == QuestionTime
        && unchanged(this`monitoring, this`blurred, this`finishes, this`score, this`result)
      ensures old(holds) > 0 && old(index) + 1 >= |questions| ==>
        holds == old(holds) - 1 && unchanged(this`index, this`timeLeft)
        && !timerRunning && !monitoring && !blurred && finishes == old(finishes) + 1
        && score == Score(questions, shuffle, order, answers) && result == Some(Submitted(now))
    {
      if holds == 0 {
        return;
      }
      holds := holds - 1;
      if index + 1 < |questions| {
        index := index + 1;
        ShowCurrentQuestion();
      } else {
        Finish(now);
      }
    }

    /** `pauseQuiz`: the timer stops and the remaining time shown is kept in `pausedTimeLeft`. */
    method Pause()
      requires Valid()
      modifies this`paused, this`timerRunning, this`pausedTimeLeft
      ensures Valid()
      ensures paused && !timerRunning && pausedTimeLeft == Some(timeLeft)
    {
      paused := true;
      timerRunning := false;
      pausedTimeLeft := Some(timeLeft);
    }

    /**
     * `resumeQuiz`: unpauses and calls `startQuestionTimer`, so the countdown restarts from the
     * full question time rather than from `pausedTimeLeft`.
     */
    method Resume()
      requires Valid()
      modifies this`paused, this`timerRunning, this`timeLeft
      ensures Valid()
      ensures !paused && timerRunning && timeLeft == QuestionTime
    {
      paused := false;
      StartQuestionTimer();
    }

    /** `endQuizEarly`, with `confirmed` the answer to its `confirm` dialog. */
    method EndEarly(confirmed: bool, now: string)
      requires Valid()
      modifies this`timerRunning, this`monitoring, this`blurred, this`finishes, this`score, this`result
      ensures Valid()
      ensures !confirmed ==> unchanged(this)
      ensures confirmed ==>
        !timerRunning && !monitoring && !blurred && finishes == old(finishes) + 1
        && score == Score(questions, shuffle, order, answers) && result == Some(Submitted(now))
    {
      if confirmed {
        timerRunning := false;
        Finish(now);
      }
    }

    /**
     * `finishQuiz`: the timer and the listeners go, the blur is lifted, `calculateResults`
     * scores the answers through the shuffled order, and `generateResultUrl` builds the result
     * for the link, stamped `now`. The result here carries the shuffle-aware score; the code as
     * written recounts the score for the link by display position instead (see
     * `SubmittedAsWritten`).
     */
    method Finish(now: string)
      modifies this`timerRunning, this`monitoring, this`blurred, this`finishes, this`score, this`result
      ensures !timerRunning && !monitoring && !blurred && finishes == old(finishes) + 1
      ensures score == Score(questions, shuffle, order, answers) && score <= |questions|
      ensures result == Some(Submitted(now))
    {
      timerRunning := false;
      monitoring := false;
      blurred := false;
      score := CalculateResults(questions, shuffle, order, answers);
      result := Some(Submitted(now));
      finishes := finishes + 1;
    }

    /**
     * `escalateViolation`, after the count has been raised: from three violations on, the quiz
     * locks (`lockQuizAndSubmit`: listeners removed, then `finishQuiz`); at exactly two, the
     * interface is blurred and an un-blur is scheduled; below two nothing happens.
     */
    method Escalate(now: string)
      requires Valid()
      modifies this`locked, this`timerRunning, this`monitoring, this`blurred, this`pendingUnblur,
        this`finishes, this`score, this`result
      ensures Valid()
      ensures violations >= 3 ==>
        locked && !timerRunning && !monitoring && !blurred && finishes == old(finishes) + 1
        && score == Score(questions, shuffle, order, answers) && result == Some(Submitted(now))
        && unchanged(this`pendingUnblur)
      ensures violations == 2 ==>
        blurred && pendingUnblur == old(pendingUnblur) + 1
        && unchanged(this`locked, this`timerRunning, this`monitoring, this`finishes, this`score, this`result)
      ensures violations < 2 ==> unchanged(this)
    {
      if violations >= 3 {
        locked := true;
        monitoring := false;
        Finish(now);
      } else if violations == 2 {
        blurred := true;
        pendingUnblur := pendingUnblur + 1;
      }
    }

    /**
     * `handleScreenshotAttempt`, delivered while the key listener is attached; `shortcut` is
     * whether the key was PrintScreen or a Ctrl+Shift or Meta+Shift combination. A locked quiz
     * ignores it; otherwise a shortcut is one more violation, escalated.
     */
    method ScreenshotAttempt(shortcut: bool, now: string)
      requires Valid()
      modifies this`violations, this`locked, this`timerRunning, this`monitoring, this`blurred,
        this`pendingUnblur, this`finishes, this`score, this`result
      ensures Valid()
      ensures !old(monitoring) || old(locked) || !shortcut ==> unchanged(this)
      ensures old(monitoring) && !old(locked) && shortcut ==> violations == old(violations) + 1
      ensures old(monitoring) && !old(locked) && shortcut && violations >= 3 ==>
        locked && !timerRunning && !monitoring && !blurred && finishes == old(finishes) + 1
        && score == Score(questions, shuffle, order, answers) && result == Some(Submitted(now))
        && unchanged(this`pendingUnblur)
      ensures old(monitoring) && !old(locked) && shortcut && violations == 2 ==>
        blurred && pendingUnblur == old(pendingUnblur) + 1
        && unchanged(this`locked, this`timerRunning, this`monitoring, this`finishes, this`score, this`result)
      ensures old(monitoring) && !old(locked) && shortcut && violations < 2 ==>
        unchanged(this`locked, this`timerRunning, this`monitoring, this`blurred, this`pendingUnblur)
        && unchanged(this`finishes, this`score, this`result)
    {
      if !monitoring || locked || !shortcut {
        return;
      }
      violations := violations + 1;
      Escalate(now);
    }

    /**
     * `handleVisibilityChange`, delivered while the blur, focus and visibility listeners are
     * attached; `away` is `document.hidden || !document.hasFocus()`. Leaving the page is one
     * more violation: the interface blurs and the violation is escalated. Coming back lifts
     * the blur.
     */
    method VisibilityChange(away: bool, now: string)
      requires Valid()
      modifies this`violations, this`locked, this`timerRunning, this`monitoring, this`blurred,
        this`pendingUnblur, this`finishes, this`score, this`result
      ensures Valid()
      ensures !old(monitoring) ==> unchanged(this)
      ensures old(monitoring) && !away ==>
        !blurred
        && unchanged(this`violations, this`locked, this`timerRunning, this`monitoring, this`pendingUnblur)
        && unchanged(this`finishes, this`score, this`result)
      ensures old(monitoring) && away ==> violations == old(violations) + 1
      ensures old(monitoring) && away && violations >= 3 ==>
        locked && !timerRunning && !monitoring && !blurred && finishes == old(finishes) + 1
        && score == Score(questions, shuffle, order, answers) && result == Some(Submitted(now))
        && unchanged(this`pendingUnblur)
      ensures old(monitoring) && away && violations == 2 ==>
        blurred && pendingUnblur == old(pendingUnblur) + 1
        && unchanged(this`locked, this`timerRunning, this`monitoring, this`finishes, this`score, this`result)
      ensures old(monitoring) && away && violations < 2 ==>
        blurred
        && unchanged(this`locked, this`timerRunning, this`monitoring, this`pendingUnblur)
        && unchanged(this`finishes, this`score, this`result)
    {
      if !monitoring {
        return;
      }
      if away {
        violations := violations + 1;
        blurred := true;
        Escalate(now);
      } else {
        blurred := false;
      }
    }

    /** The 2 s timeout set at the second violation removes the blur. */
    method BlurExpired()
      requires Valid()
      modifies this`pendingUnblur, this`blurred
      ensures Valid()
      ensures old(pendingUnblur) == 0 ==> unchanged(this)
      ensures old(pendingUnblur) > 0 ==> pendingUnblur == old(pendingUnblur) - 1 && !blurred
    {
      if pendingUnblur == 0 {
        return;
      }
      pendingUnblur := pendingUnblur - 1;
      blurred := false;
    }
  }
}
