/**
 * The exam page's session state: the selected questions, the exam form's radio
 * selections, the countdown, and the latest results. Each user action and each
 * interval tick is one method of `ExamSession`.
 *
 * The browser's intervals are the set `live` of scheduled handles, `timer` is
 * the page's handle variable, and `nextHandle` the handle the next
 * `setInterval` returns; the method `Tick` stands for one firing of a live
 * interval's callback. Clock time and the timestamp are parameters.
 */
module Session {
  import opened Wrappers
  import opened Grader

  /** The `exam` section of a question-bank file. */
  datatype ExamParams = ExamParams(numQuestions: int, timeLimit: int)

  /** A parsed question-bank file; a section that is missing or falsy is `None`. */
  datatype Bank = Bank(exam: Option<ExamParams>, questions: Option<seq<Question>>)

  datatype Phase = Setup | InProgress | Graded

  /** The payload kept for the results download: the report and when it was made. */
  datatype Results = Results(report: GradeReport, timestamp: string)

  const NoResultsMessage: string := "No results to download yet."

  /**
   * `questions.slice(0, n)`: the first `n` questions, clamped to the bank, never
   * padded; a negative `n` counts back from the end of the bank.
   */
  function SelectQuestions(questions: seq<Question>, n: int): (r: seq<Question>)
    ensures |r| <= |questions| && r == questions[..|r|]
    ensures n >= 0 ==> |r| == if n < |questions| then n else |questions|
    ensures n < 0 ==> |r| == if |questions| + n > 0 then |questions| + n else 0
  {
    var end := if n < 0 then (if |questions| + n > 0 then |questions| + n else 0)
               else if n < |questions| then n else |questions|;
    questions[..end]
  }

  /** A bank shorter than the requested count is used whole; a longer one is cut to the count. */
  lemma SelectQuestionsClamps(questions: seq<Question>, n: int)
    requires n >= 0
    ensures n >= |questions| ==> SelectQuestions(questions, n) == questions
    ensures n <= |questions| ==> |SelectQuestions(questions, n)| == n
  {
  }

  class ExamSession {
    var phase: Phase
    var selectedQuestions: seq<Question>
    /** The selected radio of each question group of the exam form, if any. */
    var form: seq<Option<string>>
    var timeRemaining: int
    /** The handle last returned by `setInterval`, as kept in the page's `timer` variable. */
    var timer: nat
    /** The handles of the intervals the browser still has scheduled. */
    var live: set<nat>
    /** The handle the next `setInterval` returns; handles already given out are below it. */
    var nextHandle: nat
    /** The payload the results download offers, once some grading has run. */
    var latestResults: Option<Results>
    /** How many times the countdown has fired grading since the exam started. */
    ghost var autoGradings: nat

    /**
     * One form entry per selected question, each selection one of that
     * question's options; exactly one interval is scheduled, the one `timer`
     * holds, while the exam is in progress, and none otherwise; once graded, the kept results are the grade of the current
     * questions and form; the countdown grades at most once.
     */
    ghost predicate Valid()
      reads this
    {
      && |form| == |selectedQuestions|
      && (forall k :: 0 <= k < |form| && form[k].Some? ==> form[k].value in selectedQuestions[k].options)
      && live == (if phase == InProgress then {timer} else {})
      && timer < nextHandle
      && (phase == InProgress ==> autoGradings == 0)
      && (phase == Graded ==>
            latestResults.Some? && latestResults.value.report == Grade(selectedQuestions, AnswersFrom(form)))
      && autoGradings <= 1
    }

    /** The page as loaded: the setup view, no questions, no clock, no results. A restart reloads the page, which is this state again. */
    constructor ()
      ensures Valid()
      ensures phase == Setup && selectedQuestions == [] && form == []
      ensures timeRemaining == 0 && live == {} && latestResults == None
    {
      phase := Setup;
      selectedQuestions := [];
      form := [];
      timeRemaining := 0;
      timer := 0;
      live := {};
      nextHandle := 1;
      latestResults := None;
      autoGradings := 0;
    }

    /** Whether some interval is still scheduled. */
    predicate Running()
      reads this
    {
      live != {}
    }

    /**
     * The start button, once the file is parsed: a bank without its
     * `questions` or `exam` section is refused and nothing changes; otherwise
     * the exam starts on the first `num_questions` questions.
     */
    method StartExam(bank: Bank) returns (started: bool)
      requires Valid()
      modifies this
      ensures Valid()
      ensures started <==> bank.questions.Some? && bank.exam.Some?
      ensures !started ==>
        phase == old(phase) && selectedQuestions == old(selectedQuestions) && form == old(form)
        && timeRemaining == old(timeRemaining) && timer == old(timer) && live == old(live)
        && nextHandle == old(nextHandle)
        && latestResults == old(latestResults) && autoGradings == old(autoGradings)
      ensures started ==>
        selectedQuestions == SelectQuestions(bank.questions.value, bank.exam.value.numQuestions)
        && phase == InProgress && form == seq(|selectedQuestions|, _ => None)
        && live == {timer} && old(live) !! live && timeRemaining == bank.exam.value.timeLimit * 60
        && latestResults == old(latestResults) && autoGradings == 0
    {
      if bank.questions.None? || bank.exam.None? {
        return false;
      }
      started := true;
      var params := bank.exam.value;
      StartWithParams(SelectQuestions(bank.questions.value, params.numQuestions), params.timeLimit);
    }

    /**
     * Clears the interval `timer` holds, shows a fresh form for `questions`
     * with nothing selected, and starts a new clock at `timeLimit` minutes.
     * Every interval scheduled before is cleared and the one new interval is
     * the only one left. The page always passes its own selection, which it
     * assigns just before the call; the model makes that assignment here.
     */
    method StartWithParams(questions: seq<Question>, timeLimit: int)
      requires Valid()
      modifies this
      ensures Valid()
      ensures selectedQuestions == questions && phase == InProgress
      ensures form == seq(|questions|, _ => None)
      ensures live == {timer} && old(live) !! live && timeRemaining == timeLimit * 60
      ensures latestResults == old(latestResults) && autoGradings == 0
    {
      live := live - {timer};
      phase := InProgress;
      selectedQuestions := questions;
      form := seq(|questions|, _ => None);
      autoGradings := 0;
      StartTimer(timeLimit * 60);
    }

    /**
     * Sets the remaining time, clears the interval `timer` holds and schedules
     * a new one under a fresh handle, which `timer` then holds.
     */
    method StartTimer(seconds: int)
      requires timer < nextHandle && forall h :: h in live ==> h < nextHandle
      modifies this
      ensures timeRemaining == seconds
      ensures timer == old(nextHandle) && nextHandle == old(nextHandle) + 1 && timer !in old(live)
      ensures live == old(live) - {old(timer)} + {timer}
      ensures phase == old(phase) && selectedQuestions == old(selectedQuestions) && form == old(form)
      ensures latestResults == old(latestResults) && autoGradings == old(autoGradings)
    {
      timeRemaining := seconds;
      live := live - {timer};
      timer := nextHandle;
      nextHandle := nextHandle + 1;
      live := live + {timer};
    }

    /** The user picks option `choice` of question `idx`, replacing any earlier pick in that group. */
    method Select(idx: nat, choice: nat)
      requires Valid() && phase == InProgress
      requires idx < |selectedQuestions| && choice < |selectedQuestions[idx].options|
      modifies this
      ensures Valid()
      ensures phase == old(phase) && selectedQuestions == old(selectedQuestions)
      ensures form == old(form)[idx := Some(selectedQuestions[idx].options[choice])]
      ensures timeRemaining == old(timeRemaining) && timer == old(timer) && live == old(live)
      ensures nextHandle == old(nextHandle)
      ensures latestResults == old(latestResults) && autoGradings == old(autoGradings)
    {
      form := form[idx := Some(selectedQuestions[idx].options[choice])];
    }

    /**
     * Grading, by the submit button or by the expiring clock: stops the clock,
     * grades the current form and keeps the results with timestamp `now`.
     * Grading an already graded, unchanged session gives the same report again.
     */
    method Submit(now: string)
      requires Valid()
      modifies this
      ensures Valid()
      ensures phase == Graded && live == old(live) - {old(timer)} && live == {}
      ensures latestResults == Some(Results(Grade(selectedQuestions, AnswersFrom(form)), now))
      ensures old(phase) == Graded ==> latestResults.value.report == old(latestResults).value.report
      ensures selectedQuestions == old(selectedQuestions) && form == old(form)
      ensures timeRemaining == old(timeRemaining) && timer == old(timer) && nextHandle == old(nextHandle)
      ensures autoGradings == old(autoGradings)
    {
      live := live - {timer};
      var report := GradeExam(selectedQuestions, form);
      phase := Graded;
      latestResults := Some(Results(report, now));
    }

    /**
     * One firing of a scheduled interval: one second less; when no time is
     * left the interval `timer` holds is cleared and the exam graded. A
     * cleared interval never fires, so with none scheduled nothing happens.
     */
    method Tick(now: string)
      requires Valid()
      modifies this
      ensures Valid()
      ensures old(live) == {} ==> unchanged(this)
      ensures old(live) != {} ==>
        timeRemaining == old(timeRemaining) - 1 && timer == old(timer) && nextHandle == old(nextHandle)
        && selectedQuestions == old(selectedQuestions) && form == old(form)
      ensures old(live) != {} && timeRemaining > 0 ==>
        live == old(live) && phase == InProgress && latestResults == old(latestResults) && autoGradings == 0
      ensures old(live) != {} && timeRemaining <= 0 ==>
        live == {} && phase == Graded && autoGradings == 1
        && latestResults == Some(Results(Grade(selectedQuestions, AnswersFrom(form)), now))
    {
      if live != {} {
        timeRemaining := timeRemaining - 1;
        if timeRemaining <= 0 {
          // the callback's own `clearInterval(timer)` is the one grading starts with
          Submit(now);
          autoGradings := autoGradings + 1;
        }
      }
    }

    /** The results download: refused until some grading has produced results. */
    method DownloadResults() returns (r: Result<Results>)
      ensures latestResults == None ==> r == Err(NoResultsMessage)
      ensures latestResults != None ==> r == Ok(latestResults.value)
    {
      if latestResults == None {
        return Err(NoResultsMessage);
      }
      r := Ok(latestResults.value);
    }
  }

  /**
   * Lets the interval fire until it is cleared: with `t` seconds left the
   * clock fires `t` times (once if `t <= 0`), then grading has run exactly
   * once, on the form as it stands, and the clock is stopped.
   */
  method RunUntilExpiry(s: ExamSession, now: string) returns (ticks: nat)
    requires s.Valid() && s.Running()
    modifies s
    ensures s.Valid() && !s.Running() && s.phase == Graded && s.autoGradings == 1
    ensures ticks == if old(s.timeRemaining) > 1 then old(s.timeRemaining) else 1
    ensures s.timeRemaining == old(s.timeRemaining) - ticks
    ensures s.selectedQuestions == old(s.selectedQuestions) && s.form == old(s.form)
    ensures s.latestResults == Some(Results(Grade(s.selectedQuestions, AnswersFrom(s.form)), now))
  {
    ghost var start := s.timeRemaining;
    ticks := 0;
    while s.Running()
      invariant s.Valid()
      invariant s.timeRemaining == start - ticks
      invariant s.selectedQuestions == old(s.selectedQuestions) && s.form == old(s.form)
      invariant s.Running() ==> ticks == 0 || s.timeRemaining > 0
      invariant !s.Running() ==>
        ticks >= 1 && s.timeRemaining <= 0 && (ticks == 1 || s.timeRemaining + 1 > 0)
        && s.phase == Graded && s.autoGradings == 1
        && s.latestResults == Some(Results(Grade(s.selectedQuestions, AnswersFrom(s.form)), now))
      decreases if s.Running() then 1 + (if s.timeRemaining > 0 then s.timeRemaining else 0) else 0
    {
      s.Tick(now);
      ticks := ticks + 1;
    }
  }

  /** A three-question bank whose stored answers are A, B and C, on two topics. */
  const ScenarioBank: seq<Question> :=
    [Question("LP", "q1", ["A", "B", "C"], "A"), Question("LP", "q2", ["A", "B", "C"], "B"),
     Question("WE", "q3", ["A", "B", "C"], "C")]

  /** The first two questions answered correctly, the third left open. */
  const ScenarioAnswers: seq<Option<string>> := [Some("A"), Some("B"), None]

  lemma ScenarioCorrectCount()
    ensures CountCorrect(PerQuestion(ScenarioBank, ScenarioAnswers)) == 2
  {
    var rs := PerQuestion(ScenarioBank, ScenarioAnswers);
    assert rs[..2][..1] == rs[..1] && rs[..1][..0] == [];
    assert rs[..|rs| - 1] == rs[..2];
    assert CountCorrect(rs[..1]) == 1;
    assert CountCorrect(rs[..2]) == 2;
  }

  lemma ScenarioTopicOrder()
    ensures TopicSeq(PerQuestion(ScenarioBank, ScenarioAnswers)) == ["LP", "LP", "WE"]
    ensures FirstEncounter(["LP", "LP", "WE"]) == ["LP", "WE"]
  {
    var ts: seq<string> := ["LP", "LP", "WE"];
    assert ts[..2] == ["LP", "LP"] && ts[..2][..1] == ["LP"] && ts[..2][..1][..0] == [];
    assert FirstEncounter(ts[..2][..1]) == ["LP"];
    assert FirstEncounter(ts[..2]) == ["LP"];
  }

  lemma ScenarioTopicCounts()
    ensures CountsOf(PerQuestion(ScenarioBank, ScenarioAnswers)) ==
      map["LP" := TopicCount(2, 2), "WE" := TopicCount(0, 1)]
  {
    var rs := PerQuestion(ScenarioBank, ScenarioAnswers);
    ScenarioTopicOrder();
    assert rs[..2][..1] == rs[..1] && rs[..1][..0] == [];
    assert rs[..|rs| - 1] == rs[..2];
    assert rs[1].isCorrect && rs[0].isCorrect && !rs[2].isCorrect;
    assert TopicCorrect(rs[..1], "LP") == 1 && TopicCorrect(rs[..1], "WE") == 0;
    assert TopicCorrect(rs[..2], "LP") == 2 && TopicCorrect(rs[..2], "WE") == 0;
    assert TopicTotal(rs[..1], "WE") == 0 && TopicTotal(rs[..2], "WE") == 0;
    assert TopicTotal(rs, "LP") == 2 && TopicCorrect(rs, "LP") == 2;
    assert TopicTotal(rs, "WE") == 1 && TopicCorrect(rs, "WE") == 0;
  }

  /** Answers A, B and nothing grade as 2 of 3, with LP 2 of 2 and WE 0 of 1, in that order. */
  lemma ScenarioGrade()
    ensures var g := Grade(ScenarioBank, ScenarioAnswers);
            && g.totalCorrect == 2 && g.totalQuestions == 3
            && g.breakdown.topics == ["LP", "WE"]
            && g.breakdown.counts == map["LP" := TopicCount(2, 2), "WE" := TopicCount(0, 1)]
  {
    ScenarioCorrectCount();
    ScenarioTopicOrder();
    ScenarioTopicCounts();
  }

  /**
   * The three-question bank with a one-minute limit: after the first two
   * questions are answered correctly and the third is left open, the clock
   * fires sixty times and is then no longer scheduled, and the results on
   * offer are 2 of 3 with one entry per topic. That grading ran exactly once
   * is `RunUntilExpiry`'s promise.
   */
  method ExpiryScenario() returns (correct: nat, total: nat, ticks: nat, running: bool, breakdown: Breakdown)
    ensures correct == 2 && total == 3 && ticks == 60 && !running
    ensures breakdown.topics == ["LP", "WE"]
    ensures breakdown.counts == map["LP" := TopicCount(2, 2), "WE" := TopicCount(0, 1)]
  {
    var s := new ExamSession();
    var started := s.StartExam(Bank(Some(ExamParams(3, 1)), Some(ScenarioBank)));
    assert s.selectedQuestions == ScenarioBank;
    s.Select(0, 0);
    s.Select(1, 1);
    ticks := RunUntilExpiry(s, "now");
    running := s.Running();
    assert AnswersFrom(s.form) == ScenarioAnswers;
    ScenarioGrade();
    var download := s.DownloadResults();
    var report := download.value.report;
    correct, total, breakdown := report.totalCorrect, report.totalQuestions, report.breakdown;
  }
}
