/**
 * The tally that grading performs over the selected questions and the answers
 * read from the exam form: the correct count, the per-topic breakdown with
 * topics in first-encounter order, and the ordered per-question results.
 *
 * `GradeExam` is the loop with its accumulators; `Grade` is an independent
 * description of what it computes, built from counting functions on the
 * per-question results; the lemmas state what the counts mean.
 */
module Grader {
  import opened Wrappers

  /** One record of the question bank. */
  datatype Question = Question(topic: string, question: string, options: seq<string>, answer: string)

  /** One entry of the review list and of the exported `questions` array. */
  datatype QuestionResult = QuestionResult(
    index: nat,
    topic: string,
    question: string,
    userAnswer: Option<string>,
    correctAnswer: string,
    isCorrect: bool)

  datatype TopicCount = TopicCount(correct: nat, total: nat)

  /** A dictionary with insertion order: the keys in the order they were added, and the entries. */
  datatype Breakdown = Breakdown(topics: seq<string>, counts: map<string, TopicCount>)

  /** The graded payload, without its timestamp and its rounded percentage. */
  datatype GradeReport = GradeReport(
    totalCorrect: nat,
    totalQuestions: nat,
    breakdown: Breakdown,
    questions: seq<QuestionResult>)

  /**
   * `fd.get(name) || null`: an unanswered question reads as null, and so does a
   * selected option whose text is the empty string, which is falsy.
   */
  function AnswerFrom(selection: Option<string>): (ua: Option<string>)
    ensures ua == None <==> selection == None || selection == Some("")
    ensures ua != None ==> ua == selection
  {
    if selection == Some("") then None else selection
  }

  /** `selectedQuestions.map(...)`: one read answer per question of the form. */
  function AnswersFrom(form: seq<Option<string>>): (ua: seq<Option<string>>)
    ensures |ua| == |form|
  {
    seq(|form|, k requires 0 <= k < |form| => AnswerFrom(form[k]))
  }

  /** Strict equality with the stored answer; an absent answer never matches. */
  predicate IsCorrect(ua: Option<string>, q: Question)
  {
    ua == Some(q.answer)
  }

  function ResultFor(qs: seq<Question>, ua: seq<Option<string>>, k: nat): QuestionResult
    requires |ua| == |qs| && k < |qs|
  {
    QuestionResult(k + 1, qs[k].topic, qs[k].question, ua[k], qs[k].answer, IsCorrect(ua[k], qs[k]))
  }

  function PerQuestion(qs: seq<Question>, ua: seq<Option<string>>): (rs: seq<QuestionResult>)
    requires |ua| == |qs|
    ensures |rs| == |qs|
  {
    seq(|qs|, k requires 0 <= k < |qs| => ResultFor(qs, ua, k))
  }

  // ----- counting over per-question results -----

  function CountCorrect(rs: seq<QuestionResult>): (n: nat)
    ensures n <= |rs|
  {
    if rs == [] then 0
    else CountCorrect(rs[..|rs| - 1]) + (if rs[|rs| - 1].isCorrect then 1 else 0)
  }

  function TopicTotal(rs: seq<QuestionResult>, t: string): (n: nat)
    ensures n <= |rs|
  {
    if rs == [] then 0
    else TopicTotal(rs[..|rs| - 1], t) + (if rs[|rs| - 1].topic == t then 1 else 0)
  }

  function TopicCorrect(rs: seq<QuestionResult>, t: string): (n: nat)
    ensures n <= TopicTotal(rs, t)
  {
    if rs == [] then 0
    else TopicCorrect(rs[..|rs| - 1], t) + (if rs[|rs| - 1].topic == t && rs[|rs| - 1].isCorrect then 1 else 0)
  }

  function TopicSeq(rs: seq<QuestionResult>): (ts: seq<string>)
    ensures |ts| == |rs|
  {
    seq(|rs|, k requires 0 <= k < |rs| => rs[k].topic)
  }

  predicate Distinct(ts: seq<string>)
  {
    forall i, j :: 0 <= i < j < |ts| ==> ts[i] != ts[j]
  }

  /** Each topic of `ts` once, in the order of its first occurrence. */
  function FirstEncounter(ts: seq<string>): (r: seq<string>)
    ensures forall t :: t in r <==> t in ts
    ensures Distinct(r)
  {
    if ts == [] then []
    else
      var prev := FirstEncounter(ts[..|ts| - 1]);
      var t := ts[|ts| - 1];
      assert forall u :: u in ts <==> u in ts[..|ts| - 1] || u == t by {
        assert ts == ts[..|ts| - 1] + [t];
      }
      if t in prev then prev else prev + [t]
  }

  /** The entry of every topic that occurs: its correct and total counts. */
  function CountsOf(rs: seq<QuestionResult>): map<string, TopicCount>
  {
    map t | t in TopicSeq(rs) :: TopicCount(TopicCorrect(rs, t), TopicTotal(rs, t))
  }

  function BreakdownOf(rs: seq<QuestionResult>): Breakdown
  {
    Breakdown(FirstEncounter(TopicSeq(rs)), CountsOf(rs))
  }

  /** What grading computes from the questions and the read answers. */
  function Grade(qs: seq<Question>, ua: seq<Option<string>>): GradeReport
    requires |ua| == |qs|
  {
    var rs := PerQuestion(qs, ua);
    GradeReport(CountCorrect(rs), |qs|, BreakdownOf(rs), rs)
  }

  /** The entries of `topics` in `counts`, added up field by field. */
  function SumCounts(topics: seq<string>, counts: map<string, TopicCount>): TopicCount
    requires forall t :: t in topics ==> t in counts
  {
    if topics == [] then TopicCount(0, 0)
    else
      var s := SumCounts(topics[..|topics| - 1], counts);
      var c := counts[topics[|topics| - 1]];
      TopicCount(s.correct + c.correct, s.total + c.total)
  }

  /** The dictionary entry after one more result: created at zero if new, then incremented. */
  function Bump(counts: map<string, TopicCount>, r: QuestionResult): map<string, TopicCount>
  {
    var base := if r.topic in counts then counts[r.topic] else TopicCount(0, 0);
    counts[r.topic := TopicCount(base.correct + (if r.isCorrect then 1 else 0), base.total + 1)]
  }

  // ----- the grading loop -----

  /**
   * Grades the selected questions against the form's selections: reads one
   * answer per question, then walks the questions in order, counting correct
   * answers, adding to the topic's entry (created on first encounter) and
   * appending the question's result.
   */
  method GradeExam(questions: seq<Question>, form: seq<Option<string>>) returns (report: GradeReport)
    requires |form| == |questions|
    ensures report == Grade(questions, AnswersFrom(form))
    ensures report.totalQuestions == |questions| && |report.questions| == |questions|
    ensures forall k :: 0 <= k < |questions| ==>
      report.questions[k] == QuestionResult(k + 1, questions[k].topic, questions[k].question,
        AnswerFrom(form[k]), questions[k].answer, AnswerFrom(form[k]) == Some(questions[k].answer))
  {
    var userAnswers := AnswersFrom(form);
    var correct := 0;
    var topics: seq<string> := [];
    var counts: map<string, TopicCount> := map[];
    var perQuestion: seq<QuestionResult> := [];
    var idx := 0;
    ghost var expected := PerQuestion(questions, userAnswers);
    while idx < |questions|
      invariant 0 <= idx <= |questions|
      invariant perQuestion == expected[..idx]
      invariant Tallied(perQuestion, correct, topics, counts)
    {
      var q := questions[idx];
      var ua := userAnswers[idx];
      var isCorrect := IsCorrect(ua, q);
      var r := QuestionResult(idx + 1, q.topic, q.question, ua, q.answer, isCorrect);
      TallyStep(perQuestion, r, correct, topics, counts);
      if isCorrect {
        correct := correct + 1;
      }
      counts, topics := Tally(counts, topics, r);
      PrefixStep(expected, idx);
      perQuestion := perQuestion + [r];
      idx := idx + 1;
    }
    assert expected[..idx] == expected;
    report := GradeReport(correct, |questions|, Breakdown(topics, counts), perQuestion);
    GradeEntries(questions, userAnswers);
  }

  /**
   * The breakdown update for one question: a topic seen for the first time gets
   * a zero entry and joins the key order; then its total, and on a correct
   * answer its correct count, go up by one.
   */
  method Tally(counts: map<string, TopicCount>, topics: seq<string>, r: QuestionResult)
    returns (counts': map<string, TopicCount>, topics': seq<string>)
    ensures counts' == Bump(counts, r)
    ensures topics' == if r.topic in counts then topics else topics + [r.topic]
  {
    counts', topics' := counts, topics;
    if r.topic !in counts' {
      counts' := counts'[r.topic := TopicCount(0, 0)];
      topics' := topics' + [r.topic];
    }
    counts' := counts'[r.topic := counts'[r.topic].(total := counts'[r.topic].total + 1)];
    if r.isCorrect {
      counts' := counts'[r.topic := counts'[r.topic].(correct := counts'[r.topic].correct + 1)];
    }
  }

  lemma PrefixStep<T>(s: seq<T>, i: nat)
    requires i < |s|
    ensures s[..i + 1] == s[..i] + [s[i]]
  {
  }

  /** One result per question, in order, numbered from 1, copying the question and judging its answer. */
  lemma GradeEntries(qs: seq<Question>, ua: seq<Option<string>>)
    requires |ua| == |qs|
    ensures var g := Grade(qs, ua);
            && g.totalQuestions == |qs| && |g.questions| == |qs|
            && forall k :: 0 <= k < |qs| ==>
                 g.questions[k] == QuestionResult(k + 1, qs[k].topic, qs[k].question, ua[k], qs[k].answer, ua[k] == Some(qs[k].answer))
  {
  }

  /** The accumulators of the grading loop agree with the results appended so far. */
  predicate Tallied(rs: seq<QuestionResult>, correct: nat, topics: seq<string>, counts: map<string, TopicCount>)
  {
    correct == CountCorrect(rs) && topics == FirstEncounter(TopicSeq(rs)) && counts == CountsOf(rs)
  }

  lemma TallyStep(rs: seq<QuestionResult>, r: QuestionResult, correct: nat, topics: seq<string>,
                  counts: map<string, TopicCount>)
    requires Tallied(rs, correct, topics, counts)
    ensures Tallied(rs + [r], correct + (if r.isCorrect then 1 else 0),
                    if r.topic in counts then topics else topics + [r.topic], Bump(counts, r))
  {
    RecordStep(rs, r);
  }

  /** How each accumulator of the grading loop changes when one result is appended. */
  lemma RecordStep(rs: seq<QuestionResult>, r: QuestionResult)
    ensures CountCorrect(rs + [r]) == CountCorrect(rs) + (if r.isCorrect then 1 else 0)
    ensures TopicSeq(rs + [r]) == TopicSeq(rs) + [r.topic]
    ensures FirstEncounter(TopicSeq(rs + [r])) ==
      if r.topic in FirstEncounter(TopicSeq(rs)) then FirstEncounter(TopicSeq(rs))
      else FirstEncounter(TopicSeq(rs)) + [r.topic]
    ensures CountsOf(rs + [r]) == Bump(CountsOf(rs), r)
  {
    var rs' := rs + [r];
    assert rs'[..|rs'| - 1] == rs;
    var ts' := TopicSeq(rs');
    assert ts' == TopicSeq(rs) + [r.topic];
    assert ts'[..|ts'| - 1] == TopicSeq(rs);
    forall t
      ensures TopicTotal(rs', t) == TopicTotal(rs, t) + (if r.topic == t then 1 else 0)
      ensures TopicCorrect(rs', t) == TopicCorrect(rs, t) + (if r.topic == t && r.isCorrect then 1 else 0)
    {
    }
    var m := Bump(CountsOf(rs), r);
    assert forall t :: t in CountsOf(rs') <==> t in m;
    forall t | t in m
      ensures CountsOf(rs')[t] == m[t]
    {
      if t != r.topic {
        assert t in TopicSeq(rs);
      } else if r.topic !in TopicSeq(rs) {
        TopicAbsent(rs, r.topic);
      }
    }
  }

  /** A topic that does not occur has zero counts. */
  lemma {:induction false} TopicAbsent(rs: seq<QuestionResult>, t: string)
    requires t !in TopicSeq(rs)
    ensures TopicTotal(rs, t) == 0 && TopicCorrect(rs, t) == 0
  {
    if rs != [] {
      var init := rs[..|rs| - 1];
      assert TopicSeq(rs) == TopicSeq(init) + [rs[|rs| - 1].topic];
      TopicAbsent(init, t);
    }
  }

  /** A topic that does occur has a positive total. */
  lemma {:induction false} TopicPresent(rs: seq<QuestionResult>, t: string)
    requires t in TopicSeq(rs)
    ensures TopicTotal(rs, t) >= 1
  {
    var init := rs[..|rs| - 1];
    assert TopicSeq(rs) == TopicSeq(init) + [rs[|rs| - 1].topic];
    if rs[|rs| - 1].topic != t {
      TopicPresent(init, t);
    }
  }

  // ----- properties of the breakdown -----

  /** An earlier key of the order first appears before any occurrence of a later key. */
  lemma {:induction false} FirstEncounterOrder(ts: seq<string>)
    ensures forall i, j, k :: 0 <= i < j < |FirstEncounter(ts)| && 0 <= k < |ts| && ts[k] == FirstEncounter(ts)[j] ==>
              FirstEncounter(ts)[i] in ts[..k]
  {
    if ts != [] {
      var init := ts[..|ts| - 1];
      var x := ts[|ts| - 1];
      FirstEncounterOrder(init);
      var prev := FirstEncounter(init);
      var r := FirstEncounter(ts);
      forall i, j, k | 0 <= i < j < |r| && 0 <= k < |ts| && ts[k] == r[j]
        ensures r[i] in ts[..k]
      {
        assert r[i] == prev[i];
        if k < |ts| - 1 {
          assert ts[k] == init[k];
          assert r[j] in prev;
          assert j < |prev|;
          assert r[j] == prev[j];
          assert init[k] == prev[j];
          assert prev[i] in init[..k];
          assert ts[..k] == init[..k];
        } else {
          assert ts[..k] == init;
          assert prev[i] in prev;
        }
      }
    }
  }

  /** Updating an entry outside the key list leaves the sum alone. */
  lemma {:induction false} SumUnaffected(topics: seq<string>, counts: map<string, TopicCount>, t: string, v: TopicCount)
    requires forall u :: u in topics ==> u in counts
    requires t !in topics
    ensures SumCounts(topics, counts[t := v]) == SumCounts(topics, counts)
  {
    if topics != [] {
      var init := topics[..|topics| - 1];
      assert forall u :: u in init ==> u in topics;
      SumUnaffected(init, counts, t, v);
    }
  }

  /** Updating the entry of a key that occurs once moves the sum by that entry's change. */
  lemma {:induction false} SumUpdated(topics: seq<string>, counts: map<string, TopicCount>, t: string, v: TopicCount)
    requires forall u :: u in topics ==> u in counts
    requires Distinct(topics) && t in topics
    ensures SumCounts(topics, counts[t := v]).correct + counts[t].correct == SumCounts(topics, counts).correct + v.correct
    ensures SumCounts(topics, counts[t := v]).total + counts[t].total == SumCounts(topics, counts).total + v.total
  {
    var init := topics[..|topics| - 1];
    assert forall u :: u in init ==> u in topics;
    if topics[|topics| - 1] == t {
      assert t !in init;
      SumUnaffected(init, counts, t, v);
    } else {
      assert t in init;
      SumUpdated(init, counts, t, v);
    }
  }

  /** Adding one result to the dictionary adds one to the summed totals, and its correctness to the summed correct counts. */
  lemma SumBump(order: seq<string>, c: map<string, TopicCount>, r: QuestionResult)
    requires Distinct(order) && forall t :: t in order <==> t in c
    ensures var order' := if r.topic in c then order else order + [r.topic];
            (forall t :: t in order' ==> t in Bump(c, r))
            && SumCounts(order', Bump(c, r)) ==
               TopicCount(SumCounts(order, c).correct + (if r.isCorrect then 1 else 0), SumCounts(order, c).total + 1)
  {
    if r.topic in c {
      SumBumpKnown(order, c, r);
    } else {
      SumBumpNew(order, c, r);
    }
  }

  lemma SumBumpKnown(order: seq<string>, c: map<string, TopicCount>, r: QuestionResult)
    requires Distinct(order) && forall t :: t in order <==> t in c
    requires r.topic in c
    ensures (forall t :: t in order ==> t in Bump(c, r))
            && SumCounts(order, Bump(c, r)) ==
               TopicCount(SumCounts(order, c).correct + (if r.isCorrect then 1 else 0), SumCounts(order, c).total + 1)
  {
    var v := TopicCount(c[r.topic].correct + (if r.isCorrect then 1 else 0), c[r.topic].total + 1);
    assert Bump(c, r) == c[r.topic := v];
    SumUpdated(order, c, r.topic, v);
  }

  lemma SumBumpNew(order: seq<string>, c: map<string, TopicCount>, r: QuestionResult)
    requires forall t :: t in order <==> t in c
    requires r.topic !in c
    ensures (forall t :: t in order + [r.topic] ==> t in Bump(c, r))
            && SumCounts(order + [r.topic], Bump(c, r)) ==
               TopicCount(SumCounts(order, c).correct + (if r.isCorrect then 1 else 0), SumCounts(order, c).total + 1)
  {
    var v := TopicCount(if r.isCorrect then 1 else 0, 1);
    var m := c[r.topic := v];
    assert Bump(c, r) == m;
    var order' := order + [r.topic];
    assert forall t :: t in order' ==> t in m;
    assert order'[..|order'| - 1] == order && order'[|order'| - 1] == r.topic;
    assert SumCounts(order', m) == TopicCount(SumCounts(order, m).correct + v.correct, SumCounts(order, m).total + v.total);
    SumUnaffected(order, c, r.topic, v);
  }

  /**
   * Conservation: over the topics in order, the totals add up to the number of
   * results and the correct counts to the number of correct results.
   */
  lemma {:induction false} BreakdownConservation(rs: seq<QuestionResult>)
    ensures SumCounts(FirstEncounter(TopicSeq(rs)), CountsOf(rs)) == TopicCount(CountCorrect(rs), |rs|)
  {
    if rs != [] {
      var init := rs[..|rs| - 1];
      var r := rs[|rs| - 1];
      assert rs == init + [r];
      BreakdownConservation(init);
      RecordStep(init, r);
      SumBump(FirstEncounter(TopicSeq(init)), CountsOf(init), r);
    }
  }

  ghost function CorrectIndices(rs: seq<QuestionResult>): set<nat>
  {
    set k | 0 <= k < |rs| && rs[k].isCorrect
  }

  ghost function TopicIndices(rs: seq<QuestionResult>, t: string): set<nat>
  {
    set k | 0 <= k < |rs| && rs[k].topic == t
  }

  /** The correct count is the number of positions whose result is correct. */
  lemma {:induction false} CountCorrectIsCardinality(rs: seq<QuestionResult>)
    ensures CountCorrect(rs) == |CorrectIndices(rs)|
  {
    if rs != [] {
      var init := rs[..|rs| - 1];
      CountCorrectIsCardinality(init);
      var n := |rs| - 1;
      if rs[n].isCorrect {
        assert CorrectIndices(rs) == CorrectIndices(init) + {n};
      } else {
        assert CorrectIndices(rs) == CorrectIndices(init);
      }
    }
  }

  /** A topic's total is the number of positions with that topic. */
  lemma {:induction false} TopicTotalIsCardinality(rs: seq<QuestionResult>, t: string)
    ensures TopicTotal(rs, t) == |TopicIndices(rs, t)|
  {
    if rs != [] {
      var init := rs[..|rs| - 1];
      TopicTotalIsCardinality(init, t);
      var n := |rs| - 1;
      if rs[n].topic == t {
        assert TopicIndices(rs, t) == TopicIndices(init, t) + {n};
      } else {
        assert TopicIndices(rs, t) == TopicIndices(init, t);
      }
    }
  }

  ghost function TopicCorrectIndices(rs: seq<QuestionResult>, t: string): set<nat>
  {
    set k | 0 <= k < |rs| && rs[k].topic == t && rs[k].isCorrect
  }

  /** A topic's correct count is the number of positions with that topic and a correct result. */
  lemma {:induction false} TopicCorrectIsCardinality(rs: seq<QuestionResult>, t: string)
    ensures TopicCorrect(rs, t) == |TopicCorrectIndices(rs, t)|
  {
    if rs != [] {
      var init := rs[..|rs| - 1];
      TopicCorrectIsCardinality(init, t);
      var n := |rs| - 1;
      if rs[n].topic == t && rs[n].isCorrect {
        assert TopicCorrectIndices(rs, t) == TopicCorrectIndices(init, t) + {n};
      } else {
        assert TopicCorrectIndices(rs, t) == TopicCorrectIndices(init, t);
      }
    }
  }

  /** All results correct exactly when the count is full; none exactly when it is zero. */
  lemma {:induction false} CountCorrectExtremes(rs: seq<QuestionResult>)
    ensures CountCorrect(rs) == |rs| <==> forall k :: 0 <= k < |rs| ==> rs[k].isCorrect
    ensures CountCorrect(rs) == 0 <==> forall k :: 0 <= k < |rs| ==> !rs[k].isCorrect
  {
    if rs != [] {
      var init := rs[..|rs| - 1];
      CountCorrectExtremes(init);
      assert forall k :: 0 <= k < |init| ==> init[k] == rs[k];
    }
  }

  // ----- what grading promises -----

  /**
   * The correct count is the number of questions whose read answer equals the
   * stored answer, so it lies between 0 and the number of questions.
   */
  lemma GradeCorrectCount(qs: seq<Question>, ua: seq<Option<string>>)
    requires |ua| == |qs|
    ensures Grade(qs, ua).totalCorrect == |set k | 0 <= k < |qs| && ua[k] == Some(qs[k].answer)|
    ensures Grade(qs, ua).totalCorrect <= Grade(qs, ua).totalQuestions == |qs|
  {
    var rs := PerQuestion(qs, ua);
    CountCorrectIsCardinality(rs);
    assert CorrectIndices(rs) == set k | 0 <= k < |qs| && ua[k] == Some(qs[k].answer);
  }

  /** An unanswered question is never counted correct. */
  lemma AbsentNeverCorrect(qs: seq<Question>, ua: seq<Option<string>>, k: nat)
    requires |ua| == |qs| && k < |qs| && ua[k] == None
    ensures !Grade(qs, ua).questions[k].isCorrect
  {
  }

  /**
   * The breakdown's keys are exactly the topics of the questions, each once,
   * in the order each topic is first met; every entry has a positive total,
   * no more correct than total, and counts that match the questions.
   */
  lemma GradeBreakdownKeys(qs: seq<Question>, ua: seq<Option<string>>)
    requires |ua| == |qs|
    ensures var b := Grade(qs, ua).breakdown;
            && (forall t :: t in b.topics <==> t in b.counts)
            && b.counts.Keys == (set k | 0 <= k < |qs| :: qs[k].topic)
            && Distinct(b.topics)
            && forall i, j, k :: 0 <= i < j < |b.topics| && 0 <= k < |qs| && qs[k].topic == b.topics[j] ==>
                 exists k' :: 0 <= k' < k && qs[k'].topic == b.topics[i]
  {
    var rs := PerQuestion(qs, ua);
    var ts := TopicSeq(rs);
    var b := Grade(qs, ua).breakdown;
    assert forall k :: 0 <= k < |qs| ==> ts[k] == qs[k].topic;
    assert b.counts.Keys == (set k | 0 <= k < |qs| :: qs[k].topic) by {
      forall t | t in b.counts ensures t in (set k | 0 <= k < |qs| :: qs[k].topic) {
        var k :| 0 <= k < |ts| && ts[k] == t;
      }
    }
    FirstEncounterOrder(ts);
    assert b.topics == FirstEncounter(ts);
    forall i, j, k | 0 <= i < j < |b.topics| && 0 <= k < |qs| && qs[k].topic == b.topics[j]
      ensures exists k' :: 0 <= k' < k && qs[k'].topic == b.topics[i]
    {
      assert ts[k] == b.topics[j];
      assert b.topics[i] in ts[..k];
      var k' :| 0 <= k' < k && ts[..k][k'] == b.topics[i];
      assert qs[k'].topic == b.topics[i];
    }
  }

  lemma GradeBreakdownCounts(qs: seq<Question>, ua: seq<Option<string>>, t: string)
    requires |ua| == |qs|
    requires t in Grade(qs, ua).breakdown.counts
    ensures var c := Grade(qs, ua).breakdown.counts[t];
            && 1 <= c.total
            && c.correct <= c.total
            && c.total == |set k | 0 <= k < |qs| && qs[k].topic == t|
            && c.correct == |set k | 0 <= k < |qs| && qs[k].topic == t && ua[k] == Some(qs[k].answer)|
  {
    var rs := PerQuestion(qs, ua);
    TopicPresent(rs, t);
    TopicTotalIsCardinality(rs, t);
    TopicCorrectIsCardinality(rs, t);
    assert TopicIndices(rs, t) == set k | 0 <= k < |qs| && qs[k].topic == t;
    assert TopicCorrectIndices(rs, t) == set k | 0 <= k < |qs| && qs[k].topic == t && ua[k] == Some(qs[k].answer);
  }

  /**
   * The topic totals add up to the number of questions and the topic correct
   * counts to the overall correct count.
   */
  lemma GradeBreakdownConservation(qs: seq<Question>, ua: seq<Option<string>>)
    requires |ua| == |qs|
    ensures var g := Grade(qs, ua);
            (forall t :: t in g.breakdown.topics ==> t in g.breakdown.counts)
            && SumCounts(g.breakdown.topics, g.breakdown.counts) == TopicCount(g.totalCorrect, g.totalQuestions)
  {
    BreakdownConservation(PerQuestion(qs, ua));
  }

  /**
   * Overall score as the exact ratio `correct / total * 100` (defined only for a
   * non-empty exam): between 0 and 100, and 100 exactly when every question is correct.
   */
  function ScorePercent(qs: seq<Question>, ua: seq<Option<string>>): (p: real)
    requires |ua| == |qs| && |qs| > 0
    ensures 0.0 <= p <= 100.0
    ensures p == 100.0 <==> forall k :: 0 <= k < |qs| ==> IsCorrect(ua[k], qs[k])
  {
    var g := Grade(qs, ua);
    CountCorrectExtremes(g.questions);
    assert forall k :: 0 <= k < |qs| ==> g.questions[k].isCorrect == IsCorrect(ua[k], qs[k]);
    ScoreRatio(g.totalCorrect, |qs|);
    (g.totalCorrect as real) / (|qs| as real) * 100.0
  }

  lemma ScoreRatio(c: nat, n: nat)
    requires 0 < n && c <= n
    ensures 0.0 <= (c as real) / (n as real) * 100.0 <= 100.0
    ensures (c as real) / (n as real) * 100.0 == 100.0 <==> c == n
  {
    var nr := n as real;
    var q := (c as real) / nr;
    assert q * nr == c as real;
    assert (1.0 - q) * nr == nr - c as real;
    NonNegativeFactor(1.0 - q, nr);
    NonNegativeFactor(q, nr);
    if c == n {
      assert (q - 1.0) * nr == 0.0;
      NonNegativeFactor(q - 1.0, nr);
    }
  }

  lemma NonNegativeFactor(x: real, y: real)
    requires y > 0.0 && x * y >= 0.0
    ensures x >= 0.0
  {
  }
}
