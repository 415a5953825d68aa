/**
 * The exam session: the phase machine setup -> exam -> results -> setup,
 * with the answer map, the current question and the server-side deadline.
 */
module Session {
  import opened Wrappers
  import opened Bank
  import opened Sampler
  import opened Grading

  /** Length of an attempt in seconds: the deadline is start time plus one hour. */
  const ExamSeconds: int := 3600

  datatype Phase = Setup | Exam | Results

  /** How a press of the start button ends: started, or one of the two messages shown. */
  datatype StartOutcome = Started | NameMissing | BankEmpty

  /** The buttons of the exam page; at most one is pressed per run of the page. */
  datatype ExamAction =
    | NoAction
    | JumpTo(index: int)   // a numbered button of the question map
    | Previous             // "previous"
    | Next                 // "next"
    | FinishLast           // "finish and submit", shown on the last question
    | Submit               // "submit exam" in the sidebar

  /**
   * Position of the recorded answer among the four options, as
   * `opts.index(ans) if ans in opts else None`: the option the radio
   * group shows as selected.
   */
  function Preselected(q: Question, answers: map<int, string>): (r: Option<nat>)
    ensures r.Some? ==> r.value < 4 && q.id in answers
    ensures r.Some? ==> [q.optionA, q.optionB, q.optionC, q.optionD][r.value] == answers[q.id]
    ensures r.Some? ==> forall k :: 0 <= k < r.value ==> [q.optionA, q.optionB, q.optionC, q.optionD][k] != answers[q.id]
    ensures r.None? <==> q.id !in answers || answers[q.id] !in [q.optionA, q.optionB, q.optionC, q.optionD]
  {
    if q.id !in answers then None
    else
      var ans := answers[q.id];
      if ans == q.optionA then Some(0)
      else if ans == q.optionB then Some(1)
      else if ans == q.optionC then Some(2)
      else if ans == q.optionD then Some(3)
      else None
  }

  /** The per-user session state of the exam page. */
  class ExamSession {
    var phase: Phase
    var studentName: string
    var passMark: int
    var subject: string
    var questions: seq<Question>
    var currentIndex: int
    var answers: map<int, string>
    var endTime: int
    var rawScore: nat
    var incorrect: seq<Miss>

    /**
     * During the exam exactly one question is current; once in results
     * the score and the misses are those of the recorded answers.
     */
    ghost predicate Valid()
      reads this
    {
      && (phase == Exam ==> 0 <= currentIndex < |questions|)
      && (phase == Results ==> questions != [] && rawScore == Score(questions, answers)
                               && incorrect == Misses(questions, answers))
    }

    /** The state after `session_state.clear()`: setup, nothing recorded. */
    ghost predicate Fresh()
      reads this
    {
      && phase == Setup
      && studentName == "" && subject == "" && passMark == 0
      && questions == [] && currentIndex == 0 && answers == map[] && endTime == 0
      && rawScore == 0 && incorrect == []
    }

    constructor ()
      ensures Valid() && Fresh()
    {
      phase, studentName, passMark, subject := Setup, "", 0, "";
      questions, currentIndex, answers, endTime := [], 0, map[], 0;
      rawScore, incorrect := 0, [];
    }

    /**
     * The start button of the setup page: a name is required, then a
     * balanced sample of `count` questions of `sub`; a non-empty sample
     * starts the exam with the deadline one hour after `now`. The ghost
     * results are those of the sampler's run: the sections, the draw of
     * each section in the balanced round and the backfill.
     */
    method Start(name: string, mark: int, sub: string, count: nat, now: int, store: seq<Question>)
      returns (outcome: StartOutcome, ghost sections: seq<string>, ghost parts: seq<seq<Question>>, ghost backfill: seq<Question>)
      requires Valid() && phase == Setup && DistinctIds(store)
      modifies this
      ensures Valid()
      ensures outcome == NameMissing <==> name == ""
      ensures outcome == BankEmpty <==> name != "" && Min(count, |SubjectQuestions(store, sub)|) == 0
      ensures outcome != Started ==> unchanged(this)
      ensures outcome == Started ==>
                && phase == Exam && studentName == name && passMark == mark && subject == sub
                && currentIndex == 0 && answers == map[] && endTime == now + ExamSeconds
                && rawScore == old(rawScore) && incorrect == old(incorrect)
                && DistinctIds(questions)
                && (forall q :: q in questions ==> q in store && q.subject == sub)
                && |questions| == Min(count, |SubjectQuestions(store, sub)|)
      ensures outcome == Started ==>
                && IsSectionList(store, sub, sections) && sections != []
                && questions == Flatten(parts) + backfill
                && |parts| == |sections|
                && PartsSized(store, sub, sections, count, parts)
                && PartsInSections(sub, sections, parts)
                && |backfill| <= count - |Flatten(parts)|
    {
      if name == "" {
        return NameMissing, [], [], [];
      }
      var qs;
      qs, sections, parts, backfill := GetBalancedQuestions(store, sub, count);
      if qs == [] {
        return BankEmpty, sections, parts, backfill;
      }
      Begin(name, mark, sub, qs, now);
      outcome := Started;
    }

    /** The state a successful start leaves: the exam of `qs`, at its first question. */
    method Begin(name: string, mark: int, sub: string, qs: seq<Question>, now: int)
      requires qs != []
      modifies this`phase, this`studentName, this`passMark, this`subject, this`questions,
               this`currentIndex, this`answers, this`endTime
      ensures Valid()
      ensures && phase == Exam && studentName == name && passMark == mark && subject == sub
              && questions == qs && currentIndex == 0 && answers == map[] && endTime == now + ExamSeconds
    {
      studentName, passMark, subject := name, mark, sub;
      questions, currentIndex, answers := qs, 0, map[];
      phase, endTime := Exam, now + ExamSeconds;
    }

    /** `save_answer`: the radio group of question `qId` changed to `value`. */
    method SaveAnswer(qId: int, value: string)
      requires Valid() && phase == Exam
      modifies this`answers
      ensures Valid()
      ensures answers == old(answers)[qId := value]
    {
      answers := answers[qId := value];
    }

    /** A numbered button of the question map. */
    method Jump(i: int)
      requires Valid() && phase == Exam && 0 <= i < |questions|
      modifies this`currentIndex
      ensures Valid() && currentIndex == i
    {
      currentIndex := i;
    }

    /** "Previous", shown only past the first question. */
    method GoPrevious()
      requires Valid() && phase == Exam && currentIndex > 0
      modifies this`currentIndex
      ensures Valid() && currentIndex == old(currentIndex) - 1
    {
      currentIndex := currentIndex - 1;
    }

    /** "Next", shown only before the last question. */
    method GoNext()
      requires Valid() && phase == Exam && currentIndex < |questions| - 1
      modifies this`currentIndex
      ensures Valid() && currentIndex == old(currentIndex) + 1
    {
      currentIndex := currentIndex + 1;
    }

    /**
     * `finish_exam`: a no-op once in results; otherwise score the
     * recorded answers, list the misses and enter results.
     */
    method Finish()
      requires Valid() && phase != Setup
      modifies this`rawScore, this`incorrect, this`phase
      ensures Valid() && phase == Results
      ensures rawScore == Score(questions, answers) && incorrect == Misses(questions, answers)
      ensures old(phase) == Results ==> rawScore == old(rawScore) && incorrect == old(incorrect)
    {
      if phase == Results {
        return;
      }
      var score: nat := 0;
      var missed: seq<Miss> := [];
      for i := 0 to |questions|
        invariant score == Score(questions[..i], answers)
        invariant missed == Misses(questions[..i], answers)
      {
        var q := questions[i];
        var ans := if q.id in answers then Some(answers[q.id]) else None;
        if ans == Some(q.correct) {
          score := score + 1;
        } else {
          var shown := if ans.Some? && ans.value != "" then ans.value else Unanswered;
          missed := missed + [Miss(q.section, q.text, shown, q.correct)];
        }
        assert questions[..i + 1][..i] == questions[..i];
      }
      assert questions[..|questions|] == questions;
      rawScore, incorrect, phase := score, missed, Results;
    }

    /** The server-side deadline check at the top of the exam page. */
    method CheckExpiry(now: int) returns (expired: bool)
      requires Valid() && phase == Exam
      modifies this`rawScore, this`incorrect, this`phase
      ensures Valid()
      ensures expired <==> now > endTime
      ensures expired ==> phase == Results && rawScore == Score(questions, answers)
                          && incorrect == Misses(questions, answers)
      ensures !expired ==> unchanged(this)
    {
      expired := now > endTime;
      if expired {
        Finish();
      }
    }

    /** Whether the exam page shows the button `action` stands for. */
    predicate Shown(action: ExamAction)
      reads this
    {
      match action
      case NoAction => true
      case JumpTo(i) => 0 <= i < |questions|
      case Previous => currentIndex > 0
      case Next => currentIndex < |questions| - 1
      case FinishLast => currentIndex == |questions| - 1
      case Submit => true
    }

    /**
     * One run of the exam page: the deadline is checked first and, once
     * past, ends the exam before any button takes effect.
     */
    method ExamPage(now: int, action: ExamAction)
      requires Valid() && phase == Exam && Shown(action)
      modifies this`rawScore, this`incorrect, this`phase, this`currentIndex
      ensures Valid() && answers == old(answers) && questions == old(questions)
      ensures now > endTime ==> phase == Results && currentIndex == old(currentIndex)
      ensures now <= endTime ==>
                match action
                case NoAction => unchanged(this)
                case JumpTo(i) => phase == Exam && currentIndex == i
                                  && rawScore == old(rawScore) && incorrect == old(incorrect)
                case Previous => phase == Exam && currentIndex == old(currentIndex) - 1
                                 && rawScore == old(rawScore) && incorrect == old(incorrect)
                case Next => phase == Exam && currentIndex == old(currentIndex) + 1
                             && rawScore == old(rawScore) && incorrect == old(incorrect)
                case FinishLast => phase == Results && currentIndex == old(currentIndex)
                case Submit => phase == Results && currentIndex == old(currentIndex)
      ensures phase == Results ==> rawScore == Score(questions, answers) && incorrect == Misses(questions, answers)
    {
      var expired := CheckExpiry(now);
      if expired {
        return;
      }
      match action
      case NoAction =>
      case JumpTo(i) => Jump(i);
      case Previous => GoPrevious();
      case Next => GoNext();
      case FinishLast => Finish();
      case Submit => Finish();
    }

    /**
     * The pass/fail line of the results page: the percentage of right
     * answers, taken exactly, against the pass mark.
     */
    function Passed(): (pass: bool)
      reads this
      requires Valid() && phase == Results
      ensures pass <==> (rawScore as real / |questions| as real) * 100.0 >= passMark as real
    {
      PassesIsPercentage(rawScore, |questions|, passMark);
      Passes(rawScore, |questions|, passMark)
    }

    /** "New exam" on the results page: `session_state.clear()`. */
    method NewExam()
      requires Valid() && phase == Results
      modifies this
      ensures Valid() && Fresh()
    {
      phase, studentName, passMark, subject := Setup, "", 0, "";
      questions, currentIndex, answers, endTime := [], 0, map[], 0;
      rawScore, incorrect := 0, [];
    }
  }

  /** Recording the same answer twice leaves the same map as recording it once; a new value replaces the old. */
  lemma SaveAnswerOverwrites(answers: map<int, string>, qId: int, first: string, second: string)
    ensures answers[qId := first][qId := first] == answers[qId := first]
    ensures answers[qId := first][qId := second] == answers[qId := second]
  {
  }
}
