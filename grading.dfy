/**
 * The grading of `finish_exam` and the pass/fail verdict of the results page:
 * count exact matches between recorded answers and keys, list the misses
 * in question order.
 */
module Grading {
  import opened Wrappers
  import opened Bank

  /** Shown instead of the candidate's answer when none was recorded. */
  const Unanswered: string := "لم يجب"

  /** One entry of `incorrect_answers`: section, question text, answer shown, correct answer. */
  datatype Miss = Miss(section: string, question: string, user: string, right: string)

  /** The recorded answer equals the key (an absent answer never does). */
  predicate IsCorrect(q: Question, answers: map<int, string>) {
    q.id in answers && answers[q.id] == q.correct
  }

  /** `ans if ans else "لم يجب"`: a missing or empty answer shows the placeholder. */
  function ShownAnswer(q: Question, answers: map<int, string>): (r: string)
    ensures r != ""
    ensures r != Unanswered ==> q.id in answers && answers[q.id] == r
  {
    if q.id in answers && answers[q.id] != "" then answers[q.id] else Unanswered
  }

  function MissOf(q: Question, answers: map<int, string>): Miss {
    Miss(q.section, q.text, ShownAnswer(q, answers), q.correct)
  }

  /**
   * A question left unanswered, or answered with an empty value when its
   * key is not empty, is listed among the misses with the placeholder as
   * the answer shown.
   */
  lemma UnansweredIsMissed(qs: seq<Question>, answers: map<int, string>, i: int)
    requires 0 <= i < |qs|
    requires qs[i].id !in answers || (answers[qs[i].id] == "" && qs[i].correct != "")
    ensures MissOf(qs[i], answers) in Misses(qs, answers)
    ensures MissOf(qs[i], answers).user == Unanswered
  {
    MissesAreTheWrongOnes(qs, answers, MissOf(qs[i], answers));
  }

  /** `raw_score`: the number of questions answered correctly. */
  function Score(qs: seq<Question>, answers: map<int, string>): (s: nat)
    ensures s <= |qs|
  {
    if qs == [] then 0
    else Score(qs[..|qs| - 1], answers) + (if IsCorrect(qs[|qs| - 1], answers) then 1 else 0)
  }

  /** `incorrect_answers`: one entry per question not answered correctly, in question order. */
  function Misses(qs: seq<Question>, answers: map<int, string>): (r: seq<Miss>)
    ensures |r| <= |qs|
  {
    if qs == [] then []
    else
      var last := qs[|qs| - 1];
      Misses(qs[..|qs| - 1], answers) + (if IsCorrect(last, answers) then [] else [MissOf(last, answers)])
  }

  /** Positions of the correctly answered questions: an independent account of the score. */
  function CorrectPositions(qs: seq<Question>, answers: map<int, string>): set<nat> {
    set i: nat | i < |qs| && IsCorrect(qs[i], answers)
  }

  /** The score is the number of positions whose answer matches the key. */
  lemma {:induction false} ScoreCountsCorrect(qs: seq<Question>, answers: map<int, string>)
    ensures Score(qs, answers) == |CorrectPositions(qs, answers)|
  {
    if qs != [] {
      var n := |qs| - 1;
      var init := qs[..n];
      ScoreCountsCorrect(init, answers);
      var last := if IsCorrect(qs[n], answers) then {n} else {};
      assert CorrectPositions(qs, answers) == CorrectPositions(init, answers) + last by {
        forall i: nat | i < n ensures qs[i] == init[i] {}
      }
      assert n !in CorrectPositions(init, answers);
    }
  }

  /** Every question is either scored or listed as a miss, never both. */
  lemma {:induction false} ScorePlusMisses(qs: seq<Question>, answers: map<int, string>)
    ensures Score(qs, answers) + |Misses(qs, answers)| == |qs|
  {
    if qs != [] {
      ScorePlusMisses(qs[..|qs| - 1], answers);
    }
  }

  /** Grading a concatenation grades each part in turn: the misses keep question order. */
  lemma {:induction false} GradeConcat(a: seq<Question>, b: seq<Question>, answers: map<int, string>)
    ensures Score(a + b, answers) == Score(a, answers) + Score(b, answers)
    ensures Misses(a + b, answers) == Misses(a, answers) + Misses(b, answers)
  {
    if b == [] {
      assert a + b == a;
    } else {
      var b' := b[..|b| - 1];
      assert (a + b)[..|a + b| - 1] == a + b';
      GradeConcat(a, b', answers);
    }
  }

  /** A question is listed as a miss exactly when it was not answered correctly. */
  lemma {:induction false} MissesAreTheWrongOnes(qs: seq<Question>, answers: map<int, string>, m: Miss)
    ensures m in Misses(qs, answers) <==>
            exists i :: 0 <= i < |qs| && !IsCorrect(qs[i], answers) && m == MissOf(qs[i], answers)
  {
    if qs != [] {
      var n := |qs| - 1;
      MissesAreTheWrongOnes(qs[..n], answers, m);
      if m in Misses(qs[..n], answers) {
        var i :| 0 <= i < n && !IsCorrect(qs[..n][i], answers) && m == MissOf(qs[..n][i], answers);
        assert qs[i] == qs[..n][i];
      }
      if exists i :: 0 <= i < |qs| && !IsCorrect(qs[i], answers) && m == MissOf(qs[i], answers) {
        var i :| 0 <= i < |qs| && !IsCorrect(qs[i], answers) && m == MissOf(qs[i], answers);
        if i < n {
          assert qs[..n][i] == qs[i];
        }
      }
    }
  }

  /**
   * The verdict `pct >= pass_mark` with `pct = raw_score / len * 100`,
   * compared exactly by cross-multiplication instead of in floating point.
   */
  predicate Passes(score: nat, count: nat, passMark: int): (pass: bool)
    requires count > 0
    ensures passMark <= 0 ==> pass
    ensures score == count && passMark <= 100 ==> pass
    ensures score <= count && passMark > 100 ==> !pass
  {
    score * 100 >= passMark * count
  }

  /** The exact verdict is the comparison of the true percentage with the pass mark. */
  lemma PassesIsPercentage(score: nat, count: nat, passMark: int)
    requires count > 0
    ensures Passes(score, count, passMark) <==> (score as real / count as real) * 100.0 >= passMark as real
  {
    var c := count as real;
    var pct := (score as real / c) * 100.0;
    assert pct * c == score as real * 100.0;
    if Passes(score, count, passMark) {
      assert pct * c >= passMark as real * c;
    } else {
      assert pct * c < passMark as real * c;
    }
  }

  /** A percentage exactly equal to the pass mark passes, and a higher score never fails where a lower one passed. */
  lemma PassesBoundary(score: nat, better: nat, count: nat, passMark: int)
    requires count > 0 && score <= better
    ensures score * 100 == passMark * count ==> Passes(score, count, passMark)
    ensures Passes(score, count, passMark) ==> Passes(better, count, passMark)
  {
  }

  /**
   * Keys A, B, C, D; answers A, C, none, D: two right, and the misses are
   * the second (answered C) and the third (unanswered), in that order.
   */
  lemma GradingExample()
    ensures
      var qs := [Question(1, "S", "s", "", "q1", "A", "B", "C", "D", "A"),
                 Question(2, "S", "s", "", "q2", "A", "B", "C", "D", "B"),
                 Question(3, "S", "s", "", "q3", "A", "B", "C", "D", "C"),
                 Question(4, "S", "s", "", "q4", "A", "B", "C", "D", "D")];
      var answers := map[1 := "A", 2 := "C", 4 := "D"];
      && Score(qs, answers) == 2
      && Misses(qs, answers) == [Miss("s", "q2", "C", "B"), Miss("s", "q3", Unanswered, "C")]
      && Passes(2, 4, 50)
  {
    var qs := [Question(1, "S", "s", "", "q1", "A", "B", "C", "D", "A"),
               Question(2, "S", "s", "", "q2", "A", "B", "C", "D", "B"),
               Question(3, "S", "s", "", "q3", "A", "B", "C", "D", "C"),
               Question(4, "S", "s", "", "q4", "A", "B", "C", "D", "D")];
    var answers := map[1 := "A", 2 := "C", 4 := "D"];
    assert qs[..3][..2][..1][..0] == [];
    assert Score(qs[..1], answers) == 1 && Misses(qs[..1], answers) == [];
    assert qs[..2][..1] == qs[..1] && qs[..3][..2] == qs[..2] && qs[..4] == qs;
    assert Misses(qs[..2], answers) == [Miss("s", "q2", "C", "B")];
    assert Misses(qs[..3], answers) == [Miss("s", "q2", "C", "B"), Miss("s", "q3", Unanswered, "C")];
  }
}
