/**
 * The public quiz page: grading by exact equality, the score loop, the
 * run's step machine (intro, questions, result), the choices shown per
 * question, and the route key that is either a quiz id or a slug.
 */
module QuizRunner {
  import opened Wrappers
  import opened Text
  import opened QuizData

  // ---------------------------------------------------------------------
  // Grading

  /**
   * `answers[q.id] === q.correct_answer`, the same for every question type:
   * an unanswered question is never correct, and nothing is trimmed or
   * case-folded.
   */
  predicate IsCorrect(q: QuestionRow, answers: map<Id, string>) {
    q.id in answers && answers[q.id] == q.correctAnswer
  }

  /** The number of correct questions, counted over the list from the front. */
  function Score(qs: seq<QuestionRow>, answers: map<Id, string>): nat
    decreases |qs|
  {
    if qs == [] then 0
    else Score(qs[..|qs| - 1], answers) + (if IsCorrect(qs[|qs| - 1], answers) then 1 else 0)
  }

  /** The score loop of `handleSubmit`. */
  method CountCorrect(qs: seq<QuestionRow>, answers: map<Id, string>) returns (score: nat)
    ensures score == Score(qs, answers)
  {
    score := 0;
    var i := 0;
    while i < |qs|
      invariant 0 <= i <= |qs|
      invariant score == Score(qs[..i], answers)
    {
      assert qs[..i + 1][..i] == qs[..i];
      if IsCorrect(qs[i], answers) {
        score := score + 1;
      }
      i := i + 1;
    }
    assert qs[..|qs|] == qs;
  }

  /** The score is between 0 and the number of questions; the ends mean none or all correct. */
  lemma {:induction false} ScoreBounds(qs: seq<QuestionRow>, answers: map<Id, string>)
    ensures Score(qs, answers) <= |qs|
    ensures Score(qs, answers) == |qs| <==> forall i | 0 <= i < |qs| :: IsCorrect(qs[i], answers)
    ensures Score(qs, answers) == 0 <==> forall i | 0 <= i < |qs| :: !IsCorrect(qs[i], answers)
    decreases |qs|
  {
    if qs != [] {
      var n := |qs| - 1;
      ScoreBounds(qs[..n], answers);
      assert forall i | 0 <= i < n :: qs[..n][i] == qs[i];
    }
  }

  /** The indices of the correct questions. */
  function CorrectIndices(qs: seq<QuestionRow>, answers: map<Id, string>): set<nat> {
    set i: nat | i < |qs| && IsCorrect(qs[i], answers)
  }

  /** The score is the number of correct questions. */
  lemma {:induction false} ScoreCountsCorrect(qs: seq<QuestionRow>, answers: map<Id, string>)
    ensures Score(qs, answers) == |CorrectIndices(qs, answers)|
    decreases |qs|
  {
    if qs == [] {
      assert CorrectIndices(qs, answers) == {};
    } else {
      var n := |qs| - 1;
      ScoreCountsCorrect(qs[..n], answers);
      var before := CorrectIndices(qs[..n], answers);
      var all := CorrectIndices(qs, answers);
      if IsCorrect(qs[n], answers) {
        assert all == before + {n};
      } else {
        assert all == before;
      }
    }
  }

  /** Answering a key that is no question's id leaves the score unchanged. */
  lemma {:induction false} ScoreIgnoresOtherKeys(qs: seq<QuestionRow>, answers: map<Id, string>, k: Id, v: string)
    requires forall i | 0 <= i < |qs| :: qs[i].id != k
    ensures Score(qs, answers[k := v]) == Score(qs, answers)
    decreases |qs|
  {
    if qs != [] {
      ScoreIgnoresOtherKeys(qs[..|qs| - 1], answers, k, v);
    }
  }

  predicate DistinctIds(qs: seq<QuestionRow>) {
    forall i, j | 0 <= i < j < |qs| :: qs[i].id != qs[j].id
  }

  /** The ids of the correct questions, all of them answered. */
  function CorrectIds(qs: seq<QuestionRow>, answers: map<Id, string>): (ids: set<Id>)
    ensures ids <= answers.Keys
  {
    set q | q in qs && IsCorrect(q, answers) :: q.id
  }

  /** Appending one question adds its id to the correct ids exactly when it is correct. */
  lemma CorrectIdsSnoc(init: seq<QuestionRow>, last: QuestionRow, answers: map<Id, string>)
    ensures CorrectIds(init + [last], answers) ==
            CorrectIds(init, answers) + (if IsCorrect(last, answers) then {last.id} else {})
  {
    var qs := init + [last];
    forall x | x in CorrectIds(qs, answers)
      ensures x in CorrectIds(init, answers) + (if IsCorrect(last, answers) then {last.id} else {})
    {
      var q :| q in qs && IsCorrect(q, answers) && q.id == x;
      if q != last { assert q in init; }
    }
    assert last in qs;
    forall x | x in CorrectIds(init, answers) ensures x in CorrectIds(qs, answers) {
      var q :| q in init && IsCorrect(q, answers) && q.id == x;
      assert q in qs;
    }
  }

  /** With distinct ids, the last question's id belongs to no earlier question. */
  lemma LastIdIsNew(qs: seq<QuestionRow>, answers: map<Id, string>)
    requires qs != [] && DistinctIds(qs)
    ensures DistinctIds(qs[..|qs| - 1])
    ensures qs[|qs| - 1].id !in CorrectIds(qs[..|qs| - 1], answers)
  {
    var n := |qs| - 1;
    var init := qs[..n];
    forall q | q in init ensures q.id != qs[n].id {
      var i :| 0 <= i < n && init[i] == q;
      assert qs[i] == q;
    }
  }

  lemma {:induction false} ScoreIsCorrectIds(qs: seq<QuestionRow>, answers: map<Id, string>)
    requires DistinctIds(qs)
    ensures Score(qs, answers) == |CorrectIds(qs, answers)|
    decreases |qs|
  {
    if qs == [] {
      assert CorrectIds(qs, answers) == {};
    } else {
      var n := |qs| - 1;
      var init, last := qs[..n], qs[n];
      assert qs == init + [last];
      LastIdIsNew(qs, answers);
      ScoreIsCorrectIds(init, answers);
      CorrectIdsSnoc(init, last, answers);
    }
  }

  /** With distinct question ids, the score never exceeds the number of answers given. */
  lemma ScoreAtMostAnswered(qs: seq<QuestionRow>, answers: map<Id, string>)
    requires DistinctIds(qs)
    ensures Score(qs, answers) <= |answers.Keys|
  {
    ScoreIsCorrectIds(qs, answers);
    var c := CorrectIds(qs, answers);
    assert answers.Keys == c + (answers.Keys - c);
  }

  function CountTrue(bs: seq<bool>): nat
    decreases |bs|
  {
    if bs == [] then 0 else CountTrue(bs[..|bs| - 1]) + (if bs[|bs| - 1] then 1 else 0)
  }

  /**
   * The Correct/Incorrect badge of each card on the result page, in question
   * order: a card is marked right exactly when its answer counts toward the
   * score, so the page shows exactly `score` "Correct" badges.
   */
  function ResultVerdicts(qs: seq<QuestionRow>, answers: map<Id, string>): (vs: seq<bool>)
    ensures |vs| == |qs|
    ensures forall i | 0 <= i < |qs| :: vs[i] == IsCorrect(qs[i], answers)
    ensures CountTrue(vs) == Score(qs, answers)
    decreases |qs|
  {
    if qs == [] then []
    else
      var n := |qs| - 1;
      var init := ResultVerdicts(qs[..n], answers);
      var vs := init + [IsCorrect(qs[n], answers)];
      assert vs[..n] == init;
      vs
  }

  // ---------------------------------------------------------------------
  // What a question shows

  /**
   * The choice buttons of a question, or None for the free-text input:
   * multiple-choice and true/false questions show their options, and when
   * those are missing or empty a true/false question falls back to the
   * Arabic labels and a multiple-choice one shows no button.
   */
  function ShownChoices(q: QuestionRow): (r: Option<seq<string>>)
    // buttons exactly for the two choice types
    ensures r.Some? <==> q.qtype == MultipleChoice || q.qtype == TrueFalse
    // a true/false question can always be answered
    ensures q.qtype == TrueFalse ==> r.Some? && |r.value| >= 1
    // stored options, when there are any, are what is shown
    ensures r.Some? && q.options.GetOr([]) != [] ==> r.value == q.options.value
    // the only choices not taken from the row are the Arabic true/false labels
    ensures r.Some? && r.value != [] && r.value != q.options.GetOr([]) ==>
              q.qtype == TrueFalse && r.value == ArabicTrueFalse
    // a multiple-choice question without options cannot be answered
    ensures q.qtype == MultipleChoice && q.options.GetOr([]) == [] ==> r == Some([])
  {
    if q.qtype == MultipleChoice || q.qtype == TrueFalse then
      Some(if q.options.Some? && |q.options.value| > 0 then q.options.value
           else if q.qtype == TrueFalse then ArabicTrueFalse else [])
    else None
  }

  // ---------------------------------------------------------------------
  // The route key

  predicate IsHexDigit(c: char) {
    '0' <= c <= '9' || 'a' <= c <= 'f' || 'A' <= c <= 'F'
  }

  predicate IsDashPosition(i: int) {
    i == 8 || i == 13 || i == 18 || i == 23
  }

  /** `/^[0-9a-f]{8}-[0-9a-f]{4}-[0-9a-f]{4}-[0-9a-f]{4}-[0-9a-f]{12}$/i`. */
  predicate IsUuid(s: string) {
    |s| == 36 && forall i | 0 <= i < 36 :: if IsDashPosition(i) then s[i] == '-' else IsHexDigit(s[i])
  }

  predicate AllHex(s: string) {
    forall i | 0 <= i < |s| :: IsHexDigit(s[i])
  }

  /** Five hex groups of lengths 8, 4, 4, 4 and 12 joined by hyphens. */
  function Hyphenated(a: string, b: string, c: string, d: string, e: string): string {
    a + "-" + b + "-" + c + "-" + d + "-" + e
  }

  /** Any five hex groups of the right lengths, hyphen-joined, pass the test. */
  lemma HyphenatedIsUuid(a: string, b: string, c: string, d: string, e: string)
    requires |a| == 8 && |b| == 4 && |c| == 4 && |d| == 4 && |e| == 12
    requires AllHex(a) && AllHex(b) && AllHex(c) && AllHex(d) && AllHex(e)
    ensures IsUuid(Hyphenated(a, b, c, d, e))
  {
    var s := Hyphenated(a, b, c, d, e);
    forall i | 0 <= i < 36 ensures if IsDashPosition(i) then s[i] == '-' else IsHexDigit(s[i]) {
      if i < 8 { assert s[i] == a[i]; }
      else if 8 < i < 13 { assert s[i] == b[i - 9]; }
      else if 13 < i < 18 { assert s[i] == c[i - 14]; }
      else if 18 < i < 23 { assert s[i] == d[i - 19]; }
      else if 23 < i { assert s[i] == e[i - 24]; }
    }
  }

  /** Every key that passes the test is five hex groups of those lengths, hyphen-joined. */
  lemma UuidIsHyphenated(s: string)
    requires IsUuid(s)
    ensures AllHex(s[..8]) && AllHex(s[9..13]) && AllHex(s[14..18]) && AllHex(s[19..23]) && AllHex(s[24..])
    ensures s == Hyphenated(s[..8], s[9..13], s[14..18], s[19..23], s[24..])
  {
    assert forall i | 0 <= i < 8 :: s[..8][i] == s[i];
    assert forall i | 0 <= i < 4 :: s[9..13][i] == s[9 + i] && s[14..18][i] == s[14 + i] && s[19..23][i] == s[19 + i];
    assert forall i | 0 <= i < 12 :: s[24..][i] == s[24 + i];
    assert s[8] == '-' && s[13] == '-' && s[18] == '-' && s[23] == '-';
  }

  /** The test ignores case. */
  lemma UuidIgnoresCase(s: string)
    ensures IsUuid(Lower(s)) <==> IsUuid(s)
  {
    if |s| == 36 {
      assert forall i | 0 <= i < 36 :: (IsHexDigit(Lower(s)[i]) <==> IsHexDigit(s[i])) && (Lower(s)[i] == '-' <==> s[i] == '-');
    }
  }

  /** Lengths 8, 4, 4, 4 and 12, hex digits only. */
  predicate HexGroups(a: string, b: string, c: string, d: string, e: string) {
    |a| == 8 && |b| == 4 && |c| == 4 && |d| == 4 && |e| == 12 &&
    AllHex(a) && AllHex(b) && AllHex(c) && AllHex(d) && AllHex(e)
  }

  /** The key is some five hex groups of those lengths, hyphen-joined. */
  ghost predicate IsHyphenatedHex(s: string) {
    exists a, b, c, d, e | HexGroups(a, b, c, d, e) :: s == Hyphenated(a, b, c, d, e)
  }

  /** The UUID test accepts exactly the hyphen-joined hex groups. */
  lemma UuidIffHyphenatedHex(s: string)
    ensures IsUuid(s) <==> IsHyphenatedHex(s)
  {
    if IsUuid(s) {
      UuidIsHyphenated(s);
      assert HexGroups(s[..8], s[9..13], s[14..18], s[19..23], s[24..]);
    } else {
      forall a, b, c, d, e | HexGroups(a, b, c, d, e) ensures s != Hyphenated(a, b, c, d, e) {
        HyphenatedIsUuid(a, b, c, d, e);
      }
    }
  }

  /** How the page looks its quiz up. */
  datatype Lookup = ById(id: string) | BySlug(slug: string)

  /**
   * A key made of five hex groups of 8-4-4-4-12 digits joined by '-' is
   * looked up as a quiz id; any other key is a slug. Either way the key is
   * used as it is.
   */
  function QuizLookup(key: string): (r: Lookup)
    ensures r.ById? <==> IsHyphenatedHex(key)
    ensures r.ById? ==> r.id == key
    ensures r.BySlug? ==> r.slug == key
  {
    UuidIffHyphenatedHex(key);
    if IsUuid(key) then ById(key) else BySlug(key)
  }

  // ---------------------------------------------------------------------
  // The run

  datatype Step = Intro | InQuiz | Result

  /** The state of one respondent's run through a loaded quiz. */
  class QuizRun {
    const quizId: Id
    const questions: seq<QuestionRow>
    var step: Step
    var name: string
    var index: nat
    var answers: map<Id, string>
    var submitting: bool
    var score: Option<nat>

    /** The current index always names a question, or is 0 for an empty quiz. */
    predicate Valid()
      reads this
    {
      index == 0 || index < |questions|
    }

    constructor (quizId: Id, questions: seq<QuestionRow>)
      ensures this.quizId == quizId && this.questions == questions
      ensures step == Intro && name == "" && index == 0 && answers == map[]
      ensures !submitting && score == None
      ensures Valid()
    {
      this.quizId := quizId;
      this.questions := questions;
      step := Intro;
      name := "";
      index := 0;
      answers := map[];
      submitting := false;
      score := None;
    }

    /** Typing into the name field. */
    method SetName(n: string)
      modifies this`name
      ensures name == n
    {
      name := n;
    }

    /** `handleStart`: the run starts only when the name is not blank. */
    method Start()
      modifies this`step
      ensures Trim(name) != "" ==> step == InQuiz
      ensures Trim(name) == "" ==> step == old(step)
    {
      if Trim(name) != "" {
        step := InQuiz;
      }
    }

    /** `handleAnswer(id, a)`: records `a` for `id` and keeps every other answer. */
    method Answer(id: Id, a: string)
      modifies this`answers
      ensures answers == old(answers)[id := a]
      ensures answers.Keys == old(answers).Keys + {id}
      ensures forall k | k in old(answers) && k != id :: answers[k] == old(answers)[k]
    {
      answers := answers[id := a];
    }

    /**
     * `handleSubmit`: grades the answers, sends the response, and moves to
     * the result only when the store accepted it (`insertOk`); either way
     * the submission ends.
     */
    method Submit(insertOk: bool) returns (sent: Response)
      modifies this`score, this`step, this`submitting
      ensures score == Some(Score(questions, answers))
      ensures sent == Response(quizId, name, Score(questions, answers), Some(answers))
      ensures step == if insertOk then Result else old(step)
      ensures !submitting
    {
      submitting := true;
      var s := CountCorrect(questions, answers);
      score := Some(s);
      sent := Response(quizId, name, s, Some(answers));
      if insertOk {
        step := Result;
      }
      submitting := false;
    }

    /** `handleNext`: the next question, or the submission after the last one. */
    method Next(insertOk: bool) returns (sent: Option<Response>)
      requires Valid()
      modifies this`index, this`score, this`step, this`submitting
      ensures Valid()
      ensures old(index) < |questions| - 1 ==>
                index == old(index) + 1 && sent == None && step == old(step) && score == old(score)
                && submitting == old(submitting)
      ensures old(index) >= |questions| - 1 ==>
                index == old(index) && sent == Some(Response(quizId, name, Score(questions, answers), Some(answers)))
                && score == Some(Score(questions, answers))
                && step == (if insertOk then Result else old(step))
                && !submitting
    {
      if index < |questions| - 1 {
        index := index + 1;
        sent := None;
      } else {
        var r := Submit(insertOk);
        sent := Some(r);
      }
    }
  }
}
