/**
 * The admin response list: filtering by respondent name and quiz, the
 * answered-question count of each row, the per-question review verdicts,
 * and the entries of the quiz filter dropdown.
 */
module ResponseList {
  import opened Wrappers
  import opened Text
  import opened Seqs
  import opened QuizData
  import QuizRunner
  import SearchableDropdown

  /** The filter value that selects the responses of every quiz. */
  const AllQuizzes: string := "all"

  /** The name contains the search term ignoring case, and the quiz passes the quiz filter. */
  predicate ResponseMatches(r: Response, search: string, selectedQuizId: string) {
    ContainsIgnoringCase(r.respondentName, search) && (selectedQuizId == AllQuizzes || r.quizId == selectedQuizId)
  }

  function MatchesFilters(search: string, selectedQuizId: string): Response -> bool {
    r => ResponseMatches(r, search, selectedQuizId)
  }

  /** `filteredResponses`. */
  function FilteredResponses(rs: seq<Response>, search: string, selectedQuizId: string): seq<Response> {
    Filter(rs, MatchesFilters(search, selectedQuizId))
  }

  /** The table lists exactly the matching responses, in their fetched order. */
  lemma FilteredResponsesSpec(rs: seq<Response>, search: string, selectedQuizId: string)
    ensures SelectsInOrder(FilteredResponses(rs, search, selectedQuizId), rs, MatchesFilters(search, selectedQuizId),
                           Positions(rs, MatchesFilters(search, selectedQuizId)))
    ensures forall r | r in rs :: r in FilteredResponses(rs, search, selectedQuizId) <==> ResponseMatches(r, search, selectedQuizId)
  {
    FilterSelectsInOrder(rs, MatchesFilters(search, selectedQuizId));
  }

  /** With the "all" filter only the name is checked, and an empty term accepts every name. */
  lemma NeutralFilters(rs: seq<Response>, search: string, selectedQuizId: string)
    ensures forall r | r in rs :: r in FilteredResponses(rs, search, AllQuizzes) <==> ContainsIgnoringCase(r.respondentName, search)
    ensures forall r | r in rs :: r in FilteredResponses(rs, "", selectedQuizId) <==> (selectedQuizId == AllQuizzes || r.quizId == selectedQuizId)
  {
    assert Lower("") == "";
    forall r | r in rs ensures ContainsIgnoringCase(r.respondentName, "") {
      ContainsEmpty(Lower(r.respondentName));
    }
  }

  /** With no search term and the "all" filter the table shows every response. */
  lemma NoFiltersShowAll(rs: seq<Response>)
    ensures FilteredResponses(rs, "", AllQuizzes) == rs
  {
    NeutralFilters(rs, "", AllQuizzes);
    FilterAll(rs, MatchesFilters("", AllQuizzes));
  }

  /** The denominator of a row's score: the number of answer keys, 0 without answers. */
  function TotalQuestions(r: Response): nat {
    if r.answers.Some? then |r.answers.value.Keys| else 0
  }

  /**
   * A response as the quiz page sends it never shows a score above its
   * total, when the quiz's question ids are distinct.
   */
  lemma SubmittedScoreWithinTotal(quizId: Id, name: string, qs: seq<QuestionRow>, answers: map<Id, string>)
    requires QuizRunner.DistinctIds(qs)
    ensures var r := Response(quizId, name, QuizRunner.Score(qs, answers), Some(answers));
            r.score <= TotalQuestions(r)
  {
    QuizRunner.ScoreAtMostAnswered(qs, answers);
  }

  /**
   * The review modal's verdicts as written: each question reads
   * `selectedResponse?.answers[q.id]`, which throws when the response's
   * answers are null and there is at least one question to show.
   */
  function ReviewVerdictsAsWritten(r: Response, qs: seq<QuestionRow>): (v: Result<seq<bool>>)
    ensures v.Err? <==> r.answers.None? && qs != []
  {
    if qs == [] then Ok([])
    else if r.answers.None? then Err("answers is null")
    else Ok(QuizRunner.ResultVerdicts(qs, r.answers.value))
  }

  /** Null answers make the review fail for any quiz with questions. */
  lemma ReviewFailsWithoutAnswers(quizId: Id, name: string, score: nat, q: QuestionRow)
    ensures ReviewVerdictsAsWritten(Response(quizId, name, score, None), [q]).Err?
  {
  }

  /**
   * The review verdicts with null answers read as no answers, as the row's
   * total already does. Each verdict is the quiz page's own grading test, so
   * reviewing a response the page sent, against the same questions, shows
   * as many correct verdicts as its stored score; a response without
   * answers shows none.
   */
  function ReviewVerdicts(r: Response, qs: seq<QuestionRow>): (v: seq<bool>)
    ensures |v| == |qs|
    ensures forall i | 0 <= i < |qs| :: v[i] == QuizRunner.IsCorrect(qs[i], r.answers.GetOr(map[]))
    ensures r.answers.Some? ==> QuizRunner.CountTrue(v) == QuizRunner.Score(qs, r.answers.value)
    ensures r.answers.None? ==> QuizRunner.CountTrue(v) == 0
  {
    QuizRunner.ScoreBounds(qs, map[]);
    QuizRunner.ResultVerdicts(qs, r.answers.GetOr(map[]))
  }

  /** Where the original works, the corrected review gives the same verdicts. */
  lemma ReviewVerdictsAgree(r: Response, qs: seq<QuestionRow>)
    requires ReviewVerdictsAsWritten(r, qs).Ok?
    ensures ReviewVerdictsAsWritten(r, qs).value == ReviewVerdicts(r, qs)
  {
  }

  /** A quiz as the filter list fetches it. */
  datatype QuizTitle = QuizTitle(id: Id, title: string)

  /** The entry that stands for every quiz. */
  function AllEntry(): SearchableDropdown.Choice {
    SearchableDropdown.Record("All Quizzes", AllQuizzes)
  }

  /** The dropdown entries: the "all" entry, then each fetched quiz (none when the fetch gave nothing). */
  function QuizFilterList(fetched: Option<seq<QuizTitle>>): seq<SearchableDropdown.Choice> {
    var qs := fetched.GetOr([]);
    [AllEntry()] + seq(|qs|, i requires 0 <= i < |qs| => SearchableDropdown.Record(qs[i].title, qs[i].id))
  }

  /**
   * With the initial filter the dropdown shows "All Quizzes", even if a
   * fetched quiz had the id "all", since the first match wins; and that
   * filter lets every quiz's responses through.
   */
  lemma InitialFilterShowsAll(fetched: Option<seq<QuizTitle>>, placeholder: string, rs: seq<Response>)
    ensures SearchableDropdown.DisplayLabel(QuizFilterList(fetched), AllQuizzes, placeholder) == "All Quizzes"
    ensures forall r | r in rs :: r in FilteredResponses(rs, "", AllQuizzes)
  {
    var opts := QuizFilterList(fetched);
    assert SearchableDropdown.Value(opts[0]) == AllQuizzes;
    assert SearchableDropdown.FindValue(opts, AllQuizzes) == Some(0);
    NoFiltersShowAll(rs);
  }
}
