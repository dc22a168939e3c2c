/**
 * The public quiz list: a case-insensitive search over titles and
 * descriptions, and the link each card opens.
 */
module Home {
  import opened Wrappers
  import opened Text
  import opened Seqs
  import opened QuizData
  import QuizRunner

  /** A title match, or a match in a description that is present and non-empty. */
  predicate QuizMatches(q: Quiz, term: string) {
    || ContainsIgnoringCase(q.title, term)
    || (q.description.Some? && q.description.value != "" && ContainsIgnoringCase(q.description.value, term))
  }

  function MatchesTerm(term: string): Quiz -> bool {
    q => QuizMatches(q, term)
  }

  /** The quizzes the search effect keeps. */
  function SearchQuizzes(quizzes: seq<Quiz>, term: string): seq<Quiz> {
    Filter(quizzes, MatchesTerm(term))
  }

  /** The search keeps exactly the matching quizzes, in their order. */
  lemma SearchQuizzesSpec(quizzes: seq<Quiz>, term: string)
    ensures SelectsInOrder(SearchQuizzes(quizzes, term), quizzes, MatchesTerm(term), Positions(quizzes, MatchesTerm(term)))
    ensures forall q | q in SearchQuizzes(quizzes, term) :: q in quizzes && QuizMatches(q, term)
  {
    FilterSelectsInOrder(quizzes, MatchesTerm(term));
  }

  /** An empty search term lists every quiz. */
  lemma EmptyTermListsAll(quizzes: seq<Quiz>)
    ensures SearchQuizzes(quizzes, "") == quizzes
  {
    assert Lower("") == "";
    forall q | q in quizzes ensures MatchesTerm("")(q) {
      ContainsEmpty(Lower(q.title));
    }
    FilterAll(quizzes, MatchesTerm(""));
  }

  /** A quiz with a missing or empty description can only match through its title. */
  lemma NoDescriptionMatchesByTitle(q: Quiz, term: string)
    requires q.description.None? || q.description.value == ""
    ensures QuizMatches(q, term) <==> ContainsIgnoringCase(q.title, term)
  {
  }

  /** The route key a card navigates to: the slug when it is non-empty, else the id. */
  function LinkTarget(q: Quiz): (key: string)
    ensures key != ""
    ensures q.slug.Some? && q.slug.value != "" ==> key == q.slug.value
    ensures q.slug.None? || q.slug.value == "" ==> key == q.id
  {
    if q.slug.Some? && q.slug.value != "" then q.slug.value else q.id
  }

  /**
   * The card's link finds its quiz again on the quiz page: a quiz without a
   * slug and with a UUID id is looked up by that id, and a quiz with a slug
   * that does not look like a UUID is looked up by that slug. A slug that
   * does look like a UUID is looked up as an id, so it finds its quiz only
   * if that quiz's id is the slug.
   */
  lemma LinkFindsQuiz(q: Quiz)
    ensures (q.slug.None? || q.slug.value == "") && QuizRunner.IsUuid(q.id) ==>
              QuizRunner.QuizLookup(LinkTarget(q)) == QuizRunner.ById(q.id)
    ensures q.slug.Some? && q.slug.value != "" && !QuizRunner.IsUuid(q.slug.value) ==>
              QuizRunner.QuizLookup(LinkTarget(q)) == QuizRunner.BySlug(q.slug.value)
    ensures q.slug.Some? && q.slug.value != "" && QuizRunner.IsUuid(q.slug.value) ==>
              QuizRunner.QuizLookup(LinkTarget(q)) == QuizRunner.ById(q.slug.value)
  {
  }
}
