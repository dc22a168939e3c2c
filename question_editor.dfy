/**
 * The admin quiz editor: loading a quiz's questions sorted by `order`, the
 * question buffer and its edit handlers, the multiple-answer comma list
 * behind the "correct" toggles, and the `prompt:answer` matching pairs.
 */
module QuestionEditor {
  import opened Wrappers
  import opened Text
  import opened Seqs
  import opened QuizData
  import Reconcile

  // ---------------------------------------------------------------------
  // Loading: the rows are sorted by `order` (null counts as 0) and their
  // null options become the empty list.

  function OrderKey(r: QuestionRow): int {
    r.order.GetOr(0)
  }

  predicate SortedByOrder(s: seq<QuestionRow>) {
    forall i, j | 0 <= i < j < |s| :: OrderKey(s[i]) <= OrderKey(s[j])
  }

  /** Places `x` after every row whose key is not larger than its own. */
  function InsertByOrder(x: QuestionRow, s: seq<QuestionRow>): seq<QuestionRow>
    decreases |s|
  {
    if s == [] || OrderKey(s[|s| - 1]) <= OrderKey(x) then s + [x]
    else InsertByOrder(x, s[..|s| - 1]) + [s[|s| - 1]]
  }

  /** The stable sort `rows.sort((a, b) => (a.order || 0) - (b.order || 0))`. */
  function SortByOrder(rows: seq<QuestionRow>): seq<QuestionRow>
    decreases |rows|
  {
    if rows == [] then [] else InsertByOrder(rows[|rows| - 1], SortByOrder(rows[..|rows| - 1]))
  }

  /** Appending a row no smaller than every row of a sorted list keeps it sorted. */
  lemma SortedSnoc(t: seq<QuestionRow>, y: QuestionRow)
    requires SortedByOrder(t)
    requires forall r | r in t :: OrderKey(r) <= OrderKey(y)
    ensures SortedByOrder(t + [y])
  {
    var u := t + [y];
    forall i, j | 0 <= i < j < |u| ensures OrderKey(u[i]) <= OrderKey(u[j]) {
      assert u[i] == t[i];
      if j == |t| {
        assert t[i] in t;
      } else {
        assert u[j] == t[j];
      }
    }
  }

  /** In a sorted list no row has a larger key than the last one. */
  lemma SortedBelowLast(s: seq<QuestionRow>)
    requires s != [] && SortedByOrder(s)
    ensures forall r | r in s :: OrderKey(r) <= OrderKey(s[|s| - 1])
  {
    forall r | r in s ensures OrderKey(r) <= OrderKey(s[|s| - 1]) {
      var i :| 0 <= i < |s| && s[i] == r;
    }
  }

  lemma {:induction false} InsertByOrderMembers(x: QuestionRow, s: seq<QuestionRow>)
    ensures multiset(InsertByOrder(x, s)) == multiset(s) + multiset{x}
    decreases |s|
  {
    if s != [] && OrderKey(s[|s| - 1]) > OrderKey(x) {
      var init, last := s[..|s| - 1], s[|s| - 1];
      assert s == init + [last];
      InsertByOrderMembers(x, init);
    }
  }

  lemma {:induction false} InsertByOrderSorted(x: QuestionRow, s: seq<QuestionRow>)
    requires SortedByOrder(s)
    ensures SortedByOrder(InsertByOrder(x, s))
    decreases |s|
  {
    if s == [] {
    } else if OrderKey(s[|s| - 1]) <= OrderKey(x) {
      SortedBelowLast(s);
      SortedSnoc(s, x);
    } else {
      var init, last := s[..|s| - 1], s[|s| - 1];
      assert SortedByOrder(init);
      InsertByOrderSorted(x, init);
      InsertByOrderMembers(x, init);
      var t := InsertByOrder(x, init);
      SortedBelowLast(s);
      forall r | r in t ensures OrderKey(r) <= OrderKey(last) {
        assert r in multiset(t);
        if r != x {
          assert r in init;
          assert r in s;
        }
      }
      SortedSnoc(t, last);
    }
  }

  /** The loaded questions are sorted by `order` and are a permutation of the rows. */
  lemma {:induction false} SortByOrderCorrect(rows: seq<QuestionRow>)
    ensures SortedByOrder(SortByOrder(rows))
    ensures multiset(SortByOrder(rows)) == multiset(rows)
    decreases |rows|
  {
    if rows != [] {
      var n := |rows| - 1;
      SortByOrderCorrect(rows[..n]);
      InsertByOrderSorted(rows[n], SortByOrder(rows[..n]));
      InsertByOrderMembers(rows[n], SortByOrder(rows[..n]));
      assert rows == rows[..n] + [rows[n]];
    }
  }

  /** Selects the rows whose key is `k`. */
  function HasOrder(k: int): QuestionRow -> bool {
    r => OrderKey(r) == k
  }

  /** Two rows with different keys are never both selected by one key. */
  lemma DifferentKeys(x: QuestionRow, y: QuestionRow, k: int)
    requires OrderKey(x) != OrderKey(y)
    ensures Filter([x], HasOrder(k)) == [] || Filter([y], HasOrder(k)) == []
  {
    FilterSingleton(x, HasOrder(k));
    FilterSingleton(y, HasOrder(k));
  }

  lemma FilterInsertByOrderPast(x: QuestionRow, s: seq<QuestionRow>, k: int)
    requires s != [] && OrderKey(s[|s| - 1]) > OrderKey(x)
    ensures Filter(InsertByOrder(x, s), HasOrder(k)) ==
            Filter(InsertByOrder(x, s[..|s| - 1]), HasOrder(k)) + Filter([s[|s| - 1]], HasOrder(k))
  {
    FilterAppend(InsertByOrder(x, s[..|s| - 1]), [s[|s| - 1]], HasOrder(k));
  }

  lemma Reassociate<T>(a: seq<T>, b: seq<T>, fi: seq<T>, fx: seq<T>, fl: seq<T>)
    requires a == b + fl && b == fi + fx && (fx == [] || fl == [])
    ensures a == (fi + fl) + fx
  {
  }

  /** Inserting `x` keeps the rows of each key in order, with `x` after those of its own key. */
  lemma {:induction false} InsertByOrderStable(x: QuestionRow, s: seq<QuestionRow>, k: int)
    ensures Filter(InsertByOrder(x, s), HasOrder(k)) == Filter(s, HasOrder(k)) + Filter([x], HasOrder(k))
    decreases |s|
  {
    var p := HasOrder(k);
    if s == [] || OrderKey(s[|s| - 1]) <= OrderKey(x) {
      assert InsertByOrder(x, s) == s + [x];
      FilterAppend(s, [x], p);
    } else {
      var init, last := s[..|s| - 1], s[|s| - 1];
      InsertByOrderStable(x, init, k);
      FilterInsertByOrderPast(x, s, k);
      FilterSnoc(s, p);
      DifferentKeys(x, last, k);
      Reassociate(Filter(InsertByOrder(x, s), p), Filter(InsertByOrder(x, init), p),
                  Filter(init, p), Filter([x], p), Filter([last], p));
    }
  }

  /** The sort is stable: rows with equal keys keep their relative order. */
  lemma {:induction false} SortByOrderStable(rows: seq<QuestionRow>, k: int)
    ensures Filter(SortByOrder(rows), HasOrder(k)) == Filter(rows, HasOrder(k))
    decreases |rows|
  {
    if rows != [] {
      var n := |rows| - 1;
      SortByOrderStable(rows[..n], k);
      InsertByOrderStable(rows[n], SortByOrder(rows[..n]), k);
      FilterSnoc(rows, HasOrder(k));
    }
  }

  /** A loaded row as an editor entry: its id kept, null options as `[]`. */
  function ToEntry(r: QuestionRow): Question {
    Question(Some(r.id), r.text, r.qtype, r.options.GetOr([]), r.correctAnswer)
  }

  /** The questions the editor opens with: the rows sorted by `order`, as entries. */
  function Loaded(rows: seq<QuestionRow>): (qs: seq<Question>)
    ensures |qs| == |rows|
    ensures forall i | 0 <= i < |qs| :: qs[i].id.Some?
  {
    SortByOrderCorrect(rows);
    assert |multiset(SortByOrder(rows))| == |multiset(rows)|;
    var sorted := SortByOrder(rows);
    seq(|sorted|, i requires 0 <= i < |sorted| => ToEntry(sorted[i]))
  }

  /** `originalQuestionIds`: the ids of the loaded questions, in loaded order. */
  function LoadedIds(rows: seq<QuestionRow>): (ids: seq<Id>)
    ensures |ids| == |rows|
    ensures forall i | 0 <= i < |ids| :: Some(ids[i]) == Loaded(rows)[i].id
  {
    var qs := Loaded(rows);
    seq(|qs|, i requires 0 <= i < |qs| => qs[i].id.value)
  }

  /**
   * Saving right after opening a quiz deletes nothing and inserts nothing:
   * every non-blank loaded question is written back as an update of its own
   * row, with its position among the kept questions as its order.
   */
  lemma OpenedSaveOnlyUpdates(rows: seq<QuestionRow>, quizId: Id)
    ensures Reconcile.ToDelete(LoadedIds(rows), Loaded(rows)) == []
    ensures var cs := Reconcile.Cleaned(Loaded(rows));
            var ws := Reconcile.Emit(cs, quizId);
            && |ws| == |cs|
            && Reconcile.Inserts(ws) == []
            && Reconcile.Updates(ws) == ws
            && forall k | 0 <= k < |ws| :: ws[k].id == cs[k].id && ws[k].order == k
  {
    var qs := Loaded(rows);
    var ids := LoadedIds(rows);
    forall x | x in ids ensures x in Reconcile.CurrentIds(qs) {
      var i :| 0 <= i < |ids| && ids[i] == x;
      assert qs[i] in qs;
    }
    Reconcile.NothingDeletedWhileAllCarried(ids, qs);
    Reconcile.PersistedAreUpdated(qs, quizId);
  }

  // ---------------------------------------------------------------------
  // The multiple-answer correct list: `correct_answer` holds the selected
  // options joined with ", " and is read back with split/trim/filter.

  /** Trims every piece and drops the ones left empty. */
  function CleanPieces(ps: seq<string>): seq<string>
    decreases |ps|
  {
    if ps == [] then []
    else (if Trim(ps[0]) == "" then [] else [Trim(ps[0])]) + CleanPieces(ps[1..])
  }

  /** `(correct_answer || '').split(',').map(s => s.trim()).filter(Boolean)`. */
  function CorrectList(correct: string): seq<string> {
    CleanPieces(Split(correct, ','))
  }

  /** A choice that survives the round trip through the comma list unchanged. */
  predicate IsCleanChoice(s: string) {
    s != "" && Trim(s) == s && ',' !in s
  }

  lemma {:induction false} CleanPiecesAreClean(ps: seq<string>)
    requires forall k | 0 <= k < |ps| :: ',' !in ps[k]
    ensures forall x | x in CleanPieces(ps) :: IsCleanChoice(x)
    decreases |ps|
  {
    if ps != [] {
      var tail := ps[1..];
      assert forall k | 0 <= k < |tail| :: tail[k] == ps[k + 1];
      CleanPiecesAreClean(tail);
      CleanPiece(ps[0]);
      var h := if Trim(ps[0]) == "" then [] else [Trim(ps[0])];
      assert CleanPieces(ps) == h + CleanPieces(tail);
    }
  }

  /** A comma-free piece that does not trim to empty trims to a clean choice. */
  lemma CleanPiece(p: string)
    requires ',' !in p
    ensures Trim(p) != "" ==> IsCleanChoice(Trim(p))
  {
    TrimIdempotent(p);
  }

  /** Every entry of a parsed correct list is non-empty, trimmed and comma-free. */
  lemma CorrectListIsClean(correct: string)
    ensures forall x | x in CorrectList(correct) :: IsCleanChoice(x)
  {
    CleanPiecesAreClean(Split(correct, ','));
  }

  lemma CleanPiecesCons(p: string, ps: seq<string>)
    ensures CleanPieces([p] + ps) == (if Trim(p) == "" then [] else [Trim(p)]) + CleanPieces(ps)
  {
    assert ([p] + ps)[1..] == ps;
  }

  /** A single clean choice parses back to itself. */
  lemma ParseSingle(x: string)
    requires IsCleanChoice(x)
    ensures CorrectList(x) == [x]
  {
    assert Split(x, ',') == [x];
    CleanPiecesCons(x, []);
    assert [x] + [] == [x];
  }

  /** A leading blank before a single clean choice is trimmed away. */
  lemma ParseSingleSpaced(x: string)
    requires IsCleanChoice(x)
    ensures CorrectList(" " + x) == [x]
  {
    assert ',' !in " " + x;
    assert Split(" " + x, ',') == [" " + x];
    TrimDropsLeadingSpace(' ', x);
    assert Trim(" " + x) == x;
    CleanPiecesCons(" " + x, []);
  }

  /** A clean choice followed by ", " and more text parses as that choice then the rest. */
  lemma ParseCons(x: string, rest: string)
    requires IsCleanChoice(x)
    ensures CorrectList(x + ", " + rest) == [x] + CorrectList(" " + rest)
  {
    assert x + ", " + rest == x + [','] + (" " + rest);
    SplitAfterPiece(x, ',', " " + rest);
    CleanPiecesCons(x, Split(" " + rest, ','));
  }

  /** The same with a leading blank before the first choice. */
  lemma ParseConsSpaced(x: string, rest: string)
    requires IsCleanChoice(x)
    ensures CorrectList(" " + (x + ", " + rest)) == [x] + CorrectList(" " + rest)
  {
    assert " " + (x + ", " + rest) == (" " + x) + [','] + (" " + rest);
    assert ',' !in " " + x;
    SplitAfterPiece(" " + x, ',', " " + rest);
    TrimDropsLeadingSpace(' ', x);
    assert Trim(" " + x) == x;
    CleanPiecesCons(" " + x, Split(" " + rest, ','));
  }

  /** The empty list joins to "", which parses, with or without a blank, to the empty list. */
  lemma ParseEmpty()
    ensures CorrectList("") == [] && CorrectList(" ") == []
  {
    assert Split(" ", ',') == [" "];
    assert Trim(" ") == "";
    CleanPiecesCons(" ", []);
    CleanPiecesCons("", []);
  }

  /** Every entry of `xs` is a clean choice, stated entry by entry from the front. */
  predicate AllClean(xs: seq<string>)
    decreases |xs|
  {
    xs == [] || (IsCleanChoice(xs[0]) && AllClean(xs[1..]))
  }

  lemma {:induction false} AllCleanMembers(xs: seq<string>)
    ensures AllClean(xs) <==> forall x | x in xs :: IsCleanChoice(x)
    decreases |xs|
  {
    if xs != [] {
      AllCleanMembers(xs[1..]);
      assert xs == [xs[0]] + xs[1..];
    }
  }

  lemma JoinCons(xs: seq<string>, sep: string)
    requires |xs| >= 2
    ensures Join(xs, sep) == xs[0] + sep + Join(xs[1..], sep)
  {
  }

  lemma ParseJoinedStep(xs: seq<string>)
    requires |xs| >= 2 && IsCleanChoice(xs[0])
    requires CorrectList(" " + Join(xs[1..], ", ")) == xs[1..]
    requires Join(xs, ", ") == xs[0] + ", " + Join(xs[1..], ", ")
    ensures CorrectList(Join(xs, ", ")) == xs
  {
    ParseCons(xs[0], Join(xs[1..], ", "));
    assert [xs[0]] + xs[1..] == xs;
  }

  lemma ParseJoinedStepSpaced(xs: seq<string>)
    requires |xs| >= 2 && IsCleanChoice(xs[0])
    requires CorrectList(" " + Join(xs[1..], ", ")) == xs[1..]
    requires Join(xs, ", ") == xs[0] + ", " + Join(xs[1..], ", ")
    ensures CorrectList(" " + Join(xs, ", ")) == xs
  {
    ParseConsSpaced(xs[0], Join(xs[1..], ", "));
    assert [xs[0]] + xs[1..] == xs;
  }

  /** Joining clean choices with ", " and parsing the result gives the choices back. */
  lemma {:induction false} ParseJoined(xs: seq<string>)
    requires AllClean(xs)
    ensures CorrectList(Join(xs, ", ")) == xs
    ensures CorrectList(" " + Join(xs, ", ")) == xs
    decreases |xs|
  {
    if |xs| == 0 {
      assert Join(xs, ", ") == "";
      assert " " + Join(xs, ", ") == " ";
      ParseEmpty();
    } else if |xs| == 1 {
      assert Join(xs, ", ") == xs[0];
      ParseSingle(xs[0]);
      ParseSingleSpaced(xs[0]);
    } else {
      ParseJoined(xs[1..]);
      JoinCons(xs, ", ");
      ParseJoinedStep(xs);
      ParseJoinedStepSpaced(xs);
    }
  }

  /** Keeps the entries different from `x`. */
  function Other(x: string): string -> bool {
    a => a != x
  }

  /** `list.filter(a => a !== x)`: every occurrence of `x` removed. */
  function Without(xs: seq<string>, x: string): seq<string> {
    Filter(xs, Other(x))
  }

  /**
   * The correct answer after clicking the check mark of option `opt`: a
   * multiple-choice question takes `opt`; a multiple-answer question drops
   * every occurrence of a selected `opt` or appends an unselected one, and
   * re-joins the list with ", ".
   */
  function ToggleCorrect(t: QType, correct: string, opt: string): string
    requires t.MultipleChoice? || t.MultipleAnswer?
  {
    if t.MultipleChoice? then opt
    else
      var list := CorrectList(correct);
      if opt in list then Join(Without(list, opt), ", ") else Join(list + [opt], ", ")
  }

  /**
   * For a multiple-answer question and a clean option, the toggle removes a
   * selected option or appends an unselected one and leaves the rest of
   * the parsed list as it was.
   */
  lemma ToggleCorrectSpec(correct: string, opt: string)
    requires IsCleanChoice(opt)
    ensures CorrectList(ToggleCorrect(MultipleAnswer, correct, opt)) ==
            if opt in CorrectList(correct) then Without(CorrectList(correct), opt)
            else CorrectList(correct) + [opt]
    ensures opt in CorrectList(ToggleCorrect(MultipleAnswer, correct, opt)) <==> opt !in CorrectList(correct)
  {
    var list := CorrectList(correct);
    CorrectListIsClean(correct);
    if opt in list {
      AllCleanMembers(Without(list, opt));
      ParseJoined(Without(list, opt));
    } else {
      AllCleanMembers(list + [opt]);
      ParseJoined(list + [opt]);
    }
  }

  /** Selecting an unselected clean option and then deselecting it restores the list. */
  lemma ToggleTwiceRestores(correct: string, opt: string)
    requires IsCleanChoice(opt) && opt !in CorrectList(correct)
    ensures CorrectList(ToggleCorrect(MultipleAnswer, ToggleCorrect(MultipleAnswer, correct, opt), opt))
            == CorrectList(correct)
  {
    var list := CorrectList(correct);
    ToggleCorrectSpec(correct, opt);
    var once := ToggleCorrect(MultipleAnswer, correct, opt);
    ToggleCorrectSpec(once, opt);
    FilterAppend(list, [opt], Other(opt));
    FilterSingleton(opt, Other(opt));
    FilterAll(list, Other(opt));
  }

  /** `list.map(a => a === oldVal ? newVal : a)`. */
  function Replace(xs: seq<string>, oldVal: string, newVal: string): (r: seq<string>)
    ensures |r| == |xs|
    ensures forall k | 0 <= k < |xs| :: r[k] == if xs[k] == oldVal then newVal else xs[k]
  {
    seq(|xs|, k requires 0 <= k < |xs| => if xs[k] == oldVal then newVal else xs[k])
  }

  /**
   * The correct answer after option text `oldVal` is edited to `newVal`:
   * a multiple-choice answer follows the rename only when it was that
   * option; a multiple-answer list has every `oldVal` replaced and is
   * re-joined with ", ".
   */
  function RenamedCorrect(t: QType, correct: string, oldVal: string, newVal: string): string
    requires t.MultipleChoice? || t.MultipleAnswer?
  {
    if t.MultipleChoice? then (if correct == oldVal then newVal else correct)
    else Join(Replace(CorrectList(correct), oldVal, newVal), ", ")
  }

  /** Renaming an option to a clean text renames it inside the parsed correct list. */
  lemma RenamedCorrectSpec(correct: string, oldVal: string, newVal: string)
    requires IsCleanChoice(newVal)
    ensures CorrectList(RenamedCorrect(MultipleAnswer, correct, oldVal, newVal))
            == Replace(CorrectList(correct), oldVal, newVal)
  {
    CorrectListIsClean(correct);
    var r := Replace(CorrectList(correct), oldVal, newVal);
    assert forall x | x in r :: IsCleanChoice(x);
    AllCleanMembers(r);
    ParseJoined(r);
  }

  /** A text ending in a blank is never in the parsed correct list, whose pieces are trimmed. */
  lemma TrailingBlankNeverMarked(correct: string, opt: string)
    requires opt != "" && IsSpace(opt[|opt| - 1])
    ensures opt !in CorrectList(correct)
  {
    CorrectListIsClean(correct);
  }

  /**
   * As written, the rename compares the trimmed pieces with the untrimmed
   * option text. Typing a blank after a selected multiple-answer option
   * unmarks it, and no later rename of that text marks it again: the
   * parsed list stays what it became.
   */
  lemma RenameLosesMarkAsWritten(correct: string, x: string, y: string)
    requires x in CorrectList(correct)
    ensures var typed := x + " ";
            var once := RenamedCorrect(MultipleAnswer, correct, x, typed);
            && typed !in CorrectList(once)
            && CorrectList(RenamedCorrect(MultipleAnswer, once, typed, y)) == CorrectList(once)
  {
    var typed := x + " ";
    var once := RenamedCorrect(MultipleAnswer, correct, x, typed);
    TrailingBlankNeverMarked(once, typed);
    RenameAbsentKeepsList(once, typed, y);
  }

  /** Renaming a text that is not in the parsed list leaves the parsed list as it is. */
  lemma RenameAbsentKeepsList(correct: string, oldVal: string, newVal: string)
    requires oldVal !in CorrectList(correct)
    ensures CorrectList(RenamedCorrect(MultipleAnswer, correct, oldVal, newVal)) == CorrectList(correct)
  {
    var list := CorrectList(correct);
    assert Replace(list, oldVal, newVal) == list;
    CorrectListIsClean(correct);
    AllCleanMembers(list);
    ParseJoined(list);
  }

  /** The corrected check mark: the trimmed option text is in the parsed list. */
  predicate MarkedTrimmed(correct: string, opt: string) {
    Trim(opt) in CorrectList(correct)
  }

  /**
   * The rename with both texts trimmed, as the parsed list is: the pieces
   * equal to the trimmed old text become the trimmed new text, so under the
   * trimmed check mark a marked option stays marked.
   */
  function RenamedCorrectTrimmed(correct: string, oldVal: string, newVal: string): (c: string)
    ensures ',' !in newVal && Trim(newVal) != "" ==>
              CorrectList(c) == Replace(CorrectList(correct), Trim(oldVal), Trim(newVal))
    ensures ',' !in newVal && Trim(newVal) != "" && MarkedTrimmed(correct, oldVal) ==>
              MarkedTrimmed(c, newVal)
  {
    RenameTrimmedKeepsMark(correct, oldVal, newVal);
    Join(Replace(CorrectList(correct), Trim(oldVal), Trim(newVal)), ", ")
  }

  lemma RenameTrimmedKeepsMark(correct: string, oldVal: string, newVal: string)
    ensures var c := Join(Replace(CorrectList(correct), Trim(oldVal), Trim(newVal)), ", ");
            && (',' !in newVal && Trim(newVal) != "" ==>
                  CorrectList(c) == Replace(CorrectList(correct), Trim(oldVal), Trim(newVal)))
            && (',' !in newVal && Trim(newVal) != "" && Trim(oldVal) in CorrectList(correct) ==>
                  Trim(newVal) in CorrectList(c))
  {
    if ',' !in newVal && Trim(newVal) != "" {
      CleanPiece(newVal);
      RenameCleanKeepsMark(correct, Trim(oldVal), Trim(newVal));
    }
  }

  /** Renaming to a clean text: the parse of the result is the renamed list, which holds the new text if the old one was there. */
  lemma RenameCleanKeepsMark(correct: string, oldVal: string, newVal: string)
    requires IsCleanChoice(newVal)
    ensures var r := Replace(CorrectList(correct), oldVal, newVal);
            && CorrectList(Join(r, ", ")) == r
            && (oldVal in CorrectList(correct) ==> newVal in r)
  {
    RenamedCorrectSpec(correct, oldVal, newVal);
    var list := CorrectList(correct);
    if oldVal in list {
      var k :| 0 <= k < |list| && list[k] == oldVal;
      assert Replace(list, oldVal, newVal)[k] == newVal;
    }
  }

  /**
   * With the trimmed rename and the trimmed check mark, typing a blank after
   * a selected option keeps it marked.
   */
  lemma RenameKeepsMarkTrimmed(correct: string, x: string)
    requires x in CorrectList(correct)
    ensures MarkedTrimmed(RenamedCorrectTrimmed(correct, x, x + " "), x + " ")
  {
    CorrectListIsClean(correct);
    TrimDropsTrailingSpace(x, ' ');
    RenameCleanKeepsMark(correct, x, x);
  }

  // ---------------------------------------------------------------------
  // Matching pairs: each option is `prompt:answer`.

  /** `opt.includes(':') ? opt.split(':') : [opt, '']`, keeping the first two parts. */
  function SplitPair(opt: string): (pa: (string, string))
    ensures ':' !in opt ==> pa == (opt, "")
    ensures ':' !in pa.1
  {
    if ':' in opt then
      var parts := Split(opt, ':');
      (parts[0], parts[1])
    else (opt, "")
  }

  /** The option text written back when a prompt or an answer is edited. */
  function JoinPair(prompt: string, answer: string): string {
    prompt + ":" + answer
  }

  /** A pair whose halves have no colon splits back into the same halves. */
  lemma PairRoundTrip(prompt: string, answer: string)
    requires ':' !in prompt && ':' !in answer
    ensures SplitPair(JoinPair(prompt, answer)) == (prompt, answer)
  {
    var s := JoinPair(prompt, answer);
    assert s == prompt + [':'] + answer;
    assert ':' in s by { assert s[|prompt|] == ':'; }
    SplitAfterPiece(prompt, ':', answer);
  }

  /** Editing the prompt of a pair keeps its answer. */
  lemma EditPromptKeepsAnswer(opt: string, newPrompt: string)
    requires ':' !in newPrompt
    ensures SplitPair(JoinPair(newPrompt, SplitPair(opt).1)) == (newPrompt, SplitPair(opt).1)
  {
    PairRoundTrip(newPrompt, SplitPair(opt).1);
  }

  // ---------------------------------------------------------------------
  // The question buffer.

  /** The entry `addQuestion` appends. */
  function BlankQuestion(): Question {
    Question(None, "", MultipleChoice, ["", ""], "")
  }

  /** The field a call of `updateQuestion(index, field, value)` sets. */
  datatype Edit =
    | SetText(text: string)
    | SetType(qtype: QType)
    | SetOptions(options: seq<string>)
    | SetCorrectAnswer(answer: string)

  /** `updateQuestion` on one entry: a switch to true/false also resets the options. */
  function ApplyEdit(q: Question, e: Edit): Question {
    match e
    case SetText(s) => q.(text := s)
    case SetType(t) => q.(qtype := t, options := if t == TrueFalse then ["True", "False"] else q.options)
    case SetOptions(os) => q.(options := os)
    case SetCorrectAnswer(a) => q.(correctAnswer := a)
  }

  /** Field edits never change an entry's id. */
  lemma ApplyEditKeepsId(q: Question, e: Edit)
    ensures ApplyEdit(q, e).id == q.id
  {
  }

  /** Two buffers with the same ids position by position have the same current ids. */
  lemma {:induction false} CurrentIdsDependOnIdsOnly(a: seq<Question>, b: seq<Question>)
    requires |a| == |b| && forall k | 0 <= k < |a| :: a[k].id == b[k].id
    ensures Reconcile.CurrentIds(a) == Reconcile.CurrentIds(b)
    decreases |a|
  {
    if a != [] {
      CurrentIdsDependOnIdsOnly(a[1..], b[1..]);
    }
  }

  /** Editing the fields of an entry never changes what the save deletes. */
  lemma EditKeepsDeletes(originalIds: seq<Id>, qs: seq<Question>, i: nat, e: Edit)
    requires i < |qs|
    ensures Reconcile.ToDelete(originalIds, qs[i := ApplyEdit(qs[i], e)]) == Reconcile.ToDelete(originalIds, qs)
  {
    CurrentIdsDependOnIdsOnly(qs[i := ApplyEdit(qs[i], e)], qs);
  }

  /** A freshly added, still blank entry changes nothing in the save. */
  lemma AddedBlankIsIgnored(originalIds: seq<Id>, qs: seq<Question>)
    ensures Reconcile.ToDelete(originalIds, qs + [BlankQuestion()]) == Reconcile.ToDelete(originalIds, qs)
    ensures Reconcile.Cleaned(qs + [BlankQuestion()]) == Reconcile.Cleaned(qs)
  {
    FilterAppend(qs, [BlankQuestion()], Reconcile.NonBlank);
    FilterSingleton(BlankQuestion(), Reconcile.NonBlank);
    assert Trim("") == "";
    assert Reconcile.CurrentIds(qs + [BlankQuestion()]) == Reconcile.CurrentIds(qs) by {
      CurrentIdsAppend(qs, BlankQuestion());
    }
  }

  lemma {:induction false} CurrentIdsAppend(qs: seq<Question>, q: Question)
    ensures Reconcile.CurrentIds(qs + [q]) ==
            Reconcile.CurrentIds(qs) + (if q.id.Some? then [q.id.value] else [])
    decreases |qs|
  {
    if qs == [] {
      assert [q][1..] == [];
    } else {
      assert (qs + [q])[1..] == qs[1..] + [q];
      CurrentIdsAppend(qs[1..], q);
    }
  }

  /** The editor state: the question buffer and the ids the quiz was opened with. */
  class Editor {
    var questions: seq<Question>
    var originalIds: seq<Id>

    /** `openModal(quiz)`: the quiz's loaded questions and their ids. */
    constructor Open(rows: seq<QuestionRow>)
      ensures questions == Loaded(rows) && originalIds == LoadedIds(rows)
    {
      questions := Loaded(rows);
      originalIds := LoadedIds(rows);
    }

    /** `openModal()` for a new quiz: nothing loaded. */
    constructor Create()
      ensures questions == [] && originalIds == []
    {
      questions := [];
      originalIds := [];
    }

    /** `addQuestion`: appends one blank multiple-choice entry with two empty options. */
    method AddQuestion()
      modifies this`questions
      ensures questions == old(questions) + [BlankQuestion()]
    {
      questions := questions + [BlankQuestion()];
    }

    /** `removeQuestion(index)`: `splice(index, 1)`, a no-op past the end. */
    method RemoveQuestion(index: nat)
      modifies this`questions
      ensures questions == RemoveAt(old(questions), index)
    {
      if index < |questions| {
        questions := questions[..index] + questions[index + 1..];
      }
    }

    /** `updateQuestion(index, field, value)`. */
    method UpdateQuestion(index: nat, e: Edit)
      requires index < |questions|
      modifies this`questions
      ensures questions == old(questions)[index := ApplyEdit(old(questions)[index], e)]
      ensures e == SetType(TrueFalse) ==> questions[index].options == ["True", "False"]
    {
      var q := questions[index];
      match e {
        case SetText(s) => q := q.(text := s);
        case SetType(t) =>
          q := q.(qtype := t);
          if t == TrueFalse {
            q := q.(options := ["True", "False"]);
          }
        case SetOptions(os) => q := q.(options := os);
        case SetCorrectAnswer(a) => q := q.(correctAnswer := a);
      }
      questions := questions[index := q];
    }

    /** `updateOption(qIndex, oIndex, value)`. */
    method UpdateOption(qIndex: nat, oIndex: nat, value: string)
      requires qIndex < |questions| && oIndex < |questions[qIndex].options|
      modifies this`questions
      ensures |questions| == |old(questions)|
      ensures questions[qIndex] == old(questions)[qIndex].(options := old(questions)[qIndex].options[oIndex := value])
      ensures forall k | 0 <= k < |questions| && k != qIndex :: questions[k] == old(questions)[k]
    {
      var q := questions[qIndex];
      questions := questions[qIndex := q.(options := q.options[oIndex := value])];
    }

    /** `addOption(qIndex)`: one more empty option. */
    method AddOption(qIndex: nat)
      requires qIndex < |questions|
      modifies this`questions
      ensures questions == old(questions)[qIndex := old(questions)[qIndex].(options := old(questions)[qIndex].options + [""])]
    {
      var q := questions[qIndex];
      questions := questions[qIndex := q.(options := q.options + [""])];
    }

    /** `removeOption(qIndex, oIndex)`: the options without index `oIndex`. */
    method RemoveOption(qIndex: nat, oIndex: nat)
      requires qIndex < |questions|
      modifies this`questions
      ensures questions == old(questions)[qIndex := old(questions)[qIndex].(options := RemoveAt(old(questions)[qIndex].options, oIndex))]
    {
      var q := questions[qIndex];
      questions := questions[qIndex := q.(options := RemoveAt(q.options, oIndex))];
    }

    /** `handleAIImport(newQuestions)`: appends the imported entries. */
    method ImportQuestions(imported: seq<Question>)
      modifies this`questions
      ensures questions == old(questions) + imported
    {
      questions := questions + imported;
    }

    /** The check-mark button of option `opt` of a choice question. */
    method ToggleCorrectOption(qIndex: nat, opt: string)
      requires qIndex < |questions|
      requires questions[qIndex].qtype.MultipleChoice? || questions[qIndex].qtype.MultipleAnswer?
      modifies this`questions
      ensures questions == old(questions)[qIndex := old(questions)[qIndex].(
                correctAnswer := ToggleCorrect(old(questions)[qIndex].qtype, old(questions)[qIndex].correctAnswer, opt))]
    {
      var q := questions[qIndex];
      questions := questions[qIndex := q.(correctAnswer := ToggleCorrect(q.qtype, q.correctAnswer, opt))];
    }

    /** Typing into option `oIndex` of a choice question: the option and the correct answer follow. */
    method RenameChoice(qIndex: nat, oIndex: nat, newVal: string)
      requires qIndex < |questions| && oIndex < |questions[qIndex].options|
      requires questions[qIndex].qtype.MultipleChoice? || questions[qIndex].qtype.MultipleAnswer?
      modifies this`questions
      ensures |questions| == |old(questions)|
      ensures forall k | 0 <= k < |questions| && k != qIndex :: questions[k] == old(questions)[k]
      ensures questions[qIndex].options == old(questions)[qIndex].options[oIndex := newVal]
      ensures questions[qIndex].correctAnswer ==
              RenamedCorrect(old(questions)[qIndex].qtype, old(questions)[qIndex].correctAnswer,
                             old(questions)[qIndex].options[oIndex], newVal)
      ensures questions[qIndex].id == old(questions)[qIndex].id
      ensures questions[qIndex].text == old(questions)[qIndex].text
      ensures questions[qIndex].qtype == old(questions)[qIndex].qtype
    {
      var q := questions[qIndex];
      var oldVal := q.options[oIndex];
      q := q.(options := q.options[oIndex := newVal],
              correctAnswer := RenamedCorrect(q.qtype, q.correctAnswer, oldVal, newVal));
      questions := questions[qIndex := q];
    }

    /** "Add Pair" of a matching question: appends the option " : ". */
    method AddPair(qIndex: nat)
      requires qIndex < |questions|
      modifies this`questions
      ensures questions == old(questions)[qIndex := old(questions)[qIndex].(options := old(questions)[qIndex].options + [" : "])]
    {
      var q := questions[qIndex];
      questions := questions[qIndex := q.(options := q.options + [" : "])];
    }

    /** Typing into the prompt of pair `oIndex`: the pair is rewritten with its old answer. */
    method EditPairPrompt(qIndex: nat, oIndex: nat, newPrompt: string)
      requires qIndex < |questions| && oIndex < |questions[qIndex].options|
      modifies this`questions
      ensures |questions| == |old(questions)|
      ensures forall k | 0 <= k < |questions| && k != qIndex :: questions[k] == old(questions)[k]
      ensures questions[qIndex] == old(questions)[qIndex].(options := old(questions)[qIndex].options[oIndex :=
                JoinPair(newPrompt, SplitPair(old(questions)[qIndex].options[oIndex]).1)])
    {
      var (_, answer) := SplitPair(questions[qIndex].options[oIndex]);
      UpdateOption(qIndex, oIndex, JoinPair(newPrompt, answer));
    }

    /** Typing into the answer of pair `oIndex`: the pair is rewritten with its old prompt. */
    method EditPairAnswer(qIndex: nat, oIndex: nat, newAnswer: string)
      requires qIndex < |questions| && oIndex < |questions[qIndex].options|
      modifies this`questions
      ensures |questions| == |old(questions)|
      ensures forall k | 0 <= k < |questions| && k != qIndex :: questions[k] == old(questions)[k]
      ensures questions[qIndex] == old(questions)[qIndex].(options := old(questions)[qIndex].options[oIndex :=
                JoinPair(SplitPair(old(questions)[qIndex].options[oIndex]).0, newAnswer)])
    {
      var (prompt, _) := SplitPair(questions[qIndex].options[oIndex]);
      UpdateOption(qIndex, oIndex, JoinPair(prompt, newAnswer));
    }

    /** The question part of `handleFormSubmit` for the saved quiz `quizId`. */
    method Save(quizId: Id) returns (requests: seq<Reconcile.StoreRequest>)
      ensures requests == Reconcile.SaveRequests(
                Reconcile.ToDelete(originalIds, questions),
                Reconcile.Updates(Reconcile.Emit(Reconcile.Cleaned(questions), quizId)),
                Reconcile.Inserts(Reconcile.Emit(Reconcile.Cleaned(questions), quizId)))
    {
      var toDelete, toUpdate, toInsert := Reconcile.PlanSave(originalIds, questions, quizId);
      requests := Reconcile.SaveRequests(toDelete, toUpdate, toInsert);
    }
  }
}
