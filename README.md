# Quiz platform core, modelled in Dafny

This project models the logic of a small quiz web application. Admins build
quizzes of questions (multiple choice, multiple answer, true/false, matching
and free text), import questions pasted as text, and review the responses.
Respondents open a quiz by id or slug, answer it and get a score.

The model covers six parts of the front end:

- **`Reconcile`** (`reconcile.dfy`) — the question save of the quiz editor.
  It works out which persisted questions to delete. It drops blank entries,
  skips repeated new entries (same trimmed text and type), numbers what is
  kept, and splits the payloads into updates and inserts. It also fixes the
  order of the three store requests. `PlanSave` is the imperative walk with
  its `seen` set; `Emit`, `Updates` and `Inserts` are the functions it is
  proved against.
- **`QuestionEditor`** (`question_editor.dfy`) — the editor's state as a class
  (`Editor`) whose methods update the question list in place. Also:
  - the load-time stable sort by `order`;
  - the comma-joined correct list of multiple-answer questions, with its
    toggle and rename rules;
  - the `prompt:answer` encoding of matching pairs.
- **`QuizRunner`** (`quiz_runner.dfy`) — the quiz page:
  - grading (a loop, proved against a recursive score);
  - the choices shown for each question type;
  - the UUID test that picks lookup by id or by slug;
  - the run state (`QuizRun`) with start, answer, next and submit.
- **`ResponseList`** (`response_list.dfy`) — the admin response table. It
  covers the name and quiz filters, each row's total, the per-question review
  verdicts and the quiz filter entries.
- **`AIPasteModal`** (`ai_paste_modal.dfy`) — the import dialog's state
  (`ImportDialog`) and the true/false defaulting applied on import.
- **`SearchableDropdown`** (`searchable_dropdown.dfy`) — option filtering, the
  selected label and the open/search state (`Dropdown`).
- **`Home`** (`home.dfy`) — the public quiz search and the link each card
  opens.

Shared definitions live in `wrappers.dfy` (`Option`, `Result`), `text.dfy`
(split, trim, join, ASCII lower case, substring search), `seqs.dfy` (filter
and its order-preservation facts, remove-at) and `quiz_data.dfy` (the records:
question rows, editor entries, write payloads, quizzes, responses).

Where the documented behaviour and the code differ, the model follows the code:

- The save numbers kept questions by their index among the non-blank entries
  (`QuizManagement.jsx:236`, `order: idx`). So when a repeated new entry is
  skipped and a kept entry follows it, the stored `order` values have a gap;
  they are not always 0..n-1. `Reconcile.DenseWhenNothingSkipped` proves
  they are 0..n-1 when nothing is skipped. A skip with no kept entry after
  it leaves no gap.
- A new entry is skipped when any earlier kept entry has the same key, and
  that includes a persisted one (`QuizManagement.jsx:238`). So a new copy of
  a saved question is dropped. The duplicate check is not limited to new
  entries.

## Model

| member | source | states |
|---|---|---|
| Reconcile.CurrentIds | src/pages/admin/QuizManagement.jsx:216 | holds every id carried by an edited entry and nothing else; entries without id contribute nothing |
| Reconcile.ToDeleteExact | src/pages/admin/QuizManagement.jsx:216-217 | an id is deleted if and only if it was loaded and no edited entry carries it any more |
| Reconcile.NothingDeletedWhileAllCarried | src/pages/admin/QuizManagement.jsx:216-217 | while every loaded id is still carried by some entry, the delete list is empty |
| Reconcile.RemovedEntryIsDeleted | src/pages/admin/QuizManagement.jsx:142-217 | removing the only entry with a loaded id puts that id in the delete list |
| Reconcile.PlanSave | src/pages/admin/QuizManagement.jsx:216-259 | the imperative walk with its `seen` set yields exactly the delete list, and the update and insert batches of the kept, numbered payloads |
| Reconcile.EmitShape | src/pages/admin/QuizManagement.jsx:228-251 | every payload comes from a non-skipped non-blank entry, carries that entry's index as `order`, and orders strictly increase |
| Reconcile.EmitComplete | src/pages/admin/QuizManagement.jsx:236-251 | every non-skipped non-blank entry yields a payload |
| Reconcile.EmittedIff | src/pages/admin/QuizManagement.jsx:236-251 | a non-blank entry is saved if and only if it is not skipped |
| Reconcile.SkipRule | src/pages/admin/QuizManagement.jsx:237-242 | an entry with an id is never skipped; a new entry whose key an earlier entry had is always skipped |
| Reconcile.DenseWhenNothingSkipped | src/pages/admin/QuizManagement.jsx:236-251 | when nothing is skipped, the payloads are numbered 0..n-1 in the edited order |
| Reconcile.PayloadFields | src/pages/admin/QuizManagement.jsx:244-251 | each payload carries the quiz id; its options are null exactly for free-text questions, and otherwise are its entry's options |
| Reconcile.UpdatesAndInsertsPartition | src/pages/admin/QuizManagement.jsx:253-258 | payloads with an id go to the upsert, the others to the insert, and no payload is lost or doubled |
| Reconcile.PersistedAreUpdated | src/pages/admin/QuizManagement.jsx:228-258 | when every entry carries an id, every non-blank entry is upserted with its own id and its position as order, and nothing is inserted |
| Reconcile.EmitLength | src/pages/admin/QuizManagement.jsx:228-259 | there are never more payloads than non-blank entries |
| Reconcile.InsertsAreDistinct | src/pages/admin/QuizManagement.jsx:232-242 | no two inserted payloads share trimmed text and type |
| Reconcile.BlankedPersistedIsUntouched | src/pages/admin/QuizManagement.jsx:216-230 | a persisted question whose text is blanked is neither deleted nor written, so its stored row stays as it was |
| Reconcile.DeletesAndUpdatesDisjoint | src/pages/admin/QuizManagement.jsx:216-258 | no id is both deleted and upserted |
| Reconcile.SaveRequests | src/pages/admin/QuizManagement.jsx:219-272 | at most three requests: delete, upsert, insert in that order, each sent if and only if its batch is non-empty |
| QuestionEditor.SortByOrderCorrect | src/pages/admin/QuizManagement.jsx:63 | the loaded questions are sorted by `order`, a missing order counting as 0, and are a permutation of the fetched rows |
| QuestionEditor.SortByOrderStable | src/pages/admin/QuizManagement.jsx:63 | rows with equal `order` keep their fetched relative order |
| QuestionEditor.Loaded | src/pages/admin/QuizManagement.jsx:60-68 | one editor entry per fetched row, each with its id |
| QuestionEditor.Editor.Open | src/pages/admin/QuizManagement.jsx:93-104 | editing a quiz starts from its loaded questions and remembers their ids |
| QuestionEditor.OpenedSaveOnlyUpdates | src/pages/admin/QuizManagement.jsx:93-258 | saving right after opening a quiz deletes nothing, inserts nothing, and upserts every non-blank loaded question with its own id and its position as order |
| QuestionEditor.Editor.Create | src/pages/admin/QuizManagement.jsx:105-107 | a new quiz starts with no questions and no remembered ids |
| QuestionEditor.Editor.AddQuestion | src/pages/admin/QuizManagement.jsx:125-140 | appends one new blank multiple-choice entry with two empty options |
| QuestionEditor.AddedBlankIsIgnored | src/pages/admin/QuizManagement.jsx:125-230 | an added blank entry changes neither the delete list nor the payloads |
| QuestionEditor.Editor.RemoveQuestion | src/pages/admin/QuizManagement.jsx:142-146 | drops the entry at the index; past the end nothing changes |
| QuestionEditor.Editor.UpdateQuestion | src/pages/admin/QuizManagement.jsx:148-157 | sets one field of one entry; switching to true/false resets the options to True/False |
| QuestionEditor.EditKeepsDeletes | src/pages/admin/QuizManagement.jsx:148-217 | editing a field never changes what a save deletes |
| QuestionEditor.Editor.UpdateOption | src/pages/admin/QuizManagement.jsx:159-165 | replaces one option of one entry; everything else stays |
| QuestionEditor.Editor.AddOption | src/pages/admin/QuizManagement.jsx:167-171 | appends an empty option to one entry |
| QuestionEditor.Editor.RemoveOption | src/pages/admin/QuizManagement.jsx:173-177 | drops one option of one entry |
| QuestionEditor.Editor.ImportQuestions | src/pages/admin/QuizManagement.jsx:179-185 | appends the imported entries after the existing ones |
| QuestionEditor.CorrectListIsClean | src/pages/admin/QuizManagement.jsx:572-574 | the parsed correct list holds only trimmed, non-empty pieces without commas |
| QuestionEditor.ParseJoined | src/pages/admin/QuizManagement.jsx:572-590 | joining clean choices with ", " and parsing them back gives the same list |
| QuestionEditor.ToggleCorrectSpec | src/pages/admin/QuizManagement.jsx:572-590 | for a clean choice (non-empty, trimmed, without commas), toggling a multiple-answer choice removes it if it was selected and appends it otherwise; the choice is selected afterwards if and only if it was not before |
| QuestionEditor.ToggleTwiceRestores | src/pages/admin/QuizManagement.jsx:572-590 | for a clean, unselected choice (non-empty, trimmed, without commas), selecting then deselecting it restores the parsed list |
| QuestionEditor.Editor.ToggleCorrectOption | src/pages/admin/QuizManagement.jsx:578-590 | the check-mark button rewrites only that entry's correct answer |
| QuestionEditor.RenamedCorrectSpec | src/pages/admin/QuizManagement.jsx:607-620 | renaming a choice to a clean text (non-empty, trimmed, without commas) renames it inside the multiple-answer correct list and keeps every other piece |
| QuestionEditor.TrailingBlankNeverMarked | src/pages/admin/QuizManagement.jsx:572-576 | a choice whose text ends in a blank is never shown as selected in a multiple-answer question |
| QuestionEditor.RenameLosesMarkAsWritten | src/pages/admin/QuizManagement.jsx:572-617 | as written, typing a blank after a selected multiple-answer choice unselects it, and later renames of that text leave the parsed list as it is |
| QuestionEditor.RenamedCorrectTrimmed | src/pages/admin/QuizManagement.jsx:607-617 | the rename with both texts trimmed: for a new text without commas and not blank, the parsed list is renamed, and an option marked by the trimmed check mark (its trimmed text in the parsed list) stays marked after the rename |
| QuestionEditor.RenameKeepsMarkTrimmed | src/pages/admin/QuizManagement.jsx:572-617 | with the trimmed rename and the trimmed check mark, typing a blank after a selected choice keeps it marked |
| QuestionEditor.Editor.RenameChoice | src/pages/admin/QuizManagement.jsx:607-620 | editing a choice's text renames the option and, where it was correct, the answer |
| QuestionEditor.SplitPair | src/pages/admin/QuizManagement.jsx:516-517 | a pair without ':' is all prompt; the answer part never holds ':' |
| QuestionEditor.PairRoundTrip | src/pages/admin/QuizManagement.jsx:516-537 | a written pair splits back into its prompt and answer when neither contains ':' |
| QuestionEditor.EditPromptKeepsAnswer | src/pages/admin/QuizManagement.jsx:524-527 | editing a pair's prompt keeps its answer |
| QuestionEditor.Editor.AddPair | src/pages/admin/QuizManagement.jsx:552-557 | appends the empty pair " : " to one entry |
| QuestionEditor.Editor.EditPairPrompt | src/pages/admin/QuizManagement.jsx:524-527 | rewrites one pair with the new prompt and its old answer |
| QuestionEditor.Editor.EditPairAnswer | src/pages/admin/QuizManagement.jsx:534-537 | rewrites one pair with its old prompt and the new answer |
| QuestionEditor.Editor.Save | src/pages/admin/QuizManagement.jsx:216-272 | the requests a save sends are those of the delete list and of the update and insert batches of the current entries |
| QuizRunner.CountCorrect | src/pages/public/QuizRunner.jsx:171-176 | the grading loop counts the questions whose answer equals the correct answer |
| QuizRunner.ScoreBounds | src/pages/public/QuizRunner.jsx:171-176 | the score is at most the question count; it is full if and only if all are right, and 0 if and only if none are |
| QuizRunner.ScoreCountsCorrect | src/pages/public/QuizRunner.jsx:171-176 | the score is the number of positions answered correctly |
| QuizRunner.ScoreIgnoresOtherKeys | src/pages/public/QuizRunner.jsx:153-176 | an answer for an id no question has does not change the score |
| QuizRunner.ScoreIsCorrectIds | src/pages/public/QuizRunner.jsx:171-176 | with distinct question ids, the score is the number of correctly answered ids |
| QuizRunner.ScoreAtMostAnswered | src/pages/public/QuizRunner.jsx:171-176 | with distinct question ids, the score never exceeds the number of answers given |
| QuizRunner.ResultVerdicts | src/pages/public/QuizRunner.jsx:171-297 | one verdict per question, right exactly when the stored answer equals the correct answer, and the result page shows as many right verdicts as the score |
| QuizRunner.ShownChoices | src/pages/public/QuizRunner.jsx:55-56 | buttons exactly for multiple-choice and true/false questions; a true/false question can always be answered; stored options are shown when there are any; the only other choices ever shown are the two Arabic labels for true/false; a multiple-choice question without options shows no button |
| QuizRunner.HyphenatedIsUuid | src/pages/public/QuizRunner.jsx:119 | five hex groups of 8-4-4-4-12 digits joined by '-' pass the UUID test |
| QuizRunner.UuidIsHyphenated | src/pages/public/QuizRunner.jsx:119 | every key that passes the UUID test is such five hex groups joined by '-' |
| QuizRunner.UuidIffHyphenatedHex | src/pages/public/QuizRunner.jsx:119 | the UUID test accepts exactly the five hex groups of 8-4-4-4-12 digits joined by '-' |
| QuizRunner.UuidIgnoresCase | src/pages/public/QuizRunner.jsx:119 | the UUID test ignores letter case |
| QuizRunner.QuizLookup | src/pages/public/QuizRunner.jsx:119-124 | a key is looked up as an id if and only if it is five hex groups of 8-4-4-4-12 digits joined by '-', otherwise as a slug, always with the key itself |
| QuizRunner.QuizRun.constructor | src/pages/public/QuizRunner.jsx:104-112 | a run starts at the intro, with no name, no answers, index 0 and no score |
| QuizRunner.QuizRun.SetName | src/pages/public/QuizRunner.jsx:105 | typing sets the respondent name |
| QuizRunner.QuizRun.Start | src/pages/public/QuizRunner.jsx:148-151 | the quiz starts if and only if the trimmed name is non-empty |
| QuizRunner.QuizRun.Answer | src/pages/public/QuizRunner.jsx:153-158 | records one answer and keeps every other |
| QuizRunner.QuizRun.Submit | src/pages/public/QuizRunner.jsx:168-198 | sets the score, sends the name, score and answers, reaches the result only when the store accepted it, and always ends submitting |
| QuizRunner.QuizRun.Next | src/pages/public/QuizRunner.jsx:160-166 | moves to the next question, leaving the rest of the state alone, or submits on the last one and ends not submitting; the index names a question, or is 0 for an empty quiz |
| ResponseList.FilteredResponsesSpec | src/pages/admin/ResponseList.jsx:66-70 | the table lists exactly the responses whose name contains the term (ignoring case) and whose quiz passes the filter, in fetched order |
| ResponseList.NeutralFilters | src/pages/admin/ResponseList.jsx:66-70 | the "all" filter checks only the name; an empty term checks only the quiz |
| ResponseList.NoFiltersShowAll | src/pages/admin/ResponseList.jsx:66-70 | with no term and the "all" filter every response is listed |
| ResponseList.SubmittedScoreWithinTotal | src/pages/admin/ResponseList.jsx:126-141 | a response as the quiz page sends it never shows a score above its total |
| ResponseList.ReviewVerdictsAsWritten | src/pages/admin/ResponseList.jsx:195-197 | the review as written fails if and only if the answers are null and the quiz has questions |
| ResponseList.ReviewFailsWithoutAnswers | src/pages/admin/ResponseList.jsx:195-197 | a response with null answers breaks the review of a one-question quiz |
| ResponseList.ReviewVerdicts | src/pages/admin/ResponseList.jsx:195-197 | the corrected review gives one verdict per question with the quiz page's grading test, reading null answers as none; it shows as many right verdicts as the score of the stored answers, and none without answers |
| ResponseList.ReviewVerdictsAgree | src/pages/admin/ResponseList.jsx:195-197 | wherever the review as written works, the corrected one agrees with it |
| ResponseList.InitialFilterShowsAll | src/pages/admin/ResponseList.jsx:15-26 | with the dropdown's entries ("All Quizzes" first, then each fetched quiz), the initial filter shows "All Quizzes" and lets every response through |
| AIPasteModal.FinalizeImport | src/components/admin/AIPasteModal.jsx:26-32 | one record per reviewed record, in order: a true/false record without choices gets exactly the two Arabic labels, every other record passes unchanged, and afterwards every true/false record has choices |
| AIPasteModal.FinalizeImportIdempotent | src/components/admin/AIPasteModal.jsx:26-32 | finalizing twice is finalizing once |
| AIPasteModal.FinalizeCommutesWithDelete | src/components/admin/AIPasteModal.jsx:26-46 | deleting a record before finalizing equals deleting it after |
| AIPasteModal.ImportDeletesNothing | src/pages/admin/QuizManagement.jsx:179-217 | appending imported records never changes what a save deletes |
| AIPasteModal.ImportDialog.constructor | src/components/admin/AIPasteModal.jsx:7-10 | the dialog starts empty, idle, without error or records |
| AIPasteModal.ImportDialog.SetRawText | src/components/admin/AIPasteModal.jsx:7 | typing sets the pasted text |
| AIPasteModal.ImportDialog.Process | src/components/admin/AIPasteModal.jsx:12-24 | blank text does nothing; otherwise a parse stores the records and clears the error, a failure stores its message and keeps earlier records, and loading ends |
| AIPasteModal.ImportDialog.Close | src/components/admin/AIPasteModal.jsx:37-42 | clears the text, the records and the error |
| AIPasteModal.ImportDialog.ConfirmImport | src/components/admin/AIPasteModal.jsx:26-35 | hands on the finalized records, then closes |
| AIPasteModal.ImportDialog.DeleteItem | src/components/admin/AIPasteModal.jsx:44-46 | drops the record at the index from the review |
| AIPasteModal.ImportDialog.BackToText | src/components/admin/AIPasteModal.jsx:94-99 | leaves the review |
| SearchableDropdown.Label | src/components/SearchableDropdown.jsx:29-41 | a string option shows itself |
| SearchableDropdown.Value | src/components/SearchableDropdown.jsx:34-47 | a string option stands for itself |
| SearchableDropdown.FilteredOptionsSpec | src/components/SearchableDropdown.jsx:29-32 | the open list shows exactly the options whose label contains the search (ignoring case), in their order |
| SearchableDropdown.EmptySearchShowsAll | src/components/SearchableDropdown.jsx:29-32 | an empty search shows every option |
| SearchableDropdown.FindValue | src/components/SearchableDropdown.jsx:34-37 | finds the first option with the value, and finds none if and only if no option has it |
| SearchableDropdown.DisplayLabel | src/components/SearchableDropdown.jsx:34-41 | the placeholder when no option has the value; otherwise the label of the first option with the value, or the placeholder when that option is the empty string |
| SearchableDropdown.SelectedShowsItsLabel | src/components/SearchableDropdown.jsx:34-48 | with distinct values, selecting an option makes the button show its label |
| SearchableDropdown.Dropdown.constructor | src/components/SearchableDropdown.jsx:15-16 | closed, with an empty search |
| SearchableDropdown.Dropdown.Toggle | src/components/SearchableDropdown.jsx:54 | the button flips the list |
| SearchableDropdown.Dropdown.ClickOutside | src/components/SearchableDropdown.jsx:19-27 | a press outside closes the list |
| SearchableDropdown.Dropdown.SetSearch | src/components/SearchableDropdown.jsx:73 | typing sets the search |
| SearchableDropdown.Dropdown.ClearSearch | src/components/SearchableDropdown.jsx:78 | the clear button empties the search |
| SearchableDropdown.Dropdown.Select | src/components/SearchableDropdown.jsx:43-48 | emits the option's value, closes the list and clears the search |
| Home.SearchQuizzesSpec | src/pages/public/Home.jsx:37-43 | the search keeps exactly the quizzes whose title, or non-empty description, contains the term ignoring case, in order |
| Home.EmptyTermListsAll | src/pages/public/Home.jsx:37-43 | an empty term lists every quiz |
| Home.NoDescriptionMatchesByTitle | src/pages/public/Home.jsx:37-43 | a quiz without description matches only through its title |
| Home.LinkTarget | src/pages/public/Home.jsx:82 | the link is never empty: the slug when it is non-empty, else the id |
| Home.LinkFindsQuiz | src/pages/public/Home.jsx:82 | a card's link is looked up on the quiz page by the id it was made from when that id is UUID-shaped, and by the slug when the slug is not UUID-shaped; a UUID-shaped slug is looked up as an id, so it finds its quiz only when the quiz's id is that slug |

## Left out

- Store calls (the quiz, question and response tables, and authentication) are not modelled as I/O. Their outcomes are parameters: `insertOk` for the response insert, a `Result` for the parser, and the fetched rows for loads. `Save` returns the requests it would send, and the model does not cover a request failing half-way through a save.
- The quiz record's own save (title, description, slug and the `is_active` flag), quiz deletion and `handleFormChange` are form plumbing around the question save. They are not modelled.
- The text-to-question parser in `src/services/gemini.js` is not part of this model. Its outcome is the `outcome` parameter of `ImportDialog.Process`.
- The quiz page's question fetch is ordered by the store (`.order('order')`). The model receives the questions already in that order. Likewise, the review and response list receive their questions and responses as parameters.
- The progress bar, percentages, `viewMode` (one question at a time or all at once), scrolling, timers, alerts, dates and styling only affect display. They are left out.
- `Text.Lower` folds ASCII letters only; JavaScript's `toLowerCase` covers all of Unicode.
- `Text.Trim` strips a fixed list of blanks: ASCII white space, the no-break space, the byte-order mark, the line and paragraph separators and the ideographic space. JavaScript's `trim` also strips the other Unicode space separators.
- React state updates are modelled as atomic assignments. Stale closures and batching are not modelled.
- The source mutates some shared arrays in place (`addOption` pushes into the option list; `updateQuestion` writes into an entry object). The model replaces the entry instead, so aliasing between the old and new lists is not captured.
- The shapes of the persisted records are narrowed. Ids are non-empty strings, so a missing or empty id reads as "no id". Absent option lists load as `[]`. Only the five question types exist. A response's `score` is a natural number, where the table allows null.
- Grading compares answers by exact string equality for every type, as the source does. No type-specific grading exists to model.
- AIPasteModal.AsEntry: an imported record without options becomes an entry with no options (`[]`). The source appends the record as it is (`QuizManagement.jsx:179-185`), so its `options` stay undefined: "Add Option" then fails at `QuizManagement.jsx:169`, and a save sends no `options` field (line 248). The model has no undefined option list, so it captures neither.
- `QuestionEditor.Editor.RenameChoice` keeps the rename as written (`RenamedCorrect`); the trimmed rename of the findings table is stated beside it and not wired into the editor.
- `QuestionEditor.Loaded`: the sort it applies is specified by `SortByOrderCorrect` and `SortByOrderStable`; its own contract states only the length and the ids.
- Login, routing guards, the admin layout and the quiz cards are not part of this model.

## Findings

| source | as written | input that shows it | evidently intended | confidence | as-written member | corrected member |
|---|---|---|---|---|---|---|
| src/pages/admin/ResponseList.jsx:196 | `selectedResponse?.answers[q.id]` indexes the answers without a null check | a response whose `answers` is null, reviewed against a quiz with at least one question | treat null answers as no answers, as the row total on line 126 already does | medium, not executed | ResponseList.ReviewVerdictsAsWritten | ResponseList.ReviewVerdicts |
| src/pages/admin/QuizManagement.jsx:617 | the rename compares the parsed, trimmed pieces with the untrimmed option text and stores the untrimmed new text | a multiple-answer question whose selected choice is "New"; the admin types a blank after it ("New "), then "Y" ("New Y") | compare and store the trimmed texts, and test the check mark on the trimmed option text, so the mark follows the choice while it is typed | medium, not executed | QuestionEditor.RenameLosesMarkAsWritten | QuestionEditor.RenamedCorrectTrimmed |
