/**
 * The question-set save of the quiz editor: which original question ids to
 * delete, which edited entries to update, which to insert, with what
 * `order`, and the store requests that carry them.
 */
module Reconcile {
  import opened Wrappers
  import opened Text
  import opened Seqs
  import opened QuizData

  /** `currentIds`: the ids of the edited entries that have one, in list order. */
  function CurrentIds(qs: seq<Question>): (r: seq<Id>)
    ensures forall q | q in qs && q.id.Some? :: q.id.value in r
    ensures forall x | x in r :: exists q | q in qs :: q.id == Some(x)
    decreases |qs|
  {
    if qs == [] then []
    else
      var rest := CurrentIds(qs[1..]);
      assert forall q | q in qs[1..] :: q in qs;
      (if qs[0].id.Some? then [qs[0].id.value] else []) + rest
  }

  /** `toDeleteIds`: the original ids, in order, that no edited entry carries any more. */
  function ToDelete(originalIds: seq<Id>, qs: seq<Question>): seq<Id> {
    var current := CurrentIds(qs);
    Filter(originalIds, (x: Id) => x !in current)
  }

  /** An entry is kept for writing when its text does not trim to empty. */
  predicate NonBlank(q: Question) {
    Trim(q.text) != ""
  }

  /** `cleanedQuestions`: the entries whose text does not trim to empty. */
  function Cleaned(qs: seq<Question>): seq<Question> {
    Filter(qs, NonBlank)
  }

  /** The duplicate-detection key `${text.trim()}::${type}`. */
  function Key(q: Question): string {
    Trim(q.text) + "::" + TypeName(q.qtype)
  }

  /** The types whose options are saved; any other type is saved with null options. */
  predicate KeepsOptions(t: QType) {
    t.MultipleChoice? || t.MultipleAnswer? || t.Matching? || t.TrueFalse?
  }

  /** The payload built for entry `q` at position `order` of the cleaned list. */
  function WriteFor(q: Question, order: nat, quizId: Id): QuestionWrite {
    QuestionWrite(q.id, quizId, q.text, q.qtype,
                  if KeepsOptions(q.qtype) then Some(q.options) else None,
                  q.correctAnswer, order)
  }

  /** The keys of a list of entries: the `seen` set after walking it. */
  function KeysOf(cs: seq<Question>): set<string> {
    set q | q in cs :: Key(q)
  }

  /** Entry `i` is skipped: it is new and an earlier entry already had its key. */
  predicate Skipped(cs: seq<Question>, i: nat)
    requires i < |cs|
  {
    cs[i].id.None? && Key(cs[i]) in KeysOf(cs[..i])
  }

  /** The payloads the walk over `cs` produces, in walk order (updates and inserts together). */
  function Emit(cs: seq<Question>, quizId: Id): seq<QuestionWrite>
    decreases |cs|
  {
    if cs == [] then []
    else
      var n := |cs| - 1;
      Emit(cs[..n], quizId) + (if Skipped(cs, n) then [] else [WriteFor(cs[n], n, quizId)])
  }

  predicate IsUpdate(w: QuestionWrite) { w.id.Some? }

  predicate IsInsert(w: QuestionWrite) { w.id.None? }

  /** `questionsToUpdate`: the payloads that carry an id. */
  function Updates(ws: seq<QuestionWrite>): seq<QuestionWrite> {
    Filter(ws, IsUpdate)
  }

  /** `questionsToInsert`: the payloads without an id. */
  function Inserts(ws: seq<QuestionWrite>): seq<QuestionWrite> {
    Filter(ws, IsInsert)
  }

  /**
   * The reconcile step of the save handler: the delete list, then a walk
   * over the cleaned entries with a `seen` set that routes each kept entry
   * to the update list (it has an id) or the insert list (it has none).
   */
  method PlanSave(originalIds: seq<Id>, questions: seq<Question>, quizId: Id)
    returns (toDelete: seq<Id>, toUpdate: seq<QuestionWrite>, toInsert: seq<QuestionWrite>)
    ensures toDelete == ToDelete(originalIds, questions)
    ensures toUpdate == Updates(Emit(Cleaned(questions), quizId))
    ensures toInsert == Inserts(Emit(Cleaned(questions), quizId))
  {
    toDelete := ToDelete(originalIds, questions);
    var cleaned := Cleaned(questions);
    var seen: set<string> := {};
    toUpdate, toInsert := [], [];
    var idx := 0;
    assert KeysOf(cleaned[..0]) == {};
    while idx < |cleaned|
      invariant 0 <= idx <= |cleaned|
      invariant seen == KeysOf(cleaned[..idx])
      invariant toUpdate == Updates(Emit(cleaned[..idx], quizId))
      invariant toInsert == Inserts(Emit(cleaned[..idx], quizId))
    {
      var q := cleaned[idx];
      var key := Key(q);
      RouteStep(cleaned, idx, quizId);
      ghost var next := cleaned[..idx + 1];
      if !(key in seen && q.id.None?) {
        seen := seen + {key};
        var item := WriteFor(q, idx, quizId);
        if q.id.Some? {
          toUpdate := toUpdate + [item];
        } else {
          toInsert := toInsert + [item];
        }
      } else {
        AddPresent(seen, key);
      }
      assert seen == KeysOf(next);
      assert toUpdate == Updates(Emit(next, quizId));
      assert toInsert == Inserts(Emit(next, quizId));
      idx := idx + 1;
      assert next == cleaned[..idx];
    }
    assert cleaned[..idx] == cleaned;
  }

  /** Adding a key already present leaves a set as it was. */
  lemma AddPresent(s: set<string>, k: string)
    requires k in s
    ensures s + {k} == s
  {
  }

  /** The keys of a list grow by the key of each appended entry. */
  lemma KeysOfAppend(prefix: seq<Question>, q: Question)
    ensures KeysOf(prefix + [q]) == KeysOf(prefix) + {Key(q)}
  {
    var next := prefix + [q];
    forall k | k in KeysOf(next) ensures k in KeysOf(prefix) + {Key(q)} {
      var e :| e in next && Key(e) == k;
      if e != q { assert e in prefix; }
    }
    forall k | k in KeysOf(prefix) ensures k in KeysOf(next) {
      var e :| e in prefix && Key(e) == k;
      assert e in next;
    }
    assert q in next;
  }

  /** One step of the walk: how `seen` and the payload list grow at entry `idx`. */
  lemma WalkStep(cs: seq<Question>, idx: nat, quizId: Id)
    requires idx < |cs|
    ensures KeysOf(cs[..idx + 1]) == KeysOf(cs[..idx]) + {Key(cs[idx])}
    ensures Skipped(cs[..idx + 1], idx) <==> Key(cs[idx]) in KeysOf(cs[..idx]) && cs[idx].id.None?
    ensures Emit(cs[..idx + 1], quizId) == Emit(cs[..idx], quizId)
              + if Skipped(cs[..idx + 1], idx) then [] else [WriteFor(cs[idx], idx, quizId)]
  {
    var prefix, next := cs[..idx], cs[..idx + 1];
    assert next[..idx] == prefix && next[idx] == cs[idx] && next == prefix + [cs[idx]];
    KeysOfAppend(prefix, cs[idx]);
  }

  /**
   * One step of the walk as the two batches see it: a skipped entry adds
   * nothing, a kept entry with an id joins the updates, a kept new entry
   * joins the inserts.
   */
  lemma RouteStep(cs: seq<Question>, idx: nat, quizId: Id)
    requires idx < |cs|
    ensures KeysOf(cs[..idx + 1]) == KeysOf(cs[..idx]) + {Key(cs[idx])}
    ensures Key(cs[idx]) in KeysOf(cs[..idx]) && cs[idx].id.None? ==>
              && Updates(Emit(cs[..idx + 1], quizId)) == Updates(Emit(cs[..idx], quizId))
              && Inserts(Emit(cs[..idx + 1], quizId)) == Inserts(Emit(cs[..idx], quizId))
    ensures cs[idx].id.Some? ==>
              && Updates(Emit(cs[..idx + 1], quizId)) == Updates(Emit(cs[..idx], quizId)) + [WriteFor(cs[idx], idx, quizId)]
              && Inserts(Emit(cs[..idx + 1], quizId)) == Inserts(Emit(cs[..idx], quizId))
    ensures Key(cs[idx]) !in KeysOf(cs[..idx]) && cs[idx].id.None? ==>
              && Updates(Emit(cs[..idx + 1], quizId)) == Updates(Emit(cs[..idx], quizId))
              && Inserts(Emit(cs[..idx + 1], quizId)) == Inserts(Emit(cs[..idx], quizId)) + [WriteFor(cs[idx], idx, quizId)]
  {
    WalkStep(cs, idx, quizId);
    var e := Emit(cs[..idx], quizId);
    var w := WriteFor(cs[idx], idx, quizId);
    var tail := if Skipped(cs[..idx + 1], idx) then [] else [w];
    FilterAppend(e, tail, IsUpdate);
    FilterAppend(e, tail, IsInsert);
    FilterSingleton(w, IsUpdate);
    FilterSingleton(w, IsInsert);
    assert Filter([], IsUpdate) == [] && Filter([], IsInsert) == [];
  }

  /** A store call of the save, issued in the order delete, update, insert. */
  datatype StoreRequest =
    | DeleteQuestions(ids: seq<Id>)
    | UpsertQuestions(rows: seq<QuestionWrite>)
    | InsertQuestions(rows: seq<QuestionWrite>)

  /** The store calls a save issues; an empty batch is not sent. */
  function SaveRequests(toDelete: seq<Id>, toUpdate: seq<QuestionWrite>, toInsert: seq<QuestionWrite>)
    : (rs: seq<StoreRequest>)
    ensures |rs| <= 3
    ensures DeleteQuestions(toDelete) in rs <==> toDelete != []
    ensures UpsertQuestions(toUpdate) in rs <==> toUpdate != []
    ensures InsertQuestions(toInsert) in rs <==> toInsert != []
    ensures forall k | 0 <= k < |rs| :: match rs[k]
      case DeleteQuestions(ids) => ids == toDelete && ids != [] && k == 0
      case UpsertQuestions(ws) => ws == toUpdate && ws != [] && (forall j | k < j < |rs| :: rs[j].InsertQuestions?)
      case InsertQuestions(ws) => ws == toInsert && ws != [] && k == |rs| - 1
  {
    (if toDelete != [] then [DeleteQuestions(toDelete)] else [])
    + (if toUpdate != [] then [UpsertQuestions(toUpdate)] else [])
    + (if toInsert != [] then [InsertQuestions(toInsert)] else [])
  }

  /** The delete list is exactly the original ids that no edited entry carries. */
  lemma ToDeleteExact(originalIds: seq<Id>, qs: seq<Question>)
    ensures forall x | x in ToDelete(originalIds, qs) :: x in originalIds && forall q | q in qs :: q.id != Some(x)
    ensures forall x | x in originalIds && (forall q | q in qs :: q.id != Some(x)) :: x in ToDelete(originalIds, qs)
  {
  }

  /** While every original id is still carried by an entry, nothing is deleted. */
  lemma {:induction false} NothingDeletedWhileAllCarried(originalIds: seq<Id>, qs: seq<Question>)
    requires forall x | x in originalIds :: x in CurrentIds(qs)
    ensures ToDelete(originalIds, qs) == []
    decreases |originalIds|
  {
    if originalIds != [] {
      NothingDeletedWhileAllCarried(originalIds[1..], qs);
    }
  }

  /** Entries that all carry an id are all written back as updates, in place. */
  lemma PersistedAreUpdated(qs: seq<Question>, quizId: Id)
    requires forall i | 0 <= i < |qs| :: qs[i].id.Some?
    ensures var cs := Cleaned(qs);
            var ws := Emit(cs, quizId);
            && |ws| == |cs|
            && Inserts(ws) == []
            && Updates(ws) == ws
            && forall k | 0 <= k < |ws| :: ws[k].id == cs[k].id && ws[k].order == k
  {
    var cs := Cleaned(qs);
    CleanedKeepsIds(qs);
    DenseWhenNothingSkipped(cs, quizId);
    EmitCarriesIds(cs, quizId);
    var ws := Emit(cs, quizId);
    FilterNone(ws, IsInsert);
    FilterAll(ws, IsUpdate);
  }

  /** When every entry carries an id, so does every kept entry, and none is skipped. */
  lemma CleanedKeepsIds(qs: seq<Question>)
    requires forall i | 0 <= i < |qs| :: qs[i].id.Some?
    ensures forall i | 0 <= i < |Cleaned(qs)| :: Cleaned(qs)[i].id.Some? && !Skipped(Cleaned(qs), i)
  {
    var cs := Cleaned(qs);
    forall i | 0 <= i < |cs| ensures cs[i].id.Some? {
      assert cs[i] in cs;
    }
  }

  /** Each payload carries the id of the entry it was made from. */
  lemma EmitCarriesIds(cs: seq<Question>, quizId: Id)
    ensures forall k | 0 <= k < |Emit(cs, quizId)| ::
              Emit(cs, quizId)[k].order < |cs| && Emit(cs, quizId)[k].id == cs[Emit(cs, quizId)[k].order].id
  {
    EmitShape(cs, quizId);
  }

  /** Removing a persisted entry from the buffer schedules its id for deletion. */
  lemma RemovedEntryIsDeleted(originalIds: seq<Id>, qs: seq<Question>, i: nat)
    requires i < |qs| && qs[i].id.Some? && qs[i].id.value in originalIds
    requires forall k | 0 <= k < |qs| && k != i :: qs[k].id != qs[i].id
    ensures qs[i].id.value in ToDelete(originalIds, RemoveAt(qs, i))
  {
    var rest := RemoveAt(qs, i);
    forall q | q in rest ensures q.id != qs[i].id {
      var k :| 0 <= k < |rest| && rest[k] == q;
    }
    ToDeleteExact(originalIds, rest);
  }

  /** An entry emitted by the walk: a kept, not skipped entry at its cleaned-list index. */
  predicate EmittedFrom(cs: seq<Question>, quizId: Id, w: QuestionWrite) {
    w.order < |cs| && !Skipped(cs, w.order) && w == WriteFor(cs[w.order], w.order, quizId)
  }

  /** Skipping is decided by the entries before the index, so a longer list agrees. */
  lemma SkippedInPrefix(cs: seq<Question>, n: nat, i: nat)
    requires i < n <= |cs|
    ensures cs[..n][i] == cs[i] && (Skipped(cs[..n], i) <==> Skipped(cs, i))
  {
    assert cs[..n][..i] == cs[..i];
  }

  /**
   * Every payload comes from a non-skipped entry and carries that entry's
   * index as `order`; orders strictly increase along the walk.
   */
  lemma {:induction false} EmitShape(cs: seq<Question>, quizId: Id)
    ensures forall k | 0 <= k < |Emit(cs, quizId)| :: EmittedFrom(cs, quizId, Emit(cs, quizId)[k])
    ensures forall k, l | 0 <= k < l < |Emit(cs, quizId)| ::
              Emit(cs, quizId)[k].order < Emit(cs, quizId)[l].order
    decreases |cs|
  {
    if cs != [] {
      var n := |cs| - 1;
      var init := cs[..n];
      EmitShape(init, quizId);
      var e' := Emit(init, quizId);
      var e := Emit(cs, quizId);
      assert e == e' + (if Skipped(cs, n) then [] else [WriteFor(cs[n], n, quizId)]);
      forall k | 0 <= k < |e'| ensures EmittedFrom(cs, quizId, e'[k]) && e'[k].order < n {
        SkippedInPrefix(cs, n, e'[k].order);
      }
    }
  }

  /** Every entry that is not skipped is emitted, at its own index. */
  lemma {:induction false} EmitComplete(cs: seq<Question>, quizId: Id, i: nat)
    requires i < |cs| && !Skipped(cs, i)
    ensures WriteFor(cs[i], i, quizId) in Emit(cs, quizId)
    decreases |cs|
  {
    var n := |cs| - 1;
    if i < n {
      SkippedInPrefix(cs, n, i);
      EmitComplete(cs[..n], quizId, i);
    }
  }

  /** The payload for entry `i` is produced exactly when entry `i` is not skipped. */
  lemma EmittedIff(cs: seq<Question>, quizId: Id, i: nat)
    requires i < |cs|
    ensures WriteFor(cs[i], i, quizId) in Emit(cs, quizId) <==> !Skipped(cs, i)
  {
    if !Skipped(cs, i) {
      EmitComplete(cs, quizId, i);
    } else {
      EmitShape(cs, quizId);
    }
  }

  /** An entry with an id is never skipped; a new entry repeating an earlier key always is. */
  lemma SkipRule(cs: seq<Question>, i: nat, j: nat)
    requires i < j < |cs| && Key(cs[i]) == Key(cs[j])
    ensures cs[j].id.Some? ==> !Skipped(cs, j)
    ensures cs[j].id.None? ==> Skipped(cs, j)
  {
    assert cs[..j][i] == cs[i];
  }

  /** With no entry skipped, orders are dense: payload k carries order k. */
  lemma {:induction false} DenseWhenNothingSkipped(cs: seq<Question>, quizId: Id)
    requires forall i | 0 <= i < |cs| :: !Skipped(cs, i)
    ensures |Emit(cs, quizId)| == |cs|
    ensures forall k | 0 <= k < |cs| :: Emit(cs, quizId)[k].order == k
    decreases |cs|
  {
    if cs != [] {
      var n := |cs| - 1;
      forall i | 0 <= i < n ensures !Skipped(cs[..n], i) {
        SkippedInPrefix(cs, n, i);
      }
      DenseWhenNothingSkipped(cs[..n], quizId);
    }
  }

  /** Each payload gets the saved quiz id, and only `text` questions lose their options. */
  lemma PayloadFields(cs: seq<Question>, quizId: Id)
    ensures forall w | w in Emit(cs, quizId) ::
              w.quizId == quizId && (w.options.None? <==> w.qtype == Text)
    ensures forall w | w in Emit(cs, quizId) ::
              w.order < |cs| && (w.options.Some? ==> w.options.value == cs[w.order].options)
  {
    EmitShape(cs, quizId);
  }

  /**
   * Update payloads all carry an id and insert payloads none, so the two
   * lists are disjoint, and together they hold at most one payload per
   * kept entry.
   */
  lemma UpdatesAndInsertsPartition(cs: seq<Question>, quizId: Id)
    ensures forall w | w in Updates(Emit(cs, quizId)) :: w.id.Some?
    ensures forall w | w in Inserts(Emit(cs, quizId)) :: w.id.None?
    ensures forall w | w in Updates(Emit(cs, quizId)) :: w !in Inserts(Emit(cs, quizId))
    ensures |Updates(Emit(cs, quizId))| + |Inserts(Emit(cs, quizId))| == |Emit(cs, quizId)| <= |cs|
  {
    var e := Emit(cs, quizId);
    FilterComplementLength(e, IsUpdate, IsInsert);
    EmitShape(cs, quizId);
    PositionsIncreasing(cs, (q: Question) => true);
    EmitLength(cs, quizId);
  }

  lemma {:induction false} EmitLength(cs: seq<Question>, quizId: Id)
    ensures |Emit(cs, quizId)| <= |cs|
    decreases |cs|
  {
    if cs != [] {
      EmitLength(cs[..|cs| - 1], quizId);
    }
  }

  /** Two payloads with the same trimmed text and the same type. */
  predicate SameQuestion(a: QuestionWrite, b: QuestionWrite) {
    Trim(a.text) == Trim(b.text) && a.qtype == b.qtype
  }

  /** No two inserted questions share both their trimmed text and their type. */
  lemma {:induction false} InsertsAreDistinct(cs: seq<Question>, quizId: Id)
    ensures forall a, b | 0 <= a < b < |Inserts(Emit(cs, quizId))| ::
              !SameQuestion(Inserts(Emit(cs, quizId))[a], Inserts(Emit(cs, quizId))[b])
    decreases |cs|
  {
    if cs != [] {
      var n := |cs| - 1;
      var init := cs[..n];
      InsertsAreDistinct(init, quizId);
      var e' := Emit(init, quizId);
      var wn := WriteFor(cs[n], n, quizId);
      var tail := if Skipped(cs, n) then [] else [wn];
      assert Emit(cs, quizId) == e' + tail;
      FilterAppend(e', tail, IsInsert);
      var ins' := Inserts(e');
      if tail != [] {
        FilterSingleton(wn, IsInsert);
      }
      if tail != [] && IsInsert(wn) {
        var ins := ins' + [wn];
        assert Inserts(Emit(cs, quizId)) == ins;
        EmitShape(init, quizId);
        forall a | 0 <= a < |ins'| ensures !SameQuestion(ins'[a], wn) {
          var w := ins'[a];
          assert w in e';
          assert EmittedFrom(init, quizId, w);
          assert init[w.order] in init;
          assert Key(init[w.order]) in KeysOf(init);
        }
        forall a, b | 0 <= a < b < |ins| ensures !SameQuestion(ins[a], ins[b]) {
          if b == |ins'| {
            assert ins[b] == wn && ins[a] == ins'[a];
          } else {
            assert ins[a] == ins'[a] && ins[b] == ins'[b];
          }
        }
      } else {
        assert Inserts(Emit(cs, quizId)) == ins';
      }
    }
  }

  /** A blanked persisted entry is neither deleted nor written. */
  lemma BlankedPersistedIsUntouched(originalIds: seq<Id>, qs: seq<Question>, quizId: Id, i: nat)
    requires i < |qs| && qs[i].id.Some? && !NonBlank(qs[i])
    requires forall k | 0 <= k < |qs| && k != i :: qs[k].id != qs[i].id
    ensures qs[i].id.value !in ToDelete(originalIds, qs)
    ensures forall w | w in Emit(Cleaned(qs), quizId) :: w.id != qs[i].id
  {
    ToDeleteExact(originalIds, qs);
    var cs := Cleaned(qs);
    EmitShape(cs, quizId);
    forall w | w in Emit(cs, quizId) ensures w.id != qs[i].id {
      assert cs[w.order] in qs && NonBlank(cs[w.order]);
    }
  }

  /** No id is both deleted and updated by the same save. */
  lemma DeletesAndUpdatesDisjoint(originalIds: seq<Id>, qs: seq<Question>, quizId: Id)
    ensures forall w | w in Updates(Emit(Cleaned(qs), quizId)) ::
              w.id.Some? && w.id.value !in ToDelete(originalIds, qs)
  {
    ToDeleteExact(originalIds, qs);
    var cs := Cleaned(qs);
    EmitShape(cs, quizId);
    forall w | w in Updates(Emit(cs, quizId))
      ensures w.id.Some? && w.id.value !in ToDelete(originalIds, qs)
    {
      assert w in Emit(cs, quizId);
      assert cs[w.order] in qs;
    }
  }
}
