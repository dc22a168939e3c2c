/**
 * The AI question importer dialog: its pasted text, parse result and
 * error state, the review list with per-item delete, and the true/false
 * defaulting applied when the reviewed records are imported.
 */
module AIPasteModal {
  import opened Wrappers
  import opened Text
  import opened Seqs
  import opened QuizData
  import Reconcile

  /** One record the parser extracted; its options may be missing. */
  datatype Imported = Imported(text: string, qtype: QType, options: Option<seq<string>>, correctAnswer: string)

  /** A true/false record whose options are missing or empty. */
  predicate NeedsDefaultChoices(q: Imported) {
    q.qtype == TrueFalse && (q.options.None? || q.options.value == [])
  }

  /** One record as imported: a true/false record without choices gets the Arabic labels. */
  function Finalize(q: Imported): Imported {
    if NeedsDefaultChoices(q) then q.(options := Some(ArabicTrueFalse)) else q
  }

  /**
   * The records `handleConfirmImport` passes on, one per reviewed record, in
   * order: a true/false record without choices gets exactly the Arabic
   * labels and every other record passes through unchanged, so afterwards
   * every true/false record has choices to click.
   */
  function FinalizeImport(items: seq<Imported>): (r: seq<Imported>)
    ensures |r| == |items|
    ensures forall i | 0 <= i < |items| && !NeedsDefaultChoices(items[i]) :: r[i] == items[i]
    ensures forall i | 0 <= i < |items| && NeedsDefaultChoices(items[i]) ::
              r[i] == items[i].(options := Some(ArabicTrueFalse))
    ensures forall i | 0 <= i < |r| && r[i].qtype == TrueFalse :: r[i].options.Some? && r[i].options.value != []
    ensures forall i | 0 <= i < |r| :: !NeedsDefaultChoices(r[i])
  {
    seq(|items|, i requires 0 <= i < |items| => Finalize(items[i]))
  }

  /** Importing twice adds nothing. */
  lemma FinalizeImportIdempotent(items: seq<Imported>)
    ensures FinalizeImport(FinalizeImport(items)) == FinalizeImport(items)
  {
  }

  /** Deleting a reviewed record before the import is deleting it after. */
  lemma FinalizeCommutesWithDelete(items: seq<Imported>, index: nat)
    ensures FinalizeImport(RemoveAt(items, index)) == RemoveAt(FinalizeImport(items), index)
  {
  }

  /** An imported record as a new, unsaved editor entry. */
  function AsEntry(q: Imported): (e: Question)
    ensures e.id.None?
  {
    Question(None, q.text, q.qtype, q.options.GetOr([]), q.correctAnswer)
  }

  /** The imported records as editor entries, all of them new. */
  function AsEntries(items: seq<Imported>): (es: seq<Question>)
    ensures forall i | 0 <= i < |es| :: es[i].id.None?
  {
    seq(|items|, i requires 0 <= i < |items| => AsEntry(items[i]))
  }

  lemma {:induction false} CurrentIdsSkipsNew(qs: seq<Question>, es: seq<Question>)
    requires forall i | 0 <= i < |es| :: es[i].id.None?
    ensures Reconcile.CurrentIds(qs + es) == Reconcile.CurrentIds(qs)
    decreases |qs|
  {
    if qs == [] {
      NoCurrentIds(es);
      assert qs + es == es;
    } else {
      assert (qs + es)[1..] == qs[1..] + es;
      CurrentIdsSkipsNew(qs[1..], es);
    }
  }

  lemma {:induction false} NoCurrentIds(es: seq<Question>)
    requires forall i | 0 <= i < |es| :: es[i].id.None?
    ensures Reconcile.CurrentIds(es) == []
    decreases |es|
  {
    if es != [] {
      NoCurrentIds(es[1..]);
    }
  }

  /** Imported entries are all new, so appending them never changes what a save deletes. */
  lemma ImportDeletesNothing(originalIds: seq<Id>, qs: seq<Question>, items: seq<Imported>)
    ensures Reconcile.ToDelete(originalIds, qs + AsEntries(FinalizeImport(items))) == Reconcile.ToDelete(originalIds, qs)
  {
    CurrentIdsSkipsNew(qs, AsEntries(FinalizeImport(items)));
  }

  /** The dialog's state. `parsedData` None shows the paste step; Some shows the review. */
  class ImportDialog {
    var rawText: string
    var loading: bool
    var error: Option<string>
    var parsedData: Option<seq<Imported>>

    constructor ()
      ensures rawText == "" && !loading && error.None? && parsedData.None?
    {
      rawText := "";
      loading := false;
      error := None;
      parsedData := None;
    }

    /** Typing into the text area. */
    method SetRawText(t: string)
      modifies this`rawText
      ensures rawText == t
    {
      rawText := t;
    }

    /**
     * `handleProcess` with the parser's `outcome`: nothing happens for blank
     * text; otherwise a success stores the records and a failure stores its
     * message, leaving the text and any earlier records alone, and loading
     * ends.
     */
    method Process(outcome: Result<seq<Imported>>)
      modifies this`loading, this`error, this`parsedData
      ensures Trim(rawText) == "" ==>
                loading == old(loading) && error == old(error) && parsedData == old(parsedData)
      ensures Trim(rawText) != "" ==> !loading
      ensures Trim(rawText) != "" && outcome.Ok? ==> parsedData == Some(outcome.value) && error.None?
      ensures Trim(rawText) != "" && outcome.Err? ==> parsedData == old(parsedData) && error == Some(outcome.message)
    {
      if Trim(rawText) == "" {
        return;
      }
      loading := true;
      error := None;
      match outcome {
        case Ok(items) => parsedData := Some(items);
        case Err(message) => error := Some(message);
      }
      loading := false;
    }

    /** `handleClose`: clears the text, the records and the error. */
    method Close()
      modifies this`rawText, this`parsedData, this`error
      ensures rawText == "" && parsedData.None? && error.None?
    {
      rawText := "";
      parsedData := None;
      error := None;
    }

    /** `handleConfirmImport`: hands on the finalized records, then closes. */
    method ConfirmImport() returns (imported: seq<Imported>)
      requires parsedData.Some?
      modifies this`rawText, this`parsedData, this`error
      ensures imported == FinalizeImport(old(parsedData).value)
      ensures rawText == "" && parsedData.None? && error.None?
    {
      imported := FinalizeImport(parsedData.value);
      Close();
    }

    /** `deleteParsedItem(index)`: drops the record at `index` from the review. */
    method DeleteItem(index: nat)
      requires parsedData.Some?
      modifies this`parsedData
      ensures parsedData == Some(RemoveAt(old(parsedData).value, index))
    {
      parsedData := Some(RemoveAt(parsedData.value, index));
    }

    /** "Back to text": leaves the review and keeps the pasted text. */
    method BackToText()
      modifies this`parsedData
      ensures parsedData.None?
    {
      parsedData := None;
    }
  }
}
