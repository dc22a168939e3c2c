/**
 * The searchable dropdown: options are plain strings or records with a
 * label and a value; the open list is filtered by a case-insensitive search
 * on labels, and the button shows the label of the first option whose value
 * is the current value.
 */
module SearchableDropdown {
  import opened Wrappers
  import opened Text
  import opened Seqs

  /** A string option, or a record read through `labelField` and `valueField`. */
  datatype Choice = Plain(text: string) | Record(caption: string, value: string)

  /** The text an option shows; a string option shows itself. */
  function Label(c: Choice): (l: string)
    ensures c.Plain? ==> l == c.text
  {
    match c
    case Plain(s) => s
    case Record(l, _) => l
  }

  /** The value an option stands for; a string option stands for itself. */
  function Value(c: Choice): (v: string)
    ensures c.Plain? ==> v == c.text
  {
    match c
    case Plain(s) => s
    case Record(_, v) => v
  }

  /** Keeps the options whose label contains `search`, ignoring case. */
  function LabelMatches(search: string): Choice -> bool {
    c => ContainsIgnoringCase(Label(c), search)
  }

  /** `filteredOptions`. */
  function FilteredOptions(options: seq<Choice>, search: string): seq<Choice> {
    Filter(options, LabelMatches(search))
  }

  /** The open list shows exactly the options whose label matches, in their order. */
  lemma FilteredOptionsSpec(options: seq<Choice>, search: string)
    ensures SelectsInOrder(FilteredOptions(options, search), options, LabelMatches(search),
                           Positions(options, LabelMatches(search)))
    ensures forall c | c in FilteredOptions(options, search) :: c in options && ContainsIgnoringCase(Label(c), search)
  {
    FilterSelectsInOrder(options, LabelMatches(search));
  }

  /** An empty search shows every option. */
  lemma EmptySearchShowsAll(options: seq<Choice>)
    ensures FilteredOptions(options, "") == options
  {
    forall c | c in options ensures LabelMatches("")(c) {
      ContainsEmpty(Lower(Label(c)));
      assert Lower("") == "";
    }
    FilterAll(options, LabelMatches(""));
  }

  /** The index `options.find` stops at: the first option whose value is `value`. */
  function FindValue(options: seq<Choice>, value: string): (r: Option<nat>)
    ensures r.None? <==> forall i | 0 <= i < |options| :: Value(options[i]) != value
    ensures r.Some? ==> r.value < |options| && Value(options[r.value]) == value
    ensures r.Some? ==> forall j | 0 <= j < r.value :: Value(options[j]) != value
    decreases |options|
  {
    if options == [] then None
    else if Value(options[0]) == value then Some(0)
    else
      match FindValue(options[1..], value)
      case None => None
      case Some(i) => Some(i + 1)
  }

  /** The search stops at the first option with the value. */
  lemma FindValueFindsFirst(options: seq<Choice>, value: string)
    ensures forall i | 0 <= i < |options| && Value(options[i]) == value &&
                       (forall j | 0 <= j < i :: Value(options[j]) != value) ::
              FindValue(options, value) == Some(i)
  {
  }

  /** `selectedOption`. */
  function SelectedOption(options: seq<Choice>, value: string): Option<Choice> {
    match FindValue(options, value)
    case None => None
    case Some(i) => Some(options[i])
  }

  /**
   * `displayLabel`: the selected option's label, or the placeholder when
   * nothing is selected; a selected empty string option is falsy and also
   * shows the placeholder.
   */
  function DisplayLabel(options: seq<Choice>, value: string, placeholder: string): (r: string)
    // no option has the value: the placeholder
    ensures (forall i | 0 <= i < |options| :: Value(options[i]) != value) ==> r == placeholder
    // otherwise the first option with the value decides
    ensures forall i | 0 <= i < |options| && Value(options[i]) == value &&
                       (forall j | 0 <= j < i :: Value(options[j]) != value) ::
              r == if options[i] == Plain("") then placeholder else Label(options[i])
  {
    FindValueFindsFirst(options, value);
    match SelectedOption(options, value)
    case None => placeholder
    case Some(c) => if c == Plain("") then placeholder else Label(c)
  }

  predicate DistinctValues(options: seq<Choice>) {
    forall i, j | 0 <= i < j < |options| :: Value(options[i]) != Value(options[j])
  }

  /** With distinct values, picking an option makes the button show that option's label. */
  lemma SelectedShowsItsLabel(options: seq<Choice>, i: nat, placeholder: string)
    requires DistinctValues(options) && i < |options| && options[i] != Plain("")
    ensures DisplayLabel(options, Value(options[i]), placeholder) == Label(options[i])
  {
    var r := FindValue(options, Value(options[i]));
    assert r.Some?;
    assert r.value == i;
  }

  /** The open/closed state and the search text of one dropdown. */
  class Dropdown {
    var isOpen: bool
    var search: string

    constructor ()
      ensures !isOpen && search == ""
    {
      isOpen := false;
      search := "";
    }

    /** The button flips the list open or closed. */
    method Toggle()
      modifies this`isOpen
      ensures isOpen == !old(isOpen)
    {
      isOpen := !isOpen;
    }

    /** A press outside the dropdown closes it. */
    method ClickOutside()
      modifies this`isOpen
      ensures !isOpen
    {
      isOpen := false;
    }

    /** Typing into the search box. */
    method SetSearch(s: string)
      modifies this`search
      ensures search == s
    {
      search := s;
    }

    /** The clear button empties the search. */
    method ClearSearch()
      modifies this`search
      ensures search == ""
    {
      search := "";
    }

    /** `handleSelect`: emits the option's value, closes the list and clears the search. */
    method Select(option: Choice) returns (emitted: string)
      modifies this
      ensures emitted == Value(option)
      ensures !isOpen && search == ""
    {
      emitted := Value(option);
      isOpen := false;
      search := "";
    }
  }
}
