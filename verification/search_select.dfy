/** The single-value searchable dropdown (`search-select.ts`): one selected
    value, a search box that filters the options by label, and open/close
    handling that clears the search on every close. */
module SearchSelect {
  import opened Wrappers
  import Seqs
  import Text
  import LabelFilter

  /** An entry of the list (`SelectOption` in the source). */
  datatype Item = Item(value: string, caption: string)

  /** The form callbacks and the `valueChange` output. */
  datatype Event = FormChanged(value: string) | ValueChanged(value: string) | Touched

  datatype Widget = Widget(
    options: seq<Item>,
    isOpen: bool,
    searchTerm: string,
    selectedValue: string)

  datatype Step = Step(widget: Widget, events: seq<Event>)

  function Initial(options: seq<Item>): Widget
  {
    Widget(options, false, "", "")
  }

  function LabelMatcher(term: string): Item -> bool
  {
    (o: Item) => LabelFilter.LabelMatches(o.caption, term)
  }

  /** `filteredOptions`: all options for a blank term, otherwise those whose
      lower-cased label contains the trimmed, lower-cased term, in option order. */
  function FilteredOptions(w: Widget): (r: seq<Item>)
    ensures Text.AllWhitespace(w.searchTerm) ==> r == w.options
    ensures !Text.AllWhitespace(w.searchTerm) ==>
              forall o :: o in r <==> o in w.options && LabelFilter.LabelMatches(o.caption, LabelFilter.Normalize(w.searchTerm))
    ensures |r| <= |w.options|
  {
    LabelFilter.NormalizeEmptyIffBlank(w.searchTerm);
    var term := LabelFilter.Normalize(w.searchTerm);
    if term == "" then w.options else Seqs.Filter(w.options, LabelMatcher(term))
  }

  /** The search keeps option order and every copy of a repeated option: the
      result splits over a concatenation of option lists, and a single option
      is kept exactly when the term is blank or its label matches. */
  lemma FilteredKeepsOrder(w: Widget, xs: seq<Item>, ys: seq<Item>, o: Item)
    ensures FilteredOptions(w.(options := xs + ys))
            == FilteredOptions(w.(options := xs)) + FilteredOptions(w.(options := ys))
    ensures FilteredOptions(w.(options := [o]))
            == if Text.AllWhitespace(w.searchTerm) || LabelFilter.LabelMatches(o.caption, LabelFilter.Normalize(w.searchTerm))
               then [o] else []
  {
    LabelFilter.NormalizeEmptyIffBlank(w.searchTerm);
    var term := LabelFilter.Normalize(w.searchTerm);
    if term != "" {
      Seqs.FilterAppend(xs, ys, LabelMatcher(term));
      Seqs.FilterSingle(o, LabelMatcher(term));
    }
  }

  /** Index of the first option holding `value`, as `Array.prototype.find` scans. */
  function FindIndex(options: seq<Item>, value: string): (r: Option<nat>)
    ensures r.Some? ==> r.value < |options| && options[r.value].value == value
                        && forall k :: 0 <= k < r.value ==> options[k].value != value
    ensures r.None? ==> forall k :: 0 <= k < |options| ==> options[k].value != value
    decreases |options|
  {
    if options == [] then None
    else if options[0].value == value then Some(0)
    else match FindIndex(options[1..], value)
      case None => None
      case Some(k) => Some(k + 1)
  }

  /** `selectedLabel`: empty when nothing is selected or no option carries the
      value; otherwise the label of the first option that does. */
  function SelectedLabel(w: Widget): (r: string)
    ensures w.selectedValue == "" ==> r == ""
    ensures (forall k :: 0 <= k < |w.options| ==> w.options[k].value != w.selectedValue) ==> r == ""
    ensures w.selectedValue != "" && r != "" ==>
              exists k :: 0 <= k < |w.options| && w.options[k].value == w.selectedValue && w.options[k].caption == r
    ensures forall k :: 0 <= k < |w.options| && w.options[k].value == w.selectedValue && w.selectedValue != ""
              && (forall j :: 0 <= j < k ==> w.options[j].value != w.selectedValue)
              ==> r == w.options[k].caption
  {
    if w.selectedValue == "" then ""
    else match FindIndex(w.options, w.selectedValue)
      case Some(k) => w.options[k].caption
      case None => ""
  }

  /** `writeValue`: a missing or empty value stores the empty string. */
  function WriteValue(w: Widget, value: Option<string>): (r: Widget)
    ensures value.None? ==> r.selectedValue == ""
    ensures value.Some? ==> r.selectedValue == value.value
    ensures r == w.(selectedValue := r.selectedValue)
  {
    w.(selectedValue := value.GetOr(""))
  }

  /** `toggleDropdown`: flips the dropdown; when that closes it, the search is
      cleared and the control marked touched. */
  function ToggleDropdown(w: Widget): (r: Step)
    ensures r.widget.isOpen == !w.isOpen
    ensures !w.isOpen ==> r == Step(w.(isOpen := true), [])
    ensures w.isOpen ==> r == Step(w.(isOpen := false, searchTerm := ""), [Touched])
  {
    var flipped := w.(isOpen := !w.isOpen);
    if !flipped.isOpen then Step(flipped.(searchTerm := ""), [Touched]) else Step(flipped, [])
  }

  /** `closeDropdown`: nothing happens when already closed. */
  function CloseDropdown(w: Widget): (r: Step)
    ensures !w.isOpen ==> r == Step(w, [])
    ensures w.isOpen ==> r == Step(w.(isOpen := false, searchTerm := ""), [Touched])
  {
    if w.isOpen then Step(w.(isOpen := false, searchTerm := ""), [Touched]) else Step(w, [])
  }

  /** The document click and touch listeners: outside an open widget, close it. */
  function ClickOrTouchOutside(w: Widget, inside: bool): (r: Step)
    ensures inside ==> r == Step(w, [])
    ensures !inside ==> r == CloseDropdown(w)
  {
    if !inside && w.isOpen then CloseDropdown(w) else Step(w, [])
  }

  /** `onSearchInput` */
  function OnSearchInput(w: Widget, text: string): (r: Widget)
    ensures r.searchTerm == text
    ensures r == w.(searchTerm := r.searchTerm)
  {
    w.(searchTerm := text)
  }

  /** `selectOption`: store the value, report it to the form and to listeners,
      then close the dropdown (which clears the search only if it was open). */
  function SelectOption(w: Widget, o: Item): (r: Step)
    ensures r.widget.selectedValue == o.value && !r.widget.isOpen
    ensures r.widget.options == w.options
    ensures w.isOpen ==> r.widget.searchTerm == "" && r.events == [FormChanged(o.value), ValueChanged(o.value), Touched]
    ensures !w.isOpen ==> r.widget.searchTerm == w.searchTerm && r.events == [FormChanged(o.value), ValueChanged(o.value)]
  {
    var chosen := w.(selectedValue := o.value);
    var closed := CloseDropdown(chosen);
    Step(closed.widget, [FormChanged(o.value), ValueChanged(o.value)] + closed.events)
  }

  /** After choosing an option from the list, the widget shows that option's
      label, provided no earlier option carries the same non-empty value. */
  lemma SelectThenLabel(w: Widget, k: nat)
    requires k < |w.options| && w.options[k].value != ""
    requires forall j :: 0 <= j < k ==> w.options[j].value != w.options[k].value
    ensures SelectedLabel(SelectOption(w, w.options[k]).widget) == w.options[k].caption
  {
  }

  /** Closing is idempotent: a second close changes nothing and reports nothing. */
  lemma CloseIdempotent(w: Widget)
    ensures CloseDropdown(CloseDropdown(w).widget) == Step(CloseDropdown(w).widget, [])
  {
  }
}
