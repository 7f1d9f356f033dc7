/** The tag multi-select widget (`multi-select.ts`): a list of selected values
    kept beside the option list, a search box, an optional selection limit,
    keyboard highlight with wrap-around, and Backspace removal. Every handler
    is a step from one widget state to the next, together with the events it
    emits. */
module MultiSelect {
  import opened Wrappers
  import opened Seqs
  import Text
  import LabelFilter

  /** An option value: `string | number` (numbers are whole here). */
  datatype Value = Str(s: string) | Num(n: int)

  /** `MultiSelectOption`: an absent `disabled` flag reads as false. */
  datatype MultiSelectOption = MultiSelectOption(
    value: Value,
    caption: string,  // `label` in the source
    disabled: bool,
    icon: Option<string>,
    badgeColor: Option<string>)

  /** The keys `onKeyDown` distinguishes; every other key does nothing. */
  datatype Key = ArrowDown | ArrowUp | Enter | Escape | Backspace | OtherKey

  /** What a handler reports: the form callbacks (`onChange`, `onTouched`)
      and the component outputs. */
  datatype Event =
    | FormChanged(values: seq<Value>)
    | SelectionChanged(values: seq<Value>)
    | ItemAdded(option: MultiSelectOption)
    | ItemRemoved(option: MultiSelectOption)
    | Opened
    | Closed
    | Touched

  /** The inputs the handlers read and the widget's signals. */
  datatype Widget = Widget(
    options: seq<MultiSelectOption>,
    maxSelection: int,
    disabled: bool,
    defaultBadgeColor: string,
    isOpen: bool,
    selected: seq<Value>,
    query: string,
    highlighted: int)

  datatype Step = Step(widget: Widget, events: seq<Event>)

  /** A freshly created widget over `options`: closed, nothing selected, no highlight. */
  function Initial(options: seq<MultiSelectOption>, maxSelection: int): Widget
  {
    Widget(options, maxSelection, false, "primary", false, [], "", -1)
  }

  // ---------------------------------------------------------------------------
  // Derived lists
  // ---------------------------------------------------------------------------

  function LabelMatcher(term: string): MultiSelectOption -> bool
  {
    (o: MultiSelectOption) => LabelFilter.LabelMatches(o.caption, term)
  }

  function ValueIn(values: seq<Value>): MultiSelectOption -> bool
  {
    (o: MultiSelectOption) => o.value in values
  }

  function ValueNotIn(values: seq<Value>): MultiSelectOption -> bool
  {
    (o: MultiSelectOption) => o.value !in values
  }

  function Differs(v: Value): Value -> bool
  {
    (x: Value) => x != v
  }

  /** `filteredOptions`: all options for a blank query, otherwise those whose
      lower-cased label contains the trimmed, lower-cased query, in option order. */
  function FilteredOptions(options: seq<MultiSelectOption>, query: string): (r: seq<MultiSelectOption>)
    ensures Text.AllWhitespace(query) ==> r == options
    ensures !Text.AllWhitespace(query) ==>
              forall o :: o in r <==> o in options && LabelFilter.LabelMatches(o.caption, LabelFilter.Normalize(query))
    ensures |r| <= |options|
  {
    LabelFilter.NormalizeEmptyIffBlank(query);
    var term := LabelFilter.Normalize(query);
    if term == "" then options else Filter(options, LabelMatcher(term))
  }

  /** `selectedOptions`: the options whose value is selected, in option order
      (not in the order they were selected). */
  function SelectedOptions(options: seq<MultiSelectOption>, selected: seq<Value>): (r: seq<MultiSelectOption>)
    ensures forall o :: o in r <==> o in options && o.value in selected
  {
    Filter(options, ValueIn(selected))
  }

  /** `availableOptions`: the filtered options whose value is not selected, in option order. */
  function AvailableOptions(w: Widget): (r: seq<MultiSelectOption>)
    ensures forall o :: o in r <==> o in FilteredOptions(w.options, w.query) && o.value !in w.selected
    ensures forall k :: 0 <= k < |r| ==> r[k].value !in w.selected
  {
    Filter(FilteredOptions(w.options, w.query), ValueNotIn(w.selected))
  }

  /** The search keeps option order and every copy of a repeated option: the
      result splits over a concatenation of option lists, and a single option
      is kept exactly when the query is blank or its label matches. */
  lemma FilteredKeepsOrder(xs: seq<MultiSelectOption>, ys: seq<MultiSelectOption>, o: MultiSelectOption, query: string)
    ensures FilteredOptions(xs + ys, query) == FilteredOptions(xs, query) + FilteredOptions(ys, query)
    ensures FilteredOptions([o], query)
            == if Text.AllWhitespace(query) || LabelFilter.LabelMatches(o.caption, LabelFilter.Normalize(query)) then [o] else []
  {
    LabelFilter.NormalizeEmptyIffBlank(query);
    var term := LabelFilter.Normalize(query);
    if term != "" {
      FilterAppend(xs, ys, LabelMatcher(term));
      FilterSingle(o, LabelMatcher(term));
    }
  }

  /** The options offered keep option order too: they split over a
      concatenation of option lists, and a single option is offered exactly
      when it passes the search and its value is not selected. */
  lemma AvailableKeepsOrder(w: Widget, xs: seq<MultiSelectOption>, ys: seq<MultiSelectOption>, o: MultiSelectOption)
    ensures AvailableOptions(w.(options := xs + ys))
            == AvailableOptions(w.(options := xs)) + AvailableOptions(w.(options := ys))
    ensures AvailableOptions(w.(options := [o]))
            == if (Text.AllWhitespace(w.query) || LabelFilter.LabelMatches(o.caption, LabelFilter.Normalize(w.query)))
                  && o.value !in w.selected then [o] else []
  {
    FilteredKeepsOrder(xs, ys, o, w.query);
    FilterAppend(FilteredOptions(xs, w.query), FilteredOptions(ys, w.query), ValueNotIn(w.selected));
    FilterSingle(o, ValueNotIn(w.selected));
    assert Filter([], ValueNotIn(w.selected)) == [];
  }

  /** The chips follow option order, not selection order: the selected
      options split over a concatenation of option lists, and a single option
      is kept exactly when its value is selected. */
  lemma SelectedKeepsOrder(xs: seq<MultiSelectOption>, ys: seq<MultiSelectOption>, o: MultiSelectOption, selected: seq<Value>)
    ensures SelectedOptions(xs + ys, selected) == SelectedOptions(xs, selected) + SelectedOptions(ys, selected)
    ensures SelectedOptions([o], selected) == if o.value in selected then [o] else []
  {
    FilterAppend(xs, ys, ValueIn(selected));
    FilterSingle(o, ValueIn(selected));
  }

  /** `isMaxReached`: a limit of 0 means unlimited. */
  predicate IsMaxReached(w: Widget)
  {
    w.maxSelection != 0 && |w.selected| >= w.maxSelection
  }

  /** `getBadgeColor`: the option's own colour unless it is missing or empty. */
  function BadgeColor(w: Widget, o: MultiSelectOption): (r: string)
    ensures o.badgeColor.Some? && o.badgeColor.value != "" ==> r == o.badgeColor.value
    ensures o.badgeColor.None? || o.badgeColor.value == "" ==> r == w.defaultBadgeColor
  {
    match o.badgeColor
    case Some(c) => if c != "" then c else w.defaultBadgeColor
    case None => w.defaultBadgeColor
  }

  // ---------------------------------------------------------------------------
  // Form control interface
  // ---------------------------------------------------------------------------

  /** `writeValue`: an array becomes the selection; `null` or anything that is
      not an array (modelled as `None`) empties it. */
  function WriteValue(w: Widget, value: Option<seq<Value>>): (r: Widget)
    ensures value.None? ==> r.selected == []
    ensures value.Some? ==> r.selected == value.value
    ensures r == w.(selected := r.selected)
  {
    w.(selected := value.GetOr([]))
  }

  /** `setDisabledState` */
  function SetDisabledState(w: Widget, isDisabled: bool): (r: Widget)
    ensures r.disabled == isDisabled
    ensures r == w.(disabled := r.disabled)
  {
    w.(disabled := isDisabled)
  }

  // ---------------------------------------------------------------------------
  // Dropdown
  // ---------------------------------------------------------------------------

  /** `openDropdown`: ignored while disabled; otherwise opens with an empty
      query and no highlight. */
  function OpenDropdown(w: Widget): (r: Step)
    ensures w.disabled ==> r == Step(w, [])
    ensures !w.disabled ==> r.widget == w.(isOpen := true, query := "", highlighted := -1)
                            && r.events == [Opened]
  {
    if w.disabled then Step(w, [])
    else Step(w.(isOpen := true, query := "", highlighted := -1), [Opened])
  }

  /** `closeDropdown`: closes with an empty query and no highlight, marks the
      control touched, even when it was already closed. */
  function CloseDropdown(w: Widget): (r: Step)
    ensures r.widget == w.(isOpen := false, query := "", highlighted := -1)
    ensures r.events == [Touched, Closed]
  {
    Step(w.(isOpen := false, query := "", highlighted := -1), [Touched, Closed])
  }

  /** `toggleDropdown`: ignored while disabled; otherwise closes an open
      dropdown and opens a closed one. */
  function ToggleDropdown(w: Widget): (r: Step)
    ensures w.disabled ==> r == Step(w, [])
    ensures !w.disabled && w.isOpen ==> r == Step(w.(isOpen := false, query := "", highlighted := -1), [Touched, Closed])
    ensures !w.disabled && !w.isOpen ==> r == Step(w.(isOpen := true, query := "", highlighted := -1), [Opened])
  {
    if w.disabled then Step(w, [])
    else if w.isOpen then CloseDropdown(w)
    else OpenDropdown(w)
  }

  /** Toggling an enabled, closed widget twice opens and closes it again: the
      widget is back as it was except that the search and the highlight are
      reset, and it has reported opened, touched and closed in that order. */
  lemma ToggleTwice(w: Widget)
    requires !w.disabled && !w.isOpen
    ensures var first := ToggleDropdown(w);
            var second := ToggleDropdown(first.widget);
            second.widget == w.(query := "", highlighted := -1)
            && first.events + second.events == [Opened, Touched, Closed]
  {
  }

  /** The document click listener: a click outside an open widget closes it. */
  function ClickOutside(w: Widget, clickInside: bool): (r: Step)
    ensures !clickInside && w.isOpen ==> r == CloseDropdown(w)
    ensures clickInside || !w.isOpen ==> r == Step(w, [])
  {
    if !clickInside && w.isOpen then CloseDropdown(w) else Step(w, [])
  }

  /** `onSearchInput`: stores the typed text and drops the highlight. */
  function OnSearchInput(w: Widget, text: string): (r: Widget)
    ensures r.query == text && r.highlighted == -1
    ensures r == w.(query := r.query, highlighted := r.highlighted)
  {
    w.(query := text, highlighted := -1)
  }

  // ---------------------------------------------------------------------------
  // Selection
  // ---------------------------------------------------------------------------

  /** `updateSelection`: store the values and report them to the form and to listeners. */
  function UpdateSelection(w: Widget, values: seq<Value>): (r: Step)
    ensures r.widget == w.(selected := values)
    ensures r.events == [FormChanged(values), SelectionChanged(values)]
  {
    Step(w.(selected := values), [FormChanged(values), SelectionChanged(values)])
  }

  /** `selectOption`: refused for a disabled option, at the limit, or for a
      value already selected (the widget's own disabled flag is not checked);
      otherwise the value is appended at the end and the search is reset. */
  function SelectOption(w: Widget, o: MultiSelectOption): (r: Step)
    ensures o.disabled || (w.maxSelection != 0 && |w.selected| >= w.maxSelection) || o.value in w.selected
            ==> r == Step(w, [])
    ensures !o.disabled && (w.maxSelection == 0 || |w.selected| < w.maxSelection) && o.value !in w.selected
            ==> r.widget == w.(selected := w.selected + [o.value], query := "", highlighted := -1)
                && r.events == [FormChanged(r.widget.selected), SelectionChanged(r.widget.selected), ItemAdded(o)]
  {
    if o.disabled || IsMaxReached(w) || o.value in w.selected then Step(w, [])
    else
      var u := UpdateSelection(w, w.selected + [o.value]);
      Step(u.widget.(query := "", highlighted := -1), u.events + [ItemAdded(o)])
  }

  /** `removeOption`: ignored while disabled; otherwise every occurrence of the
      value is dropped and the other values keep their order. The removal event
      fires even when the value was not selected. */
  function RemoveOption(w: Widget, o: MultiSelectOption): (r: Step)
    ensures w.disabled ==> r == Step(w, [])
    ensures !w.disabled ==> o.value !in r.widget.selected
    ensures !w.disabled ==> forall v :: v != o.value ==> multiset(r.widget.selected)[v] == multiset(w.selected)[v]
    ensures !w.disabled ==> r.widget == w.(selected := r.widget.selected)
    ensures !w.disabled ==> r.events == [FormChanged(r.widget.selected), SelectionChanged(r.widget.selected), ItemRemoved(o)]
  {
    if w.disabled then Step(w, [])
    else
      var kept := Filter(w.selected, Differs(o.value));
      forall v | v != o.value
        ensures multiset(kept)[v] == multiset(w.selected)[v]
      {
        FilterCount(w.selected, Differs(o.value), v);
      }
      var u := UpdateSelection(w, kept);
      Step(u.widget, u.events + [ItemRemoved(o)])
  }

  /** Removal keeps order: removing from a concatenation removes from each part. */
  lemma RemoveKeepsOrder(w: Widget, o: MultiSelectOption, front: seq<Value>, back: seq<Value>)
    requires !w.disabled && w.selected == front + back
    ensures RemoveOption(w, o).widget.selected
            == RemoveOption(w.(selected := front), o).widget.selected
               + RemoveOption(w.(selected := back), o).widget.selected
  {
    FilterAppend(front, back, Differs(o.value));
  }

  /** `clearAll`: ignored while disabled; otherwise empties the selection. */
  function ClearAll(w: Widget): (r: Step)
    ensures w.disabled ==> r == Step(w, [])
    ensures !w.disabled ==> r.widget == w.(selected := []) && r.events == [FormChanged([]), SelectionChanged([])]
  {
    if w.disabled then Step(w, []) else UpdateSelection(w, [])
  }

  // ---------------------------------------------------------------------------
  // Keyboard
  // ---------------------------------------------------------------------------

  /** `navigateDown`: one step down the available options, wrapping from the
      last (or beyond) back to the first. */
  function NavigateDown(w: Widget): (r: Widget)
    ensures var n := |AvailableOptions(w)|;
            (w.highlighted < n - 1 ==> r.highlighted == w.highlighted + 1)
            && (w.highlighted >= n - 1 ==> r.highlighted == 0)
    ensures -1 <= w.highlighted && |AvailableOptions(w)| > 0 ==> 0 <= r.highlighted < |AvailableOptions(w)|
    ensures r == w.(highlighted := r.highlighted)
  {
    var n := |AvailableOptions(w)|;
    w.(highlighted := if w.highlighted < n - 1 then w.highlighted + 1 else 0)
  }

  /** `navigateUp`: one step up the available options, wrapping from the
      first (or no highlight) to the last. */
  function NavigateUp(w: Widget): (r: Widget)
    ensures var n := |AvailableOptions(w)|;
            (w.highlighted > 0 ==> r.highlighted == w.highlighted - 1)
            && (w.highlighted <= 0 ==> r.highlighted == n - 1)
    ensures w.highlighted <= |AvailableOptions(w)| && |AvailableOptions(w)| > 0 ==> 0 <= r.highlighted < |AvailableOptions(w)|
    ensures r == w.(highlighted := r.highlighted)
  {
    var n := |AvailableOptions(w)|;
    w.(highlighted := if w.highlighted > 0 then w.highlighted - 1 else n - 1)
  }

  /** `selectHighlighted`: selects the highlighted available option when the
      highlight is on one; does nothing otherwise. */
  function SelectHighlighted(w: Widget): (r: Step)
    ensures var avail := AvailableOptions(w);
            0 <= w.highlighted < |avail| ==> r == SelectOption(w, avail[w.highlighted])
    ensures !(0 <= w.highlighted < |AvailableOptions(w)|) ==> r == Step(w, [])
  {
    var avail := AvailableOptions(w);
    if 0 <= w.highlighted < |avail| then SelectOption(w, avail[w.highlighted]) else Step(w, [])
  }

  /** `onKeyDown`: ignored while disabled. Backspace with an empty search box
      removes the last selected option in option-list order. */
  function OnKeyDown(w: Widget, key: Key): (r: Step)
    ensures w.disabled ==> r == Step(w, [])
    ensures !w.disabled && key == Backspace && w.query == "" && SelectedOptions(w.options, w.selected) != []
            ==> r == RemoveOption(w, Text.Last(SelectedOptions(w.options, w.selected)))
    ensures !w.disabled && key == Backspace && (w.query != "" || SelectedOptions(w.options, w.selected) == [])
            ==> r == Step(w, [])
    ensures !w.disabled && key == OtherKey ==> r == Step(w, [])
    ensures !w.disabled && key == ArrowDown ==> r == Step(NavigateDown(w), [])
    ensures !w.disabled && key == ArrowUp ==> r == Step(NavigateUp(w), [])
    ensures !w.disabled && key == Enter ==> r == SelectHighlighted(w)
    ensures !w.disabled && key == Escape ==> r == CloseDropdown(w)
  {
    if w.disabled then Step(w, [])
    else
      match key
      case ArrowDown => Step(NavigateDown(w), [])
      case ArrowUp => Step(NavigateUp(w), [])
      case Enter => SelectHighlighted(w)
      case Escape => CloseDropdown(w)
      case Backspace =>
        var chosen := SelectedOptions(w.options, w.selected);
        if w.query == "" && |chosen| > 0 then RemoveOption(w, chosen[|chosen| - 1])
        else Step(w, [])
      case OtherKey => Step(w, [])
  }

  // ---------------------------------------------------------------------------
  // Properties
  // ---------------------------------------------------------------------------

  /** The selection invariant: no value twice, and within a positive limit. */
  predicate Inv(w: Widget)
  {
    NoDup(w.selected) && (w.maxSelection > 0 ==> |w.selected| <= w.maxSelection)
  }

  /** Selecting never introduces a duplicate and never passes a positive limit. */
  lemma SelectPreservesInv(w: Widget, o: MultiSelectOption)
    requires Inv(w)
    ensures Inv(SelectOption(w, o).widget)
  {
    if !o.disabled && !IsMaxReached(w) && o.value !in w.selected {
      AppendFreshNoDup(w.selected, o.value);
    }
  }

  /** Removing keeps the invariant. */
  lemma RemovePreservesInv(w: Widget, o: MultiSelectOption)
    requires Inv(w)
    ensures Inv(RemoveOption(w, o).widget)
  {
    if !w.disabled {
      FilterNoDup(w.selected, Differs(o.value));
    }
  }

  /** Every keyboard step keeps the invariant. */
  lemma KeyPreservesInv(w: Widget, key: Key)
    requires Inv(w)
    ensures Inv(OnKeyDown(w, key).widget)
  {
    if !w.disabled {
      match key
      case Enter => EnterPreservesInv(w);
      case Backspace => BackspacePreservesInv(w);
      case ArrowDown =>
        assert OnKeyDown(w, key).widget == NavigateDown(w);
      case ArrowUp =>
        assert OnKeyDown(w, key).widget == NavigateUp(w);
      case Escape =>
        assert OnKeyDown(w, key) == CloseDropdown(w);
      case OtherKey =>
    }
  }

  /** Enter selects at most the highlighted option, which keeps the invariant. */
  lemma EnterPreservesInv(w: Widget)
    requires Inv(w) && !w.disabled
    ensures Inv(OnKeyDown(w, Enter).widget)
  {
    var avail := AvailableOptions(w);
    assert OnKeyDown(w, Enter) == SelectHighlighted(w);
    if 0 <= w.highlighted < |avail| {
      SelectPreservesInv(w, avail[w.highlighted]);
    }
  }

  /** Backspace removes at most one value, which keeps the invariant. */
  lemma BackspacePreservesInv(w: Widget)
    requires Inv(w) && !w.disabled
    ensures Inv(OnKeyDown(w, Backspace).widget)
  {
    var chosen := SelectedOptions(w.options, w.selected);
    if w.query == "" && |chosen| > 0 {
      RemovePreservesInv(w, chosen[|chosen| - 1]);
    }
  }

  /** Enter on a highlighted option that is enabled adds its value, unless the
      limit is reached: available options are never already selected. */
  lemma EnterSelectsHighlighted(w: Widget)
    requires !w.disabled
    requires 0 <= w.highlighted < |AvailableOptions(w)|
    requires !AvailableOptions(w)[w.highlighted].disabled && !IsMaxReached(w)
    ensures OnKeyDown(w, Enter).widget.selected == w.selected + [AvailableOptions(w)[w.highlighted].value]
  {
    var o := AvailableOptions(w)[w.highlighted];
    assert o.value !in w.selected;
    assert OnKeyDown(w, Enter) == SelectHighlighted(w) == SelectOption(w, o);
  }

  /** `isMaxReached` is what closes the widget to new selections: once it
      holds, selecting changes nothing and fires nothing; before it, a fresh
      enabled option is added. Under the invariant, a positive limit is
      reached exactly when the selection is full. */
  lemma MaxReachedBlocks(w: Widget, o: MultiSelectOption)
    ensures IsMaxReached(w) ==> SelectOption(w, o) == Step(w, [])
    ensures !IsMaxReached(w) && !o.disabled && o.value !in w.selected
            ==> |SelectOption(w, o).widget.selected| == |w.selected| + 1
    ensures w.maxSelection == 0 ==> !IsMaxReached(w)
    ensures Inv(w) && w.maxSelection > 0 ==> (IsMaxReached(w) <==> |w.selected| == w.maxSelection)
  {
  }

  /** A limit of 0 never blocks a selection. */
  lemma ZeroMeansUnlimited(w: Widget, o: MultiSelectOption)
    requires w.maxSelection == 0 && !o.disabled && o.value !in w.selected
    ensures |SelectOption(w, o).widget.selected| == |w.selected| + 1
  {
  }

  /** Backspace removes the last selected option in option order, not the most
      recently added one: with options A then B, selecting B and then A and
      pressing Backspace removes B. */
  lemma BackspaceFollowsOptionOrder(w: Widget, a: MultiSelectOption, b: MultiSelectOption)
    requires !w.disabled && w.query == "" && w.options == [a, b] && a.value != b.value
    requires w.selected == [b.value, a.value]
    ensures OnKeyDown(w, Backspace).widget.selected == [a.value]
  {
    var chosen := SelectedOptions(w.options, w.selected);
    assert chosen == [a, b] by {
      assert Filter([b], ValueIn(w.selected)) == [b];
      assert Filter(w.options, ValueIn(w.selected)) == [a] + Filter([b], ValueIn(w.selected));
    }
    assert Text.Last(chosen) == b;
    RemovedValues(w, b);
    assert Filter(w.selected, Differs(b.value)) == [a.value] by {
      assert Filter([a.value], Differs(b.value)) == [a.value];
      assert Filter(w.selected, Differs(b.value)) == [] + Filter([a.value], Differs(b.value));
    }
  }

  /** The values left after a removal are the selected ones other than the removed value, in order. */
  lemma RemovedValues(w: Widget, o: MultiSelectOption)
    requires !w.disabled
    ensures RemoveOption(w, o).widget.selected == Filter(w.selected, Differs(o.value))
  {
  }
}
