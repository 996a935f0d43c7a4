/**
 * The Webflow advanced-search widget: a text input, a results container, a fixed
 * list of result items and an optional "no results" block.  Typing filters the
 * items by case-insensitive substring match; the arrow keys, Enter and Escape
 * move a focus index over the items that are currently shown.
 *
 * The state the handlers update is captured by the value `Widget`.  Each handler
 * is specified by a pure transition function on that value (`Search`, `KeyDown`,
 * `Select`, ...), and the class `SearchWidget` updates its fields step by step,
 * as the handlers do, and is proved to implement those functions.
 */
module AdvancedSearch {
  import opened JsBuiltins

  /** The value of an item's `tu-autosearch-action` attribute. */
  datatype Action = OpenLink | Autocomplete | Unrecognised

  /** A result item: its text content, its action, and whether it holds a link element. */
  datatype Item = Item(text: string, action: Action, hasLink: bool)

  /** The elements found in the page when the widget starts; the no-results block may be absent. */
  datatype Page = Page(items: seq<Item>, hasNoResultsBlock: bool)

  /** The keys the handlers distinguish; every other key is `OtherKey`. */
  datatype Key = ArrowDown | ArrowUp | Enter | Escape | Backspace | OtherKey

  /** Calls into the browser that the widget makes: a click on an item's link, a blur of the input. */
  datatype Effect = ClickLink(item: nat) | BlurInput

  /**
   * The mutable state: the input's value, each item's display flag, each item's
   * `is-focused` class, the display flags of the container and the no-results
   * block, `searchFocusedItemIndex`, and the browser calls made so far.
   */
  datatype Widget = Widget(
    input: string,
    itemShown: seq<bool>,
    focused: seq<bool>,
    containerShown: bool,
    noResultsShown: bool,
    focusIndex: int,
    effects: seq<Effect>)

  // ---------------------------------------------------------------------------
  // The pure parts: the query, the match predicate and the visible-items filter.

  /** The search term: the input lower-cased, then trimmed. */
  function Query(input: string): string {
    Trim(Lower(input))
  }

  /** An item's text matches when the term is empty or occurs in its lower-cased text. */
  predicate IsMatch(q: string, text: string) {
    q == "" || Contains(Lower(text), q)
  }

  predicate HasMatch(q: string, items: seq<Item>) {
    exists i :: 0 <= i < |items| && IsMatch(q, items[i].text)
  }

  /** The display flag each item gets from a filter pass with term `q`. */
  function FilterFlags(q: string, items: seq<Item>): (flags: seq<bool>)
    ensures |flags| == |items|
    ensures forall i :: 0 <= i < |items| ==> flags[i] == IsMatch(q, items[i].text)
  {
    seq(|items|, i requires 0 <= i < |items| => IsMatch(q, items[i].text))
  }

  /** The positions of the items whose display flag is set, in page order. */
  function VisibleIndices(shown: seq<bool>): seq<nat>
    decreases |shown|
  {
    if shown == [] then []
    else
      var n := |shown| - 1;
      VisibleIndices(shown[..n]) + (if shown[n] then [n] else [])
  }

  function Visible(w: Widget): seq<nat> {
    VisibleIndices(w.itemShown)
  }

  /** The position of item `i` in the visible list: the number of shown items before it. */
  function Rank(shown: seq<bool>, i: nat): nat
    requires i <= |shown|
  {
    |VisibleIndices(shown[..i])|
  }

  /** The invariant every handler keeps. */
  predicate Inv(page: Page, w: Widget) {
    && |w.itemShown| == |page.items|
    && |w.focused| == |page.items|
    && -1 <= w.focusIndex < |Visible(w)|
    && (w.noResultsShown ==> page.hasNoResultsBlock)
  }

  // ---------------------------------------------------------------------------
  // Transition functions, one per handler.

  /** Setting the display of the no-results block does nothing when the block is absent. */
  function ShowNoResults(page: Page, w: Widget, show: bool): (r: Widget)
    ensures r.noResultsShown == (if page.hasNoResultsBlock then show else w.noResultsShown)
    ensures r.(noResultsShown := w.noResultsShown) == w
  {
    if page.hasNoResultsBlock then w.(noResultsShown := show) else w
  }

  function Initial(page: Page, input: string, shown: seq<bool>): (w: Widget)
    requires |shown| == |page.items|
    ensures Inv(page, w)
    ensures !w.containerShown && !w.noResultsShown && w.focusIndex == -1
  {
    Widget(input, shown, seq(|page.items|, _ => false), false, false, -1, [])
  }

  /** The filter pass. */
  function Search(page: Page, w: Widget): (r: Widget)
    requires Inv(page, w)
    ensures Inv(page, r)
    ensures r.itemShown == FilterFlags(Query(w.input), page.items)
    ensures r.containerShown == (HasMatch(Query(w.input), page.items) || Query(w.input) != "")
    ensures r.noResultsShown == (page.hasNoResultsBlock && !HasMatch(Query(w.input), page.items) && Query(w.input) != "")
    ensures r.focusIndex == -1 && r.input == w.input && r.focused == w.focused && r.effects == w.effects
  {
    var q := Query(w.input);
    var has := HasMatch(q, page.items);
    var w1 := ShowNoResults(page, w.(itemShown := FilterFlags(q, page.items)), !has && q != "");
    var w2 := w1.(containerShown := has || q != "", focusIndex := -1);
    if !has && q != "" then ShowNoResults(page, w2.(containerShown := true), true) else w2
  }

  /** `resetSearchState`: show the container, hide the no-results block, then filter. */
  function ResetSearch(page: Page, w: Widget): (r: Widget)
    requires Inv(page, w)
    ensures Inv(page, r) && r.focusIndex == -1
    // The filter pass overwrites both displays the reset sets first.
    ensures r == Search(page, w)
  {
    Search(page, ShowNoResults(page, w.(containerShown := true), false))
  }

  /** The next focus position for ArrowDown while the container is shown. */
  function NextIndex(i: int, n: nat): (j: int)
    requires n > 0
    ensures -1 <= i < n ==> 0 <= j < n
  {
    RemSpec(i + 1, n);
    Rem(i + 1, n)
  }

  /** The next focus position for ArrowUp while the container is shown. */
  function PrevIndex(i: int, n: nat): (j: int)
    requires n > 0
    ensures -1 <= i < n ==> 0 <= j < n
  {
    RemSpec(i - 1 + n, n);
    Rem(i - 1 + n, n)
  }

  /** The `is-focused` classes after a sync: shown items are marked iff at position `idx`. */
  function SyncMarks(shown: seq<bool>, focused: seq<bool>, idx: int): (marks: seq<bool>)
    requires |focused| == |shown|
    ensures |marks| == |focused|
    ensures forall i :: 0 <= i < |shown| && !shown[i] ==> marks[i] == focused[i]
  {
    seq(|focused|, i requires 0 <= i < |focused| => if shown[i] then Rank(shown, i) == idx else focused[i])
  }

  /** Selecting the item at page position `k`. */
  function Select(page: Page, w: Widget, k: nat): (r: Widget)
    requires Inv(page, w) && k < |page.items|
    ensures Inv(page, r)
    ensures r.itemShown == w.itemShown && r.focusIndex == w.focusIndex && r.focused == w.focused
  {
    var item := page.items[k];
    match item.action
    case OpenLink =>
      if item.hasLink then w.(effects := w.effects + [ClickLink(k)]) else w
    case Autocomplete =>
      ShowNoResults(page, w.(input := Trim(item.text), containerShown := false), false)
    case Unrecognised =>
      w
  }

  /** The keydown handler. */
  function KeyDown(page: Page, w: Widget, key: Key): (r: Widget)
    requires Inv(page, w)
    ensures Inv(page, r)
    ensures r.itemShown == w.itemShown
  {
    var vis := Visible(w);
    var n := |vis|;
    if n == 0 then w
    else if key == ArrowDown || key == ArrowUp then
      var idx :=
        if !w.containerShown then (if key == ArrowDown then 0 else n - 1)
        else if key == ArrowDown then NextIndex(w.focusIndex, n)
        else PrevIndex(w.focusIndex, n);
      w.(containerShown := true, focusIndex := idx,
         focused := SyncMarks(w.itemShown, w.focused, idx))
    else if key == Enter then
      if w.focusIndex >= 0 then
        VisibleAt(w.itemShown, w.focusIndex);
        Select(page, w, vis[w.focusIndex])
      else w
    else if key == Escape then
      ShowNoResults(page, w.(containerShown := false), false).(effects := w.effects + [BlurInput])
    else
      w
  }

  /** Whether the keydown handler calls `preventDefault` on the event. */
  predicate PreventsDefault(w: Widget, key: Key) {
    |Visible(w)| > 0 && (key == ArrowDown || key == ArrowUp || key == Enter)
  }

  /** A click anywhere in the document; `insideForm` says whether its target lies inside the form. */
  function DocumentClick(page: Page, w: Widget, insideForm: bool): (r: Widget)
    requires Inv(page, w)
    ensures Inv(page, r)
    ensures r.itemShown == w.itemShown && r.focusIndex == w.focusIndex && r.focused == w.focused
  {
    if insideForm then w else ShowNoResults(page, w.(containerShown := false), false)
  }

  /** The input gains focus: reset when it is empty, filter otherwise. */
  function Focus(page: Page, w: Widget): (r: Widget)
    requires Inv(page, w)
    ensures Inv(page, r) && r.focusIndex == -1
    ensures r == Search(page, w)
  {
    if w.input == "" then ResetSearch(page, w) else Search(page, w)
  }

  /** The user edits the input to `value`. */
  function InputChanged(page: Page, w: Widget, value: string): (r: Widget)
    requires Inv(page, w)
    ensures Inv(page, r) && r.input == value && r.focusIndex == -1
  {
    Search(page, w.(input := value))
  }

  /** The keyup handler: only Backspace triggers a filter pass. */
  function KeyUp(page: Page, w: Widget, key: Key): (r: Widget)
    requires Inv(page, w)
    ensures Inv(page, r)
    ensures key != Backspace ==> r == w
  {
    if key == Backspace then Search(page, w) else w
  }

  // ---------------------------------------------------------------------------
  // Lemmas about the visible list that the focus sync relies on.

  /**
   * The visible list holds exactly the positions of the shown items, each once,
   * in increasing (page) order.
   */
  lemma {:induction false} VisibleIndicesSpec(shown: seq<bool>)
    ensures var vis := VisibleIndices(shown);
      && (forall k :: 0 <= k < |vis| ==> vis[k] < |shown| && shown[vis[k]])
      && (forall k, l :: 0 <= k < l < |vis| ==> vis[k] < vis[l])
      && (forall i :: 0 <= i < |shown| && shown[i] ==> i in vis)
    decreases |shown|
  {
    if shown != [] {
      var n := |shown| - 1;
      VisibleIndicesSpec(shown[..n]);
    }
  }

  /** An entry of the visible list is the position of a shown item. */
  lemma VisibleAt(shown: seq<bool>, k: nat)
    requires k < |VisibleIndices(shown)|
    ensures VisibleIndices(shown)[k] < |shown| && shown[VisibleIndices(shown)[k]]
  {
    VisibleIndicesSpec(shown);
  }

  /** The visible list of a prefix of the flags is a prefix of the visible list. */
  lemma {:induction false} VisiblePrefix(shown: seq<bool>, i: nat)
    requires i <= |shown|
    ensures VisibleIndices(shown[..i]) <= VisibleIndices(shown)
    decreases |shown|
  {
    if i < |shown| {
      var n := |shown| - 1;
      assert shown[..n][..i] == shown[..i];
      VisiblePrefix(shown[..n], i);
    } else {
      assert shown[..i] == shown;
    }
  }

  /** A shown item sits in the visible list at its rank. */
  lemma RankOfShown(shown: seq<bool>, i: nat)
    requires i < |shown| && shown[i]
    ensures Rank(shown, i) < |VisibleIndices(shown)|
    ensures VisibleIndices(shown)[Rank(shown, i)] == i
  {
    VisiblePrefix(shown, i + 1);
    assert shown[..i + 1][..i] == shown[..i];
  }

  /** The item at visible position `k` has rank `k`. */
  lemma RankAt(shown: seq<bool>, k: nat)
    requires k < |VisibleIndices(shown)|
    ensures VisibleIndices(shown)[k] < |shown| && shown[VisibleIndices(shown)[k]]
    ensures Rank(shown, VisibleIndices(shown)[k]) == k
  {
    VisibleIndicesSpec(shown);
    RankOfShown(shown, VisibleIndices(shown)[k]);
  }

  // ---------------------------------------------------------------------------
  // The widget as the source keeps it: shared state updated in place.

  class SearchWidget {
    const page: Page
    var input: string
    var itemShown: seq<bool>
    var focused: seq<bool>
    var containerShown: bool
    var noResultsShown: bool
    var focusIndex: int
    var effects: seq<Effect>

    function State(): Widget
      reads this
    {
      Widget(input, itemShown, focused, containerShown, noResultsShown, focusIndex, effects)
    }

    ghost predicate Valid()
      reads this
    {
      Inv(page, State())
    }

    /** The required elements are present; both blocks start hidden. */
    constructor (page: Page, initialInput: string, initialShown: seq<bool>)
      requires |initialShown| == |page.items|
      ensures this.page == page && Valid()
      ensures State() == Initial(page, initialInput, initialShown)
    {
      this.page := page;
      input := initialInput;
      itemShown := initialShown;
      focused := seq(|page.items|, _ => false);
      focusIndex := -1;
      effects := [];
      containerShown := false;
      noResultsShown := false;
    }

    method SetNoResultsVisibility(show: bool)
      modifies this
      ensures State() == ShowNoResults(page, old(State()), show)
    {
      if page.hasNoResultsBlock {
        noResultsShown := show;
      }
    }

    /** The `forEach` over the items in `performSearch`: sets each item's display flag. */
    method FilterItems(searchTerm: string) returns (hasMatchingResults: bool)
      requires |itemShown| == |page.items|
      modifies this
      ensures itemShown == FilterFlags(searchTerm, page.items)
      ensures hasMatchingResults == HasMatch(searchTerm, page.items)
      ensures State() == old(State()).(itemShown := itemShown)
    {
      hasMatchingResults := false;
      var i := 0;
      while i < |page.items|
        invariant 0 <= i <= |page.items|
        invariant |itemShown| == |page.items|
        invariant forall j :: 0 <= j < i ==> itemShown[j] == IsMatch(searchTerm, page.items[j].text)
        invariant hasMatchingResults <==> exists j :: 0 <= j < i && IsMatch(searchTerm, page.items[j].text)
        invariant State() == old(State()).(itemShown := itemShown)
      {
        var isItemMatch := searchTerm == "" || Contains(Lower(page.items[i].text), searchTerm);
        assert isItemMatch == IsMatch(searchTerm, page.items[i].text);
        itemShown := itemShown[i := isItemMatch];
        if isItemMatch {
          hasMatchingResults := true;
        }
        assert (exists j :: 0 <= j < i + 1 && IsMatch(searchTerm, page.items[j].text))
          <==> (exists j :: 0 <= j < i && IsMatch(searchTerm, page.items[j].text)) || isItemMatch;
        i := i + 1;
      }
    }

    method PerformSearch()
      requires Valid()
      modifies this
      ensures Valid() && State() == Search(page, old(State()))
    {
      ghost var expected := Search(page, State());
      var searchTerm := Query(input);
      var hasMatchingResults := FilterItems(searchTerm);
      assert itemShown == expected.itemShown;
      SetNoResultsVisibility(!hasMatchingResults && searchTerm != "");
      containerShown := hasMatchingResults || searchTerm != "";
      focusIndex := -1;
      if !hasMatchingResults && searchTerm != "" {
        containerShown := true;
        SetNoResultsVisibility(true);
      }
      assert containerShown == expected.containerShown && noResultsShown == expected.noResultsShown;
      assert State() == expected;
    }

    method ResetSearchState()
      requires Valid()
      modifies this
      ensures Valid() && State() == ResetSearch(page, old(State()))
    {
      containerShown := true;
      SetNoResultsVisibility(false);
      PerformSearch();
    }

    /** `updateSearchFocusedItem`, without the scrolling. */
    method UpdateFocusedItem(vis: seq<nat>)
      requires |itemShown| == |focused| && vis == VisibleIndices(itemShown)
      modifies this
      ensures focused == SyncMarks(old(itemShown), old(focused), old(focusIndex))
      ensures State() == old(State()).(focused := focused)
    {
      var k := 0;
      while k < |vis|
        invariant 0 <= k <= |vis|
        invariant State() == old(State()).(focused := focused)
        invariant |focused| == |itemShown|
        invariant forall i :: 0 <= i < |focused| ==>
          focused[i] == if itemShown[i] && Rank(itemShown, i) < k then Rank(itemShown, i) == focusIndex
                        else old(focused)[i]
      {
        RankAt(itemShown, k);
        forall i | 0 <= i < |itemShown| && itemShown[i]
          ensures Rank(itemShown, i) == k <==> i == vis[k]
        {
          RankOfShown(itemShown, i);
        }
        focused := focused[vis[k] := (k == focusIndex)];
        k := k + 1;
      }
      forall i | 0 <= i < |itemShown| && itemShown[i]
        ensures Rank(itemShown, i) < |vis|
      {
        RankOfShown(itemShown, i);
      }
    }

    method HandleResultItemSelection(k: nat)
      requires Valid() && k < |page.items|
      modifies this
      ensures Valid() && State() == Select(page, old(State()), k)
    {
      var item := page.items[k];
      if item.action == OpenLink {
        if item.hasLink {
          effects := effects + [ClickLink(k)];
        }
      } else if item.action == Autocomplete {
        input := Trim(item.text);
        containerShown := false;
        SetNoResultsVisibility(false);
      }
    }

    method HandleKeyboardNavigation(key: Key) returns (defaultPrevented: bool)
      requires Valid()
      modifies this
      ensures Valid() && State() == KeyDown(page, old(State()), key)
      ensures defaultPrevented == PreventsDefault(old(State()), key)
    {
      ghost var expected := KeyDown(page, State(), key);
      var visibleResultItems := VisibleIndices(itemShown);
      defaultPrevented := false;
      if |visibleResultItems| == 0 {
        return;
      }
      var n := |visibleResultItems|;
      if key == ArrowDown || key == ArrowUp {
        defaultPrevented := true;
        if !containerShown {
          containerShown := true;
          focusIndex := if key == ArrowDown then 0 else n - 1;
        } else {
          focusIndex := if key == ArrowDown then NextIndex(focusIndex, n) else PrevIndex(focusIndex, n);
        }
        assert expected.focusIndex == focusIndex;
        UpdateFocusedItem(visibleResultItems);
      } else if key == Enter {
        defaultPrevented := true;
        if focusIndex >= 0 {
          VisibleAt(itemShown, focusIndex);
          HandleResultItemSelection(visibleResultItems[focusIndex]);
        }
      } else if key == Escape {
        containerShown := false;
        SetNoResultsVisibility(false);
        effects := effects + [BlurInput];
      }
    }

    method HandleOutsideClick(insideForm: bool)
      requires Valid()
      modifies this
      ensures Valid() && State() == DocumentClick(page, old(State()), insideForm)
    {
      if !insideForm {
        containerShown := false;
        SetNoResultsVisibility(false);
      }
    }

    method OnFocus()
      requires Valid()
      modifies this
      ensures Valid() && State() == Focus(page, old(State()))
    {
      if input == "" {
        ResetSearchState();
      } else {
        PerformSearch();
      }
    }

    method OnInput(value: string)
      requires Valid()
      modifies this
      ensures Valid() && State() == InputChanged(page, old(State()), value)
    {
      input := value;
      PerformSearch();
    }

    method OnKeyUp(key: Key)
      requires Valid()
      modifies this
      ensures Valid() && State() == KeyUp(page, old(State()), key)
    {
      if key == Backspace {
        PerformSearch();
      }
    }
  }
}
