/**
 * Properties of the advanced-search widget, stated over the transition
 * functions of `AdvancedSearch` (which the class `SearchWidget` implements).
 */
module AdvancedSearchProperties {
  import opened JsBuiltins
  import opened AdvancedSearch

  // ---------------------------------------------------------------------------
  // Text normalisation

  /** Lower-casing twice is lower-casing once. */
  lemma LowerIdempotent(s: string)
    ensures Lower(Lower(s)) == Lower(s)
  {
    LowerSpec(s);
    LowerSpec(Lower(s));
  }

  /** The search term does not depend on the letter case of the input. */
  lemma QueryCaseInsensitive(input: string)
    ensures Query(Lower(input)) == Query(input)
  {
    LowerIdempotent(input);
  }

  /** Whether an item matches does not depend on the letter case of its text. */
  lemma MatchCaseInsensitive(q: string, text: string)
    ensures IsMatch(q, Lower(text)) == IsMatch(q, text)
  {
    LowerIdempotent(text);
  }

  /** A search term has no ASCII upper-case letter and no white space at either end. */
  lemma QueryNormalised(input: string)
    ensures var q := Query(input);
      IsLowerCase(q) && (q == [] || (!IsSpace(q[0]) && !IsSpace(q[|q| - 1])))
  {
    var l := Lower(input);
    var q := Trim(l);
    var i := |l| - |TrimStart(l)|;
    LowerSpec(input);
    TrimSpec(l);
    forall k | 0 <= k < |q| ensures !IsUpper(q[k]) {
      assert q[k] == l[i + k];
    }
  }

  /** A search term is already normalised: normalising it again changes nothing. */
  lemma QueryIdempotent(input: string)
    ensures Query(Query(input)) == Query(input)
  {
    var q := Query(input);
    QueryNormalised(input);
    LowerSpec(q);
    assert Lower(q) == q;
    assert TrimStart(q) == q;
    assert TrimEnd(q) == q;
  }

  /** An item matches iff the term is empty or occurs at some position of its lower-cased text. */
  lemma MatchIff(q: string, text: string)
    ensures IsMatch(q, text) <==> q == "" || OccursIn(Lower(text), q)
  {
    ContainsIff(Lower(text), q);
    assert IsMatch(q, text) == (q == "" || Contains(Lower(text), q));
  }

  // ---------------------------------------------------------------------------
  // The filter pass

  /**
   * After a filter pass an item is shown, and so belongs to the visible list,
   * iff the term is empty or occurs somewhere in the item's lower-cased text.
   */
  lemma FilterShowsExactlyMatches(page: Page, w: Widget)
    requires Inv(page, w)
    ensures var r := Search(page, w); var q := Query(w.input);
      forall i :: 0 <= i < |page.items| ==>
        (r.itemShown[i] <==> q == "" || OccursIn(Lower(page.items[i].text), q))
    ensures var r := Search(page, w);
      forall i :: 0 <= i < |page.items| ==> (i in Visible(r) <==> r.itemShown[i])
  {
    var r := Search(page, w);
    var q := Query(w.input);
    forall i | 0 <= i < |page.items|
      ensures r.itemShown[i] <==> q == "" || OccursIn(Lower(page.items[i].text), q)
    {
      MatchIff(q, page.items[i].text);
    }
    VisibleIndicesSpec(r.itemShown);
  }

  /**
   * After a filter pass the no-results block is shown iff it exists, no item
   * matched and the term is non-empty; the container is shown iff some item
   * matched or the term is non-empty.
   */
  lemma FilterBlocks(page: Page, w: Widget)
    requires Inv(page, w)
    ensures var r := Search(page, w); var q := Query(w.input);
      && (r.noResultsShown <==> page.hasNoResultsBlock && !HasMatch(q, page.items) && q != "")
      && (r.containerShown <==> HasMatch(q, page.items) || q != "")
      && (r.containerShown <==> Visible(r) != [] || q != "")
      && (Visible(r) != [] <==> HasMatch(q, page.items))
  {
    var r := Search(page, w);
    var q := Query(w.input);
    assert HasMatch(q, page.items) <==> Visible(r) != [] by {
      VisibleIndicesSpec(r.itemShown);
      if HasMatch(q, page.items) {
        var i :| 0 <= i < |page.items| && IsMatch(q, page.items[i].text);
        assert r.itemShown[i];
      } else if Visible(r) != [] {
        VisibleAt(r.itemShown, 0);
      }
    }
  }

  /** A filter pass drops the focus position and touches neither the input, the marks nor the effects. */
  lemma FilterResetsFocus(page: Page, w: Widget)
    requires Inv(page, w)
    ensures var r := Search(page, w);
      r.focusIndex == -1 && r.input == w.input && r.focused == w.focused && r.effects == w.effects
  {
  }

  /** With an empty term every item is shown, the no-results block is hidden, and the container is shown iff there are items. */
  lemma EmptyTermShowsAll(page: Page, w: Widget)
    requires Inv(page, w) && Query(w.input) == ""
    ensures var r := Search(page, w);
      && (forall i :: 0 <= i < |page.items| ==> r.itemShown[i])
      && |Visible(r)| == |page.items|
      && !r.noResultsShown
      && (r.containerShown <==> |page.items| > 0)
  {
    var r := Search(page, w);
    VisibleCoversAll(r.itemShown);
  }

  /** When every flag is set, the visible list is every position. */
  lemma {:induction false} VisibleCoversAll(shown: seq<bool>)
    requires forall i :: 0 <= i < |shown| ==> shown[i]
    ensures |VisibleIndices(shown)| == |shown|
    decreases |shown|
  {
    if shown != [] {
      VisibleCoversAll(shown[..|shown| - 1]);
    }
  }

  /** A non-empty term that matches nothing leaves the container shown, with the no-results block in it. */
  lemma NoMatchShowsEmptyState(page: Page, w: Widget)
    requires Inv(page, w) && Query(w.input) != "" && !HasMatch(Query(w.input), page.items)
    ensures var r := Search(page, w);
      r.containerShown && r.noResultsShown == page.hasNoResultsBlock && Visible(r) == []
  {
    FilterBlocks(page, w);
  }

  /** A three-item example page: Apple, Banana, Avocado. */
  function FruitPage(): Page {
    Page([Item("Apple", Autocomplete, false), Item("Banana", Autocomplete, false),
          Item("Avocado", Autocomplete, false)], true)
  }

  // One fact per lemma keeps each string computation small.

  lemma AppleHasA() ensures IsMatch("a", "Apple") {
    LowerSpec("Apple");
    assert Lower("Apple")[..1] == "a";
  }

  lemma BananaHasA() ensures IsMatch("a", "Banana") {
    LowerSpec("Banana");
    assert Lower("Banana")[..1] != "a" && Lower("Banana")[1..][..1] == "a";
  }

  lemma AvocadoHasA() ensures IsMatch("a", "Avocado") {
    LowerSpec("Avocado");
    assert Lower("Avocado")[..1] == "a";
  }

  lemma BananaHasBan() ensures IsMatch("ban", "Banana") {
    LowerSpec("Banana");
    assert Lower("Banana")[..3] == "ban";
  }

  /** A text none of whose characters lower-cases to 'b' does not match "ban". */
  lemma LacksBan(text: string)
    requires forall k :: 0 <= k < |text| ==> text[k] != 'b' && text[k] != 'B'
    ensures !IsMatch("ban", text)
  {
    LowerSpec(text);
    if Contains(Lower(text), "ban") {
      ContainsFirstChar(Lower(text), "ban");
    }
  }

  lemma OthersLackBan()
    ensures !IsMatch("ban", "Apple") && !IsMatch("ban", "Avocado")
  {
    LacksBan("Apple");
    LacksBan("Avocado");
  }

  /** The flags of a three-item page, one per item. */
  lemma FlagsOfThree(q: string, items: seq<Item>)
    requires |items| == 3
    ensures FilterFlags(q, items)
      == [IsMatch(q, items[0].text), IsMatch(q, items[1].text), IsMatch(q, items[2].text)]
  {
  }

  /** Typing "a" keeps all three fruit: the match ignores letter case. */
  lemma FruitScenarioA(w: Widget)
    requires Inv(FruitPage(), w)
    ensures Search(FruitPage(), w.(input := "a")).itemShown == [true, true, true]
  {
    assert Query("a") == "a" by {
      LowerSpec("a");
      assert Lower("a") == "a";
    }
    FlagsOfThree("a", FruitPage().items);
    AppleHasA();
    BananaHasA();
    AvocadoHasA();
  }

  /** Typing " Ban" keeps Banana only: the term is trimmed and lower-cased first. */
  lemma FruitScenarioBan(w: Widget)
    requires Inv(FruitPage(), w)
    ensures Search(FruitPage(), w.(input := " Ban")).itemShown == [false, true, false]
  {
    assert Query(" Ban") == "ban" by {
      LowerSpec(" Ban");
      assert Lower(" Ban") == " ban";
      assert " ban"[1..] == "ban";
      assert TrimStart(" ban") == "ban";
      assert TrimEnd("ban") == "ban";
    }
    FlagsOfThree("ban", FruitPage().items);
    OthersLackBan();
    BananaHasBan();
  }

  // ---------------------------------------------------------------------------
  // Keyboard navigation

  /** With no visible item every key leaves the whole state alone, Escape included. */
  lemma NavigationIgnoredWhenNothingVisible(page: Page, w: Widget, key: Key)
    requires Inv(page, w) && Visible(w) == []
    ensures KeyDown(page, w, key) == w && !PreventsDefault(w, key)
  {
  }

  /** From a hidden container, ArrowDown shows it and focuses the first visible item, ArrowUp the last. */
  lemma ArrowFromHiddenContainer(page: Page, w: Widget)
    requires Inv(page, w) && |Visible(w)| > 0 && !w.containerShown
    ensures var d := KeyDown(page, w, ArrowDown);
      && d.containerShown && d.focusIndex == 0
      && d.(containerShown := w.containerShown, focusIndex := w.focusIndex, focused := w.focused) == w
    ensures var u := KeyDown(page, w, ArrowUp);
      && u.containerShown && u.focusIndex == |Visible(w)| - 1
      && u.(containerShown := w.containerShown, focusIndex := w.focusIndex, focused := w.focused) == w
  {
  }

  /** With the container shown, ArrowDown moves to the next visible item and wraps from the last to the first. */
  lemma ArrowDownWhenShown(page: Page, w: Widget)
    requires Inv(page, w) && |Visible(w)| > 0 && w.containerShown
    ensures var n := |Visible(w)|; var r := KeyDown(page, w, ArrowDown);
      && r.containerShown
      && r.focusIndex == (if w.focusIndex == n - 1 then 0 else w.focusIndex + 1)
      && r.(containerShown := w.containerShown, focusIndex := w.focusIndex, focused := w.focused) == w
  {
    var n, i := |Visible(w)|, w.focusIndex;
    if i == n - 1 {
      ModUnique(i + 1, n, 1, 0);
    } else {
      ModUnique(i + 1, n, 0, i + 1);
    }
  }

  /**
   * With the container shown, ArrowUp moves to the previous visible item and
   * wraps from the first to the last; from no focus (-1) it lands on the
   * second-to-last item, as (-1 - 1 + n) % n gives, when there are two or more.
   */
  lemma ArrowUpWhenShown(page: Page, w: Widget)
    requires Inv(page, w) && |Visible(w)| > 0 && w.containerShown
    ensures var n := |Visible(w)|; var r := KeyDown(page, w, ArrowUp);
      && r.containerShown
      && r.focusIndex == (if w.focusIndex >= 1 then w.focusIndex - 1
                          else if w.focusIndex == 0 || n == 1 then n - 1
                          else n - 2)
      && r.(containerShown := w.containerShown, focusIndex := w.focusIndex, focused := w.focused) == w
  {
    var n, i := |Visible(w)|, w.focusIndex;
    if i >= 1 {
      ModUnique(i - 1 + n, n, 1, i - 1);
    } else if i == 0 {
      ModUnique(n - 1, n, 0, n - 1);
    } else if n == 1 {
      ModUnique(1, 1, 1, 0);
    } else {
      ModUnique(n - 2, n, 0, n - 2);
    }
  }

  /** `k` presses of the same key. */
  function Presses(page: Page, w: Widget, key: Key, k: nat): (r: Widget)
    requires Inv(page, w)
    ensures Inv(page, r) && r.itemShown == w.itemShown
    decreases k
  {
    if k == 0 then w else Presses(page, KeyDown(page, w, key), key, k - 1)
  }

  /**
   * From a focused item with the container shown, up to `n` ArrowDowns move
   * `k` places further on, wrapping past the last visible item.
   */
  lemma {:induction false} ArrowDownSteps(page: Page, w: Widget, k: nat)
    requires Inv(page, w) && |Visible(w)| > 0 && w.containerShown && w.focusIndex >= 0
    requires k <= |Visible(w)|
    ensures var n := |Visible(w)|; var i := w.focusIndex; var r := Presses(page, w, ArrowDown, k);
      r.containerShown && r.focusIndex == if i + k < n then i + k else i + k - n
    decreases k
  {
    if k > 0 {
      var w' := KeyDown(page, w, ArrowDown);
      ArrowDownWhenShown(page, w);
      ArrowDownSteps(page, w', k - 1);
    }
  }

  /**
   * From a focused item with the container shown, up to `n` ArrowUps move
   * `k` places back, wrapping past the first visible item.
   */
  lemma {:induction false} ArrowUpSteps(page: Page, w: Widget, k: nat)
    requires Inv(page, w) && |Visible(w)| > 0 && w.containerShown && w.focusIndex >= 0
    requires k <= |Visible(w)|
    ensures var n := |Visible(w)|; var i := w.focusIndex; var r := Presses(page, w, ArrowUp, k);
      r.containerShown && r.focusIndex == if i - k >= 0 then i - k else i - k + n
    decreases k
  {
    if k > 0 {
      var w' := KeyDown(page, w, ArrowUp);
      ArrowUpWhenShown(page, w);
      ArrowUpSteps(page, w', k - 1);
    }
  }

  /** Pressing ArrowDown as many times as there are visible items comes back to the starting item. */
  lemma ArrowDownCycle(page: Page, w: Widget)
    requires Inv(page, w) && |Visible(w)| > 0 && w.containerShown && w.focusIndex >= 0
    ensures Presses(page, w, ArrowDown, |Visible(w)|).focusIndex == w.focusIndex
  {
    ArrowDownSteps(page, w, |Visible(w)|);
  }

  /** The same for ArrowUp. */
  lemma ArrowUpCycle(page: Page, w: Widget)
    requires Inv(page, w) && |Visible(w)| > 0 && w.containerShown && w.focusIndex >= 0
    ensures Presses(page, w, ArrowUp, |Visible(w)|).focusIndex == w.focusIndex
  {
    ArrowUpSteps(page, w, |Visible(w)|);
  }

  /**
   * After ArrowDown or ArrowUp, among the shown items exactly the one at the
   * focus position carries the `is-focused` mark; hidden items keep theirs.
   */
  lemma FocusSyncMarksOne(page: Page, w: Widget, key: Key)
    requires Inv(page, w) && |Visible(w)| > 0 && (key == ArrowDown || key == ArrowUp)
    ensures var r := KeyDown(page, w, key);
      && 0 <= r.focusIndex < |Visible(r)|
      && (forall i :: 0 <= i < |page.items| && r.itemShown[i] ==>
            (r.focused[i] <==> i == Visible(r)[r.focusIndex]))
      && (forall i :: 0 <= i < |page.items| && !r.itemShown[i] ==> r.focused[i] == w.focused[i])
  {
    var r := KeyDown(page, w, key);
    var shown := w.itemShown;
    assert r.focused == SyncMarks(shown, w.focused, r.focusIndex);
    RankAt(shown, r.focusIndex);
    forall i | 0 <= i < |page.items| && shown[i]
      ensures r.focused[i] <==> i == Visible(r)[r.focusIndex]
    {
      RankOfShown(shown, i);
    }
  }

  /** Enter with a focused autocomplete item copies its trimmed text into the input and hides both blocks. */
  lemma EnterAutocompletes(page: Page, w: Widget, k: nat)
    requires Inv(page, w) && w.focusIndex >= 0 && Visible(w)[w.focusIndex] == k
    requires k < |page.items| && page.items[k].action == Autocomplete
    ensures var r := KeyDown(page, w, Enter); var item := page.items[k];
      && r.input == Trim(item.text)
      && !r.containerShown && !r.noResultsShown
      && r.itemShown == w.itemShown && r.focusIndex == w.focusIndex && r.focused == w.focused
      && r.effects == w.effects
  {
  }

  /** Enter with a focused open-link item clicks its link when it has one, and changes nothing else. */
  lemma EnterOpensLink(page: Page, w: Widget, k: nat)
    requires Inv(page, w) && w.focusIndex >= 0 && Visible(w)[w.focusIndex] == k
    requires k < |page.items| && page.items[k].action == OpenLink
    ensures var r := KeyDown(page, w, Enter);
      && r.effects == w.effects + (if page.items[k].hasLink then [ClickLink(k)] else [])
      && r.(effects := w.effects) == w
  {
  }

  /** Enter without a focused item changes nothing, although it still prevents the default action. */
  lemma EnterWithoutFocus(page: Page, w: Widget)
    requires Inv(page, w) && w.focusIndex == -1
    ensures KeyDown(page, w, Enter) == w
    ensures PreventsDefault(w, Enter) <==> |Visible(w)| > 0
  {
  }

  /** Escape, with something visible, hides both blocks and blurs the input; flags, marks and focus index stay. */
  lemma EscapeHides(page: Page, w: Widget)
    requires Inv(page, w) && |Visible(w)| > 0
    ensures var r := KeyDown(page, w, Escape);
      && !r.containerShown && !r.noResultsShown
      && r.itemShown == w.itemShown && r.focusIndex == w.focusIndex && r.focused == w.focused
      && r.input == w.input && r.effects == w.effects + [BlurInput]
  {
  }

  /** A click outside the form hides both blocks and leaves everything else; a click inside does nothing. */
  lemma OutsideClickHides(page: Page, w: Widget, insideForm: bool)
    requires Inv(page, w)
    ensures var r := DocumentClick(page, w, insideForm);
      && (insideForm ==> r == w)
      && (!insideForm ==>
            && !r.containerShown && !r.noResultsShown
            && r.(containerShown := w.containerShown, noResultsShown := w.noResultsShown) == w)
  {
  }

  /**
   * Only a filter pass changes the visible list: keydown, selection, document
   * clicks and non-Backspace keyups keep every display flag, so a focus index
   * valid before them stays valid after them.
   */
  lemma OnlyFilterChangesVisibleList(page: Page, w: Widget, key: Key, insideForm: bool, k: nat)
    requires Inv(page, w) && k < |page.items|
    ensures Visible(KeyDown(page, w, key)) == Visible(w)
    ensures Visible(Select(page, w, k)) == Visible(w)
    ensures Visible(DocumentClick(page, w, insideForm)) == Visible(w)
    ensures key != Backspace ==> Visible(KeyUp(page, w, key)) == Visible(w)
  {
  }

  // ---------------------------------------------------------------------------
  // Initialisation and focus

  /** The widget starts with both blocks hidden and no focused item. */
  lemma InitialHidesBlocks(page: Page, input: string, shown: seq<bool>)
    requires |shown| == |page.items|
    ensures var w := Initial(page, input, shown);
      !w.containerShown && !w.noResultsShown && w.focusIndex == -1
      && forall i :: 0 <= i < |page.items| ==> !w.focused[i]
  {
  }

  /**
   * Focusing an empty input shows every item and hides the no-results block;
   * the container, shown by the reset, stays shown exactly when there are items
   * because the filter pass that follows decides it again.
   */
  lemma FocusWithEmptyInput(page: Page, w: Widget)
    requires Inv(page, w) && w.input == ""
    ensures var r := Focus(page, w);
      && (forall i :: 0 <= i < |page.items| ==> r.itemShown[i])
      && !r.noResultsShown
      && (r.containerShown <==> |page.items| > 0)
      && r.focusIndex == -1
  {
    var w' := ShowNoResults(page, w.(containerShown := true), false);
    assert Lower("") == "";
    assert Query(w'.input) == "";
    EmptyTermShowsAll(page, w');
  }
}
