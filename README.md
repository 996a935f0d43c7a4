# Advanced search with autocomplete: a verified model

`autocomplete-search-cms.js` turns a Webflow form into a live search box. The
page holds a text input, a results container, a fixed list of result items and,
optionally, a "no results" block. Typing filters the items. An item stays shown
when the lower-cased, trimmed input is empty or occurs in the item's lower-cased
text. The arrow keys move a focus index (`searchFocusedItemIndex`) over the items
that are currently shown. Enter selects the focused item. An `autocomplete` item
copies its trimmed text into the input. An `open-link` item clicks its link.
Escape, or a click outside the form, hides the results.

The model has three modules:

- `JsBuiltins` (`js_builtins.dfy`) models the JavaScript built-ins the widget uses:
  - `toLowerCase`, for ASCII letters;
  - `trim`, with the WhiteSpace and LineTerminator code points of ECMAScript;
  - `includes`;
  - the truncating remainder `%`.
- `AdvancedSearch` (`advanced_search.dfy`) holds the state and the handlers:
  - The value `Widget` is a snapshot of everything the handlers change: the input, each item's display flag and `is-focused` class, the container and no-results flags, the focus index, and the browser calls made so far.
  - Each handler has a pure transition function over `Widget`: `Search`, `ResetSearch`, `KeyDown`, `Select`, `DocumentClick`, `Focus`, `InputChanged`, `KeyUp`.
  - The class `SearchWidget` keeps the same state in fields and updates them step by step, as the script does. Its methods are proved to implement the transition functions and to keep the invariant `Inv`: the focus index is -1 or a position in the current visible list.
  - The visible list is re-derived from the display flags each time, as the script derives it from `style.display`.
- `AdvancedSearchProperties` (`advanced_search_properties.dfy`) proves what the widget promises about those functions.

Behaviour the model keeps as written:

- **ArrowUp from no focus.** With the container shown and the index at -1, ArrowUp computes `(-1 - 1 + n) % n`. With two or more visible items this lands on the second-to-last item, not the last one (`ArrowUpWhenShown`). With one item it gives 0.
- **Escape with nothing visible.** The handler returns before its `switch` when no item is visible. So Escape does not hide the container, nor the no-results block shown in it (`NavigationIgnoredWhenNothingVisible`).
- **Stale focus marks.** A filter pass resets the index but does not clear `is-focused` classes (`FilterResetsFocus`). A later sync touches only the visible items, so a hidden item keeps its old mark (`FocusSyncMarksOne`).
- **Autocomplete does not re-filter.** Selecting an autocomplete item sets the input but does not run a filter pass. The item flags and the index stay as they were (`EnterAutocompletes`).
- **The reset is a plain filter pass.** `resetSearchState` shows the container and hides the no-results block, then runs `performSearch`, which sets both displays again. So a focus event, on an empty input or not, ends in exactly the state a filter pass gives (`ResetSearch`, `Focus`).
- **Negative zero.** For a single visible item, `(-1 - 1 + 1) % 1` is `-0` in JavaScript. As an array index and under `===` it behaves as 0, which is how `Rem` models it.

## Model

| member | source | states |
|---|---|---|
| JsBuiltins.LowerSpec | autocomplete-search-cms.js:55 | lower-casing keeps the length, maps each character on its own and leaves no upper-case ASCII letter |
| JsBuiltins.TrimSpec | autocomplete-search-cms.js:55 | `trim` keeps the infix of the string between a white-space prefix and a white-space suffix; that infix starts and ends with a non-space character |
| JsBuiltins.TrimIdempotent | autocomplete-search-cms.js:140 | trimming a trimmed text changes nothing |
| JsBuiltins.ContainsIff | autocomplete-search-cms.js:61 | `includes` is true iff the pattern occurs at some position of the text |
| JsBuiltins.RemSpec | autocomplete-search-cms.js:105-107 | the remainder takes the dividend's sign, is smaller than the divisor in size, and differs from the dividend by a multiple of it |
| AdvancedSearch.FilterFlags | autocomplete-search-cms.js:58-64 | one display flag per item, each equal to the match predicate on that item's text |
| AdvancedSearch.ShowNoResults | autocomplete-search-cms.js:41-45 | setting the no-results display changes only that flag, and does nothing when the block is absent |
| AdvancedSearch.Initial | autocomplete-search-cms.js:203-204 | the start state keeps the invariant, hides both blocks and has index -1 |
| AdvancedSearch.Search | autocomplete-search-cms.js:54-82 | filter pass: flags are the match results; container shown iff some match or a non-empty term; no-results shown iff the block exists, nothing matched and the term is non-empty; index -1; input, marks and browser calls untouched |
| AdvancedSearch.ResetSearch | autocomplete-search-cms.js:47-51 | the reset keeps the invariant, leaves index -1, and ends in exactly the state a plain filter pass gives, because that pass overwrites both displays the reset sets |
| AdvancedSearch.NextIndex | autocomplete-search-cms.js:105 | from any index in [-1, n), ArrowDown's `(i + 1) % n` lies in [0, n) |
| AdvancedSearch.PrevIndex | autocomplete-search-cms.js:106-107 | from any index in [-1, n), ArrowUp's `(i - 1 + n) % n` lies in [0, n) |
| AdvancedSearch.SyncMarks | autocomplete-search-cms.js:146-149 | one mark per item; hidden items keep their mark |
| AdvancedSearch.Select | autocomplete-search-cms.js:134-144 | selection keeps the invariant and never changes item flags, marks or the index |
| AdvancedSearch.KeyDown | autocomplete-search-cms.js:84-125 | every key keeps the invariant and the item flags |
| AdvancedSearch.DocumentClick | autocomplete-search-cms.js:127-132 | a document click keeps the invariant, the item flags, the marks and the index |
| AdvancedSearch.Focus | autocomplete-search-cms.js:173-175 | focusing the input keeps the invariant, leaves index -1, and ends in the state of a plain filter pass, whether the input is empty or not |
| AdvancedSearch.InputChanged | autocomplete-search-cms.js:172 | an input event stores the new value and runs a filter pass, leaving index -1 |
| AdvancedSearch.KeyUp | autocomplete-search-cms.js:176-179 | a keyup other than Backspace changes nothing |
| AdvancedSearch.VisibleIndicesSpec | autocomplete-search-cms.js:85-87 | the visible list holds exactly the positions of the shown items, each once, in page order |
| AdvancedSearch.VisibleAt | autocomplete-search-cms.js:115 | the entry at a visible position is a shown item of the page |
| AdvancedSearch.RankAt | autocomplete-search-cms.js:147-148 | the item at visible position k has exactly k shown items before it |
| AdvancedSearch.SearchWidget.constructor | autocomplete-search-cms.js:203-204 | the widget starts in `Initial`: both blocks hidden, index -1, no marks |
| AdvancedSearch.SearchWidget.SetNoResultsVisibility | autocomplete-search-cms.js:41-45 | the new state is `ShowNoResults` of the old one |
| AdvancedSearch.SearchWidget.FilterItems | autocomplete-search-cms.js:58-64 | the `forEach` loop sets each flag to the match result and returns whether any item matched; nothing else changes |
| AdvancedSearch.SearchWidget.PerformSearch | autocomplete-search-cms.js:54-82 | the new state is `Search` of the old one, and the invariant holds |
| AdvancedSearch.SearchWidget.ResetSearchState | autocomplete-search-cms.js:47-51 | the new state is `ResetSearch` of the old one |
| AdvancedSearch.SearchWidget.UpdateFocusedItem | autocomplete-search-cms.js:146-149 | the toggle loop leaves the marks equal to `SyncMarks` and changes nothing else |
| AdvancedSearch.SearchWidget.HandleResultItemSelection | autocomplete-search-cms.js:134-144 | the new state is `Select` of the old one |
| AdvancedSearch.SearchWidget.HandleKeyboardNavigation | autocomplete-search-cms.js:84-125 | the new state is `KeyDown` of the old one; `preventDefault` is called iff an item is visible and the key is an arrow or Enter |
| AdvancedSearch.SearchWidget.HandleOutsideClick | autocomplete-search-cms.js:127-132 | the new state is `DocumentClick` of the old one |
| AdvancedSearch.SearchWidget.OnFocus | autocomplete-search-cms.js:173-175 | the new state is `Focus` of the old one |
| AdvancedSearch.SearchWidget.OnInput | autocomplete-search-cms.js:172 | the new state is `InputChanged` of the old one |
| AdvancedSearch.SearchWidget.OnKeyUp | autocomplete-search-cms.js:176-179 | the new state is `KeyUp` of the old one |
| AdvancedSearchProperties.LowerIdempotent | autocomplete-search-cms.js:55 | lower-casing twice is lower-casing once |
| AdvancedSearchProperties.QueryCaseInsensitive | autocomplete-search-cms.js:55 | the search term does not depend on the input's letter case |
| AdvancedSearchProperties.MatchCaseInsensitive | autocomplete-search-cms.js:61 | whether an item matches does not depend on its text's letter case |
| AdvancedSearchProperties.QueryNormalised | autocomplete-search-cms.js:55 | the search term has no upper-case ASCII letter and no white space at either end |
| AdvancedSearchProperties.QueryIdempotent | autocomplete-search-cms.js:55 | normalising a search term again gives the same term |
| AdvancedSearchProperties.MatchIff | autocomplete-search-cms.js:59-61 | an item matches iff the term is empty or occurs at some position of its lower-cased text |
| AdvancedSearchProperties.FilterShowsExactlyMatches | autocomplete-search-cms.js:55-64 | after a filter pass, item i is shown, and so in the visible list, iff the term is empty or occurs in its lower-cased text |
| AdvancedSearchProperties.FilterBlocks | autocomplete-search-cms.js:66-81 | no-results shown iff the block exists, nothing matched and the term is non-empty; container shown iff some item matched or the term is non-empty; the visible list is non-empty iff some item matched |
| AdvancedSearchProperties.FilterResetsFocus | autocomplete-search-cms.js:75 | every filter pass sets the index to -1 and leaves the input, marks and browser calls alone |
| AdvancedSearchProperties.EmptyTermShowsAll | autocomplete-search-cms.js:60 | an empty term shows every item, hides no-results, and shows the container iff there are items |
| AdvancedSearchProperties.VisibleCoversAll | autocomplete-search-cms.js:85-87 | when every flag is set, every item is visible |
| AdvancedSearchProperties.NoMatchShowsEmptyState | autocomplete-search-cms.js:77-81 | a non-empty term matching nothing keeps the container shown, shows no-results when it exists, and leaves nothing visible |
| AdvancedSearchProperties.FruitScenarioA | autocomplete-search-cms.js:55-64 | with items Apple, Banana and Avocado, typing "a" shows all three |
| AdvancedSearchProperties.FruitScenarioBan | autocomplete-search-cms.js:55-64 | with the same items, typing " Ban" shows Banana only |
| AdvancedSearchProperties.NavigationIgnoredWhenNothingVisible | autocomplete-search-cms.js:85-89 | with no visible item every key, Escape included, changes no state and prevents no default |
| AdvancedSearchProperties.ArrowFromHiddenContainer | autocomplete-search-cms.js:95-101 | from a hidden container, ArrowDown shows it at index 0 and ArrowUp at the last visible position; only the container flag, the index and the marks change |
| AdvancedSearchProperties.ArrowDownWhenShown | autocomplete-search-cms.js:102-105 | with the container shown, ArrowDown moves to i + 1 and wraps from n - 1 to 0; only the container flag, the index and the marks change |
| AdvancedSearchProperties.ArrowUpWhenShown | autocomplete-search-cms.js:102-107 | with the container shown, ArrowUp moves to i - 1, wraps from 0 to n - 1, and goes from -1 to n - 2 when n >= 2; only the container flag, the index and the marks change |
| AdvancedSearchProperties.Presses | autocomplete-search-cms.js:84-110 | repeated key presses keep the invariant and the item flags |
| AdvancedSearchProperties.ArrowDownSteps | autocomplete-search-cms.js:102-105 | k <= n ArrowDowns from a focused item move k places on, modulo n |
| AdvancedSearchProperties.ArrowUpSteps | autocomplete-search-cms.js:106-107 | k <= n ArrowUps from a focused item move k places back, modulo n |
| AdvancedSearchProperties.ArrowDownCycle | autocomplete-search-cms.js:102-105 | n ArrowDowns from a focused item return to it |
| AdvancedSearchProperties.ArrowUpCycle | autocomplete-search-cms.js:106-107 | n ArrowUps from a focused item return to it |
| AdvancedSearchProperties.FocusSyncMarksOne | autocomplete-search-cms.js:146-149 | after an arrow key, among the shown items exactly the one at the index is marked; hidden items keep their marks |
| AdvancedSearchProperties.EnterAutocompletes | autocomplete-search-cms.js:111-118 | Enter on a focused autocomplete item sets the input to its trimmed text and hides both blocks; flags, marks, index and browser calls stay |
| AdvancedSearchProperties.EnterOpensLink | autocomplete-search-cms.js:134-138 | Enter on a focused open-link item clicks its link when it has one, and changes nothing else |
| AdvancedSearchProperties.EnterWithoutFocus | autocomplete-search-cms.js:111-118 | Enter with index -1 changes nothing, yet still prevents the default when an item is visible |
| AdvancedSearchProperties.EscapeHides | autocomplete-search-cms.js:119-123 | Escape with something visible hides both blocks and blurs the input; flags, marks, index and input stay |
| AdvancedSearchProperties.OutsideClickHides | autocomplete-search-cms.js:127-132 | a click outside the form hides both blocks and changes nothing else; a click inside changes nothing |
| AdvancedSearchProperties.OnlyFilterChangesVisibleList | autocomplete-search-cms.js:84-144 | keydown, selection, document clicks and other keyups keep the visible list, so only a filter pass can change it |
| AdvancedSearchProperties.InitialHidesBlocks | autocomplete-search-cms.js:203-204 | the widget starts with both blocks hidden, index -1 and no item marked |
| AdvancedSearchProperties.FocusWithEmptyInput | autocomplete-search-cms.js:47-51 | focusing an empty input shows every item, hides no-results, leaves the container shown iff there are items, and sets index -1 |

## Left out

- Finding the elements (lines 9-35): the model starts with the required form, input and container present. The item list and whether the no-results block exists are parameters. `console.warn` is not modelled.
- Wiring the listeners, the Webflow `push`/`load` hook, suppressing form submission and the Ctrl/Cmd+K shortcut (lines 171-200, 205-216) are not modelled. The handlers they attach are modelled one by one: `OnInput`, `OnFocus`, `OnKeyUp`, `HandleKeyboardNavigation`, `HandleOutsideClick`.
- Scrolling the focused item into view (lines 150-167) is not modelled. It works on floating-point pixel rectangles from `getBoundingClientRect` and `getComputedStyle`.
- `linkElement.click()` and `searchInput.blur()` (lines 122, 138) are foreign browser calls. They are recorded only as the `ClickLink` and `BlurInput` effects; what the browser does next is not modelled.
- `event.target` inside the form (line 128) is a boolean parameter; the DOM containment test is not modelled.
- Lower: models `toLowerCase` for the ASCII letters only. Other characters are left unchanged, so Unicode case mapping is not modelled.
- Trim: removes exactly the ECMAScript WhiteSpace and LineTerminator code points, each as one UTF-16 code unit; `string` here is a sequence of `char`.
- Rem: models `%` only for a positive divisor, the only use in the script. JavaScript's `-0` result is modelled as 0.
- Each item's display flag before the first filter pass is a constructor parameter, because the script never sets it. The container test (lines 95-98) treats an empty `style.display` as hidden; the model starts with the container hidden, as line 203 sets it.
- Each item's `is-focused` class starts unset. The script never reads the class back.
- Item text is its `textContent`; how it is assembled from child nodes is not modelled.
