# Goto actions of Angry IP Scanner, modelled in Dafny

This project models the result-navigation logic of the scanner's GUI
(`GotoMenuActions`). It has two parts.

- **Status navigation** (`StatusNavigation`). The "next/previous alive, dead
  or with-info host" actions walk the result table from the current
  selection, one row at a time, and select the first row whose result type
  matches. If a walk that started on a row reaches the end of the table, the
  action deselects everything and runs again, so it starts from the opposite
  end. The model is the pure function `Navigate` over the row types. It
  returns the selected row and the number of rewinds.
- **Text find** (`TextFind`). The search bar first sets the direction. The
  setter accepts NEXT = 1 and PREV = -1 and refuses everything else. The
  search then decides whether the previous highlights must be cleared,
  because the text changed. Its candidate row is the selection plus the
  direction. It selects one of the rows that the result list reports as
  containing the text. Going backward from before the first match wraps to
  the last match. A candidate that is itself a match is kept. Any other
  candidate falls back to the first match.

The rows' matching test (`ResultType.matches`) and the result list's text
search (`ScanningResultList.findText`) are not part of this model. The
first is the parameter `matches`. The second is the parameter `found`, a list
of indexes. Sortedness of that list is assumed only where a lemma says so
(`StrictlyIncreasing`). The shared `Direction` type (`Directions`) stands for
both the `inc` override of the status actions and the integer constant of the
search.

Notes on the code as written:
- The restart offer (lines 219-221) is guarded by a non-empty match list. The
  branch just before it has already returned in that case. So with no
  matches the search always reports "not found", and the restart offer is
  never made. `TextFind.FindText` models the guard as written, and
  `TextFind.RestartNeverOffered` proves the offer is never produced.
- `getStartIndex` reads the first found index before anything else. It throws
  on an empty list, so `GetStartIndex` requires a non-empty list. Its only
  caller guarantees one.
- Going backward, a candidate that is not a match falls back to the first
  match, not to the nearest earlier one. The model keeps this
  (`TextFind.MissFallsBackToFirstMatch`).

## Model

| member | source | states |
|---|---|---|
| Directions.FromInt | src/net/azib/ipscan/gui/actions/GotoMenuActions.java:160-165 | a value is a direction exactly when it is NEXT (1) or PREV (-1), and the direction's step is that value |
| Directions.FromIntStep | src/net/azib/ipscan/gui/actions/GotoMenuActions.java:133-135 | turning a direction into its constant and checking it again gives the same direction back |
| Directions.Direction.Step | src/net/azib/ipscan/gui/actions/GotoMenuActions.java:40-42 | a direction moves by exactly one row, forward (+1) for Next and backward (-1) for Prev, as the two `inc` overrides do (also lines 80-82) |
| StatusNavigation.StartIndex | src/net/azib/ipscan/gui/actions/GotoMenuActions.java:84-87 | forward the walk starts at the selection (lines 44-46); backward too, except that no selection starts at the item count; for a selection the table can report, the start is a row of the table exactly when a row is selected |
| StatusNavigation.Scan | src/net/azib/ipscan/gui/actions/GotoMenuActions.java:54-63 | the walk returns a matching row, and no row between the start and that row matches; if it returns nothing, no row from the start to the end it walks toward matches |
| StatusNavigation.Navigate | src/net/azib/ipscan/gui/actions/GotoMenuActions.java:48-70 | any selected row exists and matches; the action rewinds at most once, and only when it started on a row of the table; an empty table never rewinds and selects nothing; from a valid selection, nothing is selected only when no row matches |
| StatusNavigation.SelectionAfter | src/net/azib/ipscan/gui/actions/GotoMenuActions.java:58-68 | after the action the table selects the row it chose (line 58), or nothing when it deselected to rewind (line 67); otherwise the selection is unchanged |
| StatusNavigation.NextSelectsFirstMatchAfter | src/net/azib/ipscan/gui/actions/GotoMenuActions.java:40-61 | going forward from selection s selects the smallest matching index after s, without rewinding, whenever one exists |
| StatusNavigation.PrevSelectsLastMatchBefore | src/net/azib/ipscan/gui/actions/GotoMenuActions.java:74-88 | going backward from a selected row s selects the largest matching index before s, without rewinding, whenever one exists |
| StatusNavigation.PrevFromNoSelectionSelectsLastMatch | src/net/azib/ipscan/gui/actions/GotoMenuActions.java:84-87 | going backward with no selection starts past the last row: it selects the last matching row of the table when there is one, and never rewinds |
| StatusNavigation.RewindSelectsFirstOrLastMatch | src/net/azib/ipscan/gui/actions/GotoMenuActions.java:65-69 | when nothing matches beyond a selected row, exactly one rewind happens; the first (forward) or last (backward) matching row of the whole table is selected, possibly the start row itself |
| StatusNavigation.NavigateFindsAnyMatch | src/net/azib/ipscan/gui/actions/GotoMenuActions.java:54-69 | from any selection the table can report, a row is selected exactly when some row matches; otherwise the table ends with nothing selected |
| TextFind.SetSearchDirection | src/net/azib/ipscan/gui/actions/GotoMenuActions.java:160-165 | only 1 and -1 are accepted, and they set the direction to that value and keep the last text; any other value raises an illegal-argument error carrying the value |
| TextFind.GetStartIndex | src/net/azib/ipscan/gui/actions/GotoMenuActions.java:266-289 | the result is always a found index: backward from before the first match it is the last match; otherwise it is the candidate if that is a match, else the first match |
| TextFind.ContainsIndex | src/net/azib/ipscan/gui/actions/GotoMenuActions.java:275-283 | the membership loop answers true exactly when the candidate is one of the found indexes |
| TextFind.ChooseStartIndex | src/net/azib/ipscan/gui/actions/GotoMenuActions.java:266-289 | the step-by-step wrap, membership loop and fallback choose the same row as GetStartIndex |
| TextFind.FindText | src/net/azib/ipscan/gui/actions/GotoMenuActions.java:195-226 | a clear is requested exactly when the text differs from the last text; the last text becomes the text and the direction is kept; a row is selected, and all matches are highlighted, exactly when there are matches, and the selected row is the start-index choice for the candidate selection plus direction (so the backward wrap and the fallback apply to the search itself); with no matches the outcome is "not found" |
| TextFind.FindSelectsNeighbouringMatch | src/net/azib/ipscan/gui/actions/GotoMenuActions.java:204-212 | with matches in increasing order, the candidate row (selection plus direction) is selected whenever it is a match |
| TextFind.PrevWrapsToLastMatch | src/net/azib/ipscan/gui/actions/GotoMenuActions.java:270-273 | going backward from before the first match selects the last match, which is the largest match when the matches are in increasing order |
| TextFind.MissFallsBackToFirstMatch | src/net/azib/ipscan/gui/actions/GotoMenuActions.java:285-287 | a candidate that is not a match, and is not before the first match, falls back to the smallest match in either direction |
| TextFind.FindPrevWrapsToLastMatch | src/net/azib/ipscan/gui/actions/GotoMenuActions.java:204-210 | going backward with a candidate before the first match, the search selects the last match, the largest one when matches are in increasing order |
| TextFind.FindPrevWrapExample | src/net/azib/ipscan/gui/actions/GotoMenuActions.java:270-273 | with matches at rows 0 and 2 and row 0 selected, a backward search selects row 2 |
| TextFind.RestartNeverOffered | src/net/azib/ipscan/gui/actions/GotoMenuActions.java:208-225 | for all inputs, the search never offers to restart |
| TextFind.RepeatedSearchKeepsHighlights | src/net/azib/ipscan/gui/actions/GotoMenuActions.java:198-202 | searching again for the same text requests no clearing and leaves the state as the first search left it |
| TextFind.FirstSearchFromInitial | src/net/azib/ipscan/gui/actions/GotoMenuActions.java:142-153 | a new search goes forward with an empty last text, so its first search requests a clear exactly when the text is not empty |

## Left out

- `SearchBar`: widget construction, layout and its singleton. Its `find` only sets the direction (`TextFind.SetSearchDirection`) and calls the search.
- The native pinger declarations (`WindowsPinger.h`): foreign functions without bodies, unrelated to navigation.
- Highlight and clear rendering (`clearHighlights`, `highlightMatches`): deferred drawing on the UI thread. The model only records the requests (`clearRequested`, `Found.highlighted`). Rows with empty text are not painted, and that is also left out.
- The dialogs (`showNotFoundDialog`, `showRestartDialog`), label lookups and status-bar text: these are UI and localisation. The restart dialog's re-search and its reset to row 0 are never reached, so they are left out too.
- `Find.handleEvent`: it only returns early on a null text and sets and clears the status-bar text around the search.
- `ResultType.matches` and `ScanningResultList.findText`: their bodies are not part of this model. They are the `matches` and `found` parameters.
- Dependency-injection constructors, the `NextAliveHost`-style subclasses (a fixed `matches` each) and the `instance`/`getInstance` singleton.
- The search direction is a static field of the source, shared by all instances. The model keeps it in `FindState` with the last text. Before the first instance is constructed, the field is 0. The model starts from `Initial` (NEXT).
- TextFind.GetStartIndex: Java's 32-bit `int` subtraction on line 271 is not modelled. The candidate is at least -2 and found indexes are row indexes, so it cannot overflow.
