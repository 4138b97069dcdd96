/**
 * The "go to next/previous alive, dead or with-info host" actions.
 *
 * Starting from the table's current selection, the action walks the rows one
 * step at a time in its direction and selects the first row whose result type
 * the wanted type matches. If it reaches the end of the table without a match
 * and it started from a row inside the table, it deselects everything and runs
 * once more, which makes it start from the opposite end.
 */
module StatusNavigation {
  import opened Wrappers
  import opened Directions

  /** The classification of one scanned host, as the result table shows it. */
  datatype ResultType = Unknown | Dead | Alive | WithPorts

  /** The outcome of one action: the row it selected, and how often it rewound. */
  datatype Navigation = Navigation(selected: Option<nat>, rewinds: nat)

  /** The table's selection index: a row, or -1 when nothing is selected. */
  predicate ValidSelection(selection: int, itemCount: nat)
  {
    -1 <= selection < itemCount
  }

  /** Row `i` exists and the wanted type matches its result type. */
  predicate IsMatch(rows: seq<ResultType>, matches: ResultType -> bool, i: int)
  {
    0 <= i < |rows| && matches(rows[i])
  }

  /** No row with an index in `[lo, hi)` matches. */
  predicate NoMatchIn(rows: seq<ResultType>, matches: ResultType -> bool, lo: int, hi: int)
  {
    forall k :: lo <= k < hi && 0 <= k < |rows| ==> !matches(rows[k])
  }

  /**
   * Where the walk starts: the selection going forward; going backward the
   * selection too, except that "no selection" starts past the last row.
   */
  function StartIndex(d: Direction, selection: int, itemCount: nat): (r: int)
    ensures d == Next ==> r == selection
    ensures d == Prev && selection >= 0 ==> r == selection
    ensures d == Prev && selection < 0 ==> r == itemCount
    ensures ValidSelection(selection, itemCount) ==> (0 <= r < itemCount <==> selection >= 0)
  {
    if d == Prev && selection < 0 then itemCount else selection
  }

  /**
   * The walk over the rows from index `i` onwards in direction `d`, while
   * the index stays inside the table; the first matching row is returned.
   */
  function Scan(rows: seq<ResultType>, matches: ResultType -> bool, d: Direction, i: int): (r: Option<nat>)
    ensures r.Some? ==> IsMatch(rows, matches, r.value)
    ensures d == Next && r.Some? ==> i <= r.value && NoMatchIn(rows, matches, i, r.value)
    ensures d == Prev && r.Some? ==> r.value <= i && NoMatchIn(rows, matches, r.value + 1, i + 1)
    ensures d == Next && r.None? && 0 <= i ==> NoMatchIn(rows, matches, i, |rows|)
    ensures d == Prev && r.None? && i < |rows| ==> NoMatchIn(rows, matches, 0, i + 1)
    decreases if d == Next then |rows| - i else i + 1
  {
    if !(0 <= i < |rows|) then None
    else if matches(rows[i]) then Some(i)
    else Scan(rows, matches, d, i + d.Step())
  }

  /**
   * One "go to next/previous host" action, started with the given table
   * selection. After a fruitless walk from a row inside the table, the
   * selection is cleared and the action runs again; the cleared selection
   * starts outside the table, so the second run never rewinds.
   */
  function Navigate(rows: seq<ResultType>, matches: ResultType -> bool, d: Direction, selection: int): (r: Navigation)
    ensures r.rewinds <= 1
    ensures r.selected.Some? ==> IsMatch(rows, matches, r.selected.value)
    ensures r.rewinds == 1 ==> 0 <= StartIndex(d, selection, |rows|) < |rows|
    ensures |rows| == 0 ==> r == Navigation(None, 0)
    ensures ValidSelection(selection, |rows|) && r.selected.None? ==> NoMatchIn(rows, matches, 0, |rows|)
    decreases if selection >= 0 then 1 else 0
  {
    var start := StartIndex(d, selection, |rows|);
    match Scan(rows, matches, d, start + d.Step())
    case Some(i) => Navigation(Some(i), 0)
    case None =>
      if 0 <= start < |rows| then
        var again := Navigate(rows, matches, d, -1);
        Navigation(again.selected, again.rewinds + 1)
      else
        Navigation(None, 0)
  }

  /**
   * The table's selection after the action: the selected row, or -1 when
   * the action deselected everything to rewind, or the old selection when
   * it neither selected nor rewound.
   */
  function SelectionAfter(nav: Navigation, selection: int): (r: int)
    ensures nav.selected.Some? ==> r == nav.selected.value
    ensures nav.selected.None? && nav.rewinds > 0 ==> r == -1
    ensures r != selection ==> nav.selected.Some? || nav.rewinds > 0
  {
    match nav.selected
    case Some(i) => i
    case None => if nav.rewinds > 0 then -1 else selection
  }

  /**
   * Going forward from selection `s`, the action selects the smallest index
   * after `s` whose row matches, whenever there is one.
   */
  lemma NextSelectsFirstMatchAfter(rows: seq<ResultType>, matches: ResultType -> bool, s: int)
    requires ValidSelection(s, |rows|)
    requires !NoMatchIn(rows, matches, s + 1, |rows|)
    ensures var r := Navigate(rows, matches, Next, s);
      r.rewinds == 0 && r.selected.Some? && s < r.selected.value &&
      IsMatch(rows, matches, r.selected.value) && NoMatchIn(rows, matches, s + 1, r.selected.value)
  {
  }

  /**
   * Going backward from a selected row `s`, the action selects the largest
   * index before `s` whose row matches, whenever there is one.
   */
  lemma PrevSelectsLastMatchBefore(rows: seq<ResultType>, matches: ResultType -> bool, s: int)
    requires 0 <= s < |rows|
    requires !NoMatchIn(rows, matches, 0, s)
    ensures var r := Navigate(rows, matches, Prev, s);
      r.rewinds == 0 && r.selected.Some? && r.selected.value < s &&
      IsMatch(rows, matches, r.selected.value) && NoMatchIn(rows, matches, r.selected.value + 1, s)
  {
  }

  /**
   * Going backward with nothing selected starts past the last row, so the
   * action selects the last matching row of the whole table, and never rewinds.
   */
  lemma PrevFromNoSelectionSelectsLastMatch(rows: seq<ResultType>, matches: ResultType -> bool)
    ensures var r := Navigate(rows, matches, Prev, -1);
      r.rewinds == 0 &&
      (r.selected.Some? <==> !NoMatchIn(rows, matches, 0, |rows|)) &&
      (r.selected.Some? ==> NoMatchIn(rows, matches, r.selected.value + 1, |rows|))
  {
  }

  /**
   * When nothing matches beyond a selected row, the action rewinds exactly
   * once and selects the first (forward) or last (backward) matching row of
   * the whole table, which may be the selected row itself.
   */
  lemma RewindSelectsFirstOrLastMatch(rows: seq<ResultType>, matches: ResultType -> bool, d: Direction, s: int)
    requires 0 <= s < |rows|
    requires d == Next ==> NoMatchIn(rows, matches, s + 1, |rows|)
    requires d == Prev ==> NoMatchIn(rows, matches, 0, s)
    ensures var r := Navigate(rows, matches, d, s);
      r.rewinds == 1 &&
      (r.selected.Some? <==> !NoMatchIn(rows, matches, 0, |rows|)) &&
      (r.selected.Some? && d == Next ==> NoMatchIn(rows, matches, 0, r.selected.value)) &&
      (r.selected.Some? && d == Prev ==> NoMatchIn(rows, matches, r.selected.value + 1, |rows|))
  {
  }

  /**
   * If some row matches, the action started from any selection the table can
   * report ends with a matching row selected; if none does, it ends with
   * nothing selected.
   */
  lemma NavigateFindsAnyMatch(rows: seq<ResultType>, matches: ResultType -> bool, d: Direction, s: int)
    requires ValidSelection(s, |rows|)
    ensures var r := Navigate(rows, matches, d, s);
      (r.selected.Some? <==> !NoMatchIn(rows, matches, 0, |rows|)) &&
      (r.selected.None? ==> SelectionAfter(r, s) == -1) &&
      (r.selected.Some? ==> IsMatch(rows, matches, SelectionAfter(r, s)))
  {
  }
}
