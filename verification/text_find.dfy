/**
 * The text search of the result table ("Find", driven by the search bar's
 * previous/next buttons).
 *
 * The direction is a value of the search (NEXT or PREV) that is set, and
 * checked, before each search. The search remembers the last text it looked
 * for: a different text asks for the previous highlights to be cleared. The
 * rows that contain the text come from the result list as a list of indexes;
 * the search selects one of them, starting from the row after (or before)
 * the current selection.
 */
module TextFind {
  import opened Wrappers
  import opened Directions

  /** What the search keeps between two searches. */
  datatype FindState = FindState(direction: Direction, lastText: string)

  /** The error the direction setter raises for a value that is no direction. */
  datatype DirectionError = IllegalArgument(value: int)

  /**
   * What one search asks the table to do: select a row and highlight all
   * matches, offer to restart from the top, or report that nothing was found.
   */
  datatype FindOutcome = Found(index: int, highlighted: seq<int>) | OfferRestart | NotFound

  /** The result of one search: the state it leaves, and the requests it makes. */
  datatype FindStep = FindStep(state: FindState, clearRequested: bool, outcome: FindOutcome)

  /** The state of a freshly constructed search: going forward, no text yet. */
  const Initial: FindState := FindState(Next, "")

  /** Indexes in strictly increasing order, as the result list reports rows. */
  predicate StrictlyIncreasing(found: seq<int>)
  {
    forall i, j :: 0 <= i < j < |found| ==> found[i] < found[j]
  }

  /**
   * Sets the search direction. Only NEXT and PREV are accepted; any other
   * value raises an illegal-argument error and the state stays as it was.
   */
  function SetSearchDirection(st: FindState, value: int): (r: Result<FindState, DirectionError>)
    ensures r.Success? <==> (value == NEXT || value == PREV)
    ensures r.Success? ==> r.value.direction.Step() == value && r.value.lastText == st.lastText
    ensures r.Failure? ==> r.error == IllegalArgument(value)
  {
    match FromInt(value)
    case Some(d) => Success(st.(direction := d))
    case None => Failure(IllegalArgument(value))
  }

  /**
   * Chooses the row to select among the found rows, for the candidate index
   * `start`. Going backward, a candidate before the first found index wraps
   * to the last found index. A candidate that is one of the found indexes is
   * kept; any other candidate falls back to the first found index. The first
   * found index is read unconditionally, so the list must not be empty.
   */
  function GetStartIndex(start: int, found: seq<int>, d: Direction): (r: int)
    requires |found| > 0
    ensures r in found
    ensures d == Prev && start < found[0] ==> r == found[|found| - 1]
    ensures !(d == Prev && start < found[0]) && start in found ==> r == start
    ensures !(d == Prev && start < found[0]) && start !in found ==> r == found[0]
  {
    var candidate := if start - found[0] < 0 && d == Prev then found[|found| - 1] else start;
    if candidate in found then candidate else found[0]
  }

  /**
   * The membership loop of the start-index choice: whether the candidate is
   * one of the found indexes, stopping at the first hit.
   */
  method ContainsIndex(found: seq<int>, start: int) returns (foundValidIndex: bool)
    ensures foundValidIndex <==> start in found
  {
    foundValidIndex := false;
    var i := 0;
    while i < |found| && !foundValidIndex
      invariant 0 <= i <= |found|
      invariant foundValidIndex <==> start in found[..i]
      decreases |found| - i
    {
      if start == found[i] {
        foundValidIndex := true;
      }
      i := i + 1;
    }
    assert !foundValidIndex ==> found[..i] == found;
  }

  /**
   * The start-index choice step by step as the source writes it (wrap,
   * membership loop, fallback); it agrees with `GetStartIndex`.
   */
  method ChooseStartIndex(start: int, found: seq<int>, d: Direction) returns (r: int)
    requires |found| > 0
    ensures r == GetStartIndex(start, found, d)
  {
    r := start;
    if r - found[0] < 0 && d == Prev {
      r := found[|found| - 1];
    }
    var foundValidIndex := ContainsIndex(found, r);
    if !foundValidIndex && |found| > 0 {
      r := found[0];
    }
  }

  /**
   * One text search for `text`, with the table selection `selection` (-1
   * when nothing is selected) and the rows the result list reports as
   * containing the text. The restart offer is guarded by a non-empty match
   * list, which the found branch has already handled, so it is never made.
   */
  function FindText(st: FindState, text: string, selection: int, found: seq<int>): (r: FindStep)
    ensures r.clearRequested <==> text != st.lastText
    ensures r.state == FindState(st.direction, text)
    ensures |found| > 0 <==> r.outcome.Found?
    ensures r.outcome.Found? ==> r.outcome.index in found && r.outcome.highlighted == found
    ensures r.outcome.Found? ==>
      r.outcome.index == GetStartIndex(selection + st.direction.Step(), found, st.direction)
    ensures |found| == 0 ==> r.outcome == NotFound
  {
    var clear := text != st.lastText;
    var st' := st.(lastText := text);
    var start := selection + st.direction.Step();
    if |found| > 0 then
      FindStep(st', clear, Found(GetStartIndex(start, found, st.direction), found))
    else if start > 0 && |found| > 0 then
      FindStep(st', clear, OfferRestart)
    else
      FindStep(st', clear, NotFound)
  }

  /**
   * The search selects the row one step from the selection in its direction
   * whenever that row is a match, given matches in increasing order.
   */
  lemma FindSelectsNeighbouringMatch(st: FindState, text: string, selection: int, found: seq<int>)
    requires StrictlyIncreasing(found)
    requires selection + st.direction.Step() in found
    ensures FindText(st, text, selection, found).outcome
         == Found(selection + st.direction.Step(), found)
  {
  }

  /**
   * Going backward from before the first match wraps to the last match,
   * which for matches in increasing order is the largest one.
   */
  lemma PrevWrapsToLastMatch(start: int, found: seq<int>)
    requires |found| > 0 && StrictlyIncreasing(found)
    requires start < found[0]
    ensures var r := GetStartIndex(start, found, Prev);
      r == found[|found| - 1] && forall k :: 0 <= k < |found| ==> found[k] <= r
  {
  }

  /**
   * A candidate that is no match falls back to the first (smallest) match in
   * either direction; going backward this is not the nearest earlier match.
   */
  lemma MissFallsBackToFirstMatch(start: int, found: seq<int>, d: Direction)
    requires |found| > 0 && StrictlyIncreasing(found)
    requires found[0] <= start && start !in found
    ensures var r := GetStartIndex(start, found, d);
      r == found[0] && forall k :: 0 <= k < |found| ==> r <= found[k]
  {
  }

  /**
   * Going backward from a selection whose candidate lies before the first
   * match, the search selects the last match; with matches in increasing
   * order that is the largest one.
   */
  lemma FindPrevWrapsToLastMatch(st: FindState, text: string, selection: int, found: seq<int>)
    requires st.direction == Prev && |found| > 0 && StrictlyIncreasing(found)
    requires selection - 1 < found[0]
    ensures var r := FindText(st, text, selection, found);
      r.outcome == Found(found[|found| - 1], found) &&
      forall k :: 0 <= k < |found| ==> found[k] <= r.outcome.index
  {
  }

  /** Example: matches at rows 0 and 2, row 0 selected, going backward selects row 2. */
  lemma FindPrevWrapExample()
    ensures FindText(FindState(Prev, "foo"), "foo", 0, [0, 2]).outcome == Found(2, [0, 2])
  {
  }

  /** The restart offer is never made, whatever the inputs. */
  lemma RestartNeverOffered(st: FindState, text: string, selection: int, found: seq<int>)
    ensures FindText(st, text, selection, found).outcome != OfferRestart
  {
  }

  /**
   * Searching again for the same text asks for no clearing and leaves the
   * state as the first search left it.
   */
  lemma RepeatedSearchKeepsHighlights(st: FindState, text: string, sel1: int, sel2: int, f1: seq<int>, f2: seq<int>)
    ensures var first := FindText(st, text, sel1, f1);
      var second := FindText(first.state, text, sel2, f2);
      !second.clearRequested && second.state == first.state
  {
  }

  /**
   * A fresh search goes forward, and its first search asks for clearing
   * exactly when the text is not empty.
   */
  lemma FirstSearchFromInitial(text: string, selection: int, found: seq<int>)
    ensures var r := FindText(Initial, text, selection, found);
      (r.clearRequested <==> text != "") && r.state.direction.Step() == NEXT
  {
  }
}
