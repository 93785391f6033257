/**
 * components/SearchCombo.tsx: the autocomplete box as a state machine over
 * the query text, the suggestion list, whether the list is open and which
 * row the keyboard has highlighted. `selected` stands for the parent's
 * `value`, which the box changes through `onSelect`.
 */
module SearchCombo {
  import opened Wrappers
  import opened Strings
  import opened Wikidata

  datatype Key = ArrowDown | ArrowUp | Enter | Escape | OtherKey

  /** The ArrowDown updater of `selectedIndex` for a list of `len` rows. */
  function IndexDown(prev: int, len: nat): int {
    if prev < len - 1 then prev + 1 else prev
  }

  /** The ArrowUp updater of `selectedIndex`. */
  function IndexUp(prev: int): int {
    if prev > 0 then prev - 1 else prev
  }

  /** The highlighted row is "none" (-1) or a row of the list. */
  predicate InRange(idx: int, len: nat) {
    -1 <= idx < len
  }

  /** Both arrows keep the index among "none" and the rows of a non-empty list. */
  lemma ArrowsKeepRange(prev: int, len: nat)
    requires len > 0 && InRange(prev, len)
    ensures InRange(IndexDown(prev, len), len) && InRange(IndexUp(prev), len)
  {
  }

  /** ArrowDown moves one row towards the end and stops on the last row; ArrowUp moves one row up and stops on the first row or on "none". */
  lemma ArrowsMoveOneRow(prev: int, len: nat)
    ensures IndexDown(prev, len) == prev + 1 <==> prev < len - 1
    ensures IndexDown(prev, len) != prev + 1 ==> IndexDown(prev, len) == prev
    ensures IndexUp(prev) == prev - 1 <==> prev > 0
    ensures IndexUp(prev) != prev - 1 ==> IndexUp(prev) == prev
  {
  }

  /** Up undoes Down when Down moved, and Down undoes Up when Up moved. */
  lemma ArrowsUndoEachOther(prev: int, len: nat)
    ensures 0 <= prev < len - 1 ==> IndexUp(IndexDown(prev, len)) == prev
    ensures 0 < prev < len ==> IndexDown(IndexUp(prev), len) == prev
  {
  }

  /** Once a row is highlighted the arrows never go back to "none"; only Escape or a selection does. */
  lemma ArrowsNeverReturnToNone(prev: int, len: nat)
    requires prev >= 0
    ensures IndexDown(prev, len) >= 0 && IndexUp(prev) >= 0
  {
  }

  /** `n` presses of ArrowDown. */
  function PressDown(prev: int, len: nat, n: nat): int {
    if n == 0 then prev else IndexDown(PressDown(prev, len, n - 1), len)
  }

  /** From "none", `n` presses of ArrowDown highlight row `n - 1`, pinned at the last row. */
  lemma {:induction false} PressDownFromNone(len: nat, n: nat)
    requires len > 0
    ensures PressDown(-1, len, n) == if n - 1 < len - 1 then n - 1 else len - 1
  {
    if n > 0 {
      PressDownFromNone(len, n - 1);
    }
  }

  class Combo {
    var query: string
    var suggestions: seq<Suggestion>
    var isOpen: bool
    var selectedIndex: int
    /** The parent's `value`, set through `onSelect`. */
    var selected: Option<Suggestion>

    /** The state a fresh box starts in. */
    constructor (value: Option<Suggestion>)
      ensures query == "" && suggestions == [] && !isOpen && selectedIndex == -1
      ensures selected == value
    {
      query := "";
      suggestions := [];
      isOpen := false;
      selectedIndex := -1;
      selected := value;
    }

    /** The state right after `s` was chosen. */
    predicate Chosen(s: Suggestion)
      reads this
    {
      selected == Some(s) && query == s.name && !isOpen && selectedIndex == -1 && suggestions == []
    }

    /** `handleSelect` */
    method Select(s: Suggestion)
      modifies this
      ensures Chosen(s)
    {
      selected := Some(s);
      query := s.name;
      isOpen := false;
      selectedIndex := -1;
      suggestions := [];
    }

    /** `handleKeyDown` */
    method KeyDown(key: Key)
      modifies this
      ensures !old(isOpen) || old(|suggestions|) == 0 ==> unchanged(this)
      ensures old(isOpen) && old(|suggestions|) > 0 ==>
        match key
        case ArrowDown =>
          && selectedIndex == IndexDown(old(selectedIndex), old(|suggestions|))
          && query == old(query) && suggestions == old(suggestions) && isOpen && selected == old(selected)
        case ArrowUp =>
          && selectedIndex == IndexUp(old(selectedIndex))
          && query == old(query) && suggestions == old(suggestions) && isOpen && selected == old(selected)
        case Enter =>
          if 0 <= old(selectedIndex) < old(|suggestions|) then Chosen(old(suggestions[selectedIndex]))
          else unchanged(this)
        case Escape =>
          && !isOpen && selectedIndex == -1
          && query == old(query) && suggestions == old(suggestions) && selected == old(selected)
        case OtherKey => unchanged(this)
      ensures InRange(old(selectedIndex), old(|suggestions|)) && suggestions == old(suggestions)
              ==> InRange(selectedIndex, |suggestions|)
    {
      if !isOpen || |suggestions| == 0 {
        return;
      }
      match key
      case ArrowDown =>
        selectedIndex := IndexDown(selectedIndex, |suggestions|);
      case ArrowUp =>
        selectedIndex := IndexUp(selectedIndex);
      case Enter =>
        if 0 <= selectedIndex < |suggestions| {
          Select(suggestions[selectedIndex]);
        }
      case Escape =>
        isOpen := false;
        selectedIndex := -1;
      case OtherKey =>
    }

    /**
     * `onChange` followed by the query effect: the text is taken, a
     * selection whose name differs from it is dropped, and a blank query
     * empties and closes the list.
     */
    method Type(newQuery: string)
      modifies this
      ensures query == newQuery && selectedIndex == old(selectedIndex)
      ensures selected == if old(selected).Some? && newQuery != old(selected).value.name then None else old(selected)
      ensures IsBlank(newQuery) ==> suggestions == [] && !isOpen
      ensures !IsBlank(newQuery) ==> suggestions == old(suggestions) && isOpen == old(isOpen)
    {
      query := newQuery;
      if selected.Some? && newQuery != selected.value.name {
        selected := None;
      }
      if IsBlank(query) {
        suggestions := [];
        isOpen := false;
      }
    }

    /**
     * The autocomplete reply arrives: an ok reply replaces the list (an
     * absent `suggestions` field is an empty list) and opens it; a failed
     * or thrown request changes nothing. The highlighted index is kept.
     */
    method SuggestionsArrived(reply: Fetched<Option<seq<Suggestion>>>)
      modifies this
      ensures reply.Body? ==> isOpen && suggestions == (if reply.body.Some? then reply.body.value else [])
      ensures reply.Body? ==> query == old(query) && selectedIndex == old(selectedIndex) && selected == old(selected)
      ensures !reply.Body? ==> unchanged(this)
    {
      if reply.Body? {
        suggestions := if reply.body.Some? then reply.body.value else [];
        isOpen := true;
      }
    }

    /** `onFocus`: a box that already holds a selection stays closed. */
    method Focus()
      modifies this
      ensures isOpen == (old(isOpen) && old(selected).None?)
      ensures query == old(query) && suggestions == old(suggestions)
      ensures selectedIndex == old(selectedIndex) && selected == old(selected)
    {
      if selected.Some? {
        isOpen := false;
      }
    }

    /** A mouse press outside the box closes the list. */
    method ClickOutside()
      modifies this
      ensures !isOpen
      ensures query == old(query) && suggestions == old(suggestions)
      ensures selectedIndex == old(selectedIndex) && selected == old(selected)
    {
      isOpen := false;
    }
  }

  /**
   * A reply that shrinks the list leaves the old index in place, and Enter
   * then selects nothing instead of reading past the end.
   */
  method StaleIndexAfterShorterReply(a: Suggestion, b: Suggestion) returns (c: Combo)
    ensures c.selectedIndex == 1 && c.suggestions == [a] && c.isOpen
    ensures c.selected.None? && !InRange(c.selectedIndex, |c.suggestions|)
  {
    c := new Combo(None);
    c.Type("ab");
    c.SuggestionsArrived(Body(Some([a, b])));
    c.KeyDown(ArrowDown);
    c.KeyDown(ArrowDown);
    assert c.selectedIndex == 1;
    c.SuggestionsArrived(Body(Some([a])));
    c.KeyDown(Enter);
  }
}
