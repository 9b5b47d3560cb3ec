/**
 * The sorter page's state and its event handlers: applying and clearing the pasted
 * collection, the drag gesture that reorders cards, the export, and the Divorce and
 * Trade selection modes with their commands.
 */
module SorterPage {
  import opened Common
  import opened Entries
  import opened SorterModel

  /** `dragStateRef.current` during a drag; the ghost element and the listeners are not modelled. */
  datatype DragState = DragState(fromIndex: int, lastOverIndex: int)

  /** Every field of the page at one moment. */
  datatype SorterState = SorterState(
    rawInput: string,
    entries: seq<Entry>,
    draggedIndex: Option<int>,
    dragOverIndex: Option<int>,
    exportOutput: string,
    isDivorceMode: bool,
    selectedForDivorce: seq<string>,
    isTradeMode: bool,
    selectedForTrade: seq<string>,
    drag: Option<DragState>)

  class Sorter {
    var rawInput: string
    var entries: seq<Entry>
    var draggedIndex: Option<int>
    var dragOverIndex: Option<int>
    var exportOutput: string
    var isDivorceMode: bool
    var selectedForDivorce: seq<string>
    var isTradeMode: bool
    var selectedForTrade: seq<string>
    var drag: Option<DragState>

    function State(): SorterState
      reads this
    {
      SorterState(rawInput, entries, draggedIndex, dragOverIndex, exportOutput,
                  isDivorceMode, selectedForDivorce, isTradeMode, selectedForTrade, drag)
    }

    /**
     * The two modes are never on together, a selection is empty outside its mode and never
     * holds an id twice, and the collection is one the paste parser could have produced.
     */
    ghost predicate Valid()
      reads this
    {
      && !(isDivorceMode && isTradeMode)
      && (!isDivorceMode ==> selectedForDivorce == [])
      && (!isTradeMode ==> selectedForTrade == [])
      && NoDup(selectedForDivorce)
      && NoDup(selectedForTrade)
      && WellFormedList(entries)
    }

    constructor()
      ensures Valid()
      ensures State() == SorterState("", [], None, None, "", false, [], false, [], None)
    {
      rawInput, entries, draggedIndex, dragOverIndex, exportOutput := "", [], None, None, "";
      isDivorceMode, selectedForDivorce, isTradeMode, selectedForTrade, drag := false, [], false, [], None;
    }

    /** The textarea's `onChange`. */
    method EditInput(text: string)
      modifies this
      requires Valid()
      ensures Valid()
      ensures State() == old(State()).(rawInput := text)
    {
      rawInput := text;
    }

    /** `handleApply`: the parsed text becomes the collection and both modes end. */
    method Apply()
      modifies this
      requires Valid()
      ensures Valid()
      ensures entries == Parse(old(rawInput))
      ensures !isDivorceMode && selectedForDivorce == [] && !isTradeMode && selectedForTrade == []
      ensures rawInput == old(rawInput) && exportOutput == old(exportOutput)
      ensures draggedIndex == old(draggedIndex) && dragOverIndex == old(dragOverIndex) && drag == old(drag)
    {
      ParsedListWellFormed(rawInput);
      entries := Parse(rawInput);
      isDivorceMode := false;
      selectedForDivorce := [];
      isTradeMode := false;
      selectedForTrade := [];
    }

    /** `handleClear`; a drag under way is left as it is. */
    method Clear()
      modifies this
      requires Valid()
      ensures Valid()
      ensures State() == old(State()).(rawInput := "", entries := [], draggedIndex := None, dragOverIndex := None,
                                        isDivorceMode := false, selectedForDivorce := [],
                                        isTradeMode := false, selectedForTrade := [])
    {
      ghost var before := State();
      rawInput := "";
      entries := [];
      draggedIndex := None;
      dragOverIndex := None;
      isDivorceMode := false;
      selectedForDivorce := [];
      isTradeMode := false;
      selectedForTrade := [];
      assert State() == before.(rawInput := "", entries := [], draggedIndex := None, dragOverIndex := None,
                                isDivorceMode := false, selectedForDivorce := [],
                                isTradeMode := false, selectedForTrade := []);
    }

    /** `moveEntry`: copy the list, splice the entry out at `from` and back in at `to`. */
    method MoveEntry(from: int, to: int)
      modifies this
      requires Valid()
      ensures Valid()
      ensures State() == old(State()).(entries := Move(old(entries), from, to))
    {
      if from == to {
        return;
      }
      if from < 0 || to < 0 || from >= |entries| || to >= |entries| {
        return;
      }
      var next := entries;
      var moved := next[from];
      next := next[..from] + next[from + 1..];
      next := next[..to] + [moved] + next[to..];
      MoveKeepsWellFormed(entries, from, to);
      entries := next;
    }

    /** `handlePointerDown`: outside both modes, a primary-button press on card `index` starts a drag there. */
    method PointerDown(index: int, button: int)
      modifies this
      requires Valid()
      ensures Valid()
      ensures State() ==
        if old(isDivorceMode) || old(isTradeMode) || button != 0 then old(State())
        else old(State()).(draggedIndex := Some(index), dragOverIndex := Some(index),
                           drag := Some(DragState(index, index)))
    {
      if isDivorceMode || isTradeMode {
        return;
      }
      if button != 0 {
        return;
      }
      draggedIndex := Some(index);
      dragOverIndex := Some(index);
      drag := Some(DragState(index, index));
    }

    /** `moveHandler`: the first card among the elements under the pointer becomes the drop target. */
    method PointerMove(hits: seq<Hit>)
      modifies this
      requires Valid()
      ensures Valid()
      ensures old(drag).None? ==> State() == old(State())
      ensures old(drag).Some? ==>
        var last := old(drag).value.lastOverIndex;
        var target := HoverTarget(hits, last);
        State() == if target == last then old(State())
                   else old(State()).(drag := Some(old(drag).value.(lastOverIndex := target)),
                                      dragOverIndex := Some(target))
    {
      if drag.None? {
        return;
      }
      ghost var last := drag.value.lastOverIndex;
      var i := 0;
      while i < |hits|
        invariant 0 <= i <= |hits|
        invariant HoverTarget(hits[i..], last) == HoverTarget(hits, last)
        invariant State() == old(State())
      {
        assert hits[i..] == [hits[i]] + hits[i + 1..];
        match hits[i] {
          case OtherElement =>
          case EntryElement(over) =>
            if over.Some? && over.value != drag.value.lastOverIndex {
              drag := Some(drag.value.(lastOverIndex := over.value));
              dragOverIndex := Some(over.value);
            }
            return;
        }
        i := i + 1;
      }
    }

    /** `endHandler`: releasing the button commits the move and ends the drag. */
    method PointerUp()
      modifies this
      requires Valid()
      ensures Valid()
      ensures old(drag).None? ==> State() == old(State())
      ensures old(drag).Some? ==>
        State() == old(State()).(entries := Move(old(entries), old(drag).value.fromIndex, old(drag).value.lastOverIndex),
                                 draggedIndex := None, dragOverIndex := None, drag := None)
    {
      if drag.None? {
        return;
      }
      var from, lastOver := drag.value.fromIndex, drag.value.lastOverIndex;
      MoveEntry(from, lastOver);
      draggedIndex := None;
      dragOverIndex := None;
      drag := None;
    }

    /** `handleExport`: shows the `$sm` command, unless the collection is empty. */
    method Export()
      modifies this
      requires Valid()
      ensures Valid()
      ensures State() == if old(entries) == [] then old(State()) else old(State()).(exportOutput := ExportCommand(old(entries)))
    {
      var command := ExportCommand(entries);
      if command == [] {
        return;
      }
      exportOutput := command;
    }

    /** `handleToggleDivorceMode`: entering ends Trade mode and its selection; leaving drops the divorce selection. */
    method ToggleDivorceMode()
      modifies this
      requires Valid()
      ensures Valid()
      ensures State() ==
        if old(isDivorceMode) then old(State()).(isDivorceMode := false, selectedForDivorce := [])
        else old(State()).(isDivorceMode := true, isTradeMode := false, selectedForTrade := [])
    {
      if !isDivorceMode {
        isTradeMode := false;
        selectedForTrade := [];
      }
      var prev := isDivorceMode;
      if prev {
        selectedForDivorce := [];
      }
      isDivorceMode := !prev;
    }

    /** `handleToggleTradeMode`, the mirror image of `ToggleDivorceMode`. */
    method ToggleTradeMode()
      modifies this
      requires Valid()
      ensures Valid()
      ensures State() ==
        if old(isTradeMode) then old(State()).(isTradeMode := false, selectedForTrade := [])
        else old(State()).(isTradeMode := true, isDivorceMode := false, selectedForDivorce := [])
    {
      if !isTradeMode {
        isDivorceMode := false;
        selectedForDivorce := [];
      }
      var prev := isTradeMode;
      if prev {
        selectedForTrade := [];
      }
      isTradeMode := !prev;
    }

    /** `handleToggleDivorceSelection`: in Divorce mode, deselects a selected id and appends any other. */
    method ToggleDivorceSelection(id: string)
      modifies this
      requires Valid()
      ensures Valid()
      ensures State() == if old(isDivorceMode) then old(State()).(selectedForDivorce := Toggled(old(selectedForDivorce), id))
                         else old(State())
    {
      if !isDivorceMode {
        return;
      }
      ToggledNoDup(selectedForDivorce, id);
      if id in selectedForDivorce {
        selectedForDivorce := RemoveAll(selectedForDivorce, id);
      } else {
        selectedForDivorce := selectedForDivorce + [id];
      }
    }

    /** `handleToggleTradeSelection`, the same for Trade mode. */
    method ToggleTradeSelection(id: string)
      modifies this
      requires Valid()
      ensures Valid()
      ensures State() == if old(isTradeMode) then old(State()).(selectedForTrade := Toggled(old(selectedForTrade), id))
                         else old(State())
    {
      if !isTradeMode {
        return;
      }
      ToggledNoDup(selectedForTrade, id);
      if id in selectedForTrade {
        selectedForTrade := RemoveAll(selectedForTrade, id);
      } else {
        selectedForTrade := selectedForTrade + [id];
      }
    }

    /** A click on a card: offered to both selections, of which at most one is active. */
    method ClickEntry(id: string)
      modifies this
      requires Valid()
      ensures Valid()
      ensures State() ==
        if old(isDivorceMode) then old(State()).(selectedForDivorce := Toggled(old(selectedForDivorce), id))
        else if old(isTradeMode) then old(State()).(selectedForTrade := Toggled(old(selectedForTrade), id))
        else old(State())
    {
      ToggleDivorceSelection(id);
      ToggleTradeSelection(id);
    }

    /** `handleFinalizeDivorce`: the names of the selection, in click order, as a `$divorce` command; then the mode ends. */
    method FinalizeDivorce()
      modifies this
      requires Valid()
      ensures Valid()
      ensures var names := ResolveNames(old(entries), old(selectedForDivorce));
        State() == if names == [] then old(State())
                   else old(State()).(exportOutput := DivorceCommand(names), isDivorceMode := false, selectedForDivorce := [])
    {
      ghost var before := State();
      if selectedForDivorce == [] {
        return;
      }
      var names := ResolveNames(entries, selectedForDivorce);
      if names == [] {
        return;
      }
      exportOutput := DivorceCommand(names);
      isDivorceMode := false;
      selectedForDivorce := [];
      assert State() == before.(exportOutput := DivorceCommand(names), isDivorceMode := false, selectedForDivorce := []);
    }

    /** `handleFinalizeTrade`, the same with a `$trade "recipient"` command. */
    method FinalizeTrade()
      modifies this
      requires Valid()
      ensures Valid()
      ensures var names := ResolveNames(old(entries), old(selectedForTrade));
        State() == if names == [] then old(State())
                   else old(State()).(exportOutput := TradeCommand(names), isTradeMode := false, selectedForTrade := [])
    {
      ghost var before := State();
      if selectedForTrade == [] {
        return;
      }
      var names := ResolveNames(entries, selectedForTrade);
      if names == [] {
        return;
      }
      exportOutput := TradeCommand(names);
      isTradeMode := false;
      selectedForTrade := [];
      assert State() == before.(exportOutput := TradeCommand(names), isTradeMode := false, selectedForTrade := []);
    }
  }

  /** Pressing a card and releasing it without moving over another one leaves the order alone and ends the drag. */
  method PressAndRelease(s: Sorter, index: int)
    modifies s
    requires s.Valid() && !s.isDivorceMode && !s.isTradeMode
    ensures s.Valid()
    ensures s.entries == old(s.entries)
    ensures s.drag == None && s.draggedIndex == None && s.dragOverIndex == None
  {
    s.PointerDown(index, 0);
    s.PointerUp();
  }

  /** A whole gesture: press on `from`, one pointer move over `hits`, release; the card lands where the pointer was. */
  method DragGesture(s: Sorter, from: int, hits: seq<Hit>)
    modifies s
    requires s.Valid() && !s.isDivorceMode && !s.isTradeMode
    ensures s.Valid()
    ensures s.entries == Move(old(s.entries), from, HoverTarget(hits, from))
    ensures s.drag == None
  {
    s.PointerDown(from, 0);
    s.PointerMove(hits);
    s.PointerUp();
  }
}
