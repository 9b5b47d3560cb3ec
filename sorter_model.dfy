/**
 * The value-level rules of the Mudae sorter: the list move behind drag-and-drop,
 * toggling an id in a selection, looking names up by id, the command strings the
 * page produces, and the hover target a pointer move picks.
 */
module SorterModel {
  import opened Common
  import opened Text
  import opened Entries

  // ----- moving an entry -----

  /** `moveEntry` changes the list only for two different indices that are both in range. */
  predicate MoveApplies(n: int, from: int, to: int)
  {
    from != to && 0 <= from < n && 0 <= to < n
  }

  /** The list without its element at `i`: `splice(i, 1)`. */
  function RemoveAt<T>(s: seq<T>, i: int): (r: seq<T>)
    requires 0 <= i < |s|
    ensures |r| == |s| - 1
  {
    s[..i] + s[i + 1..]
  }

  /** The list with `x` put in before position `i`: `splice(i, 0, x)`. */
  function InsertAt<T>(s: seq<T>, i: int, x: T): (r: seq<T>)
    requires 0 <= i <= |s|
    ensures |r| == |s| + 1
  {
    s[..i] + [x] + s[i..]
  }

  /**
   * `moveEntry`: take the element at `from` out of the list and put it back in at position
   * `to` of what is left; any other request leaves the list alone.
   */
  function Move<T>(s: seq<T>, from: int, to: int): (r: seq<T>)
    ensures |r| == |s|
    ensures from == to ==> r == s
    ensures from < 0 || to < 0 || from >= |s| || to >= |s| ==> r == s
  {
    if MoveApplies(|s|, from, to) then InsertAt(RemoveAt(s, from), to, s[from]) else s
  }

  /** Where element `k` of the list without its element at `i` came from. */
  function RemovedIndex(i: int, k: int): int
  {
    if k < i then k else k + 1
  }

  lemma RemoveAtIndex<T>(s: seq<T>, i: int, k: int)
    requires 0 <= i < |s| && 0 <= k < |s| - 1
    ensures RemoveAt(s, i)[k] == s[RemovedIndex(i, k)]
  {
  }

  lemma InsertAtIndex<T>(s: seq<T>, i: int, x: T, k: int)
    requires 0 <= i <= |s| && 0 <= k <= |s|
    ensures InsertAt(s, i, x)[k] == if k < i then s[k] else if k == i then x else s[k - 1]
  {
  }

  /**
   * Where the element that a move puts at position `i` came from: the moved element lands at `to`,
   * the ones between `from` and `to` shift by one towards `from`, the rest stay.
   */
  function MovedIndex(n: int, from: int, to: int, i: int): (j: int)
    requires MoveApplies(n, from, to) && 0 <= i < n
    ensures 0 <= j < n
  {
    if i == to then from
    else if from < to && from <= i < to then i + 1
    else if to < from && to < i <= from then i - 1
    else i
  }

  /** The index arithmetic of the two splices. */
  lemma MovedIndexSplice(n: int, from: int, to: int, i: int)
    requires MoveApplies(n, from, to) && 0 <= i < n
    ensures MovedIndex(n, from, to, i)
         == if i < to then RemovedIndex(from, i) else if i == to then from else RemovedIndex(from, i - 1)
  {
  }

  /** Position `i` of a move holds the element from position `MovedIndex(i)`. */
  lemma MoveIndex<T>(s: seq<T>, from: int, to: int, i: int)
    requires MoveApplies(|s|, from, to) && 0 <= i < |s|
    ensures Move(s, from, to)[i] == s[MovedIndex(|s|, from, to, i)]
  {
    var rest := RemoveAt(s, from);
    InsertAtIndex(rest, to, s[from], i);
    MovedIndexSplice(|s|, from, to, i);
    if i < to {
      RemoveAtIndex(s, from, i);
    } else if i > to {
      RemoveAtIndex(s, from, i - 1);
    }
  }

  /** A move is a permutation. */
  lemma MovePermutes<T>(s: seq<T>, from: int, to: int)
    ensures multiset(Move(s, from, to)) == multiset(s)
  {
    if MoveApplies(|s|, from, to) {
      var rest := RemoveAt(s, from);
      assert s == s[..from] + [s[from]] + s[from + 1..];
      assert multiset(s) == multiset(rest) + multiset{s[from]};
      assert rest == rest[..to] + rest[to..];
      assert multiset(Move(s, from, to)) == multiset(rest[..to]) + multiset{s[from]} + multiset(rest[to..]);
    }
  }

  /** The moved element lands at `to`, and all the other elements keep their relative order: a move, not a swap. */
  lemma MoveKeepsOthersInOrder<T>(s: seq<T>, from: int, to: int)
    requires MoveApplies(|s|, from, to)
    ensures Move(s, from, to)[to] == s[from]
    ensures RemoveAt(Move(s, from, to), to) == RemoveAt(s, from)
  {
    var rest := RemoveAt(s, from);
    var r := Move(s, from, to);
    InsertAtIndex(rest, to, s[from], to);
    assert r[..to] == rest[..to];
    assert r[to + 1..] == rest[to..];
  }

  lemma MovedIndexInverse(n: int, from: int, to: int, i: int)
    requires MoveApplies(n, from, to) && 0 <= i < n
    ensures MovedIndex(n, from, to, MovedIndex(n, to, from, i)) == i
  {
  }

  /** Moving back undoes a move. */
  lemma MoveUndo<T>(s: seq<T>, from: int, to: int)
    ensures Move(Move(s, from, to), to, from) == s
  {
    if MoveApplies(|s|, from, to) {
      var r, u := Move(s, from, to), Move(Move(s, from, to), to, from);
      forall i | 0 <= i < |s| ensures u[i] == s[i] {
        MoveIndex(r, to, from, i);
        MoveIndex(s, from, to, MovedIndex(|s|, to, from, i));
        MovedIndexInverse(|s|, from, to, i);
      }
    }
  }

  /** An example: dragging the first of three cards onto the last, and back. */
  lemma MoveExample()
    ensures Move([1, 2, 3], 0, 2) == [2, 3, 1]
    ensures Move([1, 2, 3], 2, 0) == [3, 1, 2]
  {
    assert RemoveAt([1, 2, 3], 0) == [2, 3];
    assert RemoveAt([1, 2, 3], 2) == [1, 2];
  }

  /** No two entries share an id. */
  predicate DistinctIds(entries: seq<Entry>)
  {
    forall k, l :: 0 <= k < l < |entries| ==> entries[k].id != entries[l].id
  }

  /** What the paste parser guarantees of a collection: well-formed entries with distinct ids. */
  ghost predicate WellFormedList(entries: seq<Entry>)
  {
    && (forall k :: 0 <= k < |entries| ==> WellFormed(entries[k]))
    && DistinctIds(entries)
  }

  lemma ParsedListWellFormed(text: string)
    ensures WellFormedList(Parse(text))
  {
    ParseWellFormed(text);
  }

  /** Reordering keeps the collection well formed. */
  lemma MoveKeepsWellFormed(entries: seq<Entry>, from: int, to: int)
    requires WellFormedList(entries)
    ensures WellFormedList(Move(entries, from, to))
  {
    if MoveApplies(|entries|, from, to) {
      var n := |entries|;
      var r := Move(entries, from, to);
      forall k | 0 <= k < n ensures WellFormed(r[k]) {
        MoveIndex(entries, from, to, k);
      }
      forall k, l | 0 <= k < l < n ensures r[k].id != r[l].id {
        MoveIndex(entries, from, to, k);
        MoveIndex(entries, from, to, l);
        MovedIndexInverse(n, to, from, MovedIndex(n, from, to, k));
        MovedIndexInverse(n, to, from, MovedIndex(n, from, to, l));
        MovedIndexInverse(n, from, to, k);
        MovedIndexInverse(n, from, to, l);
      }
    }
  }

  // ----- selections -----

  predicate NoDup<T(==)>(s: seq<T>)
  {
    forall i, j :: 0 <= i < j < |s| ==> s[i] != s[j]
  }

  /** `s.filter((y) => y !== x)`. */
  function RemoveAll(s: seq<string>, x: string): (r: seq<string>)
    ensures |r| <= |s|
    ensures forall y :: y in r <==> y in s && y != x
  {
    if s == [] then []
    else (if s[0] == x then [] else [s[0]]) + RemoveAll(s[1..], x)
  }

  /** Removing a value from a list without repetitions removes exactly its one occurrence and keeps the order. */
  lemma {:induction false} RemoveAllOccurrence(s: seq<string>, k: int)
    requires NoDup(s) && 0 <= k < |s|
    ensures RemoveAll(s, s[k]) == RemoveAt(s, k)
  {
    if k == 0 {
      RemoveAllAbsent(s[1..], s[0]);
    } else {
      RemoveAllOccurrence(s[1..], k - 1);
      assert s[1..][k - 1] == s[k];
      assert RemoveAt(s, k) == [s[0]] + RemoveAt(s[1..], k - 1);
    }
  }

  lemma {:induction false} RemoveAllAbsent(s: seq<string>, x: string)
    requires x !in s
    ensures RemoveAll(s, x) == s
  {
    if s != [] {
      RemoveAllAbsent(s[1..], x);
      assert s == [s[0]] + s[1..];
    }
  }

  lemma {:induction false} RemoveAllNoDup(s: seq<string>, x: string)
    requires NoDup(s)
    ensures NoDup(RemoveAll(s, x))
  {
    if s != [] {
      RemoveAllNoDup(s[1..], x);
      var rest := RemoveAll(s[1..], x);
      assert s[0] !in rest;
    }
  }

  /** The selection update of a card click: drop the id when it is selected, append it otherwise. */
  function Toggled(s: seq<string>, x: string): (r: seq<string>)
    ensures x in r <==> x !in s
    ensures x !in s ==> r == s + [x]
    ensures forall y :: y != x ==> (y in r <==> y in s)
  {
    if x in s then RemoveAll(s, x) else s + [x]
  }

  /** A selection built by toggling never holds an id twice. */
  lemma ToggledNoDup(s: seq<string>, x: string)
    requires NoDup(s)
    ensures NoDup(Toggled(s, x))
  {
    if x in s { RemoveAllNoDup(s, x); }
  }

  /** Toggling the same id twice restores the membership of every id. */
  lemma ToggleTwiceMembership(s: seq<string>, x: string)
    ensures forall y :: y in Toggled(Toggled(s, x), x) <==> y in s
  {
  }

  /** Selecting and then deselecting an id restores the selection exactly, order included. */
  lemma {:induction false} RemoveAllLast(s: seq<string>, x: string)
    requires x !in s
    ensures RemoveAll(s + [x], x) == s
  {
    if s == [] {
      assert [] + [x] == [x];
    } else {
      assert (s + [x])[1..] == s[1..] + [x];
      RemoveAllLast(s[1..], x);
      assert s == [s[0]] + s[1..];
    }
  }

  /** Selecting and then deselecting an id restores the selection exactly, order included. */
  lemma ToggleTwiceAbsent(s: seq<string>, x: string)
    requires x !in s
    ensures Toggled(Toggled(s, x), x) == s
  {
    RemoveAllLast(s, x);
  }

  // ----- names of selected entries -----

  /** The position at which `entries.find((entry) => entry.id === id)` stops, as an option. */
  function FindIndex(entries: seq<Entry>, id: string): (r: Option<nat>)
    ensures r.Some? ==> r.value < |entries| && entries[r.value].id == id
    ensures r.Some? ==> forall j :: 0 <= j < r.value ==> entries[j].id != id
    ensures r.None? ==> forall j :: 0 <= j < |entries| ==> entries[j].id != id
  {
    if entries == [] then None
    else if entries[0].id == id then Some(0)
    else match FindIndex(entries[1..], id)
      case None => None
      case Some(k) => Some(k + 1)
  }

  /** `entries.find((e) => e.id === id)?.name`. */
  function FindName(entries: seq<Entry>, id: string): (r: Option<string>)
    ensures r.Some? <==> exists k :: 0 <= k < |entries| && entries[k].id == id
    ensures r.Some? ==> exists k :: 0 <= k < |entries| && entries[k].id == id && entries[k].name == r.value
  {
    match FindIndex(entries, id)
    case None => None
    case Some(k) => Some(entries[k].name)
  }

  /** An id that resolves to a non-empty name: what `.filter(Boolean)` keeps. */
  predicate Resolves(entries: seq<Entry>, id: string)
  {
    FindName(entries, id).Some? && FindName(entries, id).value != []
  }

  /** The names of the selected ids, in selection order, without the ids that find no entry or an empty name. */
  function ResolveNames(entries: seq<Entry>, ids: seq<string>): (names: seq<string>)
    ensures |names| <= |ids|
    ensures forall k :: 0 <= k < |names| ==> names[k] != []
    ensures names == [] <==> forall k :: 0 <= k < |ids| ==> !Resolves(entries, ids[k])
  {
    if ids == [] then []
    else
      var rest := ResolveNames(entries, ids[1..]);
      assert forall k :: 1 <= k < |ids| ==> ids[k] == ids[1..][k - 1];
      if Resolves(entries, ids[0]) then [FindName(entries, ids[0]).value] + rest else rest
  }

  /** Selecting one more id adds its name at the end, when it resolves, and nothing otherwise. */
  lemma {:induction false} ResolveNamesSnoc(entries: seq<Entry>, ids: seq<string>, id: string)
    ensures ResolveNames(entries, ids + [id]) ==
      ResolveNames(entries, ids) + (if Resolves(entries, id) then [FindName(entries, id).value] else [])
  {
    if ids == [] {
      assert [] + [id] == [id];
      assert [id][1..] == [];
    } else {
      assert (ids + [id])[0] == ids[0];
      assert (ids + [id])[1..] == ids[1..] + [id];
      ResolveNamesSnoc(entries, ids[1..], id);
    }
  }

  /** When every selected id resolves, the names are those of the selected ids, one each, in the order of the clicks. */
  lemma {:induction false} ResolveNamesInSelectionOrder(entries: seq<Entry>, ids: seq<string>)
    requires forall k :: 0 <= k < |ids| ==> Resolves(entries, ids[k])
    ensures |ResolveNames(entries, ids)| == |ids|
    ensures forall k :: 0 <= k < |ids| ==> ResolveNames(entries, ids)[k] == FindName(entries, ids[k]).value
  {
    if ids != [] {
      assert forall k :: 1 <= k < |ids| ==> ids[k] == ids[1..][k - 1];
      ResolveNamesInSelectionOrder(entries, ids[1..]);
    }
  }

  // ----- commands -----

  /** The separator the page places between names. */
  const NameSeparator: string := " $ "

  function Names(entries: seq<Entry>): (names: seq<string>)
    ensures |names| == |entries|
    ensures forall k :: 0 <= k < |entries| ==> names[k] == entries[k].name
  {
    if entries == [] then [] else [entries[0].name] + Names(entries[1..])
  }

  /** The full-list `$sm` command; empty when there is nothing to sort. */
  function ExportCommand(entries: seq<Entry>): (cmd: string)
    ensures cmd == [] <==> entries == []
    ensures entries != [] ==> cmd == "$sm " + Join(Names(entries), NameSeparator)
  {
    if entries == [] then "" else "$sm " + Join(Names(entries), NameSeparator)
  }

  function DivorceCommand(names: seq<string>): (cmd: string)
    ensures "$divorce " <= cmd
  {
    "$divorce " + Join(names, NameSeparator)
  }

  function TradeCommand(names: seq<string>): (cmd: string)
    ensures "$trade \"recipient\" " <= cmd
  {
    "$trade \"recipient\" " + Join(names, NameSeparator)
  }

  // ----- reading a command's names back -----

  function TrimAll(pieces: seq<string>): (r: seq<string>)
    ensures |r| == |pieces|
  {
    if pieces == [] then [] else [Trim(pieces[0])] + TrimAll(pieces[1..])
  }

  /** The names in the argument list of a command: the pieces between the `$` separators, trimmed. */
  function SplitNames(body: string): seq<string>
  {
    TrimAll(SplitOn(body, '$'))
  }

  /** A name a command can carry and give back: trimmed and free of the `$` separator. */
  predicate Separable(name: string)
  {
    IsTrimmed(name) && '$' !in name
  }

  /** Splitting at the first separator. */
  lemma SplitOnFirst(a: string, c: char, b: string)
    requires c !in a
    ensures SplitOn(a + [c] + b, c) == [a] + SplitOn(b, c)
  {
    var s := a + [c] + b;
    assert s == a + ([c] + b);
    FirstIndexAfter(a, [c] + b, c);
    assert s[..|a|] == a;
    assert s[|a| + 1..] == b;
  }

  lemma JoinStep(names: seq<string>)
    requires |names| > 1
    ensures Join(names, NameSeparator) == names[0] + " " + ['$'] + (" " + Join(names[1..], NameSeparator))
  {
  }

  lemma TrimAllCons(p: string, ps: seq<string>)
    ensures TrimAll([p] + ps) == [Trim(p)] + TrimAll(ps)
  {
    assert ([p] + ps)[1..] == ps;
  }

  predicate Spaces(w: string)
  {
    forall i :: 0 <= i < |w| ==> w[i] == ' '
  }

  lemma SpacesNoSeparator(w: string, name: string)
    requires Spaces(w) && Separable(name)
    ensures '$' !in w + name + " "
    ensures '$' !in w + name
    ensures AllWhitespace(w)
  {
    assert forall i :: 0 <= i < |w + name + " "| ==> (w + name + " ")[i] == ' ' || (w + name + " ")[i] in name;
    assert forall i :: 0 <= i < |w + name| ==> (w + name)[i] == ' ' || (w + name)[i] in name;
  }

  lemma SplitPaddedName(w: string, name: string)
    requires Spaces(w) && Separable(name)
    ensures SplitNames(w + name) == [name]
  {
    SpacesNoSeparator(w, name);
    assert w + name == w + name + "";
    TrimPadded(w, name, "");
  }

  lemma SplitPaddedFirst(s: string, w: string, name: string, tail: string)
    requires Spaces(w) && Separable(name)
    requires s == w + name + " " + ['$'] + tail
    ensures SplitNames(s) == [name] + SplitNames(tail)
  {
    SpacesNoSeparator(w, name);
    SplitOnFirst(w + name + " ", '$', tail);
    TrimAllCons(w + name + " ", SplitOn(tail, '$'));
    TrimPadded(w, name, " ");
  }

  lemma {:induction false} SplitPaddedNames(w: string, names: seq<string>)
    requires Spaces(w)
    requires |names| > 0
    requires forall k :: 0 <= k < |names| ==> Separable(names[k])
    ensures SplitNames(w + Join(names, NameSeparator)) == names
    decreases |names|
  {
    var n0 := names[0];
    assert Separable(n0);
    if |names| == 1 {
      assert Join(names, NameSeparator) == n0;
      assert names == [n0];
      SplitPaddedName(w, n0);
    } else {
      var rest := names[1..];
      assert names == [n0] + rest;
      var s, tail := w + Join(names, NameSeparator), " " + Join(rest, NameSeparator);
      JoinStep(names);
      SplitPaddedFirst(s, w, n0, tail);
      assert forall k :: 0 <= k < |rest| ==> Separable(rest[k]) by {
        assert forall k :: 0 <= k < |rest| ==> rest[k] == names[k + 1];
      }
      SplitPaddedNames(" ", rest);
    }
  }

  /** The names joined with the separator can be split apart again. */
  lemma JoinedNamesSplit(names: seq<string>)
    requires |names| > 0
    requires forall k :: 0 <= k < |names| ==> Separable(names[k])
    ensures SplitNames(Join(names, NameSeparator)) == names
  {
    assert [] + Join(names, NameSeparator) == Join(names, NameSeparator);
    SplitPaddedNames([], names);
  }

  /** The `$sm` command lists the names of the whole collection in order. */
  lemma ExportCommandNames(entries: seq<Entry>)
    requires entries != []
    requires forall k :: 0 <= k < |entries| ==> Separable(entries[k].name)
    ensures ExportCommand(entries)[..4] == "$sm "
    ensures SplitNames(ExportCommand(entries)[4..]) == Names(entries)
  {
    var names := Names(entries);
    assert forall k :: 0 <= k < |names| ==> Separable(names[k]);
    JoinedNamesSplit(names);
    assert ExportCommand(entries) == "$sm " + Join(names, NameSeparator);
  }

  /** The `$divorce` command lists the given names in order. */
  lemma DivorceCommandNames(names: seq<string>)
    requires |names| > 0
    requires forall k :: 0 <= k < |names| ==> Separable(names[k])
    ensures SplitNames(DivorceCommand(names)[|"$divorce "|..]) == names
  {
    JoinedNamesSplit(names);
    assert DivorceCommand(names)[|"$divorce "|..] == Join(names, NameSeparator);
  }

  /** The `$trade` command lists the given names in order. */
  lemma TradeCommandNames(names: seq<string>)
    requires |names| > 0
    requires forall k :: 0 <= k < |names| ==> Separable(names[k])
    ensures SplitNames(TradeCommand(names)[|"$trade \"recipient\" "|..]) == names
  {
    JoinedNamesSplit(names);
    assert TradeCommand(names)[|"$trade \"recipient\" "|..] == Join(names, NameSeparator);
  }

  lemma ExportCommandExample()
    ensures ExportCommand([Entry("p-0", "Saber", None), Entry("p-1", "Samira", None), Entry("p-2", "Rem", None)])
         == "$sm Saber $ Samira $ Rem"
  {
    NamesOfThree(Entry("p-0", "Saber", None), Entry("p-1", "Samira", None), Entry("p-2", "Rem", None));
    JoinThree("Saber", "Samira", "Rem", NameSeparator);
  }

  lemma NamesOfThree(a: Entry, b: Entry, c: Entry)
    ensures Names([a, b, c]) == [a.name, b.name, c.name]
  {
    var names := Names([a, b, c]);
    assert names[0] == a.name && names[1] == b.name && names[2] == c.name;
  }

  lemma JoinThree(a: string, b: string, c: string, sep: string)
    ensures Join([a, b, c], sep) == a + sep + b + sep + c
  {
    assert [a, b, c][1..] == [b, c];
    assert [b, c][1..] == [c];
    assert Join([b, c], sep) == b + sep + c;
    assert Join([a, b, c], sep) == a + sep + (b + sep + c);
  }

  lemma DivorceCommandExample()
    ensures DivorceCommand(["Saber", "Samira"]) == "$divorce Saber $ Samira"
  {
  }

  lemma TradeCommandExample()
    ensures TradeCommand(["Saber", "Samira"]) == "$trade \"recipient\" Saber $ Samira"
  {
  }

  // ----- hit-testing during a drag -----

  /** One element under the pointer, topmost first; an entry card carries `parseInt` of its index attribute (`None` for `NaN`). */
  datatype Hit = OtherElement | EntryElement(over: Option<int>)

  /**
   * The drag target after a pointer move: the first entry card under the pointer decides,
   * a `NaN` index or no card keeps the current target.
   */
  function HoverTarget(hits: seq<Hit>, last: int): (t: int)
    ensures t != last ==> exists k :: 0 <= k < |hits| && hits[k] == EntryElement(Some(t))
  {
    if hits == [] then last
    else match hits[0]
      case OtherElement => HoverTarget(hits[1..], last)
      case EntryElement(over) => if over.Some? then over.value else last
  }

  /** The first card under the pointer, when there is one. */
  function FirstCard(hits: seq<Hit>): (k: Option<nat>)
    ensures k.Some? ==> k.value < |hits| && hits[k.value].EntryElement?
    ensures k.Some? ==> forall j :: 0 <= j < k.value ==> hits[j] == OtherElement
    ensures k.None? ==> forall j :: 0 <= j < |hits| ==> hits[j] == OtherElement
  {
    if hits == [] then None
    else if hits[0].EntryElement? then Some(0)
    else match FirstCard(hits[1..])
      case None => None
      case Some(k) => Some(k + 1)
  }

  /** The hover target, described by the first card: its index when it parses, the current target otherwise. */
  lemma {:induction false} HoverTargetIsFirstCard(hits: seq<Hit>, last: int)
    ensures HoverTarget(hits, last) ==
      match FirstCard(hits)
      case None => last
      case Some(k) => if hits[k].over.Some? then hits[k].over.value else last
  {
    if hits != [] && hits[0] == OtherElement {
      HoverTargetIsFirstCard(hits[1..], last);
    }
  }

  /** A second pointer-move handler on the same event changes nothing more. */
  lemma {:induction false} HoverTargetIdempotent(hits: seq<Hit>, last: int)
    ensures HoverTarget(hits, HoverTarget(hits, last)) == HoverTarget(hits, last)
  {
    if hits != [] && hits[0] == OtherElement {
      HoverTargetIdempotent(hits[1..], last);
    }
  }
}
