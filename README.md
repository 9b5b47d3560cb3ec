# Mudae collection tools: sorter and gallery

This project models the collection-curation logic of two pages of a portfolio site's Mudae tools.

- **Sorter** (`src/app/mudae-tools/sorter/page.tsx`). The user pastes `Name - URL` lines and applies them. They can then:
  - reorder the cards by dragging;
  - export the order as a `$sm` command;
  - pick cards in Divorce or Trade mode to produce a `$divorce` or `$trade "recipient"` command.
- **Gallery** (`src/app/mudae-tools/gallery/page.tsx`). The same paste becomes a slideshow with an 11-slot thumbnail carousel:
  - Prev and Next buttons that wrap around;
  - thumbnail clicks that move by a signed delta;
  - a slide animation and a carousel animation, each settled by a single-slot timeout that a new navigation replaces.

Both pages share the same paste parser. The modules follow that structure:

| module | file | contents |
|---|---|---|
| `Common` | `common.dfy` | `Option` |
| `Text` | `text.dfy` | The JavaScript string built-ins the pages rely on: `\s` and `trim` (one whitespace set), `split(/\r?\n/)`, `join`, and `${n}` for a natural number. It also has a one-character split (`SplitOn`). No page calls one; the model uses it to read names back out of the command strings. |
| `Entries` | `entries.dfy` | The paste parser. It covers the regular expression `^(.*?)\s*-\s*(https?:\/\/\S+)$` with its lazy first group, the `p-<index>` ids, and the inverse direction (formatting cards as lines). |
| `SorterModel` | `sorter_model.dfy` | Value-level sorter rules: the list move, toggling an id in a selection, resolving selected ids to names, the three command strings, and the drop target picked by hit-testing. |
| `SorterPage` | `sorter_page.dfy` | `class Sorter`: the page state and one method per event handler. |
| `Carousel` | `carousel.dfy` | JavaScript's sign-preserving `%`, the carousel window as the code computes it (a counting loop), the corrected circular window, and the Prev and Next targets. |
| `GalleryPage` | `gallery_page.dfy` | `class Gallery`: the page state, the pending timeouts and frame callbacks, and one method per event handler. |

Browser callbacks are modelled as events, i.e. methods the environment calls:

- **Sorter:** `PointerDown`, `PointerMove` and `PointerUp` stand for the mouse-down listener and the two document listeners it installs. `PointerMove` receives the elements under the pointer as a list of `Hit`s.
- **Gallery:** the ids of pending timeouts are issued by a counter. `TimerFired(id)` runs a pending timeout, and `AnimationFrame()` runs every queued frame callback.

**Behaviour of the code worth noting:**
- Finalize lists the names in selection (click) order, not in collection order.
- The carousel window always has 11 slots, even for a collection shorter than 11.
- For two to four entries, the code can produce negative slot indices; see Findings.

The gallery's thumbnail click uses the corrected (circular) window.

## Model

| member | source | states |
|---|---|---|
| Text.TrimStart | src/app/mudae-tools/sorter/page.tsx:90 | The result is a suffix of the input; what was dropped is all whitespace; the result does not start with whitespace. |
| Text.TrimEnd | src/app/mudae-tools/sorter/page.tsx:90 | The result is a prefix of the input; what was dropped is all whitespace; the result does not end with whitespace. |
| Text.Trim | src/app/mudae-tools/sorter/page.tsx:86-90 | `trim` yields a trimmed string; it is empty exactly when the input is all whitespace; it leaves a trimmed string alone. |
| Text.TrimPadded | src/app/mudae-tools/sorter/page.tsx:96-97 | `trim` removes whitespace padding on both sides of a trimmed string, and nothing more. |
| Text.SplitLines | src/app/mudae-tools/sorter/page.tsx:89 | `split(/\r?\n/)` always yields at least one line. |
| Text.SplitLinesCons | src/app/mudae-tools/sorter/page.tsx:89 | A first line with no break and no trailing `\r` is split off whole. |
| Text.SplitJoinedLines | src/app/mudae-tools/sorter/page.tsx:89 | Splitting lines joined with `\n` gives the lines back, when no line holds a break or ends in `\r`. |
| Text.NatToString | src/app/mudae-tools/sorter/page.tsx:100 | The decimal form of `index` in the template literal is non-empty, and has two or more digits from 10 on. |
| Text.NatToStringInjective | src/app/mudae-tools/sorter/page.tsx:100 | Distinct indices have distinct decimal forms. |
| Entries.WsRun | src/app/mudae-tools/sorter/page.tsx:93 | A greedy `\s*` consumes a run of whitespace that stops at the end or at a non-whitespace character. |
| Entries.WsRunExact | src/app/mudae-tools/sorter/page.tsx:93 | A whitespace run ending at the end of the string or before a non-whitespace character is exactly what `\s*` consumes. |
| Entries.MatchTail | src/app/mudae-tools/sorter/page.tsx:93 | A suffix matching `\s*-\s*(https?:\/\/\S+)$` yields an `http://` or `https://` URL with no whitespace and at least one more character. |
| Entries.MatchTailComplete | src/app/mudae-tools/sorter/page.tsx:93 | Every string made of whitespace, `-`, whitespace and an image URL matches the tail pattern and yields that URL. |
| Entries.MatchTailSound | src/app/mudae-tools/sorter/page.tsx:93 | Every match of the tail has that form: whitespace, `-`, whitespace, then the URL it yields. |
| Entries.MatchTailNeedsDash | src/app/mudae-tools/sorter/page.tsx:93 | A string starting with a character that is neither whitespace nor `-` does not match the tail. |
| Entries.LazySplit | src/app/mudae-tools/sorter/page.tsx:93 | The split point found lies in the line, and the rest of the line matches the tail pattern there. |
| Entries.LazySplitIsLeast | src/app/mudae-tools/sorter/page.tsx:93 | The lazy group ends at the earliest point the tail matches, never crossing a line terminator. When no point matches, the line does not match at all. |
| Entries.LazySplitAt | src/app/mudae-tools/sorter/page.tsx:93 | Conversely, the earliest point reachable without a line terminator at which the tail matches is the split found. |
| Entries.ParseLine | src/app/mudae-tools/sorter/page.tsx:93-100 | A kept line yields a non-empty trimmed name and an http(s) URL. |
| Entries.ParseLineGlued | src/app/mudae-tools/sorter/page.tsx:93-100 | A name without whitespace or dashes, glued to `-` and an image URL, parses to that name and URL: neither `\s*` needs spaces. |
| Entries.GluedSplit | src/app/mudae-tools/sorter/page.tsx:93 | In a name glued to `-` and an image URL, the lazy first group is exactly the name. |
| Entries.ParseLineNeedsDash | src/app/mudae-tools/sorter/page.tsx:93-94 | A line without `-` is dropped. |
| Entries.IdInjective | src/app/mudae-tools/sorter/page.tsx:100 | `p-${a}` and `p-${b}` are equal only for equal indices. |
| Entries.TrimmedNonEmpty | src/app/mudae-tools/sorter/page.tsx:90-91 | Trimming and dropping empty lines leaves only non-empty trimmed lines, and no more lines than before. |
| Entries.TrimmedNonEmptyOne | src/app/mudae-tools/sorter/page.tsx:90-91 | One line yields its trimmed text, or nothing when it is all whitespace. |
| Entries.TrimmedNonEmptyAppend | src/app/mudae-tools/sorter/page.tsx:90-91 | Trimming and dropping blank lines distributes over concatenation, so it works line by line and keeps the order. |
| Entries.TrimmedNonEmptyKeeps | src/app/mudae-tools/sorter/page.tsx:90-91 | Lines that are already trimmed and non-empty pass through unchanged. |
| Entries.ParseLines | src/app/mudae-tools/sorter/page.tsx:92-101 | Each line is parsed on its own, in order. |
| Entries.MatchedNumbers | src/app/mudae-tools/sorter/page.tsx:92-102 | The positions of the matching lines are in range and strictly increasing. |
| Entries.MatchedNumbersComplete | src/app/mudae-tools/sorter/page.tsx:92-102 | The position of every matching line is among the numbered positions. |
| Entries.MatchedNumbersSound | src/app/mudae-tools/sorter/page.tsx:92-102 | Every numbered position is that of a matching line. |
| Entries.NumberLines | src/app/mudae-tools/sorter/page.tsx:100-102 | Dropping the unmatched lines never adds an entry. |
| Entries.NumberLinesIds | src/app/mudae-tools/sorter/page.tsx:92-102 | The `k`-th entry comes from the line at the `k`-th numbered position and carries that position in its id. With MatchedNumbersComplete and MatchedNumbersSound, the numbered positions are exactly those of the matching lines, in order. |
| Entries.NumberLinesDistinctIds | src/app/mudae-tools/sorter/page.tsx:100 | No two parsed entries share an id. |
| Entries.ParseBlank | src/app/mudae-tools/sorter/page.tsx:86 | Whitespace-only input parses to nothing. |
| Entries.ParseWellFormed | src/app/mudae-tools/sorter/page.tsx:85-103 | Every parsed entry has a non-empty trimmed name and an http(s) URL, and the ids are distinct. |
| Entries.FormatLines | src/app/mudae-tools/sorter/page.tsx:93 | One `Name - URL` line per card, in order. |
| Entries.Numbered | src/app/mudae-tools/sorter/page.tsx:100 | The entries expected for a list of cards, one each. |
| Entries.NoMatchBeforeSeparator | src/app/mudae-tools/sorter/page.tsx:93 | The tail pattern cannot start inside a name, before the ` - ` separator. |
| Entries.NoMatchInsideName | src/app/mudae-tools/sorter/page.tsx:93 | In a formatted line, no split point inside the name matches. |
| Entries.TailOfFormatted | src/app/mudae-tools/sorter/page.tsx:93 | Right after the name, the rest of a formatted line matches, with the URL as group 2. |
| Entries.LazySplitFindsName | src/app/mudae-tools/sorter/page.tsx:93 | The lazy group of a formatted line is exactly the name. |
| Entries.ParseLineFormatted | src/app/mudae-tools/sorter/page.tsx:93-100 | A formatted line parses back to its own name and URL. |
| Entries.NumberFormattedLines | src/app/mudae-tools/sorter/page.tsx:92-102 | Numbering the parsed formatted lines gives the expected entries. |
| Entries.FormattedLineShape | src/app/mudae-tools/sorter/page.tsx:89-91 | A formatted line is non-empty, trimmed, and has no line break or trailing `\r`. |
| Entries.FormattedLinesClean | src/app/mudae-tools/sorter/page.tsx:89-91 | Formatted lines survive splitting, trimming and filtering unchanged. |
| Entries.ParseOfCleanLines | src/app/mudae-tools/sorter/page.tsx:85-103 | Text made of clean lines parses line by line. |
| Entries.ParseFormatted | src/app/mudae-tools/sorter/page.tsx:85-103 | Round trip: pasting the `Name - URL` lines of well-formed cards yields exactly those cards, with ids `p-0`, `p-1`, and so on. |
| Entries.GraphicFormattable | src/app/mudae-tools/sorter/page.tsx:93 | A name and an https URL made of printable non-space ASCII can be written as a line and read back. |
| Entries.InvalidLineDropped | src/app/mudae-tools/sorter/page.tsx:94 | `invalidline` does not match and is dropped. |
| Entries.ExampleParsedLines | src/app/mudae-tools/sorter/page.tsx:92-101 | The three example lines parse to Saber, nothing, Samira. |
| Entries.ExampleNumbering | src/app/mudae-tools/sorter/page.tsx:100-102 | The middle line is dropped, and the ids keep the line positions (`p-0`, `p-2`). |
| Entries.ParseExample | src/app/mudae-tools/sorter/page.tsx:85-103 | The three-line example paste yields exactly Saber (`p-0`) and Samira (`p-2`), in that order. |
| Entries.IdExamples | src/app/mudae-tools/sorter/page.tsx:100 | The ids are `p-0` and `p-2` for positions 0 and 2. |
| SorterModel.RemoveAt | src/app/mudae-tools/sorter/page.tsx:139 | `splice(i, 1)` shortens the list by one. |
| SorterModel.InsertAt | src/app/mudae-tools/sorter/page.tsx:140 | `splice(i, 0, x)` lengthens the list by one. |
| SorterModel.RemoveAtIndex | src/app/mudae-tools/sorter/page.tsx:139 | Element `k` after the removal is the one that was at `k`, or at `k+1` past the gap. |
| SorterModel.InsertAtIndex | src/app/mudae-tools/sorter/page.tsx:140 | After the insertion, `x` is at `i`; the elements before `i` are unchanged, and those after are shifted by one. |
| SorterModel.Move | src/app/mudae-tools/sorter/page.tsx:130-143 | `moveEntry` keeps the length. The list is unchanged for equal indices and for any out-of-range index. |
| SorterModel.MovedIndex | src/app/mudae-tools/sorter/page.tsx:138-141 | Where element `i` of the moved list came from: an index in range. |
| SorterModel.MoveIndex | src/app/mudae-tools/sorter/page.tsx:138-141 | Element `i` of the moved list is element `MovedIndex(i)` of the original. |
| SorterModel.MovePermutes | src/app/mudae-tools/sorter/page.tsx:130-143 | A move is a permutation: the multiset of entries is unchanged. |
| SorterModel.MoveKeepsOthersInOrder | src/app/mudae-tools/sorter/page.tsx:138-141 | The moved entry lands at `to`, and the other entries keep their relative order (a move, not a swap). |
| SorterModel.MovedIndexInverse | src/app/mudae-tools/sorter/page.tsx:138-141 | The index maps of `from→to` and `to→from` are inverse. |
| SorterModel.MoveUndo | src/app/mudae-tools/sorter/page.tsx:130-143 | Moving back from `to` to `from` restores the list. |
| SorterModel.MoveExample | src/app/mudae-tools/sorter/page.tsx:138-141 | `[1,2,3]` moved 0→2 is `[2,3,1]`, and moved 2→0 is `[3,1,2]`. |
| SorterModel.ParsedListWellFormed | src/app/mudae-tools/sorter/page.tsx:111-112 | A parsed collection is well formed. |
| SorterModel.MoveKeepsWellFormed | src/app/mudae-tools/sorter/page.tsx:130-143 | A move keeps every entry well formed and the ids distinct. |
| SorterModel.RemoveAll | src/app/mudae-tools/sorter/page.tsx:245 | `filter((id) => id !== entryId)` keeps exactly the other ids. |
| SorterModel.RemoveAllOccurrence | src/app/mudae-tools/sorter/page.tsx:245 | In a duplicate-free list, filtering out an id removes its single position. |
| SorterModel.RemoveAllAbsent | src/app/mudae-tools/sorter/page.tsx:245 | Filtering out an absent id changes nothing. |
| SorterModel.RemoveAllNoDup | src/app/mudae-tools/sorter/page.tsx:245 | Filtering keeps a list duplicate-free. |
| SorterModel.Toggled | src/app/mudae-tools/sorter/page.tsx:243-248 | Toggling flips the membership of the id and leaves every other id as it was; an id not yet selected is appended at the end, so the selection is in click order. |
| SorterModel.ToggledNoDup | src/app/mudae-tools/sorter/page.tsx:243-248 | A toggled selection never holds an id twice. |
| SorterModel.ToggleTwiceMembership | src/app/mudae-tools/sorter/page.tsx:243-248 | Toggling the same id twice restores the membership. |
| SorterModel.RemoveAllLast | src/app/mudae-tools/sorter/page.tsx:245-247 | Removing an id that was just appended gives the list back. |
| SorterModel.ToggleTwiceAbsent | src/app/mudae-tools/sorter/page.tsx:243-248 | Toggling an absent id twice restores the list itself, order included. |
| SorterModel.FindIndex | src/app/mudae-tools/sorter/page.tsx:255 | `find` returns the first entry with the id, or nothing when no entry has it. |
| SorterModel.FindName | src/app/mudae-tools/sorter/page.tsx:255 | A name is found exactly when some entry has the id, and it is that entry's name. |
| SorterModel.ResolveNames | src/app/mudae-tools/sorter/page.tsx:254-258 | Ids whose name is missing or empty are dropped. The result is empty exactly when no id resolves. |
| SorterModel.ResolveNamesSnoc | src/app/mudae-tools/sorter/page.tsx:254-256 | Selecting one more id adds its name at the end of the resolved names when it resolves, and nothing otherwise. |
| SorterModel.ResolveNamesInSelectionOrder | src/app/mudae-tools/sorter/page.tsx:254-256 | When every id resolves, name `k` belongs to selected id `k`: click order, not list order. |
| SorterModel.Names | src/app/mudae-tools/sorter/page.tsx:108 | The names of the entries, in list order. |
| SorterModel.ExportCommand | src/app/mudae-tools/sorter/page.tsx:106-109 | The command is empty exactly for an empty list; otherwise it is `$sm ` and the names joined with ` $ `. |
| SorterModel.DivorceCommand | src/app/mudae-tools/sorter/page.tsx:260 | The command starts with `$divorce `. |
| SorterModel.TradeCommand | src/app/mudae-tools/sorter/page.tsx:300 | The command starts with `$trade "recipient" `. |
| SorterModel.JoinedNamesSplit | src/app/mudae-tools/sorter/page.tsx:108 | Splitting a ` $ `-joined list at `$` and trimming gives the names back, for names without `$` or edge whitespace. |
| SorterModel.ExportCommandNames | src/app/mudae-tools/sorter/page.tsx:106-109 | The export command reads back to the names in list order. |
| SorterModel.DivorceCommandNames | src/app/mudae-tools/sorter/page.tsx:260 | The `$divorce` command reads back to its names. |
| SorterModel.TradeCommandNames | src/app/mudae-tools/sorter/page.tsx:300 | The `$trade` command reads back to its names. |
| SorterModel.ExportCommandExample | src/app/mudae-tools/sorter/page.tsx:106-109 | Saber, Samira and Rem export as `$sm Saber $ Samira $ Rem`. |
| SorterModel.DivorceCommandExample | src/app/mudae-tools/sorter/page.tsx:260 | Saber and Samira give `$divorce Saber $ Samira`. |
| SorterModel.TradeCommandExample | src/app/mudae-tools/sorter/page.tsx:300 | Saber and Samira give `$trade "recipient" Saber $ Samira`. |
| SorterModel.HoverTarget | src/app/mudae-tools/sorter/page.tsx:189-198 | A changed target is the index carried by some card under the pointer. |
| SorterModel.FirstCard | src/app/mudae-tools/sorter/page.tsx:189-191 | The first card under the pointer: every element above it is not a card, and there is none when no card is hit. |
| SorterModel.HoverTargetIsFirstCard | src/app/mudae-tools/sorter/page.tsx:189-198 | The first card decides: its index when it parses, otherwise the current target is kept. |
| SorterModel.HoverTargetIdempotent | src/app/mudae-tools/sorter/page.tsx:181-198 | A leaked second `moveHandler` on the same event changes nothing more. |
| SorterPage.Sorter.constructor | src/app/mudae-tools/sorter/page.tsx:13-30 | The initial state: everything empty, off or null. |
| SorterPage.Sorter.EditInput | src/app/mudae-tools/sorter/page.tsx:351 | Only the raw input changes. |
| SorterPage.Sorter.Apply | src/app/mudae-tools/sorter/page.tsx:111-117 | The parsed text becomes the collection, both modes end and both selections empty; the rest is unchanged. |
| SorterPage.Sorter.Clear | src/app/mudae-tools/sorter/page.tsx:119-128 | Input, collection, drag indices, modes and selections are reset; the export output and the drag ref are kept. |
| SorterPage.Sorter.MoveEntry | src/app/mudae-tools/sorter/page.tsx:130-143 | Copy-and-splice gives exactly `Move(entries, from, to)`; nothing else changes. |
| SorterPage.Sorter.PointerDown | src/app/mudae-tools/sorter/page.tsx:145-217 | Ignored in either mode or for a non-primary button. Otherwise a drag starts with `lastOverIndex = fromIndex = index`. |
| SorterPage.Sorter.PointerMove | src/app/mudae-tools/sorter/page.tsx:181-200 | Without a drag, nothing changes. Otherwise `lastOverIndex` and `dragOverIndex` become the first card's index when it parses and differs, and nothing else changes. |
| SorterPage.Sorter.PointerUp | src/app/mudae-tools/sorter/page.tsx:202-212 | Without a drag, nothing changes. Otherwise it commits `Move(entries, fromIndex, lastOverIndex)` and clears the drag and both indices. |
| SorterPage.Sorter.Export | src/app/mudae-tools/sorter/page.tsx:219-224 | Shows the `$sm` command, unless the list is empty. |
| SorterPage.Sorter.ToggleDivorceMode | src/app/mudae-tools/sorter/page.tsx:226-238 | Entering ends Trade mode and its selection; leaving empties the divorce selection. The modes are never on together. |
| SorterPage.Sorter.ToggleTradeMode | src/app/mudae-tools/sorter/page.tsx:266-278 | The mirror image, for Trade mode. |
| SorterPage.Sorter.ToggleDivorceSelection | src/app/mudae-tools/sorter/page.tsx:240-249 | No effect outside Divorce mode. Inside it, the selection becomes `Toggled(selection, id)` and stays duplicate-free. |
| SorterPage.Sorter.ToggleTradeSelection | src/app/mudae-tools/sorter/page.tsx:280-289 | The same, for Trade mode. |
| SorterPage.Sorter.ClickEntry | src/app/mudae-tools/sorter/page.tsx:472-475 | A card click reaches both toggles; only the active mode's selection changes. |
| SorterPage.Sorter.FinalizeDivorce | src/app/mudae-tools/sorter/page.tsx:251-264 | Nothing happens when no selected id resolves. Otherwise the output is the `$divorce` command of the names in click order, and the mode ends with an empty selection. |
| SorterPage.Sorter.FinalizeTrade | src/app/mudae-tools/sorter/page.tsx:291-304 | The same, with the `$trade "recipient"` command. |
| SorterPage.PressAndRelease | src/app/mudae-tools/sorter/page.tsx:178-214 | Press and release without a hover change: the order is unchanged and the drag state is null again. |
| SorterPage.DragGesture | src/app/mudae-tools/sorter/page.tsx:145-217 | Press on `from`, one move, release: the list becomes `Move(entries, from, target under the pointer)`. |
| Carousel.JsRem | src/app/mudae-tools/gallery/page.tsx:145 | JavaScript's `%`: quotient rounded toward zero, remainder with the sign of the dividend. |
| Carousel.ItemAt | src/app/mudae-tools/gallery/page.tsx:146 | `collections[index]` is defined exactly for an index in range. |
| Carousel.Window | src/app/mudae-tools/gallery/page.tsx:137-150 | Empty for an empty collection; otherwise exactly 11 slots. |
| Carousel.CarouselWindow | src/app/mudae-tools/gallery/page.tsx:137-150 | The counting loop from `-half` to `half` pushes exactly the `Window` slots, in order. |
| Carousel.WindowCentre | src/app/mudae-tools/gallery/page.tsx:141-146 | The centre slot holds the anchor. |
| Carousel.WindowInRange | src/app/mudae-tools/gallery/page.tsx:145-146 | With one entry or with five or more, every slot index is in range. |
| Carousel.WindowNegativeSlot | src/app/mudae-tools/gallery/page.tsx:145-146 | With two to four entries at anchor 0, the first slot has a negative index and no item. |
| Carousel.WindowInRangeExactly | src/app/mudae-tools/gallery/page.tsx:145-146 | Every anchor gives an in-range window exactly when the collection has one entry or at least five. |
| Carousel.TwoCardCounterexample | src/app/mudae-tools/gallery/page.tsx:145 | Two cards at anchor 0: slot 0 is index -1 with no item. |
| Carousel.CircularWindow | src/app/mudae-tools/gallery/page.tsx:137-150 | The corrected window: 11 slots, each naming an existing entry. |
| Carousel.CircularWindowAgrees | src/app/mudae-tools/gallery/page.tsx:145 | Where the code's window is valid, the corrected window is the same. |
| Carousel.CircularWindowCentre | src/app/mudae-tools/gallery/page.tsx:416-418 | The corrected window centres on the anchor. |
| Carousel.PrevNextAreCircularSteps | src/app/mudae-tools/gallery/page.tsx:390-400 | Prev is `(anchor - 1) mod len` and Next is `(anchor + 1) mod len`. |
| Carousel.PrevNextRoundTrip | src/app/mudae-tools/gallery/page.tsx:390-400 | Both targets are in range; Next undoes Prev and Prev undoes Next. |
| Carousel.PrevTimes | src/app/mudae-tools/gallery/page.tsx:390 | `n` presses of Prev keep the anchor in range. |
| Carousel.NextTimes | src/app/mudae-tools/gallery/page.tsx:400 | `n` presses of Next keep the anchor in range. |
| Carousel.PrevNextTimesRoundTrip | src/app/mudae-tools/gallery/page.tsx:390-400 | `n` presses of Prev followed by `n` of Next return to the start, and the other way round. |
| Carousel.NeighbourThumbnails | src/app/mudae-tools/gallery/page.tsx:390-418 | The thumbnails beside the centre are the Prev and Next targets. |
| GalleryPage.OnePendingPerKind | src/app/mudae-tools/gallery/page.tsx:125-129 | A valid timer slot allows at most one pending timeout of its kind. |
| GalleryPage.ReplaceSlot | src/app/mudae-tools/gallery/page.tsx:125-131 | `clearTimeout` then `setTimeout` leaves exactly the new timeout pending for the slot. |
| GalleryPage.ReplaceOtherSlot | src/app/mudae-tools/gallery/page.tsx:253-263 | Replacing one slot's timeout leaves the other slot valid. |
| GalleryPage.FireSlot | src/app/mudae-tools/gallery/page.tsx:129-131 | A fired timeout leaves the table, and its slot's animation ends. |
| GalleryPage.SlideStartedOk | src/app/mudae-tools/gallery/page.tsx:121-132 | Starting a slide keeps the timer invariant. |
| GalleryPage.CarouselStartedOk | src/app/mudae-tools/gallery/page.tsx:249-263 | Starting the carousel animation keeps the timer invariant. |
| GalleryPage.FiredOk | src/app/mudae-tools/gallery/page.tsx:261-263 | A timeout firing keeps the timer invariant. |
| GalleryPage.Gallery.constructor | src/app/mudae-tools/gallery/page.tsx:13-24 | The initial state: empty, index 0, nothing pending. |
| GalleryPage.Gallery.OnePendingTimerPerKind | src/app/mudae-tools/gallery/page.tsx:121-132 | At most one slide timeout and one carousel timeout are ever pending. |
| GalleryPage.Gallery.EditInput | src/app/mudae-tools/gallery/page.tsx:323 | Only the raw input changes. |
| GalleryPage.Gallery.Apply | src/app/mudae-tools/gallery/page.tsx:106-111 | The parsed text becomes the collection; the selected index, the anchor and the shift are 0. |
| GalleryPage.Gallery.Show | src/app/mudae-tools/gallery/page.tsx:107-110 | The batched updates of `handleApply`, for a well-formed list. |
| GalleryPage.Gallery.Clear | src/app/mudae-tools/gallery/page.tsx:113-119 | The input and the collection are emptied; the index, the anchor and the shift are 0. |
| GalleryPage.Gallery.SetIndexWithAnimation | src/app/mudae-tools/gallery/page.tsx:121-132 | Sets the direction and the index, and replaces the slide timeout by a new one, keeping the timer invariant. |
| GalleryPage.Gallery.AnimateTo | src/app/mudae-tools/gallery/page.tsx:245-264 | No-op for an empty collection or `delta = 0`. Otherwise index = anchor = `next`, shift `-delta`, animating, direction `left` iff `delta > 0`, and both timeouts replaced. Valid when `next` is in range. |
| GalleryPage.Gallery.StartCarousel | src/app/mudae-tools/gallery/page.tsx:249-263 | Anchor, shift, animation flag, a queued frame callback and a replaced carousel timeout. |
| GalleryPage.Gallery.Prev | src/app/mudae-tools/gallery/page.tsx:389-392 | The anchor goes one step left, wrapping; slide direction `right`; animating. |
| GalleryPage.Gallery.Next | src/app/mudae-tools/gallery/page.tsx:399-402 | The anchor goes one step right, wrapping; slide direction `left`; animating. |
| GalleryPage.Gallery.ThumbnailClick | src/app/mudae-tools/gallery/page.tsx:429-432 | The anchor becomes the clicked slot's entry, `slot - centre` steps around. Clicking the centre changes nothing. |
| GalleryPage.Gallery.TimerFired | src/app/mudae-tools/gallery/page.tsx:129-131 | The fired timeout clears the slide direction or the animation flag, and keeps the invariant. |
| GalleryPage.Gallery.AnimationFrame | src/app/mudae-tools/gallery/page.tsx:257-259 | Queued frame callbacks reset the shift to 0. |
| GalleryPage.NextAndSettle | src/app/mudae-tools/gallery/page.tsx:245-264 | After Next, one frame and both timeouts, the carousel rests on the next entry, with shift 0 and no animation. |

## Left out

- The cursor-glow effect, the adaptive background sampler (canvas, floating-point colour averaging, GIF polling) and the image proxy route. These are DOM, floating point and network I/O.
- The ghost drag element, `elementsFromPoint` hit-testing, fullscreen, image preloading, clipboard copy and the copy label, the compact-grid toggle, background styles, and all JSX markup. These are browser plumbing. Hit-testing is an input: the list of `Hit`s under the pointer.
- `parseInt` of the `data-entry-index` attribute is abstracted to `Option<int>`, with `None` for `NaN`.
- The 320 ms timeout delay is not modelled. A timeout is pending until the environment fires it with `TimerFired`, and ids come from a counter starting at 1, as browser timeout ids are positive.
- `requestAnimationFrame` callbacks are a count. All of them set the shift to 0, so one `AnimationFrame` event runs them all.
- React's batching and rendering are not modelled: each handler is one atomic step over the state. States are not compared across a render, and StrictMode's double invocation of updaters is not modelled.
- The `disabled` attributes are not modelled: Load (sorter line 358, gallery line 330), Clear (sorter line 366, gallery line 338) and the two Finalize buttons (sorter lines 423 and 437). The handlers can be called in every state, and their own guards decide.
- The rendering conditions are not modelled. Export, the mode toggles and Prev/Next are rendered only once a collection is loaded (`hasLoaded &&`, sorter line 377, gallery line 350). Their handlers are modelled for every state. Export, Prev and Next are no-ops on an empty collection. The mode toggles are not: on an empty collection they still switch the modes.
- Event listeners leaked by a second pointer-down are not modelled as objects. Their observable effect is covered:
  - a second `moveHandler` on the same event changes nothing (`HoverTargetIdempotent`);
  - a second `endHandler` finds the drag cleared and returns (`PointerUp` without a drag).
- The hover handler accepts any parsed index, not only one in range. An out-of-range drop target makes `moveEntry` leave the list unchanged.
- GalleryPage.Gallery.Prev: states the new anchor, direction and animation flag only; the full new state is the contract of `AnimateTo`, which it calls.
- GalleryPage.Gallery.Next: states the new anchor, direction and animation flag only, for the same reason.
- GalleryPage.Gallery.ThumbnailClick: states the new anchor (through the corrected window) and the centre no-op; the rest is `AnimateTo`'s contract.
- SorterModel.DivorceCommand: its own contract states only the prefix; `DivorceCommandNames` states that the command reads back to its names.
- SorterModel.TradeCommand: likewise, with `TradeCommandNames`.

## Findings

| source | as written | input that shows it | evidently intended | confidence | as-written member | corrected member |
|---|---|---|---|---|---|---|
| src/app/mudae-tools/gallery/page.tsx:145 | `(anchor + offset + len) % len` with JavaScript's sign-preserving `%`: for `len` from 2 to 4 and offsets down to -5, the dividend can be negative, the index negative, and `collections[index]` undefined, so the render's `entry.item.id` (line 422) throws. | Two entries, anchor 0: slot 0 has index `(0 - 5 + 2) % 2 = -1`. | A circular window: index `(anchor + offset) mod len`, always in `[0, len)`. | not executed | Carousel.TwoCardCounterexample | Carousel.CircularWindow |
