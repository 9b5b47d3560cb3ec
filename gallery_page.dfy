/**
 * The gallery page's navigation state: the selected entry, the carousel anchor and
 * shift, the slide and carousel animations, and the two timers that end them.
 * `window.setTimeout` is a map from timer ids to the callback each will run, ids
 * counted up from 1; `requestAnimationFrame` is a count of queued frame callbacks.
 */
module GalleryPage {
  import opened Common
  import opened Entries
  import opened SorterModel
  import opened Carousel

  datatype Direction = Left | Right

  /** What a pending timeout does when it fires. */
  datatype TimerAction = ClearSlideDirection | StopCarouselAnimation

  /** Every field of the page's navigation at one moment. */
  datatype GalleryState = GalleryState(
    rawInput: string,
    collections: seq<Entry>,
    selectedIndex: int,
    anchor: int,
    shift: int,
    animating: bool,
    slideDirection: Option<Direction>,
    pending: map<nat, TimerAction>,
    nextTimerId: nat,
    slideTimeoutRef: Option<nat>,
    carouselTimeoutRef: Option<nat>,
    pendingFrames: nat)

  /** The ids a timeout ref holds: `clearTimeout` cancels these. */
  function RefIds(ref: Option<nat>): set<nat>
  {
    if ref.Some? then {ref.value} else {}
  }

  /** `delta > 0 ? 'left' : 'right'`. */
  function DirectionOf(delta: int): Direction
  {
    if delta > 0 then Left else Right
  }

  /** The browser's pending timeouts, by id. */
  type Timeouts = map<nat, TimerAction>

  /** Every pending id was issued, and ids are issued counting up from 1. */
  predicate IdsIssued(pending: Timeouts, next: nat)
  {
    forall id :: id in pending ==> 1 <= id < next
  }

  /** `if (ref) clearTimeout(ref); ref = setTimeout(kind)`, the new timeout getting id `next`. */
  function Replace(pending: Timeouts, ref: Option<nat>, next: nat, kind: TimerAction): Timeouts
  {
    (pending - RefIds(ref))[next := kind]
  }

  /**
   * One timeout ref and its kind of timeout: the ref was issued, every pending timeout of the kind is
   * the one the ref holds, and while the animation it ends is `active` that timeout is pending.
   */
  predicate SlotValid(pending: Timeouts, next: nat, ref: Option<nat>, kind: TimerAction, active: bool)
  {
    && (ref.Some? ==> ref.value < next)
    && (ref.Some? && ref.value in pending ==> pending[ref.value] == kind)
    && (forall id :: id in pending && pending[id] == kind ==> ref == Some(id))
    && (active ==> ref.Some? && ref.value in pending)
  }

  /** A slot allows at most one pending timeout of its kind. */
  lemma OnePendingPerKind(pending: Timeouts, next: nat, ref: Option<nat>, kind: TimerAction, active: bool)
    requires SlotValid(pending, next, ref, kind, active)
    ensures forall i, j :: i in pending && j in pending && pending[i] == kind && pending[j] == kind ==> i == j
  {
  }

  /** Replacing a slot's timeout leaves exactly the new one pending for it. */
  lemma ReplaceSlot(pending: Timeouts, next: nat, ref: Option<nat>, kind: TimerAction, active: bool)
    requires next >= 1 && IdsIssued(pending, next) && SlotValid(pending, next, ref, kind, active)
    ensures IdsIssued(Replace(pending, ref, next, kind), next + 1)
    ensures SlotValid(Replace(pending, ref, next, kind), next + 1, Some(next), kind, true)
  {
  }

  /** Replacing one slot's timeout does not disturb the other slot. */
  lemma ReplaceOtherSlot(pending: Timeouts, next: nat, ref: Option<nat>, kind: TimerAction,
                         ref2: Option<nat>, kind2: TimerAction, active2: bool)
    requires kind != kind2 && IdsIssued(pending, next)
    requires SlotValid(pending, next, ref, kind, false) && SlotValid(pending, next, ref2, kind2, active2)
    ensures SlotValid(Replace(pending, ref, next, kind), next + 1, ref2, kind2, active2)
  {
    var p := Replace(pending, ref, next, kind);
    forall id | id in p && p[id] == kind2 ensures ref2 == Some(id) {
      assert id != next;
    }
  }

  /** A timeout that fires leaves the table; its own slot stays valid with its animation ended. */
  lemma FireSlot(pending: Timeouts, next: nat, id: nat, ref: Option<nat>, kind: TimerAction, active: bool)
    requires id in pending && IdsIssued(pending, next) && SlotValid(pending, next, ref, kind, active)
    ensures IdsIssued(pending - {id}, next)
    ensures SlotValid(pending - {id}, next, ref, kind, active && pending[id] != kind)
  {
  }

  /**
   * Timer ids are issued once; a pending timer of each kind is the one its ref holds, so at most
   * one of each kind is pending; an animation under way has its timer pending; a nonzero
   * shift has a frame callback queued to reset it.
   */
  predicate TimersOk(s: GalleryState)
  {
    && s.nextTimerId >= 1
    && IdsIssued(s.pending, s.nextTimerId)
    && SlotValid(s.pending, s.nextTimerId, s.slideTimeoutRef, ClearSlideDirection, s.slideDirection.Some?)
    && SlotValid(s.pending, s.nextTimerId, s.carouselTimeoutRef, StopCarouselAnimation, s.animating)
    && (s.shift != 0 ==> s.pendingFrames > 0)
  }

  /**
   * The state `setIndexWithAnimation(next, direction)` leaves: `next` selected, the slide under
   * way, and the slide timer replaced by a new one under the next id.
   */
  function SlideStarted(s: GalleryState, next: int, direction: Direction): GalleryState
  {
    s.(slideDirection := Some(direction), selectedIndex := next,
       pending := Replace(s.pending, s.slideTimeoutRef, s.nextTimerId, ClearSlideDirection),
       slideTimeoutRef := Some(s.nextTimerId), nextTimerId := s.nextTimerId + 1)
  }

  /**
   * The state the carousel half of `animateCarouselToIndex(next, delta)` leaves: `next` anchored,
   * the strip shifted back by `delta` with a frame queued, and the carousel timer replaced.
   */
  function CarouselStarted(s: GalleryState, next: int, delta: int): GalleryState
  {
    s.(anchor := next, shift := -delta, animating := true,
       pending := Replace(s.pending, s.carouselTimeoutRef, s.nextTimerId, StopCarouselAnimation),
       nextTimerId := s.nextTimerId + 1, carouselTimeoutRef := Some(s.nextTimerId),
       pendingFrames := s.pendingFrames + 1)
  }

  /** The state `animateCarouselToIndex(next, delta)` leaves when it does not return early. */
  function Animated(s: GalleryState, next: int, delta: int): GalleryState
  {
    CarouselStarted(SlideStarted(s, next, DirectionOf(delta)), next, delta)
  }

  /** The state after pending timeout `id` fires: it leaves the table and ends its animation. */
  function Fired(s: GalleryState, id: nat): GalleryState
    requires id in s.pending
  {
    if s.pending[id] == ClearSlideDirection then s.(pending := s.pending - {id}, slideDirection := None)
    else s.(pending := s.pending - {id}, animating := false)
  }

  /** Starting the slide keeps the timer invariant, and the slide's timer is then pending. */
  lemma SlideStartedOk(s: GalleryState, next: int, direction: Direction)
    requires TimersOk(s)
    ensures TimersOk(SlideStarted(s, next, direction))
  {
    ReplaceSlot(s.pending, s.nextTimerId, s.slideTimeoutRef, ClearSlideDirection, s.slideDirection.Some?);
    ReplaceOtherSlot(s.pending, s.nextTimerId, s.slideTimeoutRef, ClearSlideDirection,
                     s.carouselTimeoutRef, StopCarouselAnimation, s.animating);
  }

  /** Starting the carousel animation while a slide is under way keeps the timer invariant. */
  lemma CarouselStartedOk(s: GalleryState, next: int, delta: int)
    requires TimersOk(s) && s.slideDirection.Some?
    ensures TimersOk(CarouselStarted(s, next, delta))
  {
    ReplaceSlot(s.pending, s.nextTimerId, s.carouselTimeoutRef, StopCarouselAnimation, s.animating);
    ReplaceOtherSlot(s.pending, s.nextTimerId, s.carouselTimeoutRef, StopCarouselAnimation,
                     s.slideTimeoutRef, ClearSlideDirection, true);
  }

  /** A timeout that fires keeps the timer invariant. */
  lemma FiredOk(s: GalleryState, id: nat)
    requires TimersOk(s) && id in s.pending
    ensures TimersOk(Fired(s, id))
  {
    FireSlot(s.pending, s.nextTimerId, id, s.slideTimeoutRef, ClearSlideDirection, s.slideDirection.Some?);
    FireSlot(s.pending, s.nextTimerId, id, s.carouselTimeoutRef, StopCarouselAnimation, s.animating);
  }

  class Gallery {
    var rawInput: string
    var collections: seq<Entry>
    var selectedIndex: int
    var anchor: int
    var shift: int
    var animating: bool
    var slideDirection: Option<Direction>
    var pending: map<nat, TimerAction>
    var nextTimerId: nat
    var slideTimeoutRef: Option<nat>
    var carouselTimeoutRef: Option<nat>
    var pendingFrames: nat

    function State(): GalleryState
      reads this
    {
      GalleryState(rawInput, collections, selectedIndex, anchor, shift, animating, slideDirection,
                   pending, nextTimerId, slideTimeoutRef, carouselTimeoutRef, pendingFrames)
    }

    /** The selected index is the anchor, and it names an entry (it is 0 for an empty collection). */
    predicate IndexValid()
      reads this
    {
      && selectedIndex == anchor
      && (if |collections| == 0 then anchor == 0 else 0 <= anchor < |collections|)
    }

    /** The timer invariant, `TimersOk`, of the current state. */
    predicate TimersValid()
      reads this
    {
      TimersOk(State())
    }

    ghost predicate Valid()
      reads this
    {
      IndexValid() && TimersValid() && WellFormedList(collections)
    }

    constructor()
      ensures Valid()
      ensures State() == GalleryState("", [], 0, 0, 0, false, None, map[], 1, None, None, 0)
    {
      rawInput, collections, selectedIndex, anchor, shift, animating := "", [], 0, 0, 0, false;
      slideDirection, pending, nextTimerId, slideTimeoutRef, carouselTimeoutRef, pendingFrames := None, map[], 1, None, None, 0;
    }

    /** At most one timer of each kind is ever pending. */
    lemma OnePendingTimerPerKind()
      requires TimersValid()
      ensures forall i, j :: i in pending && j in pending && pending[i] == pending[j] ==> i == j
    {
      OnePendingPerKind(pending, nextTimerId, slideTimeoutRef, ClearSlideDirection, slideDirection.Some?);
      OnePendingPerKind(pending, nextTimerId, carouselTimeoutRef, StopCarouselAnimation, animating);
      forall i, j | i in pending && j in pending && pending[i] == pending[j] ensures i == j {
        assert pending[i] == ClearSlideDirection || pending[i] == StopCarouselAnimation;
      }
    }

    /** The textarea's `onChange`. */
    method EditInput(text: string)
      modifies this
      requires Valid()
      ensures Valid()
      ensures State() == old(State()).(rawInput := text)
    {
      ghost var before := State();
      rawInput := text;
      assert State() == before.(rawInput := text);
    }

    /** `handleApply`: the parsed text becomes the collection, shown from its first entry. */
    method Apply()
      modifies this
      requires Valid()
      ensures Valid()
      ensures State() == old(State()).(collections := Parse(old(rawInput)), selectedIndex := 0, anchor := 0, shift := 0)
    {
      ParsedListWellFormed(rawInput);
      Show(Parse(rawInput));
    }

    /** The state updates `handleApply` batches: show `parsed` from its first entry, at rest. */
    method Show(parsed: seq<Entry>)
      modifies this
      requires Valid() && WellFormedList(parsed)
      ensures Valid()
      ensures State() == old(State()).(collections := parsed, selectedIndex := 0, anchor := 0, shift := 0)
    {
      ghost var before := State();
      collections := parsed;
      selectedIndex := 0;
      anchor := 0;
      shift := 0;
      assert State() == before.(collections := parsed, selectedIndex := 0, anchor := 0, shift := 0);
    }

    /** `handleClear`. */
    method Clear()
      modifies this
      requires Valid()
      ensures Valid()
      ensures State() == old(State()).(rawInput := "", collections := [], selectedIndex := 0, anchor := 0, shift := 0)
    {
      ghost var before := State();
      rawInput := "";
      collections := [];
      selectedIndex := 0;
      anchor := 0;
      shift := 0;
      assert State() == before.(rawInput := "", collections := [], selectedIndex := 0, anchor := 0, shift := 0);
    }

    /** `setIndexWithAnimation`: start the slide, replacing a pending slide timer by a new one. */
    method SetIndexWithAnimation(next: int, direction: Direction)
      modifies this
      requires TimersValid()
      ensures TimersValid()
      ensures State() == SlideStarted(old(State()), next, direction)
    {
      ghost var before := State();
      slideDirection := Some(direction);
      selectedIndex := next;
      // clearTimeout on the old ref, then setTimeout under the next id
      var id := nextTimerId;
      pending := Replace(pending, slideTimeoutRef, id, ClearSlideDirection);
      nextTimerId := nextTimerId + 1;
      slideTimeoutRef := Some(id);
      assert State() == SlideStarted(before, next, direction);
      SlideStartedOk(before, next, direction);
    }

    /**
     * `animateCarouselToIndex`: nothing for an empty collection or a zero step; otherwise select
     * and anchor `next`, shift the strip back by `delta`, queue a frame, and replace both timers.
     */
    method AnimateTo(next: int, delta: int)
      modifies this
      requires Valid()
      ensures (0 <= next < |collections| || delta == 0) ==> Valid()
      ensures |old(collections)| == 0 || delta == 0 ==> State() == old(State())
      ensures |old(collections)| > 0 && delta != 0 ==> State() == Animated(old(State()), next, delta)
    {
      ghost var before := State();
      if |collections| == 0 || delta == 0 {
        assert State() == before;
        return;
      }
      SetIndexWithAnimation(next, DirectionOf(delta));
      StartCarousel(next, delta);
      assert State() == Animated(before, next, delta);
    }

    /**
     * The carousel half of `animateCarouselToIndex`: anchor `next`, shift the strip back by
     * `delta`, queue the frame that resets the shift, and replace the carousel timer.
     */
    method StartCarousel(next: int, delta: int)
      modifies this
      requires TimersValid() && slideDirection.Some?
      ensures TimersValid()
      ensures State() == CarouselStarted(old(State()), next, delta)
    {
      ghost var before := State();
      anchor := next;
      shift := -delta;
      animating := true;
      pendingFrames := pendingFrames + 1;
      // clearTimeout on the old ref, then setTimeout under the next id
      var id := nextTimerId;
      pending := Replace(pending, carouselTimeoutRef, id, StopCarouselAnimation);
      nextTimerId := nextTimerId + 1;
      carouselTimeoutRef := Some(id);
      assert State() == CarouselStarted(before, next, delta);
      CarouselStartedOk(before, next, delta);
    }

    /** The Prev button. */
    method Prev()
      modifies this
      requires Valid()
      ensures Valid()
      ensures |collections| > 0 ==> anchor == PrevIndex(old(anchor), |collections|) && slideDirection == Some(Right) && animating
      ensures |collections| == 0 ==> State() == old(State())
    {
      var next := if anchor > 0 then anchor - 1 else |collections| - 1;
      AnimateTo(next, -1);
    }

    /** The Next button. */
    method Next()
      modifies this
      requires Valid()
      ensures Valid()
      ensures |collections| > 0 ==> anchor == NextIndex(old(anchor), |collections|) && slideDirection == Some(Left) && animating
      ensures |collections| == 0 ==> State() == old(State())
    {
      var next := if anchor < |collections| - 1 then anchor + 1 else 0;
      AnimateTo(next, 1);
    }

    /**
     * A click on carousel thumbnail `slot`: go to the entry that slot shows, by the signed distance
     * from the centre slot. The slot's entry is taken from the corrected window.
     */
    method ThumbnailClick(slot: int)
      modifies this
      requires Valid()
      requires |collections| > 0 && 0 <= slot < WindowSize
      ensures Valid()
      ensures collections == old(collections)
      ensures anchor == (old(anchor) + (slot - Half)) % |collections|
      ensures slot == Half ==> State() == old(State())
    {
      var window := CircularWindow(collections, anchor);
      var centre := |window| / 2;
      var delta := slot - centre;
      var target := window[slot].index;
      if slot == Half {
        CircularWindowCentre(collections, anchor);
      }
      AnimateTo(target, delta);
    }

    /** A pending timeout fires: it leaves the map and ends its animation. */
    method TimerFired(id: nat)
      modifies this
      requires Valid()
      requires id in pending
      ensures Valid()
      ensures State() == Fired(old(State()), id)
    {
      ghost var before := State();
      var action := pending[id];
      pending := pending - {id};
      match action {
        case ClearSlideDirection => slideDirection := None;
        case StopCarouselAnimation => animating := false;
      }
      assert State() == Fired(before, id);
      FiredOk(before, id);
    }

    /** The browser paints a frame: every queued frame callback resets the shift. */
    method AnimationFrame()
      modifies this
      requires Valid()
      ensures Valid()
      ensures State() == if old(pendingFrames) > 0 then old(State()).(shift := 0, pendingFrames := 0) else old(State())
    {
      ghost var before := State();
      if pendingFrames > 0 {
        shift := 0;
        pendingFrames := 0;
        assert State() == before.(shift := 0, pendingFrames := 0);
      }
    }
  }

  /** Next, one frame and both timeouts: the carousel rests on the next entry with no animation left. */
  method NextAndSettle(g: Gallery)
    modifies g
    requires g.Valid() && |g.collections| > 0
    ensures g.Valid()
    ensures g.anchor == NextIndex(old(g.anchor), |g.collections|) == g.selectedIndex
    ensures g.shift == 0 && !g.animating && g.slideDirection == None
  {
    g.Next();
    g.AnimationFrame();
    var slideId, carouselId := g.slideTimeoutRef.value, g.carouselTimeoutRef.value;
    g.TimerFired(slideId);
    g.TimerFired(carouselId);
  }
}
