/**
 * The gallery's thumbnail carousel: an 11-slot window centred on the anchor index,
 * computed with JavaScript's sign-preserving remainder, the wrap-around indices of
 * the Prev and Next buttons, and the corrected, truly circular window.
 */
module Carousel {
  import opened Common
  import opened Entries

  /** `windowSize` in the carousel. */
  const WindowSize: int := 11
  /** `Math.floor(windowSize / 2)`: the offset of the centre slot. */
  const Half: int := 5

  /** JavaScript's integer quotient: rounded toward zero. */
  function JsQuot(a: int, b: int): int
    requires b > 0
  {
    if a >= 0 then a / b else -((-a) / b)
  }

  /** JavaScript's `%` on a positive divisor: the remainder of the quotient rounded toward zero, with the sign of the dividend. */
  function JsRem(a: int, b: int): (r: int)
    requires b > 0
    ensures a == b * JsQuot(a, b) + r
    ensures a >= 0 ==> 0 <= r < b
    ensures a < 0 ==> -b < r <= 0
  {
    if a >= 0 then a % b
    else
      var q, m := (-a) / b, (-a) % b;
      assert -a == b * q + m;
      assert b * (-q) == -(b * q);
      -m
  }

  /** A carousel slot `{ item: collections[index], index }`; `item` is `None` where `collections[index]` is `undefined`. */
  datatype Slot = Slot(item: Option<Entry>, index: int)

  function ItemAt(collections: seq<Entry>, index: int): (item: Option<Entry>)
    ensures item.Some? <==> 0 <= index < |collections|
  {
    if 0 <= index < |collections| then Some(collections[index]) else None
  }

  /** The index the code computes for slot `k`, that is for offset `k - Half` from the anchor. */
  function SlotIndex(anchor: int, len: int, k: int): int
    requires len > 0
  {
    JsRem(anchor + (k - Half) + len, len)
  }

  /** The window as the carousel computes it. */
  function Window(collections: seq<Entry>, anchor: int): (w: seq<Slot>)
    ensures |collections| == 0 ==> w == []
    ensures |collections| > 0 ==> |w| == WindowSize
  {
    if |collections| == 0 then []
    else
      var len := |collections|;
      seq(WindowSize, k requires 0 <= k < WindowSize =>
        Slot(ItemAt(collections, SlotIndex(anchor, len, k)), SlotIndex(anchor, len, k)))
  }

  /** `carouselWindow`: one slot per offset from `-half` to `half`, pushed in order. */
  method CarouselWindow(collections: seq<Entry>, anchor: int) returns (items: seq<Slot>)
    ensures items == Window(collections, anchor)
  {
    if |collections| == 0 {
      return [];
    }
    var len := |collections|;
    items := [];
    for offset := -Half to Half + 1
      invariant |items| == offset + Half
      invariant items == Window(collections, anchor)[..offset + Half]
    {
      var index := JsRem(anchor + offset + len, len);
      items := items + [Slot(ItemAt(collections, index), index)];
    }
  }

  /** Every slot refers to an existing entry. */
  predicate SlotsInRange(w: seq<Slot>, len: int)
  {
    forall k :: 0 <= k < |w| ==> 0 <= w[k].index < len && w[k].item.Some?
  }

  /** The centre slot shows the anchor. */
  lemma WindowCentre(collections: seq<Entry>, anchor: int)
    requires 0 <= anchor < |collections|
    ensures Window(collections, anchor)[Half] == Slot(Some(collections[anchor]), anchor)
  {
    var len := |collections|;
    ModUnique(anchor + len, len, 1, anchor);
    assert SlotIndex(anchor, len, Half) == anchor;
  }

  /** With a single entry, or with five or more, every slot is a valid index. */
  lemma WindowInRange(collections: seq<Entry>, anchor: int)
    requires 0 <= anchor < |collections|
    requires |collections| == 1 || |collections| >= 5
    ensures SlotsInRange(Window(collections, anchor), |collections|)
  {
  }

  /** With two to four entries, the leftmost slot of the window at anchor 0 has a negative index and no item. */
  lemma WindowNegativeSlot(collections: seq<Entry>)
    requires 2 <= |collections| <= 4
    ensures Window(collections, 0)[0].index < 0
    ensures Window(collections, 0)[0].item == None
  {
    var len := |collections|;
    assert 0 + (0 - Half) + len < 0;
    assert (-(0 + (0 - Half) + len)) % len != 0;
  }

  /** Every anchor gives a window of valid indices exactly when the collection has one entry or at least five. */
  lemma WindowInRangeExactly(collections: seq<Entry>)
    requires |collections| > 0
    ensures (forall anchor :: 0 <= anchor < |collections| ==> SlotsInRange(Window(collections, anchor), |collections|))
        <==> (|collections| == 1 || |collections| >= 5)
  {
    if 2 <= |collections| <= 4 {
      WindowNegativeSlot(collections);
      assert !SlotsInRange(Window(collections, 0), |collections|);
    } else {
      forall anchor | 0 <= anchor < |collections|
        ensures SlotsInRange(Window(collections, anchor), |collections|)
      {
        WindowInRange(collections, anchor);
      }
    }
  }

  /** Two cards: the first slot of the window is index -1, so `collections[index]` is `undefined`. */
  lemma TwoCardCounterexample(a: Entry, b: Entry)
    ensures Window([a, b], 0)[0] == Slot(None, -1)
  {
    assert SlotIndex(0, 2, 0) == JsRem(-3, 2) == -1;
  }

  // ----- the corrected window -----

  /** Slot `k` holds the entry `k - Half` steps from the anchor, wrapping around at both ends. */
  function CircularWindow(collections: seq<Entry>, anchor: int): (w: seq<Slot>)
    ensures |collections| == 0 ==> w == []
    ensures |collections| > 0 ==> |w| == WindowSize && SlotsInRange(w, |collections|)
  {
    if |collections| == 0 then []
    else
      var len := |collections|;
      seq(WindowSize, k requires 0 <= k < WindowSize =>
        Slot(Some(collections[(anchor + (k - Half)) % len]), (anchor + (k - Half)) % len))
  }

  /** Adding the divisor does not change the remainder. */
  lemma ModAddDivisor(a: int, n: int)
    requires n > 0
    ensures (a + n) % n == a % n
  {
    var q, r := a / n, a % n;
    assert a + n == n * (q + 1) + r;
    ModUnique(a + n, n, q + 1, r);
  }

  /** The Euclidean remainder is the only `r` in `[0, n)` with `x == n * q + r`. */
  lemma ModUnique(x: int, n: int, q: int, r: int)
    requires n > 0 && 0 <= r < n && x == n * q + r
    ensures x % n == r
  {
    var q', r' := x / n, x % n;
    assert x == n * q' + r';
    var d := q - q';
    assert n * d == r' - r;

  }

  /** Where the code's window is valid, the corrected window is the same. */
  lemma CircularWindowAgrees(collections: seq<Entry>, anchor: int)
    requires 0 <= anchor < |collections|
    requires |collections| == 1 || |collections| >= 5
    ensures CircularWindow(collections, anchor) == Window(collections, anchor)
  {
    var len := |collections|;
    var c, w := CircularWindow(collections, anchor), Window(collections, anchor);
    forall k | 0 <= k < WindowSize ensures c[k] == w[k] {
      var a := anchor + (k - Half);
      ModAddDivisor(a, len);
    }
  }

  /** The corrected window at any anchor centres on that anchor. */
  lemma CircularWindowCentre(collections: seq<Entry>, anchor: int)
    requires 0 <= anchor < |collections|
    ensures CircularWindow(collections, anchor)[Half] == Slot(Some(collections[anchor]), anchor)
  {
    ModUnique(anchor, |collections|, 0, anchor);
  }

  // ----- Prev and Next -----

  /** The Prev button's target: one to the left, from the first entry to the last. */
  function PrevIndex(anchor: int, len: int): int
  {
    if anchor > 0 then anchor - 1 else len - 1
  }

  /** The Next button's target: one to the right, from the last entry to the first. */
  function NextIndex(anchor: int, len: int): int
  {
    if anchor < len - 1 then anchor + 1 else 0
  }

  /** Prev and Next are one step around the circle of entries. */
  lemma PrevNextAreCircularSteps(anchor: int, len: int)
    requires 0 <= anchor < len
    ensures PrevIndex(anchor, len) == (anchor - 1) % len
    ensures NextIndex(anchor, len) == (anchor + 1) % len
  {
    if anchor == 0 {
      assert (anchor - 1) % len == len - 1 by {
        assert -1 == (-1) * len + (len - 1);
      }
    }
  }

  /** Next undoes Prev and Prev undoes Next. */
  lemma PrevNextRoundTrip(anchor: int, len: int)
    requires 0 <= anchor < len
    ensures 0 <= PrevIndex(anchor, len) < len && 0 <= NextIndex(anchor, len) < len
    ensures NextIndex(PrevIndex(anchor, len), len) == anchor
    ensures PrevIndex(NextIndex(anchor, len), len) == anchor
  {
  }

  /** The anchor after `n` presses of Prev. */
  function PrevTimes(anchor: int, len: int, n: nat): (r: int)
    requires 0 <= anchor < len
    ensures 0 <= r < len
  {
    if n == 0 then anchor else PrevIndex(PrevTimes(anchor, len, n - 1), len)
  }

  /** The anchor after `n` presses of Next. */
  function NextTimes(anchor: int, len: int, n: nat): (r: int)
    requires 0 <= anchor < len
    ensures 0 <= r < len
  {
    if n == 0 then anchor else NextIndex(NextTimes(anchor, len, n - 1), len)
  }

  /** `n + 1` presses of Next are one press followed by `n` more. */
  lemma {:induction false} NextTimesFirst(anchor: int, len: int, n: nat)
    requires 0 <= anchor < len
    ensures NextTimes(anchor, len, n + 1) == NextTimes(NextIndex(anchor, len), len, n)
  {
    if n > 0 {
      NextTimesFirst(anchor, len, n - 1);
    }
  }

  /** `n + 1` presses of Prev are one press followed by `n` more. */
  lemma {:induction false} PrevTimesFirst(anchor: int, len: int, n: nat)
    requires 0 <= anchor < len
    ensures PrevTimes(anchor, len, n + 1) == PrevTimes(PrevIndex(anchor, len), len, n)
  {
    if n > 0 {
      PrevTimesFirst(anchor, len, n - 1);
    }
  }

  /** Pressing Prev `n` times and then Next `n` times returns to the start, and the other way round. */
  lemma {:induction false} PrevNextTimesRoundTrip(anchor: int, len: int, n: nat)
    requires 0 <= anchor < len
    ensures NextTimes(PrevTimes(anchor, len, n), len, n) == anchor
    ensures PrevTimes(NextTimes(anchor, len, n), len, n) == anchor
  {
    if n > 0 {
      var p, q := PrevTimes(anchor, len, n - 1), NextTimes(anchor, len, n - 1);
      PrevNextTimesRoundTrip(anchor, len, n - 1);
      NextTimesFirst(PrevIndex(p, len), len, n - 1);
      PrevNextRoundTrip(p, len);
      PrevTimesFirst(NextIndex(q, len), len, n - 1);
      PrevNextRoundTrip(q, len);
    }
  }

  /** The thumbnails beside the centre are the ones Prev and Next go to. */
  lemma NeighbourThumbnails(collections: seq<Entry>, anchor: int)
    requires 0 <= anchor < |collections|
    ensures CircularWindow(collections, anchor)[Half - 1].index == PrevIndex(anchor, |collections|)
    ensures CircularWindow(collections, anchor)[Half + 1].index == NextIndex(anchor, |collections|)
  {
    PrevNextAreCircularSteps(anchor, |collections|);
  }
}
