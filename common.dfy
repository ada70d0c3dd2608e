/** Definitions shared by the three slider variants: the configuration
    defaults computed at construction, the drag-gesture arithmetic (identical in
    all three files), the position helpers the two multi-shift variants share,
    marker highlighting by position, and a few facts about integer division. */
module SliderCommon {

  datatype Option<T> = None | Some(value: T)

  /** A strictly positive integer: a slide's pixel size, a shift count. */
  type Positive = n: int | 0 < n witness 1

  /** The current slide index together with the strip's pixel offset
      (`wrapper.style.left`, read back as `offsetLeft`). */
  datatype Pos = Pos(index: int, left: int)

  /** A paging marker: the slide index a click on it jumps to, and whether it
      carries the `active` class. */
  datatype Marker = Marker(target: int, active: bool)

  /** Whether the prev and next buttons carry the `hide` class. */
  datatype Buttons = Buttons(prevHidden: bool, nextHidden: bool)

  /** What the two multi-shift variants fix at construction. */
  datatype Geometry = Geometry(slidesLength: nat, slidesToShift: Positive, slideSize: Positive, infinite: bool)

  /** What a released drag does. */
  datatype DragOutcome = Forward | Backward | Restore

  // ---------------------------------------------------------------------
  // Construction-time numbers

  /** `options.slidesToShift || 1`: a missing or zero setting (both falsy)
      means one slide per shift; any other count is kept. */
  function ShiftCount(option: Option<nat>): (k: Positive)
    ensures option.Some? && option.value != 0 ==> k == option.value
    ensures option.None? || option.value == 0 ==> k == 1
  {
    if option.Some? && option.value != 0 then option.value else 1
  }

  /** The number of real slides after the load limit: `slidesToLoad` takes
      effect only when it is a number not above the number of slides found;
      otherwise every slide found stays. */
  function LoadedCount(found: nat, slidesToLoad: Option<nat>): (n: nat)
    ensures n <= found
    ensures slidesToLoad.Some? ==> n <= slidesToLoad.value && (n == found || n == slidesToLoad.value)
    ensures slidesToLoad.None? ==> n == found
  {
    if slidesToLoad.Some? && slidesToLoad.value <= found then slidesToLoad.value else found
  }

  // ---------------------------------------------------------------------
  // Drag gestures

  /** The pixel distance a drag must exceed, strictly, to commit a shift. */
  const DragLimit: nat := 50

  /** `dragEnd`'s decision on the displacement `endPos - startPos`: beyond
      `-limit` moves forward, beyond `limit` moves back; both tests are strict,
      so a displacement of exactly `limit` either way restores. */
  function DragVerdict(displacement: int, limit: nat): (d: DragOutcome)
    ensures d == Forward <==> displacement < -(limit as int)
    ensures d == Backward <==> displacement > limit
    ensures d == Restore <==> -(limit as int) <= displacement <= limit
  {
    if displacement < -(limit as int) then Forward
    else if displacement > limit then Backward
    else Restore
  }

  /** The strip offset after `dragOut` has run once per cursor position in
      `xs`, starting from offset `left` with last cursor position `posX1`.
      Each call subtracts `posX1 - x` from the offset and records `x`. */
  function DragFollow(left: int, posX1: int, xs: seq<int>): int
    decreases |xs|
  {
    if xs == [] then left else DragFollow(left - (posX1 - xs[0]), xs[0], xs[1..])
  }

  /** Successive moves telescope: the strip ends displaced from where the drag
      began by exactly how far the cursor moved from its first position. */
  lemma {:induction false} DragFollowTelescopes(left: int, posX1: int, xs: seq<int>)
    requires xs != []
    ensures DragFollow(left, posX1, xs) == left + (xs[|xs| - 1] - posX1)
    decreases |xs|
  {
    if |xs| > 1 {
      DragFollowTelescopes(left - (posX1 - xs[0]), xs[0], xs[1..]);
    }
  }

  // ---------------------------------------------------------------------
  // Positions in the two multi-shift variants

  /** Slide `i` at rest: the strip is shifted left by `i` whole slides. */
  function At(g: Geometry, i: int): Pos
  {
    Pos(i, -(i * g.slideSize))
  }

  /** The raw move `shiftSlide` makes from the offset `base` when shifting is
      allowed, before any limit correction: `slidesToShift` slides forward for
      `dir == 1`, back for `dir == -1`, and nothing for any other `dir`. */
  function Advance(g: Geometry, p: Pos, dir: int, base: int): (q: Pos)
    ensures dir == 1 || dir == -1 ==> q.index == p.index + dir * g.slidesToShift
    ensures dir == 1 || dir == -1 ==> q.left == base - dir * g.slidesToShift * g.slideSize
    ensures dir != 1 && dir != -1 ==> q == p
  {
    if dir == 1 then Pos(p.index + g.slidesToShift, base - g.slideSize * g.slidesToShift)
    else if dir == -1 then Pos(p.index - g.slidesToShift, base + g.slideSize * g.slidesToShift)
    else p
  }

  /** A shift from slide `i` at rest moves to slide `i +/- slidesToShift` at rest. */
  lemma AdvanceFromRest(g: Geometry, i: int, dir: int)
    requires dir == 1 || dir == -1
    ensures Advance(g, At(g, i), dir, At(g, i).left) == At(g, i + dir * g.slidesToShift)
  {
    var k, s := g.slidesToShift, g.slideSize;
    assert -((i + dir * k) * s) == -(i * s) - dir * k * s by {
      Distrib(i, dir * k, s);
    }
  }

  /** `shiftPaging`'s clamp-or-wrap of a requested index (the same code in the
      object-literal and the class variant): in range it is kept; infinite
      mode wraps below to the last slide and above to the first; otherwise it
      clamps to the nearer end. */
  function PagingTarget(g: Geometry, i: int): (r: int)
    ensures 0 <= i < g.slidesLength ==> r == i
    ensures 1 <= g.slidesLength ==> 0 <= r < g.slidesLength
    ensures i < 0 ==> r == (if g.infinite then g.slidesLength - 1 else 0)
    ensures i >= g.slidesLength ==> r == (if g.infinite then 0 else g.slidesLength - 1)
  {
    if i < 0 && g.infinite then g.slidesLength - 1
    else if i >= g.slidesLength && g.infinite then 0
    else if i < 0 then 0
    else if i >= g.slidesLength then g.slidesLength - 1
    else i
  }

  // ---------------------------------------------------------------------
  // Paging markers highlighted by position (class and single-shift variants)

  /** `updatePagingIndex` of the class variants: the marker at position `index`
      in the marker list is active, every other one is not. */
  function HighlightAt(ms: seq<Marker>, index: int): (r: seq<Marker>)
    ensures |r| == |ms|
    ensures forall j :: 0 <= j < |r| ==> r[j].target == ms[j].target
    ensures forall j :: 0 <= j < |r| ==> (r[j].active <==> j == index)
  {
    seq(|ms|, j requires 0 <= j < |ms| => ms[j].(active := j == index))
  }

  /** Re-running the highlight changes nothing. */
  lemma HighlightAtIdempotent(ms: seq<Marker>, index: int)
    ensures HighlightAt(HighlightAt(ms, index), index) == HighlightAt(ms, index)
  {
    var once := HighlightAt(ms, index);
    var twice := HighlightAt(once, index);
    assert forall j :: 0 <= j < |once| ==> twice[j] == once[j];
  }

  /** The number of active markers. */
  function ActiveCount(ms: seq<Marker>): (c: nat)
    ensures c <= |ms|
  {
    if ms == [] then 0 else (if ms[|ms| - 1].active then 1 else 0) + ActiveCount(ms[..|ms| - 1])
  }

  /** With an in-range index exactly one marker is active; otherwise none is. */
  lemma HighlightAtCount(ms: seq<Marker>, index: int)
    ensures ActiveCount(HighlightAt(ms, index)) == (if 0 <= index < |ms| then 1 else 0)
  {
    ActiveCountIs(HighlightAt(ms, index), index);
  }

  /** Counting the markers whose activity is "position equals `index`". */
  lemma {:induction false} ActiveCountIs(ms: seq<Marker>, index: int)
    requires forall j :: 0 <= j < |ms| ==> (ms[j].active <==> j == index)
    ensures ActiveCount(ms) == (if 0 <= index < |ms| then 1 else 0)
    decreases |ms|
  {
    if ms != [] {
      ActiveCountIs(ms[..|ms| - 1], index);
    }
  }

  // ---------------------------------------------------------------------
  // Integer facts used by the alignment proofs

  lemma Distrib(a: int, b: int, k: int)
    ensures (a + b) * k == a * k + b * k
    ensures (a - b) * k == a * k - b * k
  {
  }

  lemma MulAtLeast(x: int, k: Positive)
    requires x >= 1
    ensures x * k >= k
  {
  }

  /** Division by a positive number has a unique quotient and remainder. */
  lemma DivUnique(a: int, k: Positive, q: int, r: int)
    requires a == q * k + r && 0 <= r < k
    ensures a / k == q && a % k == r
  {
    var d, m := a / k, a % k;
    assert a == d * k + m;
    Distrib(d, -q, k);
    assert (d - q) * k == r - m;
    if d > q {
      MulAtLeast(d - q, k);
    } else if d < q {
      MulAtLeast(q - d, k);
    }
  }

  /** A multiple of `k`, and its negation, leave remainder 0. */
  lemma MultipleMod(a: int, k: Positive)
    ensures (a * k) % k == 0 && (-(a * k)) % k == 0
  {
    DivUnique(a * k, k, a, 0);
    DivUnique(-(a * k), k, -a, 0);
  }

  /** Equal multiples of a positive number have equal factors. */
  lemma MulCancel(a: int, b: int, k: Positive)
    requires a * k == b * k
    ensures a == b
  {
    if a > b {
      MulAtLeast(a - b, k);
      Distrib(a, -b, k);
    } else if a < b {
      MulAtLeast(b - a, k);
      Distrib(b, -a, k);
    }
  }

  /** Adding to a remainder and reducing again is reducing the sum. */
  lemma ModAddLeft(a: int, b: int, n: Positive)
    ensures (a % n + b) % n == (a + b) % n
  {
    var q, r := a / n, a % n;
    var q2, r2 := (r + b) / n, (r + b) % n;
    Distrib(q, q2, n);
    DivUnique(a + b, n, q + q2, r2);
  }
}
