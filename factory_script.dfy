/** The object-literal slider `yv.slider`: shifts of `slidesToShift` slides at
    a time, paging markers only on aligned stops, and an infinite mode that
    wraps by arithmetic (no clone slides) to the last aligned stop. */
module FactoryScript {
  import opened SliderCommon

  /** The last stop a multi-slide shift can rest on: `n - n % k`, or `n - k`
      when `k` divides `n`. */
  function LastStop(n: int, k: Positive): int
  {
    if n % k != 0 then n - n % k else n - k
  }

  /** The last stop is the largest multiple of `k` below `n`, and it is a real
      slide whenever there is one. */
  lemma LastStopIsLastAlignedStop(n: int, k: Positive)
    ensures LastStop(n, k) % k == 0
    ensures n - k <= LastStop(n, k) < n
    ensures 1 <= n ==> 0 <= LastStop(n, k)
  {
    var q := n / k;
    assert n == q * k + n % k;
    if n % k != 0 {
      MultipleMod(q, k);
      if 1 <= n && q < 0 {
        MulAtLeast(-q, k);
      }
    } else {
      Distrib(q, 1, k);
      MultipleMod(q - 1, k);
    }
  }

  /** `shiftLimit`: the correction run after every `shiftSlide`. Infinite mode
      wraps an underflow to the last stop and an overflow to slide 0; clamped
      mode pulls an underflow back to slide 0 and an overflow to the last stop.
      An index already in range is left alone. */
  function Limit(g: Geometry, p: Pos): Pos
  {
    if g.infinite then
      if p.index < 0 then At(g, LastStop(g.slidesLength, g.slidesToShift))
      else if p.index >= g.slidesLength then At(g, 0)
      else p
    else
      if p.index < 0 then At(g, 0)
      else if p.index >= g.slidesLength then At(g, LastStop(g.slidesLength, g.slidesToShift))
      else p
  }

  /** What `shiftLimit` guarantees: an in-range index is untouched; anything
      else lands at rest on an aligned stop inside the slide range, namely the
      last stop (infinite underflow, clamped overflow) or slide 0 (infinite
      overflow, clamped underflow). */
  lemma LimitSettles(g: Geometry, p: Pos)
    ensures 0 <= p.index < g.slidesLength ==> Limit(g, p) == p
    ensures 1 <= g.slidesLength ==> 0 <= Limit(g, p).index < g.slidesLength
    ensures !(0 <= p.index < g.slidesLength) ==>
              Limit(g, p) == At(g, Limit(g, p).index) && Limit(g, p).index % g.slidesToShift == 0
    ensures (p.index < 0 && g.infinite) || (p.index >= g.slidesLength && !g.infinite) ==>
              Limit(g, p).index == LastStop(g.slidesLength, g.slidesToShift)
    ensures (p.index < 0 && !g.infinite) || (p.index >= g.slidesLength && g.infinite) ==>
              Limit(g, p) == Pos(0, 0)
  {
    LastStopIsLastAlignedStop(g.slidesLength, g.slidesToShift);
  }

  /** The position `shiftSlide` leaves: the raw move from `base` when shifting
      is allowed, then the limit correction, which runs either way. */
  function Shifted(g: Geometry, p: Pos, allowShift: bool, dir: int, base: int): Pos
  {
    Limit(g, if allowShift then Advance(g, p, dir, base) else p)
  }

  /** A shift keeps the slider on aligned stops, from any position. */
  lemma ShiftedKeepsStops(g: Geometry, p: Pos, allowShift: bool, dir: int, base: int)
    requires p.index % g.slidesToShift == 0
    ensures Shifted(g, p, allowShift, dir, base).index % g.slidesToShift == 0
  {
    var k := g.slidesToShift;
    var raw := if allowShift then Advance(g, p, dir, base) else p;
    var q := p.index / k;
    DivUnique(p.index, k, q, 0);
    if dir == 1 || dir == -1 {
      Distrib(q, dir, k);
      MultipleMod(q + dir, k);
    }
    assert raw.index % k == 0;
    LimitSettles(g, raw);
  }

  /** A shift from slide `i` at rest (`base` being slide `i`'s offset) ends at
      rest on a slide inside the range, in both infinite and clamped mode. */
  lemma ShiftedFromRest(g: Geometry, p: Pos, allowShift: bool, dir: int, base: int)
    requires 0 <= p.index < g.slidesLength
    requires base == At(g, p.index).left
    requires (allowShift && (dir == 1 || dir == -1)) || p == At(g, p.index)
    ensures var q := Shifted(g, p, allowShift, dir, base);
            0 <= q.index < g.slidesLength && q == At(g, q.index)
  {
    var raw := if allowShift then Advance(g, p, dir, base) else p;
    if allowShift && (dir == 1 || dir == -1) {
      AdvanceFromRest(g, p.index, dir);
      assert raw == At(g, raw.index);
    }
    LimitSettles(g, raw);
  }

  /** Everything a caller of `shiftSlide` relies on, in one place: the range,
      the aligned stops and the resting offset all survive a shift, and a
      refused shift leaves an in-range position alone. */
  lemma ShiftedProperties(g: Geometry, p: Pos, allowShift: bool, dir: int, base: int)
    ensures 0 <= p.index < g.slidesLength && !allowShift ==> Shifted(g, p, allowShift, dir, base) == p
    ensures 1 <= g.slidesLength ==> 0 <= Shifted(g, p, allowShift, dir, base).index < g.slidesLength
    ensures p.index % g.slidesToShift == 0 ==> Shifted(g, p, allowShift, dir, base).index % g.slidesToShift == 0
    ensures 0 <= p.index < g.slidesLength && base == At(g, p.index).left
            && ((allowShift && (dir == 1 || dir == -1)) || p == At(g, p.index)) ==>
              Shifted(g, p, allowShift, dir, base) == At(g, Shifted(g, p, allowShift, dir, base).index)
  {
    LimitSettles(g, if allowShift then Advance(g, p, dir, base) else p);
    if p.index % g.slidesToShift == 0 {
      ShiftedKeepsStops(g, p, allowShift, dir, base);
    }
    if 0 <= p.index < g.slidesLength && base == At(g, p.index).left
       && ((allowShift && (dir == 1 || dir == -1)) || p == At(g, p.index)) {
      ShiftedFromRest(g, p, allowShift, dir, base);
    }
  }

  /** The prev/next `hide` flags `hideButton` leaves. Only clamped mode
      changes them: slide 0 hides prev (next keeps its state); otherwise a stop
      whose group reaches the end hides next (prev keeps its state); any other
      stop shows both. */
  function HideRule(g: Geometry, index: int, b: Buttons): Buttons
  {
    if g.infinite then b
    else if index == 0 then b.(prevHidden := true)
    else if index + g.slidesToShift >= g.slidesLength then b.(nextHidden := true)
    else Buttons(false, false)
  }

  /** In clamped mode the rule hides prev on slide 0 and next on the last
      group (from which a forward shift would overrun), shows both on every
      other slide, and so leaves a button hidden only at an end; infinite mode
      keeps both as they were. Running the rule again changes nothing. */
  lemma HideRuleAtEnds(g: Geometry, index: int, b: Buttons)
    ensures g.infinite ==> HideRule(g, index, b) == b
    ensures !g.infinite && index == 0 ==> HideRule(g, index, b).prevHidden
    ensures !g.infinite && index == 0 ==> HideRule(g, index, b).nextHidden == b.nextHidden
    ensures !g.infinite && index != 0 && index + g.slidesToShift >= g.slidesLength ==>
              HideRule(g, index, b).nextHidden
    ensures !g.infinite && index != 0 && index + g.slidesToShift >= g.slidesLength ==>
              HideRule(g, index, b).prevHidden == b.prevHidden
    ensures !g.infinite && (HideRule(g, index, b).prevHidden || HideRule(g, index, b).nextHidden) ==>
              index == 0 || index + g.slidesToShift >= g.slidesLength
    ensures HideRule(g, index, HideRule(g, index, b)) == HideRule(g, index, b)
  {
  }

  /** The number of paging markers: one per aligned stop, `ceil(n / k)`. */
  function StopCount(n: nat, k: Positive): nat
  {
    (n + k - 1) / k
  }

  /** `c` stops of `k` slides cover `n` slides exactly when `c` is the
      ceiling of `n / k`. */
  lemma StopCountIsCeiling(n: nat, k: Positive, c: int)
    ensures (c - 1) * k < n <= c * k <==> c == StopCount(n, k)
  {
    if (c - 1) * k < n <= c * k {
      Distrib(c, -1, k);
      DivUnique(n + k - 1, k, c, n + k - 1 - c * k);
    }
    if c == StopCount(n, k) {
      var r := (n + k - 1) % k;
      assert n + k - 1 == c * k + r;
      Distrib(c, -1, k);
    }
  }

  /** `updatePagingIndex` of this variant: a marker is active exactly when the
      index recovered from its class name equals `index`. */
  function HighlightStop(ms: seq<Marker>, index: int): (r: seq<Marker>)
    ensures |r| == |ms|
    ensures forall j :: 0 <= j < |r| ==> r[j].target == ms[j].target
    ensures forall j :: 0 <= j < |r| ==> (r[j].active <==> ms[j].target == index)
  {
    seq(|ms|, j requires 0 <= j < |ms| => ms[j].(active := ms[j].target == index))
  }

  /** Re-running the highlight changes nothing. */
  lemma HighlightStopIdempotent(ms: seq<Marker>, index: int)
    ensures HighlightStop(HighlightStop(ms, index), index) == HighlightStop(ms, index)
  {
    var once := HighlightStop(ms, index);
    var twice := HighlightStop(once, index);
    assert forall j :: 0 <= j < |once| ==> twice[j] == once[j];
  }

  /** Among the stop markers `0, k, 2k, ...`, only marker `q` targets `q * k`. */
  lemma StopMarkerUnique(ms: seq<Marker>, k: Positive, q: int)
    requires forall j :: 0 <= j < |ms| ==> ms[j].target == j * k
    ensures forall j :: 0 <= j < |ms| ==> (ms[j].target == q * k <==> j == q)
  {
    forall j | 0 <= j < |ms|
      ensures ms[j].target == q * k <==> j == q
    {
      if j * k == q * k { MulCancel(j, q, k); }
    }
  }

  /** No stop marker targets an index that is not one of the stops. */
  lemma NoStopMarker(ms: seq<Marker>, k: Positive, index: int)
    requires forall j :: 0 <= j < |ms| ==> ms[j].target == j * k
    requires !(0 <= index < |ms| * k && index % k == 0)
    ensures forall j :: 0 <= j < |ms| ==> ms[j].target != index
  {
    forall j | 0 <= j < |ms|
      ensures ms[j].target != index
    {
      MultipleMod(j, k);
      if j * k == index {
        Distrib(j, -|ms|, k);
        MulAtLeast(|ms| - j, k);
      }
    }
  }

  /** Over markers for the stops `0, k, 2k, ...`, exactly one marker is active
      when `index` is one of those stops (marker `index / k`), and none
      otherwise. */
  lemma HighlightStopCount(ms: seq<Marker>, k: Positive, index: int)
    requires forall j :: 0 <= j < |ms| ==> ms[j].target == j * k
    ensures var stop := 0 <= index < |ms| * k && index % k == 0;
            ActiveCount(HighlightStop(ms, index)) == (if stop then 1 else 0)
            && (stop ==> 0 <= index / k < |ms| && HighlightStop(ms, index)[index / k].active)
  {
    var r := HighlightStop(ms, index);
    if 0 <= index < |ms| * k && index % k == 0 {
      var q := index / k;
      DivUnique(index, k, q, 0);
      if q < 0 { MulAtLeast(-q, k); }
      if q >= |ms| { Distrib(q, -|ms|, k); MulAtLeast(q - |ms| + 1, k); }
      StopMarkerUnique(ms, k, q);
      ActiveCountIs(r, q);
    } else {
      NoStopMarker(ms, k, index);
      ActiveCountIs(r, -1);
    }
  }

  /** After a settle on an aligned stop, the markers `pagingBuilder` made
      highlight exactly one marker, the one for that stop. */
  lemma SettledStopHighlighted(n: nat, k: Positive, ms: seq<Marker>, index: int)
    requires |ms| == StopCount(n, k)
    requires forall j :: 0 <= j < |ms| ==> ms[j].target == j * k
    requires 0 <= index < n && index % k == 0
    ensures 0 <= index / k < |ms|
    ensures ActiveCount(HighlightStop(ms, index)) == 1 && HighlightStop(ms, index)[index / k].active
  {
    StopCountIsCeiling(n, k, |ms|);
    HighlightStopCount(ms, k, index);
  }

  /** The slider object: configuration fixed by `initConfig`, and the
      position, drag and navigation state its handlers update. */
  class Slider {
    const slidesToShift: Positive
    const slidesLength: nat
    const slideSize: Positive
    const infinite: bool
    const showButtons: bool
    const showPaging: bool
    const limit: nat

    var index: int
    var left: int
    var startPos: int
    var endPos: int
    var posX1: int
    var posX2: int
    var allowShift: bool
    var prevHidden: bool
    var nextHidden: bool
    var markers: seq<Marker>

    function Geo(): Geometry
    {
      Geometry(slidesLength, slidesToShift, slideSize, infinite)
    }

    /** The object invariant: buttons exist only with `showButtons`, and the
        markers are those `pagingBuilder` made, one per aligned stop. */
    ghost predicate Valid()
      reads this`prevHidden, this`nextHidden, this`markers
    {
      && limit == DragLimit
      && (!showButtons ==> !prevHidden && !nextHidden)
      && |markers| == (if showPaging then StopCount(slidesLength, slidesToShift) else 0)
      && forall j :: 0 <= j < |markers| ==> markers[j].target == j * slidesToShift
    }

    /** The strip rests on a real slide, the offset matching the index. */
    ghost predicate Resting()
      reads this
    {
      0 <= index < slidesLength && Pos(index, left) == At(Geo(), index)
    }

    /** The index is an aligned stop, a multiple of `slidesToShift`. */
    ghost predicate OnStop()
      reads this
    {
      index % slidesToShift == 0
    }

    /** The drag origin is the resting offset of the current slide. */
    ghost predicate StartResting()
      reads this
    {
      0 <= index < slidesLength && startPos == At(Geo(), index).left
    }

    /** The object literal's initial values followed by `initConfig`:
        `slidesToShift` defaults to 1, the load limit truncates the slide
        count, the strip starts at offset 0, and in clamped mode the prev
        button starts hidden. `slideCount` is the number of slide elements
        found and `slideSize` their measured size. */
    constructor InitConfig(slideCount: Positive, slideSize: Positive, slidesToShift: Option<nat>,
                           slidesToLoad: Option<nat>, showButtons: bool, showPaging: bool, infinite: bool)
      ensures Valid()
      ensures this.slidesToShift == ShiftCount(slidesToShift)
      ensures slidesLength == LoadedCount(slideCount, slidesToLoad)
      ensures this.slideSize == slideSize && this.infinite == infinite
      ensures this.showButtons == showButtons && this.showPaging == showPaging
      ensures index == 0 && left == 0 && allowShift
      ensures startPos == 0 && endPos == 0 && posX1 == 0 && posX2 == 0
      ensures prevHidden == (showButtons && !infinite) && !nextHidden
      ensures showPaging ==> forall j :: 0 <= j < |markers| ==> markers[j].active == (j == 0)
      ensures 1 <= slidesLength ==> Resting() && OnStop()
    {
      this.slidesToShift := ShiftCount(slidesToShift);
      this.slidesLength := LoadedCount(slideCount, slidesToLoad);
      this.slideSize := slideSize;
      this.infinite := infinite;
      this.showButtons := showButtons;
      this.showPaging := showPaging;
      limit := DragLimit;
      index, left := 0, 0;
      startPos, endPos, posX1, posX2 := 0, 0, 0, 0;
      allowShift := true;
      prevHidden := showButtons && !infinite;
      nextHidden := false;
      markers := [];
      new;
      if showPaging {
        markers := PagingBuilder();
      }
    }

    /** `pagingBuilder`: walks every slide and makes a marker for each one
        whose index is a multiple of `slidesToShift`, marker 0 active. That is
        `ceil(slidesLength / slidesToShift)` markers, each on a real slide. */
    method PagingBuilder() returns (ms: seq<Marker>)
      ensures forall j :: 0 <= j < |ms| ==> ms[j] == Marker(j * slidesToShift, j == 0)
      ensures forall j :: 0 <= j < |ms| ==> 0 <= ms[j].target < slidesLength
      ensures (|ms| - 1) * slidesToShift < slidesLength <= |ms| * slidesToShift
      ensures |ms| == StopCount(slidesLength, slidesToShift)
    {
      var k := slidesToShift;
      ms := [];
      for i := 0 to slidesLength
        invariant forall j :: 0 <= j < |ms| ==> ms[j] == Marker(j * k, j == 0)
        invariant forall j :: 0 <= j < |ms| ==> 0 <= ms[j].target < i
        invariant (|ms| - 1) * k < i <= |ms| * k
      {
        if i % k == 0 {
          // i is the next stop: the one after the last marker
          var q := i / k;
          DivUnique(i, k, q, 0);
          if q < |ms| {
            Distrib(|ms|, -1, k);
            if q < |ms| - 1 { Distrib(|ms| - 1, -q, k); MulAtLeast(|ms| - 1 - q, k); }
          } else if q > |ms| {
            Distrib(q, -|ms|, k);
            MulAtLeast(q - |ms|, k);
          }
          assert i == |ms| * k;
          if |ms| != 0 { MulAtLeast(|ms|, k); }
          ms := ms + [Marker(i, i == 0)];
          Distrib(|ms| - 1, 1, k);
        } else {
          MultipleMod(|ms|, k);
        }
      }
      StopCountIsCeiling(slidesLength, k, |ms|);
    }

    /** `hideButton`, with a button's existence standing for `showButtons`. */
    method HideButton()
      requires Valid()
      modifies this`prevHidden, this`nextHidden
      ensures Valid()
      ensures Buttons(prevHidden, nextHidden) ==
              if showButtons then HideRule(Geo(), index, old(Buttons(prevHidden, nextHidden)))
              else old(Buttons(prevHidden, nextHidden))
    {
      if !infinite {
        if index == 0 {
          if showButtons { prevHidden := true; }
        } else if index + slidesToShift >= slidesLength {
          if showButtons { nextHidden := true; }
        } else {
          if showButtons && prevHidden { prevHidden := false; }
          if showButtons && nextHidden { nextHidden := false; }
        }
      }
    }

    /** `shiftLimit`: wraps or clamps an index that left the slide range. */
    method ShiftLimit()
      modifies this`index, this`left
      ensures Pos(index, left) == Limit(Geo(), old(Pos(index, left)))
    {
      if infinite {
        if index < 0 {
          if slidesLength % slidesToShift != 0 {
            left := -((slidesLength - slidesLength % slidesToShift) * slideSize);
            index := slidesLength - slidesLength % slidesToShift;
          } else {
            left := -((slidesLength - slidesToShift) * slideSize);
            index := slidesLength - slidesToShift;
          }
        } else if index >= slidesLength {
          left := 0;
          index := 0;
        }
      } else {
        if index < 0 {
          left := 0;
          index := 0;
        } else if index >= slidesLength {
          if slidesLength % slidesToShift != 0 {
            left := -((slidesLength - slidesLength % slidesToShift) * slideSize);
            index := slidesLength - slidesLength % slidesToShift;
          } else {
            left := -((slidesLength - slidesToShift) * slideSize);
            index := slidesLength - slidesToShift;
          }
        }
      }
    }

    /** `shiftSlide(dir, action)`: a button or Tab press (`drag` false) first
        takes the current offset as its origin, a drag commit (`drag` true)
        keeps the origin `dragStart` recorded. When shifting is allowed it
        moves `slidesToShift` slides; either way it closes the debounce flag
        and runs `shiftLimit`. */
    method ShiftSlide(dir: int, drag: bool)
      modifies this`index, this`left, this`startPos, this`allowShift
      ensures !allowShift
      ensures startPos == if old(allowShift) && !drag then old(left) else old(startPos)
      ensures Pos(index, left) == Shifted(Geo(), old(Pos(index, left)), old(allowShift), dir, startPos)
      ensures !drag && old(Resting()) ==> Resting()
      ensures drag && (dir == 1 || dir == -1) && old(allowShift && StartResting()) ==> Resting()
      ensures old(OnStop()) ==> OnStop()
      ensures !old(allowShift) && old(0 <= index < slidesLength) ==> index == old(index) && left == old(left)
      ensures 1 <= slidesLength ==> 0 <= index < slidesLength
    {
      ghost var p := Pos(index, left);
      ghost var allowed := allowShift;
      if allowShift {
        if !drag { startPos := left; }
        if dir == 1 {
          left := startPos - (slideSize * slidesToShift);
          index := index + slidesToShift;
        } else if dir == -1 {
          left := startPos + (slideSize * slidesToShift);
          index := index - slidesToShift;
        }
      }
      allowShift := false;
      ShiftLimit();
      ShiftedProperties(Geo(), p, allowed, dir, startPos);
    }

    /** `updatePagingIndex`: toggles each marker's `active` flag in place. */
    method UpdatePagingIndex()
      requires Valid()
      modifies this`markers
      ensures Valid()
      ensures markers == HighlightStop(old(markers), index)
    {
      var j := 0;
      while j < |markers|
        invariant 0 <= j <= |markers| == |old(markers)|
        invariant forall m :: 0 <= m < j ==> markers[m] == HighlightStop(old(markers), index)[m]
        invariant forall m :: j <= m < |markers| ==> markers[m] == old(markers)[m]
      {
        var marker := markers[j];
        if marker.target == index {
          if !marker.active { markers := markers[j := marker.(active := true)]; }
        } else if marker.active {
          markers := markers[j := marker.(active := false)];
        }
        j := j + 1;
      }
    }

    /** `shiftPaging(i)`: a marker click. The requested index is kept if in
        range and otherwise wrapped or clamped; the strip is sent to rest on
        it and the debounce flag closes. */
    method ShiftPaging(i: int)
      modifies this`index, this`left, this`allowShift
      ensures Pos(index, left) == At(Geo(), PagingTarget(Geo(), i)) && !allowShift
      ensures 1 <= slidesLength ==> Resting()
    {
      var target := i;
      if target < 0 && infinite {
        target := slidesLength - 1;
      } else if target >= slidesLength && infinite {
        target := 0;
      } else if target < 0 {
        target := 0;
      } else if target >= slidesLength {
        target := slidesLength - 1;
      }
      left := -(target * slideSize);
      index := target;
      allowShift := false;
    }

    /** `checkIndex`, the handler of the strip's `transitionend`: refreshes
        the markers and buttons for the current index, re-snaps an offset that
        is not a whole number of slides through `shiftPaging(index)`, and
        reopens the debounce flag. */
    method CheckIndex()
      requires Valid()
      modifies this`markers, this`prevHidden, this`nextHidden, this`index, this`left, this`allowShift
      ensures Valid() && allowShift
      ensures markers == if showPaging then HighlightStop(old(markers), old(index)) else old(markers)
      ensures Buttons(prevHidden, nextHidden) ==
              if showButtons then HideRule(Geo(), old(index), old(Buttons(prevHidden, nextHidden)))
              else old(Buttons(prevHidden, nextHidden))
      ensures old(left) % slideSize == 0 ==> index == old(index) && left == old(left)
      ensures old(left) % slideSize != 0 ==> Pos(index, left) == At(Geo(), PagingTarget(Geo(), old(index)))
      ensures left % slideSize == 0
      ensures old(Resting()) ==> Resting() && index == old(index) && left == old(left)
      ensures showPaging && old(Resting() && OnStop()) ==>
                ActiveCount(markers) == 1
                && forall j :: 0 <= j < |markers| ==> (markers[j].active <==> markers[j].target == index)
    {
      MultipleMod(index, slideSize);
      if showPaging && 0 <= index < slidesLength && index % slidesToShift == 0 {
        SettledStopHighlighted(slidesLength, slidesToShift, markers, index);
      }
      if showPaging { UpdatePagingIndex(); }
      if showButtons { HideButton(); }
      var leftPosition := left;
      if leftPosition % slideSize != 0 {
        ShiftPaging(index);
      }
      allowShift := true;
      MultipleMod(index, slideSize);
    }

    /** `dragStart`: the cursor went down at `x`. */
    method DragStart(x: int)
      modifies this`startPos, this`posX1
      ensures startPos == left && posX1 == x
    {
      startPos := left;
      posX1 := x;
    }

    /** `dragOut`: the cursor moved to `x`; the strip follows it 1:1,
        unclamped, whatever the debounce flag says. */
    method DragOut(x: int)
      modifies this`posX1, this`posX2, this`left
      ensures posX2 == old(posX1) - x && posX1 == x
      ensures left == DragFollow(old(left), old(posX1), [x])
      ensures left - posX1 == old(left) - old(posX1)
    {
      posX2 := posX1 - x;
      posX1 := x;
      left := left - posX2;
    }

    /** `dragEnd`: the cursor was released. A displacement strictly beyond
        the limit commits a shift through `shiftSlide(dir, 'drag')`, which
        still honours the debounce flag; anything else restores the origin. */
    method DragEnd()
      modifies this`endPos, this`index, this`left, this`startPos, this`allowShift
      ensures endPos == old(left) && startPos == old(startPos)
      ensures match DragVerdict(endPos - startPos, limit)
              case Forward =>
                Pos(index, left) == Shifted(Geo(), old(Pos(index, left)), old(allowShift), 1, startPos) && !allowShift
              case Backward =>
                Pos(index, left) == Shifted(Geo(), old(Pos(index, left)), old(allowShift), -1, startPos) && !allowShift
              case Restore =>
                index == old(index) && left == startPos && allowShift == old(allowShift)
      ensures DragVerdict(endPos - startPos, limit) != Restore && old(allowShift && StartResting()) ==> Resting()
    {
      endPos := left;
      if endPos - startPos < -(limit as int) {
        ShiftSlide(1, true);
      } else if endPos - startPos > limit {
        ShiftSlide(-1, true);
      } else {
        left := startPos;
      }
    }
  }
}
