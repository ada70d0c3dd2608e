/** The class slider of the multi-shift rewrite: shifts of `slidesToShift`
    slides, one paging marker per slide, and an infinite mode that wraps an
    underflow to the last slide while placing the strip at the last full
    group, so index and offset disagree when more than one slide shifts. */
module ClassScript {
  import opened SliderCommon

  /** `shiftLimit` of this variant. Infinite mode sends an underflow to index
      `n - 1` but to the offset of slide `n - slidesToShift`, and an overflow
      to slide 0; clamped mode pulls an underflow to slide 0 and an overflow
      to slide `n - 1`. An index in range is left alone. */
  function Limit(g: Geometry, p: Pos): Pos
  {
    if g.infinite then
      if p.index < 0 then Pos(g.slidesLength - 1, At(g, g.slidesLength - g.slidesToShift).left)
      else if p.index >= g.slidesLength then At(g, 0)
      else p
    else
      if p.index < 0 then At(g, 0)
      else if p.index >= g.slidesLength then At(g, g.slidesLength - 1)
      else p
  }

  /** What `shiftLimit` guarantees here: an in-range index is untouched and
      every out-of-range index comes back into the range, at the end the shift
      was heading for (infinite: the opposite end). Every correction except the
      infinite underflow leaves the strip at rest on the new index. */
  lemma LimitSettles(g: Geometry, p: Pos)
    ensures 0 <= p.index < g.slidesLength ==> Limit(g, p) == p
    ensures 1 <= g.slidesLength ==> 0 <= Limit(g, p).index < g.slidesLength
    ensures p.index < 0 ==> Limit(g, p).index == (if g.infinite then g.slidesLength - 1 else 0)
    ensures p.index >= g.slidesLength ==> Limit(g, p).index == (if g.infinite then 0 else g.slidesLength - 1)
    ensures !(0 <= p.index < g.slidesLength) && !(g.infinite && p.index < 0) ==>
              Limit(g, p) == At(g, Limit(g, p).index)
  {
  }

  /** The infinite underflow puts index `n - 1` on the offset of slide
      `n - slidesToShift`: the two agree exactly when one slide shifts at a
      time. The offset is still a whole number of slides, so the settle
      handler does not re-snap it and the disagreement persists. */
  lemma WrapOffsetAgreesOnlyForSingleShift(g: Geometry, p: Pos)
    requires g.infinite && p.index < 0
    ensures Limit(g, p) == At(g, Limit(g, p).index) <==> g.slidesToShift == 1
    ensures Limit(g, p).left % g.slideSize == 0
  {
    var n: int, k: int, s: int := g.slidesLength, g.slidesToShift, g.slideSize;
    var q := Limit(g, p);
    assert q == Pos(n - 1, -((n - k) * s));
    assert At(g, q.index) == Pos(n - 1, -((n - 1) * s));
    if (n - k) * s == (n - 1) * s {
      MulCancel(n - k, n - 1, s);
    }
    MultipleMod(n - k, s);
  }

  /** The position `shiftSlide` leaves: the raw move from `base` when shifting
      is allowed, then the limit correction, which runs either way. */
  function Shifted(g: Geometry, p: Pos, allowShift: bool, dir: int, base: int): Pos
  {
    Limit(g, if allowShift then Advance(g, p, dir, base) else p)
  }

  /** What a caller of `shiftSlide` relies on: the index always ends in
      range; a shift that needs no correction moves the offset by exactly
      `slidesToShift` slides and the index by `slidesToShift`; the strip ends
      at rest whenever it started at rest, except when an infinite shift of
      `slidesToShift > 1` slides runs below slide 0; a refused shift leaves
      an in-range position alone. */
  lemma ShiftedProperties(g: Geometry, p: Pos, allowShift: bool, dir: int, base: int)
    ensures 0 <= p.index < g.slidesLength && !allowShift ==> Shifted(g, p, allowShift, dir, base) == p
    ensures 1 <= g.slidesLength ==> 0 <= Shifted(g, p, allowShift, dir, base).index < g.slidesLength
    ensures allowShift && (dir == 1 || dir == -1) && 0 <= p.index + dir * g.slidesToShift < g.slidesLength ==>
              Shifted(g, p, allowShift, dir, base) ==
              Pos(p.index + dir * g.slidesToShift, base - dir * g.slidesToShift * g.slideSize)
    ensures 0 <= p.index < g.slidesLength && base == At(g, p.index).left
            && ((allowShift && (dir == 1 || dir == -1)) || p == At(g, p.index))
            && !(allowShift && (dir == 1 || dir == -1) && g.infinite && g.slidesToShift > 1
                 && p.index + dir * g.slidesToShift < 0) ==>
              Shifted(g, p, allowShift, dir, base) == At(g, Shifted(g, p, allowShift, dir, base).index)
  {
    var raw := if allowShift then Advance(g, p, dir, base) else p;
    LimitSettles(g, raw);
    if 0 <= p.index < g.slidesLength && base == At(g, p.index).left
       && allowShift && (dir == 1 || dir == -1) {
      AdvanceFromRest(g, p.index, dir);
      if g.infinite && raw.index < 0 {
        WrapOffsetAgreesOnlyForSingleShift(g, raw);
      }
    }
  }

  /** The prev/next `hide` flags `hideButton` leaves: in clamped mode slide 0
      hides prev, otherwise slide `n - 1` hides next (the other button keeps
      its state), and any other slide shows both; infinite mode changes
      nothing. */
  function HideRule(g: Geometry, index: int, b: Buttons): Buttons
  {
    if index == 0 && !g.infinite then b.(prevHidden := true)
    else if index == g.slidesLength - 1 && !g.infinite then b.(nextHidden := true)
    else if !g.infinite then Buttons(false, false)
    else b
  }

  /** In clamped mode the rule hides the button that leads off an end, shows
      both in the middle, and so leaves a button hidden only at an end;
      infinite mode keeps both as they were. Running the rule again changes
      nothing. */
  lemma HideRuleAtEnds(g: Geometry, index: int, b: Buttons)
    ensures g.infinite ==> HideRule(g, index, b) == b
    ensures !g.infinite && index == 0 ==> HideRule(g, index, b).prevHidden
    ensures !g.infinite && index == 0 ==> HideRule(g, index, b).nextHidden == b.nextHidden
    ensures !g.infinite && index != 0 && index == g.slidesLength - 1 ==> HideRule(g, index, b).nextHidden
    ensures !g.infinite && index != 0 && index == g.slidesLength - 1 ==>
              HideRule(g, index, b).prevHidden == b.prevHidden
    ensures !g.infinite && (HideRule(g, index, b).prevHidden || HideRule(g, index, b).nextHidden) ==>
              index == 0 || index == g.slidesLength - 1
    ensures HideRule(g, index, HideRule(g, index, b)) == HideRule(g, index, b)
  {
  }

  /** The slider object: configuration fixed by the constructor, and the
      position, drag and navigation state its handlers update. */
  class Slider {
    const slidesToShift: Positive
    const slidesLength: nat
    const slideSize: Positive
    const infinite: bool
    const showButtons: bool
    const showPaging: bool
    const limit: nat

    var index: int
    var left: int
    var startPos: int
    var endPos: int
    var posX1: int
    var posX2: int
    var allowShift: bool
    var prevHidden: bool
    var nextHidden: bool
    var markers: seq<Marker>

    function Geo(): Geometry
    {
      Geometry(slidesLength, slidesToShift, slideSize, infinite)
    }

    /** The object invariant: buttons exist only with `showButtons`, and the
        markers are those `pagingBuilder` made, one per slide. */
    ghost predicate Valid()
      reads this`prevHidden, this`nextHidden, this`markers
    {
      && limit == DragLimit
      && (!showButtons ==> !prevHidden && !nextHidden)
      && |markers| == (if showPaging then slidesLength else 0)
      && forall j :: 0 <= j < |markers| ==> markers[j].target == j
    }

    /** The strip rests on a real slide, the offset matching the index. */
    ghost predicate Resting()
      reads this
    {
      0 <= index < slidesLength && Pos(index, left) == At(Geo(), index)
    }

    /** The drag origin is the resting offset of the current slide. */
    ghost predicate StartResting()
      reads this
    {
      0 <= index < slidesLength && startPos == At(Geo(), index).left
    }

    /** The constructor: `slidesToShift` defaults to 1, the load limit
        truncates the slide count, the strip starts at offset 0, and in
        clamped mode the prev button starts hidden. `slideCount` is the number
        of slide elements found and `slideSize` their measured size. */
    constructor (slideCount: Positive, slideSize: Positive, slidesToShift: Option<nat>,
                 slidesToLoad: Option<nat>, showButtons: bool, showPaging: bool, infinite: bool)
      ensures Valid()
      ensures this.slidesToShift == ShiftCount(slidesToShift)
      ensures slidesLength == LoadedCount(slideCount, slidesToLoad)
      ensures this.slideSize == slideSize && this.infinite == infinite
      ensures this.showButtons == showButtons && this.showPaging == showPaging
      ensures index == 0 && left == 0 && allowShift
      ensures startPos == 0 && endPos == 0 && posX1 == 0 && posX2 == 0
      ensures prevHidden == (showButtons && !infinite) && !nextHidden
      ensures showPaging ==> forall j :: 0 <= j < |markers| ==> markers[j].active == (j == 0)
      ensures 1 <= slidesLength ==> Resting()
    {
      this.slidesToShift := ShiftCount(slidesToShift);
      this.slidesLength := LoadedCount(slideCount, slidesToLoad);
      this.slideSize := slideSize;
      this.infinite := infinite;
      this.showButtons := showButtons;
      this.showPaging := showPaging;
      limit := DragLimit;
      index, left := 0, 0;
      startPos, endPos, posX1, posX2 := 0, 0, 0, 0;
      allowShift := true;
      prevHidden := showButtons && !infinite;
      nextHidden := false;
      markers := [];
      new;
      if showPaging {
        markers := PagingBuilder();
      }
    }

    /** `pagingBuilder`: one marker per slide, jumping to that slide, with
        marker 0 active. */
    method PagingBuilder() returns (ms: seq<Marker>)
      ensures |ms| == slidesLength
      ensures forall j :: 0 <= j < |ms| ==> ms[j] == Marker(j, j == 0)
      ensures ActiveCount(ms) == 1 || slidesLength == 0
    {
      ms := [];
      for i := 0 to slidesLength
        invariant |ms| == i
        invariant forall j :: 0 <= j < i ==> ms[j] == Marker(j, j == 0)
      {
        ms := ms + [Marker(i, i == 0)];
      }
      ActiveCountIs(ms, 0);
    }

    /** `hideButton`, with a button's existence standing for `showButtons`. */
    method HideButton()
      requires Valid()
      modifies this`prevHidden, this`nextHidden
      ensures Valid()
      ensures Buttons(prevHidden, nextHidden) ==
              if showButtons then HideRule(Geo(), index, old(Buttons(prevHidden, nextHidden)))
              else old(Buttons(prevHidden, nextHidden))
    {
      if index == 0 && !infinite {
        if showButtons { prevHidden := true; }
      } else if index == slidesLength - 1 && !infinite {
        if showButtons { nextHidden := true; }
      } else if !infinite {
        if showButtons && prevHidden { prevHidden := false; }
        if showButtons && nextHidden { nextHidden := false; }
      }
    }

    /** `shiftLimit`: wraps or clamps an index that left the slide range. */
    method ShiftLimit()
      modifies this`index, this`left
      ensures Pos(index, left) == Limit(Geo(), old(Pos(index, left)))
    {
      if infinite {
        if index < 0 {
          left := -((slidesLength - slidesToShift) * slideSize);
          index := slidesLength - 1;
        } else if index >= slidesLength {
          left := 0;
          index := 0;
        }
      } else {
        if index < 0 {
          left := 0;
          index := 0;
        } else if index >= slidesLength {
          left := -((slidesLength - 1) * slideSize);
          index := slidesLength - 1;
        }
      }
    }

    /** `shiftSlide(dir, action)`: a button or Tab press (`drag` false) first
        takes the current offset as its origin, a drag commit (`drag` true)
        keeps the origin `dragStart` recorded. When shifting is allowed it
        moves `slidesToShift` slides; either way it closes the debounce flag
        and runs `shiftLimit`. */
    method ShiftSlide(dir: int, drag: bool)
      modifies this`index, this`left, this`startPos, this`allowShift
      ensures !allowShift
      ensures startPos == if old(allowShift) && !drag then old(left) else old(startPos)
      ensures Pos(index, left) == Shifted(Geo(), old(Pos(index, left)), old(allowShift), dir, startPos)
      ensures 1 <= slidesLength ==> 0 <= index < slidesLength
      ensures (!drag && old(Resting())
               && !(old(allowShift) && (dir == 1 || dir == -1) && infinite && slidesToShift > 1
                    && old(index) + dir * slidesToShift < 0)) ==> Resting()
      ensures (drag && (dir == 1 || dir == -1) && old(allowShift && StartResting())
               && !(infinite && slidesToShift > 1 && old(index) + dir * slidesToShift < 0)) ==> Resting()
      ensures !old(allowShift) && old(0 <= index < slidesLength) ==> index == old(index) && left == old(left)
    {
      ghost var p := Pos(index, left);
      ghost var allowed := allowShift;
      if allowShift {
        if !drag { startPos := left; }
        if dir == 1 {
          left := startPos - (slideSize * slidesToShift);
          index := index + slidesToShift;
        } else if dir == -1 {
          left := startPos + (slideSize * slidesToShift);
          index := index - slidesToShift;
        }
      }
      allowShift := false;
      assert Pos(index, left) == if allowed then Advance(Geo(), p, dir, startPos) else p;
      ShiftLimit();
      ShiftedProperties(Geo(), p, allowed, dir, startPos);
    }

    /** `updatePagingIndex`: toggles each marker's `active` flag in place,
        comparing the marker's position with the index. */
    method UpdatePagingIndex()
      requires Valid()
      modifies this`markers
      ensures Valid()
      ensures markers == HighlightAt(old(markers), index)
    {
      var j := 0;
      while j < |markers|
        invariant 0 <= j <= |markers| == |old(markers)|
        invariant forall m :: 0 <= m < j ==> markers[m] == HighlightAt(old(markers), index)[m]
        invariant forall m :: j <= m < |markers| ==> markers[m] == old(markers)[m]
      {
        var marker := markers[j];
        if j == index {
          if !marker.active { markers := markers[j := marker.(active := true)]; }
        } else if marker.active {
          markers := markers[j := marker.(active := false)];
        }
        j := j + 1;
      }
    }

    /** `shiftPaging(i)`: a marker click. The requested index is kept if in
        range and otherwise wrapped or clamped; the strip is sent to rest on
        it and the debounce flag closes. */
    method ShiftPaging(i: int)
      modifies this`index, this`left, this`allowShift
      ensures Pos(index, left) == At(Geo(), PagingTarget(Geo(), i)) && !allowShift
      ensures 1 <= slidesLength ==> Resting()
    {
      var target := i;
      if target < 0 && infinite {
        target := slidesLength - 1;
      } else if target >= slidesLength && infinite {
        target := 0;
      } else if target < 0 {
        target := 0;
      } else if target >= slidesLength {
        target := slidesLength - 1;
      }
      left := -(target * slideSize);
      index := target;
      allowShift := false;
    }

    /** `checkIndex`, the handler of the strip's `transitionend`: refreshes
        the markers and buttons for the current index, re-snaps an offset that
        is not a whole number of slides through `shiftPaging(index)`, and
        reopens the debounce flag. */
    method CheckIndex()
      requires Valid()
      modifies this`markers, this`prevHidden, this`nextHidden, this`index, this`left, this`allowShift
      ensures Valid() && allowShift
      ensures markers == if showPaging then HighlightAt(old(markers), old(index)) else old(markers)
      ensures Buttons(prevHidden, nextHidden) ==
              if showButtons then HideRule(Geo(), old(index), old(Buttons(prevHidden, nextHidden)))
              else old(Buttons(prevHidden, nextHidden))
      ensures old(left) % slideSize == 0 ==> index == old(index) && left == old(left)
      ensures old(left) % slideSize != 0 ==> Pos(index, left) == At(Geo(), PagingTarget(Geo(), old(index)))
      ensures left % slideSize == 0
      ensures old(Resting()) ==> Resting() && index == old(index) && left == old(left)
      ensures showPaging && old(0 <= index < slidesLength) ==>
                ActiveCount(markers) == 1
                && forall j :: 0 <= j < |markers| ==> (markers[j].active <==> j == index)
    {
      MultipleMod(index, slideSize);
      HighlightAtCount(markers, index);
      if showPaging { UpdatePagingIndex(); }
      if showButtons { HideButton(); }
      var leftPosition := left;
      if leftPosition % slideSize != 0 {
        ShiftPaging(index);
      }
      allowShift := true;
      MultipleMod(index, slideSize);
    }

    /** `dragStart`: the cursor went down at `x`. */
    method DragStart(x: int)
      modifies this`startPos, this`posX1
      ensures startPos == left && posX1 == x
    {
      startPos := left;
      posX1 := x;
    }

    /** `dragOut`: the cursor moved to `x`; the strip follows it 1:1,
        unclamped, whatever the debounce flag says. */
    method DragOut(x: int)
      modifies this`posX1, this`posX2, this`left
      ensures posX2 == old(posX1) - x && posX1 == x
      ensures left == DragFollow(old(left), old(posX1), [x])
      ensures left - posX1 == old(left) - old(posX1)
    {
      posX2 := posX1 - x;
      posX1 := x;
      left := left - posX2;
    }

    /** `dragEnd`: the cursor was released. A displacement strictly beyond
        the limit commits a shift through `shiftSlide(dir, 'drag')`, which
        still honours the debounce flag; anything else restores the origin. */
    method DragEnd()
      modifies this`endPos, this`index, this`left, this`startPos, this`allowShift
      ensures endPos == old(left) && startPos == old(startPos)
      ensures match DragVerdict(endPos - startPos, limit)
              case Forward =>
                Pos(index, left) == Shifted(Geo(), old(Pos(index, left)), old(allowShift), 1, startPos) && !allowShift
              case Backward =>
                Pos(index, left) == Shifted(Geo(), old(Pos(index, left)), old(allowShift), -1, startPos) && !allowShift
              case Restore =>
                index == old(index) && left == startPos && allowShift == old(allowShift)
      ensures 1 <= slidesLength && DragVerdict(endPos - startPos, limit) != Restore ==> 0 <= index < slidesLength
    {
      endPos := left;
      if endPos - startPos < -(limit as int) {
        ShiftSlide(1, true);
      } else if endPos - startPos > limit {
        ShiftSlide(-1, true);
      } else {
        left := startPos;
      }
    }
  }
}
