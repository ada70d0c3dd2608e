/** The original single-step slider. In infinite mode the strip carries a
    clone of the last slide before slide 0 and a clone of the first after the
    last, so real slide `i` rests one slide further left than in clamped mode;
    a shift may land on a clone (index `-1` or `slidesLength`) and the settle
    handler moves the strip from the clone to the real slide it copies. */
module Script {
  import opened SliderCommon

  /** What this variant fixes at construction. */
  datatype Strip = Strip(slidesLength: nat, slideSize: Positive, infinite: bool)

  /** The offset at which slide `i` rests. In infinite mode the leading clone
      occupies the first place, so every slide sits one place later. */
  function Rest(s: Strip, i: int): int
  {
    if s.infinite then -((i + 1) * s.slideSize) else -(i * s.slideSize)
  }

  /** A real slide at rest. */
  predicate AtRest(s: Strip, p: Pos)
  {
    0 <= p.index < s.slidesLength && p.left == Rest(s, p.index)
  }

  /** At rest where a shift may leave the strip: any real slide, and in
      infinite mode also either clone. */
  predicate Settled(s: Strip, p: Pos)
  {
    && 1 <= s.slidesLength
    && (if s.infinite then -1 <= p.index <= s.slidesLength else 0 <= p.index < s.slidesLength)
    && p.left == Rest(s, p.index)
  }

  /** `shiftLimit`: only the two indices one step outside the range are
      corrected, `-1` to slide 0 and `slidesLength` to the last slide, each at
      its clamped-mode rest; every other position is left alone. */
  function Limit(s: Strip, p: Pos): Pos
  {
    if p.index == -1 then Pos(0, 0)
    else if p.index == s.slidesLength then Pos(s.slidesLength - 1, -((s.slidesLength - 1) * s.slideSize))
    else p
  }

  /** The position `shiftSlide` leaves: nothing moves when shifting is not
      allowed; otherwise one slide forward or back from the offset `base`,
      followed by `shiftLimit` in clamped mode only. */
  function Step(s: Strip, p: Pos, allowShift: bool, dir: int, base: int): Pos
  {
    if !allowShift then p
    else
      var raw := if dir == 1 then Pos(p.index + 1, base - s.slideSize)
                 else if dir == -1 then Pos(p.index - 1, base + s.slideSize)
                 else p;
      if s.infinite then raw else Limit(s, raw)
  }

  /** The clone correction at the start of `checkIndex`: index `-1` (the
      leading clone) becomes the last slide and index `slidesLength` (the
      trailing clone) becomes slide 0, each at its infinite-mode rest. It runs
      in both modes. */
  function Teleport(s: Strip, p: Pos): Pos
  {
    if p.index == -1 then Pos(s.slidesLength - 1, -(s.slidesLength * s.slideSize))
    else if p.index == s.slidesLength then Pos(0, -(s.slideSize as int))
    else p
  }

  function Abs(x: int): nat
  {
    if x < 0 then -x else x
  }

  /** Every rest offset is a whole number of slides. */
  lemma RestAligned(s: Strip, i: int)
    ensures Abs(Rest(s, i)) % s.slideSize == 0
  {
    MultipleMod(i, s.slideSize);
    MultipleMod(i + 1, s.slideSize);
  }

  /** How far `shiftSlide` moves: a refused shift moves nothing; an allowed
      one moves exactly one slide and one index, unless clamped mode corrects
      it at an end; the index stays in range in clamped mode and within the
      clones in infinite mode. */
  lemma StepMoves(s: Strip, p: Pos, allowShift: bool, dir: int, base: int)
    ensures !allowShift ==> Step(s, p, allowShift, dir, base) == p
    ensures allowShift && (dir == 1 || dir == -1) && (s.infinite || 0 <= p.index + dir < s.slidesLength) ==>
              Step(s, p, allowShift, dir, base) == Pos(p.index + dir, base - dir * s.slideSize)
    ensures !s.infinite && 0 <= p.index < s.slidesLength ==>
              0 <= Step(s, p, allowShift, dir, base).index < s.slidesLength
    ensures s.infinite && 0 <= p.index < s.slidesLength ==>
              -1 <= Step(s, p, allowShift, dir, base).index <= s.slidesLength
  {
  }

  /** A shift from a slide at rest, with the origin at that slide's rest,
      ends at rest: on a real slide, or in infinite mode possibly on a clone. */
  lemma StepFromRest(s: Strip, p: Pos, allowShift: bool, dir: int, base: int)
    requires 0 <= p.index < s.slidesLength && base == Rest(s, p.index)
    requires (allowShift && (dir == 1 || dir == -1)) || p.left == Rest(s, p.index)
    ensures Settled(s, Step(s, p, allowShift, dir, base))
  {
    var n, k := s.slideSize, p.index;
    Distrib(k, 1, n);
    Distrib(k + 1, 1, n);
    Distrib(k - 1, 1, n);
  }

  /** The clone correction brings every settled position to a real slide at
      rest, with a whole-slide offset, so `checkIndex` does not re-snap it. */
  lemma TeleportSettles(s: Strip, p: Pos)
    requires Settled(s, p)
    ensures AtRest(s, Teleport(s, p))
    ensures Abs(Teleport(s, p).left) % s.slideSize == 0
    ensures 0 <= p.index < s.slidesLength ==> Teleport(s, p) == p
  {
    RestAligned(s, Teleport(s, p).index);
  }

  /** The slide a press of next (`dir == 1`) or prev (`dir == -1`) reaches
      once the strip has settled: infinite mode goes round, clamped mode stops
      at the ends. */
  function Neighbour(s: Strip, i: int, dir: int): int
    requires 1 <= s.slidesLength
  {
    if s.infinite then (i + dir) % s.slidesLength
    else if i + dir < 0 then 0
    else if i + dir >= s.slidesLength then s.slidesLength - 1
    else i + dir
  }

  /** One button press followed by the settle handler. */
  function Press(s: Strip, p: Pos, dir: int): Pos
  {
    Teleport(s, Step(s, p, true, dir, p.left))
  }

  /** `m` presses in the same direction, each allowed to complete. */
  function Presses(s: Strip, p: Pos, dir: int, m: nat): Pos
    decreases m
  {
    if m == 0 then p else Presses(s, Press(s, p, dir), dir, m - 1)
  }

  /** A press from a slide at rest ends at rest on its neighbour. */
  lemma PressReachesNeighbour(s: Strip, i: int, dir: int)
    requires 1 <= s.slidesLength && 0 <= i < s.slidesLength && (dir == 1 || dir == -1)
    ensures 0 <= Neighbour(s, i, dir) < s.slidesLength
    ensures Press(s, Pos(i, Rest(s, i)), dir) == Pos(Neighbour(s, i, dir), Rest(s, Neighbour(s, i, dir)))
  {
    var n := s.slidesLength;
    StepMoves(s, Pos(i, Rest(s, i)), true, dir, Rest(s, i));
    StepFromRest(s, Pos(i, Rest(s, i)), true, dir, Rest(s, i));
    if s.infinite {
      if i + dir == -1 {
        DivUnique(-1, n, -1, n - 1);
      } else if i + dir == n {
        DivUnique(n, n, 1, 0);
      } else {
        DivUnique(i + dir, n, 0, i + dir);
      }
    }
  }

  /** In infinite mode `m` presses of next from slide `i` reach slide
      `(i + m) mod slidesLength`. */
  lemma {:induction false} PressesGoRound(s: Strip, i: int, m: nat)
    requires s.infinite && 1 <= s.slidesLength && 0 <= i < s.slidesLength
    ensures Presses(s, Pos(i, Rest(s, i)), 1, m) ==
            Pos((i + m) % s.slidesLength, Rest(s, (i + m) % s.slidesLength))
    decreases m
  {
    var n := s.slidesLength;
    if m == 0 {
      DivUnique(i, n, 0, i);
    } else {
      PressReachesNeighbour(s, i, 1);
      var j := (i + 1) % n;
      PressesGoRound(s, j, m - 1);
      ModAddLeft(i + 1, m - 1, n);
    }
  }

  /** In infinite mode `slidesLength` presses of next bring the slider back to
      the slide it started on. */
  lemma FullRoundReturns(s: Strip, i: int)
    requires s.infinite && 1 <= s.slidesLength && 0 <= i < s.slidesLength
    ensures Presses(s, Pos(i, Rest(s, i)), 1, s.slidesLength) == Pos(i, Rest(s, i))
  {
    PressesGoRound(s, i, s.slidesLength);
    DivUnique(i + s.slidesLength, s.slidesLength, 1, i);
  }

  /** In clamped mode `m` presses of next from slide `i` climb one slide
      each and then stay on the last slide. */
  lemma {:induction false} PressesClamp(s: Strip, i: int, m: nat)
    requires !s.infinite && 1 <= s.slidesLength && 0 <= i < s.slidesLength
    ensures var j := if i + m >= s.slidesLength then s.slidesLength - 1 else i + m;
            Presses(s, Pos(i, Rest(s, i)), 1, m) == Pos(j, Rest(s, j))
    decreases m
  {
    if m > 0 {
      PressReachesNeighbour(s, i, 1);
      PressesClamp(s, Neighbour(s, i, 1), m - 1);
    }
  }

  /** `hideButton` of this variant, which does not look at `infinite`:
      slide 0 hides prev, otherwise the last slide hides next (the other
      button keeps its state), and any other slide shows both. */
  function HideRule(s: Strip, index: int, b: Buttons): Buttons
  {
    if index == 0 then b.(prevHidden := true)
    else if index == s.slidesLength - 1 then b.(nextHidden := true)
    else Buttons(false, false)
  }

  /** The rule hides the button that leads off an end and shows both in the
      middle; a button is therefore hidden only at an end, in either mode. */
  lemma HideRuleAtEnds(s: Strip, index: int, b: Buttons)
    ensures index == 0 ==> HideRule(s, index, b).prevHidden
    ensures index == 0 ==> HideRule(s, index, b).nextHidden == b.nextHidden
    ensures index != 0 && index == s.slidesLength - 1 ==> HideRule(s, index, b).nextHidden
    ensures index != 0 && index == s.slidesLength - 1 ==> HideRule(s, index, b).prevHidden == b.prevHidden
    ensures HideRule(s, index, b).prevHidden || HideRule(s, index, b).nextHidden ==>
              index == 0 || index == s.slidesLength - 1
    ensures HideRule(s, index, HideRule(s, index, b)) == HideRule(s, index, b)
  {
  }

  /** The slider object: configuration fixed by the constructor, and the
      position, drag and navigation state its handlers update. */
  class Slider {
    const slidesLength: nat
    const slideSize: Positive
    const infinite: bool
    const showButtons: bool
    const showPaging: bool
    const limit: nat

    var index: int
    var left: int
    var startPos: int
    var endPos: int
    var posX1: int
    var posX2: int
    var allowShift: bool
    var prevHidden: bool
    var nextHidden: bool
    var markers: seq<Marker>

    function StripOf(): Strip
    {
      Strip(slidesLength, slideSize, infinite)
    }

    /** The object invariant: buttons exist only with `showButtons`, and the
        markers are those `pagingBuilder` made, one per slide. */
    ghost predicate Valid()
      reads this`prevHidden, this`nextHidden, this`markers
    {
      && limit == DragLimit
      && (!showButtons ==> !prevHidden && !nextHidden)
      && |markers| == (if showPaging then slidesLength else 0)
      && forall j :: 0 <= j < |markers| ==> markers[j].target == j
    }

    ghost predicate Resting()
      reads this
    {
      AtRest(StripOf(), Pos(index, left))
    }

    /** The constructor: the load limit truncates the slide count, the strip
        starts at slide 0's rest (past the leading clone in infinite mode),
        and in clamped mode the prev button starts hidden. `slideCount` is the
        number of slide elements found and `slideSize` their measured size. */
    constructor (slideCount: Positive, slideSize: Positive, slidesToLoad: Option<nat>,
                 showButtons: bool, showPaging: bool, infinite: bool)
      ensures Valid()
      ensures slidesLength == LoadedCount(slideCount, slidesToLoad)
      ensures this.slideSize == slideSize && this.infinite == infinite
      ensures this.showButtons == showButtons && this.showPaging == showPaging
      ensures index == 0 && left == (if infinite then -(slideSize as int) else 0) && allowShift
      ensures startPos == 0 && endPos == 0 && posX1 == 0 && posX2 == 0
      ensures prevHidden == (showButtons && !infinite) && !nextHidden
      ensures showPaging ==> forall j :: 0 <= j < |markers| ==> markers[j].active == (j == 0)
      ensures 1 <= slidesLength ==> Resting()
    {
      this.slidesLength := LoadedCount(slideCount, slidesToLoad);
      this.slideSize := slideSize;
      this.infinite := infinite;
      this.showButtons := showButtons;
      this.showPaging := showPaging;
      limit := DragLimit;
      index := 0;
      startPos, endPos, posX1, posX2 := 0, 0, 0, 0;
      allowShift := true;
      if infinite {
        left := -(slideSize as int);
      } else {
        left := 0;
      }
      prevHidden := showButtons && !infinite;
      nextHidden := false;
      markers := [];
      new;
      if showPaging {
        markers := PagingBuilder();
      }
    }

    /** `pagingBuilder`: one marker per slide, jumping to that slide, with
        marker 0 active. */
    method PagingBuilder() returns (ms: seq<Marker>)
      ensures |ms| == slidesLength
      ensures forall j :: 0 <= j < |ms| ==> ms[j] == Marker(j, j == 0)
      ensures ActiveCount(ms) == 1 || slidesLength == 0
    {
      ms := [];
      for i := 0 to slidesLength
        invariant |ms| == i
        invariant forall j :: 0 <= j < i ==> ms[j] == Marker(j, j == 0)
      {
        ms := ms + [Marker(i, i == 0)];
      }
      ActiveCountIs(ms, 0);
    }

    /** `hideButton`, with a button's existence standing for `showButtons`. */
    method HideButton()
      requires Valid()
      modifies this`prevHidden, this`nextHidden
      ensures Valid()
      ensures Buttons(prevHidden, nextHidden) ==
              if showButtons then HideRule(StripOf(), index, old(Buttons(prevHidden, nextHidden)))
              else old(Buttons(prevHidden, nextHidden))
    {
      if index == 0 {
        if showButtons { prevHidden := true; }
      } else if index == slidesLength - 1 {
        if showButtons { nextHidden := true; }
      } else {
        if showButtons && prevHidden { prevHidden := false; }
        if showButtons && nextHidden { nextHidden := false; }
      }
    }

    /** `shiftLimit`: pulls the index back from one step past either end. */
    method ShiftLimit()
      modifies this`index, this`left
      ensures Pos(index, left) == Limit(StripOf(), old(Pos(index, left)))
    {
      if index == -1 {
        left := 0;
        index := 0;
      } else if index == slidesLength {
        left := -((slidesLength - 1) * slideSize);
        index := slidesLength - 1;
      }
    }

    /** `shiftSlide(dir, action)`: when shifting is allowed, a button or Tab
        press (`drag` false) takes the current offset as its origin, a drag
        commit (`drag` true) keeps the origin `dragStart` recorded; the strip
        moves one slide and clamped mode runs `shiftLimit`. The debounce flag
        closes either way. */
    method ShiftSlide(dir: int, drag: bool)
      modifies this`index, this`left, this`startPos, this`allowShift
      ensures !allowShift
      ensures startPos == if old(allowShift) && !drag then old(left) else old(startPos)
      ensures Pos(index, left) == Step(StripOf(), old(Pos(index, left)), old(allowShift), dir, startPos)
      ensures !old(allowShift) ==> index == old(index) && left == old(left)
      ensures !infinite && old(0 <= index < slidesLength) ==> 0 <= index < slidesLength
      ensures infinite && old(0 <= index < slidesLength) ==> -1 <= index <= slidesLength
    {
      ghost var p := Pos(index, left);
      ghost var allowed := allowShift;
      if allowShift {
        if !drag { startPos := left; }
        if dir == 1 {
          left := startPos - slideSize;
          index := index + 1;
        } else if dir == -1 {
          left := startPos + slideSize;
          index := index - 1;
        }
        if !infinite { ShiftLimit(); }
      }
      allowShift := false;
      StepMoves(StripOf(), p, allowed, dir, startPos);
    }

    /** `updatePagingIndex`: toggles each marker's `active` flag in place,
        comparing the marker's position with the index. */
    method UpdatePagingIndex()
      requires Valid()
      modifies this`markers
      ensures Valid()
      ensures markers == HighlightAt(old(markers), index)
    {
      var j := 0;
      while j < |markers|
        invariant 0 <= j <= |markers| == |old(markers)|
        invariant forall m :: 0 <= m < j ==> markers[m] == HighlightAt(old(markers), index)[m]
        invariant forall m :: j <= m < |markers| ==> markers[m] == old(markers)[m]
      {
        var marker := markers[j];
        if j == index {
          if !marker.active { markers := markers[j := marker.(active := true)]; }
        } else if marker.active {
          markers := markers[j := marker.(active := false)];
        }
        j := j + 1;
      }
    }

    /** `shiftPaging(i)`: a marker click. The index is taken as given, with no
        clamping, the strip is sent to that slide's rest and the debounce flag
        closes. */
    method ShiftPaging(i: int)
      modifies this`index, this`left, this`allowShift
      ensures index == i && left == Rest(StripOf(), i) && !allowShift
    {
      if infinite {
        if i != 0 {
          left := -((i + 1) * slideSize);
        } else {
          left := -(slideSize as int);
        }
      } else {
        if i != 0 {
          left := -(i * slideSize);
        } else {
          left := 0;
        }
      }
      index := i;
      allowShift := false;
    }

    /** The clone correction that opens `checkIndex`. */
    method LeaveClone()
      modifies this`index, this`left
      ensures Pos(index, left) == Teleport(StripOf(), old(Pos(index, left)))
    {
      if index == -1 {
        left := -(slidesLength * slideSize);
        index := slidesLength - 1;
      } else if index == slidesLength {
        left := -(slideSize as int);
        index := 0;
      }
    }

    /** `checkIndex`, the handler of the strip's `transitionend`: replaces a
        clone by the slide it copies, refreshes the markers and buttons for
        the resulting index, reopens the debounce flag, and then re-snaps an
        offset that is not a whole number of slides through
        `shiftPaging(index)`, which closes the flag again. */
    method CheckIndex()
      requires Valid()
      modifies this`markers, this`prevHidden, this`nextHidden, this`index, this`left, this`allowShift
      ensures Valid()
      ensures markers ==
              if showPaging then HighlightAt(old(markers), Teleport(StripOf(), old(Pos(index, left))).index)
              else old(markers)
      ensures Buttons(prevHidden, nextHidden) ==
              if showButtons
              then HideRule(StripOf(), Teleport(StripOf(), old(Pos(index, left))).index, old(Buttons(prevHidden, nextHidden)))
              else old(Buttons(prevHidden, nextHidden))
      ensures allowShift <==> Abs(Teleport(StripOf(), old(Pos(index, left))).left) % slideSize == 0
      ensures allowShift ==> Pos(index, left) == Teleport(StripOf(), old(Pos(index, left)))
      ensures !allowShift ==>
                index == Teleport(StripOf(), old(Pos(index, left))).index && left == Rest(StripOf(), index)
      ensures old(Settled(StripOf(), Pos(index, left))) ==>
                allowShift && Resting() && Pos(index, left) == Teleport(StripOf(), old(Pos(index, left)))
      ensures showPaging && old(Settled(StripOf(), Pos(index, left))) ==>
                ActiveCount(markers) == 1
                && forall j :: 0 <= j < |markers| ==> (markers[j].active <==> j == index)
    {
      if Settled(StripOf(), Pos(index, left)) {
        TeleportSettles(StripOf(), Pos(index, left));
      }
      HighlightAtCount(markers, Teleport(StripOf(), Pos(index, left)).index);
      LeaveClone();
      if showPaging { UpdatePagingIndex(); }
      if showButtons { HideButton(); }
      allowShift := true;
      var leftPosition := left;
      if leftPosition < 0 { leftPosition := -leftPosition; }
      if leftPosition % slideSize != 0 {
        ShiftPaging(index);
      }
    }

    /** `dragStart`: the cursor went down at `x`. */
    method DragStart(x: int)
      modifies this`startPos, this`posX1
      ensures startPos == left && posX1 == x
    {
      startPos := left;
      posX1 := x;
    }

    /** `dragOut`: the cursor moved to `x`; the strip follows it 1:1,
        unclamped, whatever the debounce flag says. */
    method DragOut(x: int)
      modifies this`posX1, this`posX2, this`left
      ensures posX2 == old(posX1) - x && posX1 == x
      ensures left == DragFollow(old(left), old(posX1), [x])
      ensures left - posX1 == old(left) - old(posX1)
    {
      posX2 := posX1 - x;
      posX1 := x;
      left := left - posX2;
    }

    /** `dragEnd`: the cursor was released. A displacement strictly beyond
        the limit commits a shift through `shiftSlide(dir, 'drag')`, which
        still honours the debounce flag; anything else restores the origin. */
    method DragEnd()
      modifies this`endPos, this`index, this`left, this`startPos, this`allowShift
      ensures endPos == old(left) && startPos == old(startPos)
      ensures match DragVerdict(endPos - startPos, limit)
              case Forward =>
                Pos(index, left) == Step(StripOf(), old(Pos(index, left)), old(allowShift), 1, startPos) && !allowShift
              case Backward =>
                Pos(index, left) == Step(StripOf(), old(Pos(index, left)), old(allowShift), -1, startPos) && !allowShift
              case Restore =>
                index == old(index) && left == startPos && allowShift == old(allowShift)
    {
      endPos := left;
      if endPos - startPos < -(limit as int) {
        ShiftSlide(1, true);
      } else if endPos - startPos > limit {
        ShiftSlide(-1, true);
      } else {
        left := startPos;
      }
    }
  }
}
