/** The carousel of main.js: `goToSlide` has no guard and no lock, every
    call resets the interval, and there is no keyboard navigation. The
    5000 ms interval's ticks are explicit events. */
module PlainCarousel {
  import opened Slides
  import opened Intervals

  /** The controller's state: the index of the current slide, the `active`
      flags of slides and dots, and the timers. */
  datatype State = State(current: nat, slides: seq<bool>, dots: seq<bool>, timers: Timers)

  /** Exactly one slide and one dot are active, both at the current index. */
  predicate Inv(s: State)
  {
    |s.slides| == N && |s.dots| == N &&
    ActiveExactlyAt(s.slides, s.current) && ActiveExactlyAt(s.dots, s.current) &&
    Consistent(s.timers)
  }

  /** The state `initCarousel` leaves behind: slide and dot 0 active, one
      interval started. */
  function Init(): (s: State)
    ensures Inv(s) && s.current == 0
    ensures s.timers == Timers(1, true)
  {
    InitialFlagsActive();
    State(0, InitialFlags(), InitialFlags(), Start(NoTimers))
  }

  /** `goToSlide(index)`: moves the active flags from the current slide to
      `index` and resets the interval, whatever `index` is. */
  function GoTo(s: State, index: nat): (r: State)
    requires Inv(s) && index < N
    ensures Inv(r)
  {
    MoveActive(s.slides, s.current, index);
    MoveActive(s.dots, s.current, index);
    State(index,
          s.slides[s.current := false][index := true],
          s.dots[s.current := false][index := true],
          Reset(s.timers))
  }

  /** `nextSlide`. */
  function Next(s: State): (r: State)
    requires Inv(s)
    ensures Inv(r)
  {
    GoTo(s, NextIndex(s.current))
  }

  /** The mouseenter handler: clears the stored interval. */
  function Pause(s: State): (r: State)
    requires Inv(s)
    ensures Inv(r)
  {
    s.(timers := Clear(s.timers))
  }

  /** The mouseleave handler: `startCarousel`. */
  function Resume(s: State): (r: State)
    requires Inv(s)
    ensures Inv(r)
  {
    s.(timers := Start(s.timers))
  }

  /** Everything that can happen to the carousel after initialisation. */
  datatype Event = DotClick(index: nat) | IntervalTick | MouseEnter | MouseLeave

  /** There are only N dots, and an interval can tick only while one runs. */
  predicate Enabled(s: State, e: Event)
  {
    match e
    case DotClick(i) => i < N
    case IntervalTick => s.timers.live > 0
    case _ => true
  }

  function Step(s: State, e: Event): (r: State)
    requires Inv(s) && Enabled(s, e)
    ensures Inv(r)
  {
    match e
    case DotClick(i) => GoTo(s, i)
    case IntervalTick => Next(s)
    case MouseEnter => Pause(s)
    case MouseLeave => Resume(s)
  }

  /** Every event of `evs` can occur in turn, starting from `s`. */
  predicate Feasible(s: State, evs: seq<Event>)
    requires Inv(s)
    decreases |evs|
  {
    evs == [] || (Enabled(s, evs[0]) && Feasible(Step(s, evs[0]), evs[1..]))
  }

  /** The state after handling `evs` in order. */
  function Run(s: State, evs: seq<Event>): (r: State)
    requires Inv(s) && Feasible(s, evs)
    ensures Inv(r)
    decreases |evs|
  {
    if evs == [] then s else Run(Step(s, evs[0]), evs[1..])
  }

  /** `k` interval ticks in a row. */
  function Ticks(k: nat): seq<Event>
  {
    if k == 0 then [] else [IntervalTick] + Ticks(k - 1)
  }

  /** After initialisation the current slide is 0 and only slide 0 and
      dot 0 are active. */
  lemma InitialState()
    ensures Init().current == 0
    ensures forall j :: 0 <= j < N ==> (Init().slides[j] <==> j == 0)
    ensures forall j :: 0 <= j < N ==> (Init().dots[j] <==> j == 0)
  {
  }

  /** Every `goToSlide(index)` makes `index` current with exactly that
      slide and that dot active, and restarts the interval. */
  lemma GoToAlwaysMoves(s: State, index: nat)
    requires Inv(s) && index < N
    ensures GoTo(s, index).current == index
    ensures forall j :: 0 <= j < N ==> (GoTo(s, index).slides[j] <==> j == index)
    ensures forall j :: 0 <= j < N ==> (GoTo(s, index).dots[j] <==> j == index)
    ensures GoTo(s, index).timers == Start(Clear(s.timers))
  {
    var r := GoTo(s, index);
    ActiveExactlyAtPointwise(r.slides, index);
    ActiveExactlyAtPointwise(r.dots, index);
  }

  /** Without a guard, going to the current slide leaves the flags as they
      were but still resets the interval. */
  lemma GoToCurrentKeepsFlags(s: State)
    requires Inv(s)
    ensures GoTo(s, s.current).current == s.current
    ensures GoTo(s, s.current).slides == s.slides && GoTo(s, s.current).dots == s.dots
    ensures GoTo(s, s.current).timers == Reset(s.timers)
  {
  }

  /** A dot click while the mouse rests on the carousel starts an
      interval again, although the carousel was paused. */
  lemma ClickWhilePausedRestarts(s: State, index: nat)
    requires Inv(s) && index < N
    ensures !Pause(s).timers.handleLive
    ensures GoTo(Pause(s), index).timers.handleLive
    ensures GoTo(Pause(s), index).timers.live == Pause(s).timers.live + 1
  {
  }

  /** `k` ticks advance the carousel `k` slides; all of them can occur,
      since every `goToSlide` leaves an interval running. */
  lemma {:induction false} TicksAdvance(s: State, k: nat)
    requires Inv(s) && s.timers.live > 0
    ensures Feasible(s, Ticks(k))
    ensures Run(s, Ticks(k)).current == Advance(s.current, k)
    decreases k
  {
    if k > 0 {
      var t := Step(s, IntervalTick);
      assert Ticks(k)[1..] == Ticks(k - 1);
      TicksAdvance(t, k - 1);
      AdvanceFirst(s.current, k);
    }
  }

  /** N ticks bring the carousel back to the slide it started on: from
      slide 0, the ticks visit 1, 2 and then 0 again. */
  lemma TicksCycle(s: State)
    requires Inv(s) && s.timers.live > 0
    ensures Feasible(s, Ticks(N)) && Run(s, Ticks(N)).current == s.current
  {
    TicksAdvance(s, N);
    AdvanceIsModular(s.current, N);
  }

  /** mouseenter and mouseleave touch only the timers: index and flags stay
      as they were. */
  lemma HoverTouchesOnlyTimers(s: State)
    requires Inv(s)
    ensures Pause(s) == s.(timers := Clear(s.timers)) && Resume(s) == s.(timers := Start(s.timers))
    ensures Pause(s).current == s.current && Pause(s).slides == s.slides && Pause(s).dots == s.dots
    ensures Resume(s).current == s.current && Resume(s).slides == s.slides && Resume(s).dots == s.dots
  {
  }

  /** Clicking a dot while the mouse is over the carousel restarts the
      interval, so the mouseleave that follows starts a second one: two
      intervals then run, and the first can no longer be cleared. The dots
      live in `#carouselDots`, so this order of events is possible only when
      that element sits inside `#carouselContainer`; otherwise reaching a
      dot fires mouseleave first. */
  lemma HoverClickLeaveLeaks()
    ensures Feasible(Init(), [MouseEnter, DotClick(1), MouseLeave])
    ensures Run(Init(), [MouseEnter, DotClick(1), MouseLeave]).timers == Timers(2, true)
  {
  }

  /** The controller as the source keeps it: closure variables for the
      index and the interval handle, and the `active` classes of the slide
      and dot elements as two arrays of flags. */
  class Carousel {
    var slides: array<bool>
    var dots: array<bool>
    var currentSlide: nat
    /** Running intervals that call `nextSlide`. */
    var liveIntervals: nat
    /** Whether the interval stored in `carouselInterval` still runs. */
    var handleLive: bool

    ghost function Model(): State
      reads this, slides, dots
    {
      State(currentSlide, slides[..], dots[..], Timers(liveIntervals, handleLive))
    }

    ghost predicate Valid()
      reads this, slides, dots
    {
      slides != dots && Inv(Model())
    }

    /** `initCarousel` once both containers exist. */
    constructor ()
      ensures Valid() && fresh(slides) && fresh(dots)
      ensures Model() == Init()
    {
      slides := new bool[N](j => j == 0);
      dots := new bool[N](j => j == 0);
      currentSlide := 0;
      liveIntervals, handleLive := 0, false;
      new;
      assert slides[..] == InitialFlags() && dots[..] == InitialFlags();
      StartCarousel();
      assert Model() == Init();
    }

    method StartCarousel()
      modifies this`liveIntervals, this`handleLive
      ensures Timers(liveIntervals, handleLive) == Start(old(Timers(liveIntervals, handleLive)))
    {
      liveIntervals, handleLive := liveIntervals + 1, true;
    }

    method ClearCarouselInterval()
      requires Consistent(Timers(liveIntervals, handleLive))
      modifies this`liveIntervals, this`handleLive
      ensures Timers(liveIntervals, handleLive) == Clear(old(Timers(liveIntervals, handleLive)))
    {
      if handleLive {
        liveIntervals, handleLive := liveIntervals - 1, false;
      }
    }

    method ResetCarouselInterval()
      requires Consistent(Timers(liveIntervals, handleLive))
      modifies this`liveIntervals, this`handleLive
      ensures Timers(liveIntervals, handleLive) == Reset(old(Timers(liveIntervals, handleLive)))
    {
      ClearCarouselInterval();
      StartCarousel();
    }

    method GoToSlide(index: nat)
      requires Valid() && index < N
      modifies this, slides, dots
      ensures Valid() && slides == old(slides) && dots == old(dots)
      ensures Model() == GoTo(old(Model()), index)
    {
      slides[currentSlide] := false;
      dots[currentSlide] := false;
      currentSlide := index;
      slides[currentSlide] := true;
      dots[currentSlide] := true;
      ResetCarouselInterval();
      assert Model() == GoTo(old(Model()), index);
    }

    method NextSlide()
      requires Valid()
      modifies this, slides, dots
      ensures Valid() && slides == old(slides) && dots == old(dots)
      ensures Model() == Next(old(Model()))
    {
      GoToSlide(NextIndex(currentSlide));
    }

    /** A tick of a running interval. */
    method Tick()
      requires Valid() && liveIntervals > 0
      modifies this, slides, dots
      ensures Valid() && slides == old(slides) && dots == old(dots)
      ensures Model() == Step(old(Model()), IntervalTick)
    {
      NextSlide();
    }

    method MouseEnter()
      requires Valid()
      modifies this`liveIntervals, this`handleLive
      ensures Valid() && Model() == Pause(old(Model()))
    {
      ClearCarouselInterval();
    }

    method MouseLeave()
      requires Valid()
      modifies this`liveIntervals, this`handleLive
      ensures Valid() && Model() == Resume(old(Model()))
    {
      StartCarousel();
    }
  }

  /** `initCarousel`: nothing at all happens unless both the slide container
      and the dot container exist. */
  method InitCarousel(containerFound: bool, dotsFound: bool) returns (c: Carousel?)
    ensures c == null <==> !(containerFound && dotsFound)
    ensures c != null ==> fresh(c) && fresh(c.slides) && fresh(c.dots) && c.Valid() && c.Model() == Init()
  {
    if !containerFound || !dotsFound {
      return null;
    }
    c := new Carousel();
  }
}
