/** The carousel of assets/js/main.js: `goToSlide` is guarded by an
    `isTransitioning` lock that only the end of a 1500 ms cool-down clears,
    and the left and right arrow keys navigate. The cool-down's end and the
    5000 ms interval's ticks are explicit events. */
module GuardedCarousel {
  import opened Slides
  import opened Intervals

  /** The controller's state: the index of the current slide, the `active`
      flags of slides and dots, the transition lock, and the timers. */
  datatype State = State(
    current: nat,
    slides: seq<bool>,
    dots: seq<bool>,
    transitioning: bool,
    timers: Timers)

  /** Exactly one slide and one dot are active, both at the current index. */
  predicate Inv(s: State)
  {
    |s.slides| == N && |s.dots| == N &&
    ActiveExactlyAt(s.slides, s.current) && ActiveExactlyAt(s.dots, s.current) &&
    Consistent(s.timers)
  }

  /** The state `initCarousel` leaves behind: slide and dot 0 active,
      unlocked, one interval started. */
  function Init(): (s: State)
    ensures Inv(s) && s.current == 0 && !s.transitioning
    ensures s.timers == Timers(1, true)
  {
    InitialFlagsActive();
    State(0, InitialFlags(), InitialFlags(), false, Start(NoTimers))
  }

  /** `goToSlide(index)`: ignored while locked or when `index` is already
      current; otherwise moves the active flags, takes the lock and resets
      the interval. */
  function GoTo(s: State, index: nat): (r: State)
    requires Inv(s) && index < N
    ensures Inv(r)
  {
    if s.transitioning || index == s.current then s
    else
      MoveActive(s.slides, s.current, index);
      MoveActive(s.dots, s.current, index);
      State(index,
            s.slides[s.current := false][index := true],
            s.dots[s.current := false][index := true],
            true,
            Reset(s.timers))
  }

  /** `nextSlide`. */
  function Next(s: State): (r: State)
    requires Inv(s)
    ensures Inv(r)
  {
    GoTo(s, NextIndex(s.current))
  }

  /** The keydown handler: ArrowLeft goes to the previous slide, ArrowRight
      calls `nextSlide`, any other key does nothing. */
  function Key(s: State, key: string): (r: State)
    requires Inv(s)
    ensures Inv(r)
  {
    if key == "ArrowLeft" then GoTo(s, PrevIndex(s.current))
    else if key == "ArrowRight" then Next(s)
    else s
  }

  /** The mouseenter handler: clears the stored interval. */
  function Pause(s: State): (r: State)
    requires Inv(s)
    ensures Inv(r)
  {
    s.(timers := Clear(s.timers))
  }

  /** The mouseleave handler: `startCarousel`. */
  function Resume(s: State): (r: State)
    requires Inv(s)
    ensures Inv(r)
  {
    s.(timers := Start(s.timers))
  }

  /** The 1500 ms timeout scheduled by an accepted `goToSlide`. */
  function Cooldown(s: State): (r: State)
    requires Inv(s)
    ensures Inv(r)
  {
    s.(transitioning := false)
  }

  /** Everything that can happen to the carousel after initialisation. */
  datatype Event =
    | DotClick(index: nat)
    | IntervalTick
    | KeyDown(key: string)
    | MouseEnter
    | MouseLeave
    | CooldownExpired

  /** An event can occur: there are only N dots, an interval can tick only
      while one runs, and a cool-down can end only while the lock is held
      (each accepted transition schedules exactly one, and no other
      transition is accepted before it ends). */
  predicate Enabled(s: State, e: Event)
  {
    match e
    case DotClick(i) => i < N
    case IntervalTick => s.timers.live > 0
    case CooldownExpired => s.transitioning
    case _ => true
  }

  function Step(s: State, e: Event): (r: State)
    requires Inv(s) && Enabled(s, e)
    ensures Inv(r)
  {
    match e
    case DotClick(i) => GoTo(s, i)
    case IntervalTick => Next(s)
    case KeyDown(k) => Key(s, k)
    case MouseEnter => Pause(s)
    case MouseLeave => Resume(s)
    case CooldownExpired => Cooldown(s)
  }

  /** Every event of `evs` can occur in turn, starting from `s`. */
  predicate Feasible(s: State, evs: seq<Event>)
    requires Inv(s)
    decreases |evs|
  {
    evs == [] || (Enabled(s, evs[0]) && Feasible(Step(s, evs[0]), evs[1..]))
  }

  /** The state after handling `evs` in order. */
  function Run(s: State, evs: seq<Event>): (r: State)
    requires Inv(s) && Feasible(s, evs)
    ensures Inv(r)
    decreases |evs|
  {
    if evs == [] then s else Run(Step(s, evs[0]), evs[1..])
  }

  /** How many events of `evs` changed the current slide. */
  function Changes(s: State, evs: seq<Event>): nat
    requires Inv(s) && Feasible(s, evs)
    decreases |evs|
  {
    if evs == [] then 0
    else
      var t := Step(s, evs[0]);
      (if t.current != s.current then 1 else 0) + Changes(t, evs[1..])
  }

  /** How many cool-downs end during `evs`. */
  function Expiries(evs: seq<Event>): nat
  {
    if evs == [] then 0
    else (if evs[0].CooldownExpired? then 1 else 0) + Expiries(evs[1..])
  }

  /** After initialisation the current slide is 0 and only slide 0 and
      dot 0 are active. */
  lemma InitialState()
    ensures Init().current == 0
    ensures forall j :: 0 <= j < N ==> (Init().slides[j] <==> j == 0)
    ensures forall j :: 0 <= j < N ==> (Init().dots[j] <==> j == 0)
  {
  }

  /** A `goToSlide` while locked, or to the current slide, changes nothing:
      index, flags, lock and timers stay as they were. */
  lemma GoToIgnored(s: State, index: nat)
    requires Inv(s) && index < N
    requires s.transitioning || index == s.current
    ensures GoTo(s, index) == s
  {
  }

  /** An accepted `goToSlide` makes `index` current with exactly that slide
      and that dot active, takes the lock and restarts the interval. */
  lemma GoToAccepted(s: State, index: nat)
    requires Inv(s) && index < N
    requires !s.transitioning && index != s.current
    ensures GoTo(s, index).current == index
    ensures forall j :: 0 <= j < N ==> (GoTo(s, index).slides[j] <==> j == index)
    ensures forall j :: 0 <= j < N ==> (GoTo(s, index).dots[j] <==> j == index)
    ensures GoTo(s, index).transitioning
    ensures GoTo(s, index).timers == Start(Clear(s.timers))
  {
    var r := GoTo(s, index);
    ActiveExactlyAtPointwise(r.slides, index);
    ActiveExactlyAtPointwise(r.dots, index);
  }

  /** Only the end of a cool-down releases the lock, and the current slide
      changes only when the lock was free, taking it. */
  lemma StepLock(s: State, e: Event)
    requires Inv(s) && Enabled(s, e)
    ensures !e.CooldownExpired? && s.transitioning ==> Step(s, e).transitioning
    ensures Step(s, e).current != s.current ==> !s.transitioning && Step(s, e).transitioning
  {
  }

  /** While no cool-down ends, a locked carousel stays on its slide: index,
      flags and lock survive any sequence of other events. */
  lemma {:induction false} LockedStaysPut(s: State, evs: seq<Event>)
    requires Inv(s) && Feasible(s, evs) && s.transitioning
    requires forall k :: 0 <= k < |evs| ==> !evs[k].CooldownExpired?
    ensures Run(s, evs).current == s.current
    ensures Run(s, evs).slides == s.slides && Run(s, evs).dots == s.dots
    ensures Run(s, evs).transitioning
    decreases |evs|
  {
    if evs != [] {
      assert !evs[0].CooldownExpired?;
      StepLock(s, evs[0]);
      var t := Step(s, evs[0]);
      assert t.slides == s.slides && t.dots == s.dots by {
        match evs[0]
        case DotClick(i) =>
        case IntervalTick =>
        case KeyDown(k) =>
        case MouseEnter =>
        case MouseLeave =>
      }
      LockedStaysPut(t, evs[1..]);
    }
  }

  /** Two slide changes are always separated by the end of a cool-down:
      the number of changes exceeds the number of expiries by at most one,
      and by none when the carousel starts locked. */
  lemma {:induction false} ChangesNeedCooldowns(s: State, evs: seq<Event>)
    requires Inv(s) && Feasible(s, evs)
    ensures Changes(s, evs) <= Expiries(evs) + (if s.transitioning then 0 else 1)
    decreases |evs|
  {
    if evs != [] {
      StepLock(s, evs[0]);
      ChangesNeedCooldowns(Step(s, evs[0]), evs[1..]);
    }
  }

  /** ArrowRight and ArrowLeft undo each other once the cool-down between
      them has ended. */
  lemma ArrowKeysInverse(s: State)
    requires Inv(s) && !s.transitioning
    ensures Feasible(s, [KeyDown("ArrowRight"), CooldownExpired, KeyDown("ArrowLeft")])
    ensures Run(s, [KeyDown("ArrowRight"), CooldownExpired, KeyDown("ArrowLeft")]).current == s.current
  {
    NextPrevInverse(s.current);
    var t := Cooldown(Key(s, "ArrowRight"));
    var last := [KeyDown("ArrowLeft")];
    assert last[1..] == [];
    assert Feasible(t, last) && Run(t, last) == Key(t, "ArrowLeft");
    ArrowRightThenCooldown(s, last);
    assert [KeyDown("ArrowRight"), CooldownExpired] + last == [KeyDown("ArrowRight"), CooldownExpired, KeyDown("ArrowLeft")];
  }

  /** An ArrowRight followed by the end of its cool-down: the carousel is
      one slide further on and unlocked again. */
  lemma {:induction false} ArrowRightThenCooldown(s: State, rest: seq<Event>)
    requires Inv(s) && !s.transitioning
    requires Feasible(Cooldown(Key(s, "ArrowRight")), rest)
    ensures Cooldown(Key(s, "ArrowRight")).current == NextIndex(s.current)
    ensures !Cooldown(Key(s, "ArrowRight")).transitioning
    ensures Feasible(s, [KeyDown("ArrowRight"), CooldownExpired] + rest)
    ensures Run(s, [KeyDown("ArrowRight"), CooldownExpired] + rest) == Run(Cooldown(Key(s, "ArrowRight")), rest)
  {
    var evs := [KeyDown("ArrowRight"), CooldownExpired] + rest;
    assert evs[1..][1..] == rest;
  }

  /** `k` ArrowRight presses, each followed by the end of its cool-down. */
  function RightPresses(k: nat): seq<Event>
  {
    if k == 0 then [] else [KeyDown("ArrowRight"), CooldownExpired] + RightPresses(k - 1)
  }

  /** `k` unblocked `nextSlide`s advance the carousel `k` slides and leave
      it unlocked. */
  lemma {:induction false} RightPressesAdvance(s: State, k: nat)
    requires Inv(s) && !s.transitioning
    ensures Feasible(s, RightPresses(k))
    ensures Run(s, RightPresses(k)).current == Advance(s.current, k)
    ensures !Run(s, RightPresses(k)).transitioning
    decreases k
  {
    if k > 0 {
      var t := Cooldown(Key(s, "ArrowRight"));
      RightPressesAdvance(t, k - 1);
      ArrowRightThenCooldown(s, RightPresses(k - 1));
      AdvanceFirst(s.current, k);
    }
  }

  /** Three unblocked `nextSlide`s bring the carousel back to the slide it
      started on: from slide 0 they visit 1, 2 and then 0 again. */
  lemma ThreeNextsReturn(s: State)
    requires Inv(s) && !s.transitioning
    ensures Feasible(s, RightPresses(N)) && Run(s, RightPresses(N)).current == s.current
  {
    RightPressesAdvance(s, N);
    AdvanceIsModular(s.current, N);
  }

  /** mouseenter and mouseleave touch only the timers: index, flags and
      lock stay as they were. */
  lemma HoverTouchesOnlyTimers(s: State)
    requires Inv(s)
    ensures Pause(s) == s.(timers := Clear(s.timers)) && Resume(s) == s.(timers := Start(s.timers))
    ensures Pause(s).current == s.current && Resume(s).current == s.current
    ensures Pause(s).slides == s.slides && Pause(s).dots == s.dots && Pause(s).transitioning == s.transitioning
    ensures Resume(s).slides == s.slides && Resume(s).dots == s.dots && Resume(s).transitioning == s.transitioning
  {
  }

  /** Navigating by keyboard while the mouse is over the carousel
      restarts the interval, so the mouseleave that follows starts a second
      one: two intervals then run, and the first can no longer be cleared. */
  lemma HoverNavigateLeaveLeaks()
    ensures Feasible(Init(), [MouseEnter, KeyDown("ArrowRight"), MouseLeave])
    ensures Run(Init(), [MouseEnter, KeyDown("ArrowRight"), MouseLeave]).timers == Timers(2, true)
  {
  }

  /** The controller as the source keeps it: closure variables for the
      index, the lock and the interval handle, and the `active` classes of
      the slide and dot elements as two arrays of flags. */
  class Carousel {
    var slides: array<bool>
    var dots: array<bool>
    var currentSlide: nat
    var isTransitioning: bool
    /** Running intervals that call `nextSlide`. */
    var liveIntervals: nat
    /** Whether the interval stored in `carouselInterval` still runs. */
    var handleLive: bool

    ghost function Model(): State
      reads this, slides, dots
    {
      State(currentSlide, slides[..], dots[..], isTransitioning, Timers(liveIntervals, handleLive))
    }

    ghost predicate Valid()
      reads this, slides, dots
    {
      slides != dots && Inv(Model())
    }

    /** `initCarousel` once both containers exist. */
    constructor ()
      ensures Valid() && fresh(slides) && fresh(dots)
      ensures Model() == Init()
    {
      slides := new bool[N](j => j == 0);
      dots := new bool[N](j => j == 0);
      currentSlide := 0;
      isTransitioning := false;
      liveIntervals, handleLive := 0, false;
      new;
      assert slides[..] == InitialFlags() && dots[..] == InitialFlags();
      StartCarousel();
      assert Model() == Init();
    }

    method StartCarousel()
      modifies this`liveIntervals, this`handleLive
      ensures Timers(liveIntervals, handleLive) == Start(old(Timers(liveIntervals, handleLive)))
    {
      liveIntervals, handleLive := liveIntervals + 1, true;
    }

    method ClearCarouselInterval()
      requires Consistent(Timers(liveIntervals, handleLive))
      modifies this`liveIntervals, this`handleLive
      ensures Timers(liveIntervals, handleLive) == Clear(old(Timers(liveIntervals, handleLive)))
    {
      if handleLive {
        liveIntervals, handleLive := liveIntervals - 1, false;
      }
    }

    method ResetCarouselInterval()
      requires Consistent(Timers(liveIntervals, handleLive))
      modifies this`liveIntervals, this`handleLive
      ensures Timers(liveIntervals, handleLive) == Reset(old(Timers(liveIntervals, handleLive)))
    {
      ClearCarouselInterval();
      StartCarousel();
    }

    method GoToSlide(index: nat)
      requires Valid() && index < N
      modifies this, slides, dots
      ensures Valid() && slides == old(slides) && dots == old(dots)
      ensures Model() == GoTo(old(Model()), index)
    {
      if isTransitioning || index == currentSlide {
        return;
      }
      isTransitioning := true;
      slides[currentSlide] := false;
      dots[currentSlide] := false;
      currentSlide := index;
      slides[currentSlide] := true;
      dots[currentSlide] := true;
      ResetCarouselInterval();
      assert Model() == GoTo(old(Model()), index);
    }

    method NextSlide()
      requires Valid()
      modifies this, slides, dots
      ensures Valid() && slides == old(slides) && dots == old(dots)
      ensures Model() == Next(old(Model()))
    {
      GoToSlide(NextIndex(currentSlide));
    }

    /** A tick of a running interval. */
    method Tick()
      requires Valid() && liveIntervals > 0
      modifies this, slides, dots
      ensures Valid() && slides == old(slides) && dots == old(dots)
      ensures Model() == Step(old(Model()), IntervalTick)
    {
      NextSlide();
    }

    method KeyDown(key: string)
      requires Valid()
      modifies this, slides, dots
      ensures Valid() && slides == old(slides) && dots == old(dots)
      ensures Model() == Key(old(Model()), key)
    {
      if key == "ArrowLeft" {
        GoToSlide(PrevIndex(currentSlide));
      } else if key == "ArrowRight" {
        NextSlide();
      }
    }

    method MouseEnter()
      requires Valid()
      modifies this`liveIntervals, this`handleLive
      ensures Valid() && Model() == Pause(old(Model()))
    {
      ClearCarouselInterval();
    }

    method MouseLeave()
      requires Valid()
      modifies this`liveIntervals, this`handleLive
      ensures Valid() && Model() == Resume(old(Model()))
    {
      StartCarousel();
    }

    /** The end of the 1500 ms timeout an accepted `goToSlide` scheduled. */
    method CooldownExpired()
      requires Valid() && isTransitioning
      modifies this`isTransitioning
      ensures Valid() && Model() == Cooldown(old(Model()))
    {
      isTransitioning := false;
    }
  }

  /** `initCarousel`: nothing at all happens unless both the slide container
      and the dot container exist. */
  method InitCarousel(containerFound: bool, dotsFound: bool) returns (c: Carousel?)
    ensures c == null <==> !(containerFound && dotsFound)
    ensures c != null ==> fresh(c) && fresh(c.slides) && fresh(c.dots) && c.Valid() && c.Model() == Init()
  {
    if !containerFound || !dotsFound {
      return null;
    }
    c := new Carousel();
  }
}
