# Krystal Dynamics site scripts: the event-driven state in Dafny

The site's two scripts, `assets/js/main.js` (the enhanced version) and
`main.js` (the unified version), are browser glue. Four pieces in them keep
state and follow rules. This project models those four pieces as Dafny classes whose
events are methods. Each class is proved against pure functions on a value
of its state:

- **Carousel controller** (`initCarousel`), in two variants.
  - `GuardedCarousel` models `assets/js/main.js`. Its `goToSlide` ignores
    calls while `isTransitioning` is set or when the target is already
    current. The lock is cleared only when the 1500 ms cool-down ends. The
    arrow keys navigate.
  - `PlainCarousel` models `main.js`. Its `goToSlide` has no guard. Every
    call moves the active flags and restarts the interval.
  - The slide and dot `active` classes are two `array<bool>` of length
    N = 3. The interval's ticks and the end of the cool-down are explicit
    events. Pure `Step`/`Run` functions over event sequences let lemmas
    speak about whole traces.
- **Interval bookkeeping** (`Intervals`). `startCarousel` overwrites the
  stored handle without clearing it. So the model counts the running
  intervals and records whether the stored handle is one of them.
- **Konami-code matcher** (`initEasterEgg`, module `EasterEgg`).
- **Cursor-trail buffer** (`initCursorTrail`, module `CursorTrail`). Note that
  `assets/js/main.js:437` leaves its initialisation commented out.
- **Theme toggle** (`initTheme`, module `Theme`). It is the same in both scripts.

What the proofs establish:

- Both carousels keep exactly one slide and one dot active, both at the
  current index, after any feasible sequence of events (`Run` ensures `Inv`).
- In the guarded carousel, slide changes never exceed the number of
  cool-down expiries plus one. A locked carousel stays on its slide until a
  cool-down ends.
- Once the cool-down between them has ended, ArrowLeft undoes ArrowRight.
  N ticks (`main.js`), or N ArrowRight presses each followed by the end of
  its cool-down (`assets/js/main.js`), return to the start. Without the
  cool-down's end the guard ignores the second key.
- Hover events touch only the timers.
- In both variants, the interval count can reach two. This happens when the
  carousel is navigated while the mouse rests on it, and the mouse then
  leaves: one interval then runs that nothing can stop. In
  `assets/js/main.js` the navigation is an arrow key, so nothing more is
  needed. `main.js` has no keyboard handler, so there the navigation must be
  a dot click. The dots are appended to `#carouselDots`, not to
  `#carouselContainer`, so this needs the dot element to sit inside the
  container in the page markup. Otherwise moving onto a dot fires
  mouseleave first, and the click's reset leaves a single interval. `resetCarouselInterval` clears before it
  starts, which suggests that one interval is meant to run at a time. The
  model follows the code as written and proves that this does not always hold.
- The Konami matcher stays below ten and fires only after the last ten keys
  were exactly the code. Conversely, whenever its counter is at 0 (on a fresh
  page, after an activation or after a mismatch), typing the code fires on
  the tenth key and not before. An extra leading ArrowUp defeats it.
- The trail buffer holds at most 20 trails. They are always the newest ones,
  oldest first.
- The theme toggle alternates between 'light' and 'dark' by parity, stores
  what it applies, and defaults to 'light'.

## Model

| member | source | states |
|---|---|---|
| Slides.NextIndex | assets/js/main.js:116 | the slide after `i` is a valid index |
| Slides.PrevIndex | assets/js/main.js:140 | the slide before `i` (adding N before `%`) is a valid index |
| Slides.NextPrevInverse | assets/js/main.js:115-145 | next and previous are mutual inverses on [0, N) |
| Slides.AdvanceFirst | main.js:78-81 | one step and then k - 1 more is k steps |
| Slides.AdvanceIsModular | main.js:78-81 | k steps forward from i land on (i + k) mod N; N steps return to i |
| Slides.InitialFlags | assets/js/main.js:79-87 | one flag per image is created (`index === 0 ? 'active' : ''`) |
| Slides.InitialFlagsActive | assets/js/main.js:75-91 | the flags as created (active iff index 0) have exactly one set, at 0 |
| Slides.MoveActive | assets/js/main.js:100-106 | removing `active` at the current index and adding it at the target moves the single active flag to the target |
| Intervals.Start | assets/js/main.js:120-122 | `startCarousel` adds one running interval and makes the stored handle live |
| Intervals.Clear | assets/js/main.js:131-133 | `clearInterval` on the stored handle stops one interval if the handle is live, otherwise nothing; the handle is then dead |
| Intervals.Reset | assets/js/main.js:124-127 | `resetCarouselInterval` leaves at least one interval running, with the stored one live |
| Intervals.ClearAndResetKeepNoOrphans | assets/js/main.js:124-133 | starting with no orphaned interval, clearing leaves 0 running and resetting leaves exactly 1 |
| Intervals.StartWhileRunningOrphans | assets/js/main.js:135 | starting while the stored interval runs orphans it: a later clear leaves it running |
| GuardedCarousel.Init | assets/js/main.js:70-91 | initial state: current 0, exactly slide and dot 0 active, unlocked, one interval |
| GuardedCarousel.GoTo | assets/js/main.js:93-113 | every `goToSlide` keeps exactly one slide and one dot active at the current index |
| GuardedCarousel.Next | assets/js/main.js:115-118 | `nextSlide` keeps exactly one slide and one dot active at the current index |
| GuardedCarousel.Key | assets/js/main.js:138-145 | the keydown handler keeps exactly one slide and one dot active at the current index |
| GuardedCarousel.Pause | assets/js/main.js:131-133 | the mouseenter handler keeps `Inv` |
| GuardedCarousel.Resume | assets/js/main.js:135 | the mouseleave handler keeps `Inv` |
| GuardedCarousel.Cooldown | assets/js/main.js:110-112 | the end of the cool-down keeps `Inv` |
| GuardedCarousel.Step | assets/js/main.js:93-145 | every enabled event (dot click, tick, key, hover, cool-down end) keeps `Inv` |
| GuardedCarousel.Run | assets/js/main.js:93-145 | after any feasible sequence of clicks, ticks, keys, hovers and cool-down ends, exactly one slide and one dot are active, at the current index |
| GuardedCarousel.InitialState | assets/js/main.js:70-91 | after init, `currentSlide == 0` and slide j / dot j are active iff j == 0 |
| GuardedCarousel.GoToIgnored | assets/js/main.js:94 | while locked or for the current index, `goToSlide` leaves index, flags, lock and timers unchanged |
| GuardedCarousel.GoToAccepted | assets/js/main.js:95-108 | an accepted `goToSlide(i)` makes i current, exactly slide i and dot i active, sets the lock and resets the interval |
| GuardedCarousel.StepLock | assets/js/main.js:94-112 | only a cool-down end clears the lock; a change of slide happens only when unlocked and sets the lock |
| GuardedCarousel.LockedStaysPut | assets/js/main.js:94-112 | with the lock held and no cool-down ending, no event sequence changes index, flags or lock |
| GuardedCarousel.ChangesNeedCooldowns | assets/js/main.js:94-112 | over any trace, slide changes are at most cool-down ends plus one (plus zero if locked at the start) |
| GuardedCarousel.ArrowKeysInverse | assets/js/main.js:138-145 | ArrowRight, cool-down end, ArrowLeft returns to the starting slide |
| GuardedCarousel.ArrowRightThenCooldown | assets/js/main.js:110-118 | an ArrowRight on an unlocked carousel and the end of its cool-down leave it one slide further on and unlocked |
| GuardedCarousel.RightPressesAdvance | assets/js/main.js:115-118 | k unblocked `nextSlide`s, each followed by its cool-down end, can all occur and advance the carousel k slides |
| GuardedCarousel.ThreeNextsReturn | assets/js/main.js:115-118 | three unblocked `nextSlide`s return to the starting slide |
| GuardedCarousel.HoverTouchesOnlyTimers | assets/js/main.js:131-135 | mouseenter and mouseleave change only the timers, never index, flags or lock |
| GuardedCarousel.HoverNavigateLeaveLeaks | assets/js/main.js:120-143 | mouseenter, ArrowRight, mouseleave from the initial state leaves two intervals running |
| GuardedCarousel.Carousel.constructor | assets/js/main.js:70-129 | the created arrays and variables are the initial state |
| GuardedCarousel.Carousel.StartCarousel | assets/js/main.js:120-122 | the timers become `Start` of the old timers |
| GuardedCarousel.Carousel.ClearCarouselInterval | assets/js/main.js:125 | the timers become `Clear` of the old timers |
| GuardedCarousel.Carousel.ResetCarouselInterval | assets/js/main.js:124-127 | the timers become `Reset` of the old timers |
| GuardedCarousel.Carousel.GoToSlide | assets/js/main.js:93-113 | the arrays and variables become `GoTo` of the old state; the invariant is kept |
| GuardedCarousel.Carousel.NextSlide | assets/js/main.js:115-118 | the new state is `Next` of the old |
| GuardedCarousel.Carousel.Tick | assets/js/main.js:121 | an interval tick is `nextSlide` |
| GuardedCarousel.Carousel.KeyDown | assets/js/main.js:138-145 | ArrowLeft goes to the previous slide, ArrowRight to the next, other keys change nothing |
| GuardedCarousel.Carousel.MouseEnter | assets/js/main.js:131-133 | only the stored interval is cleared |
| GuardedCarousel.Carousel.MouseLeave | assets/js/main.js:135 | only a new interval is started |
| GuardedCarousel.Carousel.CooldownExpired | assets/js/main.js:110-112 | only the lock is released |
| GuardedCarousel.InitCarousel | assets/js/main.js:58-62 | no carousel exists unless both containers are found; otherwise a fresh valid one in the initial state |
| PlainCarousel.Init | main.js:43-61 | initial state: current 0, exactly slide and dot 0 active, one interval |
| PlainCarousel.GoTo | main.js:63-76 | every `goToSlide` keeps exactly one slide and one dot active at the current index |
| PlainCarousel.Next | main.js:78-81 | `nextSlide` keeps exactly one slide and one dot active at the current index |
| PlainCarousel.Pause | main.js:95-98 | the mouseenter handler keeps `Inv` |
| PlainCarousel.Resume | main.js:100-102 | the mouseleave handler keeps `Inv` |
| PlainCarousel.Step | main.js:59-102 | every enabled event (dot click, tick, hover) keeps `Inv` |
| PlainCarousel.Run | main.js:63-102 | after any feasible sequence of clicks, ticks and hovers, exactly one slide and one dot are active, at the current index |
| PlainCarousel.InitialState | main.js:43-61 | after init, `currentSlide == 0` and slide j / dot j are active iff j == 0 |
| PlainCarousel.GoToAlwaysMoves | main.js:63-76 | every `goToSlide(i)` makes i current with exactly slide i and dot i active, and resets the interval |
| PlainCarousel.GoToCurrentKeepsFlags | main.js:63-76 | `goToSlide(currentSlide)` leaves index and flags unchanged but still resets the interval |
| PlainCarousel.ClickWhilePausedRestarts | main.js:87-98 | a `goToSlide` after mouseenter starts an interval again |
| PlainCarousel.TicksAdvance | main.js:78-85 | k ticks can all occur and advance the carousel k slides |
| PlainCarousel.TicksCycle | main.js:78-85 | N ticks return to the starting slide |
| PlainCarousel.HoverTouchesOnlyTimers | main.js:95-102 | mouseenter and mouseleave change only the timers, never index or flags |
| PlainCarousel.HoverClickLeaveLeaks | main.js:83-102 | mouseenter, dot click, mouseleave from the initial state leaves two intervals running (possible only when `#carouselDots` is inside `#carouselContainer`) |
| PlainCarousel.Carousel.constructor | main.js:43-93 | the created arrays and variables are the initial state |
| PlainCarousel.Carousel.StartCarousel | main.js:83-85 | the timers become `Start` of the old timers |
| PlainCarousel.Carousel.ClearCarouselInterval | main.js:88 | the timers become `Clear` of the old timers |
| PlainCarousel.Carousel.ResetCarouselInterval | main.js:87-90 | the timers become `Reset` of the old timers |
| PlainCarousel.Carousel.GoToSlide | main.js:63-76 | the arrays and variables become `GoTo` of the old state; the invariant is kept |
| PlainCarousel.Carousel.NextSlide | main.js:78-81 | the new state is `Next` of the old |
| PlainCarousel.Carousel.Tick | main.js:84 | an interval tick is `nextSlide` |
| PlainCarousel.Carousel.MouseEnter | main.js:96-98 | only the stored interval is cleared |
| PlainCarousel.Carousel.MouseLeave | main.js:100-102 | only a new interval is started |
| PlainCarousel.InitCarousel | main.js:30-34 | no carousel exists unless both containers are found; otherwise a fresh valid one in the initial state |
| EasterEgg.KonamiStep | assets/js/main.js:376-384 | after every key the index stays below 10, and it is 0 after an activation |
| EasterEgg.Feed | assets/js/main.js:373-385 | the index after any sequence of keys stays below 10 |
| EasterEgg.StepTracks | assets/js/main.js:376-384 | a mismatching key resets the counter to 0; a matching key advances it by one, or on the tenth fires and resets it; the counter keeps tracking a prefix of the code, and on activation the last ten keys are the code |
| EasterEgg.FeedTracks | assets/js/main.js:372-385 | after any keys, the last `konamiIndex` keys spell the start of the code, and an activation follows exactly the ten code keys |
| EasterEgg.CodePrefix | assets/js/main.js:372-384 | after any history that leaves the counter at 0, typing the code does not fire on keys 1-9 and fires and resets on key 10 |
| EasterEgg.ExtraArrowUpDoesNotFire | assets/js/main.js:376-384 | a mismatching ArrowUp resets to 0, so ArrowUp followed by the code does not fire |
| EasterEgg.KonamiMatcher.constructor | assets/js/main.js:373 | the index starts at 0 |
| EasterEgg.KonamiMatcher.KeyDown | assets/js/main.js:375-385 | the handler follows `KonamiStep`, counts activations, and activates only right after the code was typed |
| CursorTrail.PushCapped | assets/js/main.js:319-324 | a push onto a buffer of at most 20 leaves at most 20, ending with the new trail |
| CursorTrail.PushAll | assets/js/main.js:319-324 | repeated pushes never exceed 20 |
| CursorTrail.PushKeepsNewest | assets/js/main.js:319-324 | a push keeps min(n + 1, 20) entries, dropping the oldest first |
| CursorTrail.PushAllKeepsNewest | assets/js/main.js:295-324 | from empty, the buffer is always the newest min(n, 20) of the n trails pushed, in order |
| CursorTrail.TrailBuffer.constructor | assets/js/main.js:295-296 | the buffer starts empty |
| CursorTrail.TrailBuffer.MouseMove | assets/js/main.js:298-324 | below width 768 nothing changes; otherwise a new trail is pushed, and if that overflows the oldest is evicted; the buffer stays the newest trails, at most 20 |
| Theme.InitialTheme | assets/js/main.js:7 | the saved theme is applied; a missing or empty saved value gives 'light' |
| Theme.Toggled | assets/js/main.js:12 | the new theme is 'light' or 'dark' and differs from the current one |
| Theme.ToggleAlternates | main.js:17 | 'dark' goes to 'light', anything else goes to 'dark'; two toggles restore 'light' or 'dark' |
| Theme.ThemeParity | assets/js/main.js:10-15 | after k >= 1 clicks the theme is 'light' or 'dark', dark exactly by the parity of k and the initial theme |
| Theme.DefaultIsLight | main.js:10 | with nothing saved the page starts light, and one click makes it dark |
| Theme.ThemeToggle.constructor | main.js:10-11 | the applied theme is `InitialTheme` of the saved value, and nothing is written |
| Theme.ThemeToggle.Toggle | main.js:15-20 | the new theme is applied and stored: the stored value equals the new theme |

## Left out

- DOM construction: the slide and dot elements, their `src`, `alt`,
  `aria-label` and other classes, `querySelectorAll`, and event registration.
  The model assumes the containers hold exactly the N slides and N dots that
  `initCarousel` created.
- Real time: the 5000 ms interval period, the 1500 ms cool-down and the
  timeouts that remove trails and ripples. A tick and a cool-down end are
  events. The claim that the next automatic advance is a full period after a
  reset or a resume cannot be stated without a clock.
- Mouse position and element nesting: the page markup is not part of this
  model. Hover and click events may arrive in any order, which includes a dot
  click between mouseenter and mouseleave. In `main.js` that order needs
  `#carouselDots` to sit inside `#carouselContainer`.
- `goToSlide` with an index outside [0, N): no caller passes one, because
  the dots, `nextSlide` and ArrowLeft only produce valid indices.
- The theme toggle's ripple (`createRipple`) and `updateThemeIcon`, which is
  empty in `main.js`. The theme click handler exists only when the toggle
  button is found; the model has the handler.
- `activateEasterEgg`'s visual effect and console message: the model counts
  activations.
- The page-side removal of trail elements (`oldTrail.remove()` and the 500 ms
  timeout): the model returns the evicted trail instead.
- Smooth scroll, scroll-triggered animations, header scroll effect,
  parallax, button hover effects, lazy image loading, specs animation and
  download tracking: these are layout and floating-point plumbing, or browser APIs.
- `debounce` and `optimizedScroll`: their point is timer cancellation.
