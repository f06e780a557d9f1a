/** The repeating timers behind the automatic advance. `startCarousel`
    starts a new interval and stores its handle in `carouselInterval`,
    overwriting whatever handle was stored; `clearInterval(carouselInterval)`
    stops only the interval whose handle is stored. An interval whose handle
    has been overwritten keeps running and can no longer be stopped. */
module Intervals {

  /** `live` counts the running intervals that call `nextSlide`;
      `handleLive` says whether the stored handle is one of them. */
  datatype Timers = Timers(live: nat, handleLive: bool)

  /** Before `initCarousel` starts anything. */
  const NoTimers: Timers := Timers(0, false)

  /** The stored handle, when live, is one of the running intervals. */
  predicate Consistent(t: Timers)
  {
    t.handleLive ==> t.live >= 1
  }

  /** Every running interval is the one whose handle is stored: the
      situation in which pausing really stops the carousel. */
  predicate NoOrphans(t: Timers)
  {
    t.live == (if t.handleLive then 1 else 0)
  }

  /** `startCarousel`: one more interval runs, and its handle is the
      stored one. */
  function Start(t: Timers): (r: Timers)
    ensures Consistent(r) && r.handleLive
    ensures r.live == t.live + 1
  {
    Timers(t.live + 1, true)
  }

  /** `clearInterval(carouselInterval)`: stops the stored interval if it
      still runs; clearing a stopped handle does nothing. */
  function Clear(t: Timers): (r: Timers)
    requires Consistent(t)
    ensures Consistent(r) && !r.handleLive
    ensures r.live == if t.handleLive then t.live - 1 else t.live
  {
    if t.handleLive then Timers(t.live - 1, false) else t
  }

  /** `resetCarouselInterval`: clear, then start. */
  function Reset(t: Timers): (r: Timers)
    requires Consistent(t)
    ensures Consistent(r) && r.handleLive && r.live >= 1
  {
    Start(Clear(t))
  }

  /** Clearing and resetting keep "no orphans", and leave zero and one
      interval running respectively. */
  lemma ClearAndResetKeepNoOrphans(t: Timers)
    requires Consistent(t) && NoOrphans(t)
    ensures NoOrphans(Clear(t)) && Clear(t).live == 0
    ensures NoOrphans(Reset(t)) && Reset(t).live == 1
  {
  }

  /** Starting while the stored interval still runs orphans it: one more
      interval runs, and clearing the stored handle afterwards leaves the
      earlier one running. */
  lemma StartWhileRunningOrphans(t: Timers)
    requires Consistent(t) && t.handleLive
    ensures !NoOrphans(Start(t))
    ensures Clear(Start(t)).live == t.live >= 1
  {
  }
}
