/** The cursor-trail buffer of `initCursorTrail`: each handled mousemove
    creates a trail element and pushes it onto `trails`; when the list then
    holds more than `maxTrails` elements, the oldest is shifted off and
    removed from the page. */
module CursorTrail {
  import opened Wrappers

  const MaxTrails: nat := 20

  /** Below this window width mousemoves are ignored. */
  const MobileWidth: int := 768

  /** Push, then shift once if over the cap. */
  function PushCapped<T>(trails: seq<T>, t: T): (r: seq<T>)
    ensures |trails| <= MaxTrails ==> |r| <= MaxTrails
    ensures |r| > 0 && r[|r| - 1] == t
  {
    var pushed := trails + [t];
    if |pushed| > MaxTrails then pushed[1..] else pushed
  }

  /** The buffer after pushing each of `ts` in turn onto `trails`. */
  function PushAll<T>(trails: seq<T>, ts: seq<T>): (r: seq<T>)
    ensures |trails| <= MaxTrails ==> |r| <= MaxTrails
    decreases |ts|
  {
    if ts == [] then trails else PushCapped(PushAll(trails, ts[..|ts| - 1]), ts[|ts| - 1])
  }

  function Min(a: nat, b: nat): nat
  {
    if a < b then a else b
  }

  /** Pushing onto a buffer that is at most full keeps the newest entries,
      as many as fit, in order: the result is the buffer plus the new entry,
      with the oldest entry dropped first when that overflows. */
  lemma PushKeepsNewest<T>(trails: seq<T>, t: T)
    requires |trails| <= MaxTrails
    ensures |PushCapped(trails, t)| == Min(|trails| + 1, MaxTrails)
    ensures PushCapped(trails, t) == (trails + [t])[|trails| + 1 - Min(|trails| + 1, MaxTrails)..]
  {
  }

  /** Starting from an empty buffer, the buffer always holds the newest
      `min(n, 20)` of the `n` trails pushed, oldest first. */
  lemma {:induction false} PushAllKeepsNewest<T>(ts: seq<T>)
    ensures PushAll([], ts) == ts[|ts| - Min(|ts|, MaxTrails)..]
    decreases |ts|
  {
    if ts != [] {
      var init := ts[..|ts| - 1];
      var x := ts[|ts| - 1];
      PushAllKeepsNewest(init);
      var kept := init[|init| - Min(|init|, MaxTrails)..];
      PushKeepsNewest(kept, x);
      assert kept + [x] == ts[|init| - Min(|init|, MaxTrails)..];
    }
  }

  /** The buffer as the source keeps it. A trail element is named by the
      number of trails created before it. */
  class TrailBuffer {
    var trails: seq<nat>
    /** Trail elements created so far. */
    var created: nat

    /** The buffer holds the most recently created trails, oldest first,
        and never more than `MaxTrails`. */
    ghost predicate Valid()
      reads this
    {
      |trails| <= MaxTrails && |trails| <= created &&
      forall k :: 0 <= k < |trails| ==> trails[k] == created - |trails| + k
    }

    constructor ()
      ensures Valid() && trails == [] && created == 0
    {
      trails, created := [], 0;
    }

    /** The mousemove handler; `evicted` is the trail shifted off the list
      and removed from the page, if any. */
    method MouseMove(innerWidth: int) returns (evicted: Option<nat>)
      requires Valid()
      modifies this
      ensures Valid()
      ensures innerWidth < MobileWidth ==> trails == old(trails) && created == old(created)
      ensures innerWidth >= MobileWidth ==>
                created == old(created) + 1 && trails == PushCapped(old(trails), old(created))
      ensures evicted == if innerWidth >= MobileWidth && |old(trails)| == MaxTrails
                         then Some(old(trails)[0]) else None
    {
      evicted := None;
      if innerWidth < MobileWidth {
        return;
      }
      var trail := created;
      created := created + 1;
      trails := trails + [trail];
      if |trails| > MaxTrails {
        evicted := Some(trails[0]);
        trails := trails[1..];
      }
    }
  }
}
