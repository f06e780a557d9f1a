/** What both carousel variants share: the fixed image list, the index
    arithmetic of next/previous, and the "active" flags of slides and dots,
    one flag per image. */
module Slides {

  /** The carousel's images in display order; fixed after initialisation. */
  const Images: seq<string> := [
    "assets/images/k-field-interface.png",
    "assets/images/k-clip-interface.png",
    "assets/images/k-comp-interface.png"
  ]

  /** The number of slides (and of dots). */
  const N: nat := |Images|

  /** The slide after `i`, wrapping from the last to the first. */
  function NextIndex(i: nat): (r: nat)
    requires i < N
    ensures r < N
  {
    (i + 1) % N
  }

  /** The slide before `i`, wrapping from the first to the last. */
  function PrevIndex(i: nat): (r: nat)
    requires i < N
    ensures r < N
  {
    (i - 1 + N) % N
  }

  lemma NextPrevInverse(i: nat)
    requires i < N
    ensures PrevIndex(NextIndex(i)) == i
    ensures NextIndex(PrevIndex(i)) == i
  {
  }

  /** `k` successive steps forward from slide `i`. */
  function Advance(i: nat, k: nat): (r: nat)
    requires i < N
    ensures r < N
  {
    if k == 0 then i else NextIndex(Advance(i, k - 1))
  }

  /** Stepping forward `k` times lands on `(i + k) mod N`; in particular
      `N` steps bring the carousel back to where it started. */
  lemma {:induction false} AdvanceIsModular(i: nat, k: nat)
    requires i < N
    ensures Advance(i, k) == (i + k) % N
    ensures k == N ==> Advance(i, k) == i
  {
    if k > 0 {
      AdvanceIsModular(i, k - 1);
      assert Advance(i, k) == ((i + k - 1) % N + 1) % N;
    }
  }

  /** Stepping once and then `k - 1` times is stepping `k` times. */
  lemma {:induction false} AdvanceFirst(i: nat, k: nat)
    requires i < N && k > 0
    ensures Advance(NextIndex(i), k - 1) == Advance(i, k)
    decreases k
  {
    if k > 1 {
      AdvanceFirst(i, k - 1);
    }
  }

  /** The number of flags that are set. */
  function Count(flags: seq<bool>): (n: nat)
    ensures n <= |flags|
  {
    if flags == [] then 0 else (if flags[0] then 1 else 0) + Count(flags[1..])
  }

  /** Exactly one flag is set, and it is the one at `i`. */
  predicate ActiveExactlyAt(flags: seq<bool>, i: nat)
  {
    i < |flags| && flags[i] && Count(flags) == 1
  }

  /** The flags as created: the element at index 0 gets the `active` class,
      the others do not. */
  function InitialFlags(): (flags: seq<bool>)
    ensures |flags| == N
  {
    seq(N, j => j == 0)
  }

  lemma InitialFlagsActive()
    ensures ActiveExactlyAt(InitialFlags(), 0)
  {
  }

  /** Setting one flag changes the count by exactly that flag's change. */
  lemma {:induction false} CountUpdate(flags: seq<bool>, j: nat, v: bool)
    requires j < |flags|
    ensures Count(flags[j := v]) == Count(flags) - (if flags[j] then 1 else 0) + (if v then 1 else 0)
  {
    if j == 0 {
      assert flags[j := v][1..] == flags[1..];
    } else {
      CountUpdate(flags[1..], j - 1, v);
      assert flags[j := v][1..] == flags[1..][j - 1 := v];
    }
  }

  /** No flag is set exactly when the count is zero. */
  lemma {:induction false} CountZero(flags: seq<bool>)
    ensures Count(flags) == 0 <==> forall j :: 0 <= j < |flags| ==> !flags[j]
  {
    if flags != [] {
      CountZero(flags[1..]);
      if Count(flags) == 0 {
        forall j | 0 <= j < |flags| ensures !flags[j] {
          if j > 0 { assert flags[j] == flags[1..][j - 1]; }
        }
      }
    }
  }

  /** "Exactly one active, at `i`" said point by point: a flag is set
      if and only if it is the one at `i`. */
  lemma ActiveExactlyAtPointwise(flags: seq<bool>, i: nat)
    requires i < |flags|
    ensures ActiveExactlyAt(flags, i) <==> forall j :: 0 <= j < |flags| ==> (flags[j] <==> j == i)
  {
    var cleared := flags[i := false];
    CountUpdate(flags, i, false);
    CountZero(cleared);
    if forall j :: 0 <= j < |flags| ==> (flags[j] <==> j == i) {
      forall j | 0 <= j < |cleared| ensures !cleared[j] {
        if j != i { assert cleared[j] == flags[j]; }
      }
      assert Count(cleared) == 0;
    }
    if ActiveExactlyAt(flags, i) {
      forall j | 0 <= j < |flags| ensures flags[j] <==> j == i {
        if j != i { assert cleared[j] == flags[j]; }
      }
    }
  }

  /** What `goToSlide` does to one list of flags: clearing the flag at
      `from` and setting the one at `to` moves the single active flag. */
  lemma MoveActive(flags: seq<bool>, from: nat, to: nat)
    requires ActiveExactlyAt(flags, from) && to < |flags|
    ensures ActiveExactlyAt(flags[from := false][to := true], to)
  {
    ActiveExactlyAtPointwise(flags, from);
    var moved := flags[from := false][to := true];
    assert forall j :: 0 <= j < |moved| ==> (moved[j] <==> j == to);
    ActiveExactlyAtPointwise(moved, to);
  }
}
