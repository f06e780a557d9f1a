/** The Konami-code matcher of `initEasterEgg`: a counter into a fixed
    ten-key sequence that advances on the expected key, goes back to 0 on
    any other key, and fires and resets when the tenth key arrives. */
module EasterEgg {

  const KonamiCode: seq<string> := [
    "ArrowUp", "ArrowUp", "ArrowDown", "ArrowDown",
    "ArrowLeft", "ArrowRight", "ArrowLeft", "ArrowRight",
    "b", "a"
  ]

  /** The counter after a key, and whether that key activated the egg. */
  datatype Match = Match(index: nat, activated: bool)

  /** One keydown. */
  function KonamiStep(index: nat, key: string): (r: Match)
    requires index < |KonamiCode|
    ensures r.index < |KonamiCode|
    ensures r.activated ==> r.index == 0
  {
    if key == KonamiCode[index] then
      if index + 1 == |KonamiCode| then Match(0, true) else Match(index + 1, false)
    else
      Match(0, false)
  }

  /** The counter after the page has seen `keys`, and whether the last of
      them activated the egg. */
  function Feed(keys: seq<string>): (r: Match)
    ensures r.index < |KonamiCode|
  {
    if keys == [] then Match(0, false)
    else KonamiStep(Feed(keys[..|keys| - 1]).index, keys[|keys| - 1])
  }

  /** The last `index` keys typed are the first `index` keys of the code. */
  predicate Tracks(index: nat, typed: seq<string>)
  {
    index <= |typed| && index <= |KonamiCode| && typed[|typed| - index..] == KonamiCode[..index]
  }

  /** A key either extends the matched prefix by one or resets the counter,
      and when it activates, the last ten keys typed are the code. */
  lemma StepTracks(index: nat, typed: seq<string>, key: string)
    requires index < |KonamiCode| && Tracks(index, typed)
    ensures key != KonamiCode[index] ==> KonamiStep(index, key) == Match(0, false)
    ensures key == KonamiCode[index] && index + 1 < |KonamiCode| ==> KonamiStep(index, key) == Match(index + 1, false)
    ensures key == KonamiCode[index] && index + 1 == |KonamiCode| ==> KonamiStep(index, key) == Match(0, true)
    ensures Tracks(KonamiStep(index, key).index, typed + [key])
    ensures KonamiStep(index, key).activated ==>
              |typed| + 1 >= |KonamiCode| && (typed + [key])[|typed| + 1 - |KonamiCode|..] == KonamiCode
  {
  }

  /** Whatever has been typed, the counter is the length of a prefix of the
      code that the latest keys spell, and an activation means the last ten
      keys were exactly the code. */
  lemma {:induction false} FeedTracks(keys: seq<string>)
    ensures Tracks(Feed(keys).index, keys)
    ensures Feed(keys).activated ==> |keys| >= |KonamiCode| && keys[|keys| - |KonamiCode|..] == KonamiCode
    decreases |keys|
  {
    if keys != [] {
      var init := keys[..|keys| - 1];
      FeedTracks(init);
      assert init + [keys[|keys| - 1]] == keys;
      StepTracks(Feed(init).index, init, keys[|keys| - 1]);
    }
  }

  /** Feeding one more key is one more `KonamiStep`. */
  lemma FeedSnoc(keys: seq<string>, key: string)
    ensures Feed(keys + [key]) == KonamiStep(Feed(keys).index, key)
  {
    assert (keys + [key])[..|keys + [key]| - 1] == keys;
  }

  /** Whenever the counter is at 0 (on a fresh page, after an activation or
      after a mismatch), typing the code advances it one key at a time
      without firing, and the tenth key fires and resets it. */
  lemma {:induction false} CodePrefix(p: seq<string>, k: nat)
    requires Feed(p).index == 0 && 1 <= k <= |KonamiCode|
    ensures Feed(p + KonamiCode[..k]) == if k == |KonamiCode| then Match(0, true) else Match(k, false)
    decreases k
  {
    var prefix := p + KonamiCode[..k - 1];
    assert p + KonamiCode[..k] == prefix + [KonamiCode[k - 1]];
    if k > 1 {
      CodePrefix(p, k - 1);
    } else {
      assert prefix == p;
    }
    FeedSnoc(prefix, KonamiCode[k - 1]);
  }

  /** A key that does not match resets the counter to 0, even an ArrowUp
      that could begin the code again: so "ArrowUp" followed by the code
      does not fire, although its last ten keys are the code. */
  lemma ExtraArrowUpDoesNotFire()
    ensures (["ArrowUp"] + KonamiCode)[1..] == KonamiCode
    ensures Feed(["ArrowUp"] + KonamiCode) == Match(0, false)
  {
    var keys := ["ArrowUp"] + KonamiCode;
    assert keys[..3] == ["ArrowUp", "ArrowUp", "ArrowUp"];
    assert keys[..3][..2] == [] + KonamiCode[..2];
    CodePrefix([], 2);
    assert Feed(keys[..3]) == Match(0, false);
    assert forall j :: 3 <= j < |keys| ==> keys[j] != KonamiCode[0];
    var k := 3;
    while k < |keys|
      invariant 3 <= k <= |keys|
      invariant Feed(keys[..k]) == Match(0, false)
    {
      assert keys[..k + 1] == keys[..k] + [keys[k]];
      FeedSnoc(keys[..k], keys[k]);
      k := k + 1;
    }
    assert keys[..|keys|] == keys;
  }

  /** The matcher as the source keeps it: the closure variable
      `konamiIndex`, and how many times the egg was activated. */
  class KonamiMatcher {
    var konamiIndex: nat
    var activations: nat
    /** Every key seen since `initEasterEgg`. */
    ghost var typed: seq<string>

    ghost predicate Valid()
      reads this
    {
      konamiIndex < |KonamiCode| && konamiIndex == Feed(typed).index
    }

    constructor ()
      ensures Valid() && konamiIndex == 0 && activations == 0 && typed == []
    {
      konamiIndex, activations, typed := 0, 0, [];
    }

    /** The keydown handler. */
    method KeyDown(key: string) returns (activated: bool)
      requires Valid()
      modifies this
      ensures Valid() && typed == old(typed) + [key]
      ensures Match(konamiIndex, activated) == KonamiStep(old(konamiIndex), key)
      ensures activated == Feed(typed).activated
      ensures activations == old(activations) + (if activated then 1 else 0)
      ensures activated ==> |typed| >= |KonamiCode| && typed[|typed| - |KonamiCode|..] == KonamiCode
    {
      activated := false;
      if key == KonamiCode[konamiIndex] {
        konamiIndex := konamiIndex + 1;
        if konamiIndex == |KonamiCode| {
          activated := true;
          activations := activations + 1;
          konamiIndex := 0;
        }
      } else {
        konamiIndex := 0;
      }
      typed := typed + [key];
      assert typed[..|typed| - 1] == old(typed);
      FeedTracks(typed);
    }
  }
}
