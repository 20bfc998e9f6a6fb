/**
 * The two transforms of `TextConverter` that draw random numbers:
 * `scramble_text` and `zalgo_text`. The generator is not modelled; the
 * numbers it would draw are passed in, so every possible output is the
 * value of the function for some choice of numbers.
 */
module Randomised {

  /** Numbers that `random.sample` may draw for a population of n:
      the i-th one is below n - i. */
  predicate ValidPicks(picks: seq<nat>, n: nat) {
    |picks| == n && forall i :: 0 <= i < n ==> picks[i] < n - i
  }

  /** The pool left after drawing position j: the last element of the pool
      moves into the hole, as `random.sample` does. */
  function Remaining(pool: string, j: nat): (rest: string)
    requires j < |pool|
    ensures |rest| == |pool| - 1
    ensures multiset(rest) + multiset{pool[j]} == multiset(pool)
  {
    var last := |pool| - 1;
    assert pool == pool[..last] + [pool[last]];
    if j < last then pool[..last][j := pool[last]] else pool[..last]
  }

  /** `scramble_text`: `random.sample(text, len(text))` joined back into a
      string. A full-length sample always takes the pool route of
      `random.sample`: draw a position below the pool's size, take its
      character, and refill the hole from the end of the pool. */
  function Scramble(pool: string, picks: seq<nat>): (r: string)
    requires ValidPicks(picks, |pool|)
    ensures |r| == |pool|
    ensures multiset(r) == multiset(pool)
    decreases |pool|
  {
    if pool == [] then []
    else
      var j := picks[0];
      [pool[j]] + Scramble(Remaining(pool, j), picks[1..])
  }

  /** Every rearrangement of the text is some outcome of `scramble_text`:
      whatever arrangement is wanted, there are numbers that produce it. */
  lemma {:induction false} ScrambleReachesEveryArrangement(pool: string, r: string)
    requires multiset(r) == multiset(pool)
    ensures exists picks :: ValidPicks(picks, |pool|) && Scramble(pool, picks) == r
    decreases |pool|
  {
    if pool == [] {
      assert |r| == |multiset(r)| == 0;
      assert ValidPicks([], 0) && Scramble(pool, []) == r;
    } else {
      var j := DrawFirst(pool, r);
      var rest := Remaining(pool, j);
      ScrambleReachesEveryArrangement(rest, r[1..]);
      var tail :| ValidPicks(tail, |rest|) && Scramble(rest, tail) == r[1..];
      ScrambleCons(pool, j, tail);
      assert [r[0]] + r[1..] == r;
    }
  }

  /** The position in the pool that the first character of an arrangement
      can be drawn from; the rest of the arrangement is then an arrangement
      of the remaining pool. */
  lemma DrawFirst(pool: string, r: string) returns (j: nat)
    requires pool != [] && multiset(r) == multiset(pool)
    ensures r != [] && j < |pool| && pool[j] == r[0]
    ensures multiset(r[1..]) == multiset(Remaining(pool, j))
  {
    assert |r| == |multiset(r)| == |pool|;
    assert r[0] in multiset(pool) by {
      assert r[0] in multiset(r);
    }
    j :| 0 <= j < |pool| && pool[j] == r[0];
    assert r == [r[0]] + r[1..];
    assert multiset(r[1..]) == multiset(r) - multiset{r[0]};
    assert multiset(Remaining(pool, j)) == multiset(pool) - multiset{pool[j]};
  }

  lemma ScrambleCons(pool: string, j: nat, tail: seq<nat>)
    requires j < |pool| && ValidPicks(tail, |pool| - 1)
    ensures ValidPicks([j] + tail, |pool|)
    ensures Scramble(pool, [j] + tail) == [pool[j]] + Scramble(Remaining(pool, j), tail)
  {
    assert ([j] + tail)[1..] == tail;
  }

  /** `zalgo_chars`: fifty combining diacritical marks. U+0308 and U+0313
      each occur twice, so they are drawn twice as often as the others. */
  const ZalgoMarks: seq<char> :=
    ['\U{030D}', '\U{030E}', '\U{0304}', '\U{0305}', '\U{033F}', '\U{0311}', '\U{0306}', '\U{0310}', '\U{0352}', '\U{0357}'] +
    ['\U{0351}', '\U{0307}', '\U{0308}', '\U{030A}', '\U{0342}', '\U{0313}', '\U{0308}', '\U{034A}', '\U{034B}', '\U{034C}'] +
    ['\U{0303}', '\U{0302}', '\U{030C}', '\U{0350}', '\U{0300}', '\U{0301}', '\U{030B}', '\U{030F}', '\U{0312}', '\U{0313}'] +
    ['\U{0314}', '\U{033D}', '\U{0309}', '\U{0363}', '\U{0364}', '\U{0365}', '\U{0366}', '\U{0367}', '\U{0368}', '\U{0369}'] +
    ['\U{036A}', '\U{036B}', '\U{036C}', '\U{036D}', '\U{036E}', '\U{036F}', '\U{033E}', '\U{035B}', '\U{0346}', '\U{031A}']

  /** Indices into `zalgo_chars`, one per character of the text, as
      `random.choice` would draw them */
  predicate ValidMarks(picks: seq<nat>, n: nat) {
    |picks| == n && forall i :: 0 <= i < n ==> picks[i] < |ZalgoMarks|
  }

  /** `zalgo_text`: every character is preceded by a randomly chosen mark.
      The result is twice as long; even positions hold the chosen marks and
      odd positions the characters of the text, in order. */
  function Zalgo(text: string, picks: seq<nat>): (r: string)
    requires ValidMarks(picks, |text|)
    ensures |r| == 2 * |text|
    ensures forall i :: 0 <= i < |text| ==> r[2 * i] == ZalgoMarks[picks[i]] && r[2 * i + 1] == text[i]
  {
    if text == [] then []
    else
      var rest := Zalgo(text[1..], picks[1..]);
      assert forall i :: 1 <= i < |text| ==> rest[2 * i - 1] == text[i] && rest[2 * i - 2] == ZalgoMarks[picks[i]] by {
        forall i | 1 <= i < |text|
          ensures rest[2 * (i - 1) + 1] == text[i] && rest[2 * (i - 1)] == ZalgoMarks[picks[i]]
        {
          assert text[1..][i - 1] == text[i] && picks[1..][i - 1] == picks[i];
        }
      }
      [ZalgoMarks[picks[0]], text[0]] + rest
  }

  /** The characters at odd positions */
  function OddPositions(s: string): (r: string)
    ensures |r| == |s| / 2
  {
    seq(|s| / 2, i requires 0 <= i < |s| / 2 => s[2 * i + 1])
  }

  /** Dropping the marks gives the text back. */
  lemma ZalgoRoundTrip(text: string, picks: seq<nat>)
    requires ValidMarks(picks, |text|)
    ensures OddPositions(Zalgo(text, picks)) == text
  {
  }

  /** Every mark `zalgo_text` inserts is one of the combining diacritical
      marks U+0300..U+036F, which attach to the character after them. */
  lemma ZalgoMarksCombine(text: string, picks: seq<nat>)
    requires ValidMarks(picks, |text|)
    ensures forall i :: 0 <= i < |text| ==> '\U{0300}' <= Zalgo(text, picks)[2 * i] <= '\U{036F}'
  {
    forall i | 0 <= i < |text|
      ensures '\U{0300}' <= Zalgo(text, picks)[2 * i] <= '\U{036F}'
    {
      MarksAreCombining(picks[i]);
    }
  }

  lemma MarksAreCombining(k: nat)
    requires k < |ZalgoMarks|
    ensures '\U{0300}' <= ZalgoMarks[k] <= '\U{036F}'
  {
    if k < 10 {
      assert k == 0 || k == 1 || k == 2 || k == 3 || k == 4 || k == 5 || k == 6 || k == 7 || k == 8 || k == 9;
    } else if k < 20 {
      assert k == 10 || k == 11 || k == 12 || k == 13 || k == 14 || k == 15 || k == 16 || k == 17 || k == 18 || k == 19;
    } else if k < 30 {
      assert k == 20 || k == 21 || k == 22 || k == 23 || k == 24 || k == 25 || k == 26 || k == 27 || k == 28 || k == 29;
    } else if k < 40 {
      assert k == 30 || k == 31 || k == 32 || k == 33 || k == 34 || k == 35 || k == 36 || k == 37 || k == 38 || k == 39;
    } else if k < 50 {
      assert k == 40 || k == 41 || k == 42 || k == 43 || k == 44 || k == 45 || k == 46 || k == 47 || k == 48 || k == 49;
    }
  }
}
