/**
 * `Math.random()` as the line pickers use it: each draw is a real in [0, 1), and
 * `Math.floor(Math.random() * n)` turns a draw into an index below `n`. A run of
 * the random retry loop is determined by the sequence of draws it consumes.
 */
module RandomDraws {
  import opened JsString

  /** A value `Math.random()` can return. */
  type Draw = r: real | 0.0 <= r < 1.0

  /** `Math.floor(r * n)`. */
  function Pick(r: Draw, n: nat): (i: nat)
    requires n > 0
    ensures i < n
  {
    assert 0.0 <= r * n as real < n as real by {
      assert (1.0 - r) * n as real > 0.0;
    }
    (r * n as real).Floor
  }

  /** Draw `r` lands on a segment that is not blank. */
  predicate Hits(parts: seq<string>, r: Draw)
    requires |parts| > 0
  {
    !IsBlank(parts[Pick(r, |parts|)])
  }

  /** Some draw lands on a segment that is not blank, so the retry loop stops. */
  predicate Reaches(parts: seq<string>, draws: seq<Draw>)
    requires |parts| > 0
  {
    exists k :: 0 <= k < |draws| && Hits(parts, draws[k])
  }

  /** The position of the draw at which the retry loop stops. */
  function FirstHit(parts: seq<string>, draws: seq<Draw>): (k: nat)
    requires |parts| > 0 && Reaches(parts, draws)
    ensures k < |draws| && Hits(parts, draws[k])
    ensures forall j :: 0 <= j < k ==> !Hits(parts, draws[j])
  {
    if Hits(parts, draws[0]) then 0
    else
      assert Reaches(parts, draws[1..]) by {
        var k :| 0 <= k < |draws| && Hits(parts, draws[k]);
        assert draws[1..][k - 1] == draws[k];
      }
      1 + FirstHit(parts, draws[1..])
  }

  /** The segment the retry loop settles on. */
  function RandomLine(parts: seq<string>, draws: seq<Draw>): string
    requires |parts| > 0 && Reaches(parts, draws)
  {
    parts[Pick(draws[FirstHit(parts, draws)], |parts|)]
  }

  /** Every index is reachable: the draw `i / n` selects index `i`. */
  lemma PickReachesEveryIndex(i: nat, n: nat)
    requires i < n
    ensures 0.0 <= (i as real) / (n as real) < 1.0
    ensures Pick((i as real) / (n as real), n) == i
  {
    var r := (i as real) / (n as real);
    assert r * n as real == i as real;
  }

  /**
   * When one segment is not blank, some sequence of draws stops the loop, and it stops
   * on that segment when that is the first draw.
   */
  lemma {:induction false} ReachableWhenVisible(parts: seq<string>, i: nat)
    requires i < |parts| && !IsBlank(parts[i])
    ensures var r := (i as real) / (|parts| as real);
      0.0 <= r < 1.0 && Reaches(parts, [r]) && RandomLine(parts, [r]) == parts[i]
  {
    PickReachesEveryIndex(i, |parts|);
    var r: Draw := (i as real) / (|parts| as real);
    assert Hits(parts, [r][0]);
  }
}
