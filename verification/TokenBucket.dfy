/**
 The relay's token bucket, over reals: rounding of the source's doubles is not modelled.

 `times[0]` is when the bucket was made and `times[1..]` are the calls of `take`, so call `j`
 is the `j`-th one.  Milliseconds, and `rate` tokens a second, as in the source.
 */
module TokenBuckets {

  datatype Policy = Policy(rate: real, burst: real)

  datatype Bucket = Bucket(tokens: real, updatedAt: real)

  function Min(a: real, b: real): real {
    if a <= b then a else b
  }

  /** Tokens earned between two instants. */
  function Earned(p: Policy, from: real, to: real): real {
    (to - from) / 1000.0 * p.rate
  }

  function Refilled(p: Policy, b: Bucket, now: real): real {
    Min(p.burst, b.tokens + Earned(p, b.updatedAt, now))
  }

  /** `take`: the new bucket, and whether the frame fits. */
  function Take(p: Policy, b: Bucket, now: real): (Bucket, bool) {
    var tokens := Refilled(p, b, now);
    if tokens < 1.0 then (Bucket(tokens, now), false) else (Bucket(tokens - 1.0, now), true)
  }

  /** The bucket after all calls. */
  function After(p: Policy, times: seq<real>): Bucket
    requires |times| > 0
  {
    if |times| == 1 then Bucket(p.burst, times[0])
    else Take(p, After(p, times[..|times| - 1]), times[|times| - 1]).0
  }

  predicate Granted(p: Policy, times: seq<real>, j: nat)
    requires j < |times|
  {
    j > 0 && Take(p, After(p, times[..j]), times[j]).1
  }

  /** Calls granted among `i .. j`, without `j`. */
  function Grants(p: Policy, times: seq<real>, i: nat, j: nat): nat
    requires i <= j <= |times|
  {
    if i == j then 0 else Grants(p, times, i, j - 1) + if Granted(p, times, j - 1) then 1 else 0
  }

  /** Tokens on hand when call `j` decides. */
  function Available(p: Policy, times: seq<real>, j: nat): real
    requires j < |times|
  {
    if j == 0 then p.burst else Refilled(p, After(p, times[..j]), times[j])
  }

  /** What the window opened by call `i` still allows when call `j` decides. */
  function Allowance(p: Policy, times: seq<real>, i: nat, j: nat): real
    requires i <= j < |times|
  {
    p.burst + Earned(p, times[i], times[j]) - Grants(p, times, i, j) as real
  }

  lemma AvailableStep(p: Policy, times: seq<real>, j: nat)
    requires j + 1 < |times|
    ensures Available(p, times, j + 1) ==
            Min(p.burst, Available(p, times, j) - (if Granted(p, times, j) then 1.0 else 0.0)
              + Earned(p, times[j], times[j + 1]))
  {
    assert times[..j + 1][..j] == times[..j];
  }

  /** The tokens on hand are exactly the least allowance over all windows that end now. */
  lemma {:induction false} AvailableIsLeastAllowance(p: Policy, times: seq<real>, j: nat)
    requires j < |times|
    ensures forall i | 0 <= i <= j :: Available(p, times, j) <= Allowance(p, times, i, j)
    ensures exists i :: 0 <= i <= j && Available(p, times, j) == Allowance(p, times, i, j)
  {
    if j == 0 {
      assert Available(p, times, 0) == Allowance(p, times, 0, 0);
    } else {
      AvailableIsLeastAllowance(p, times, j - 1);
      AvailableStep(p, times, j - 1);
      assert Allowance(p, times, j, j) == p.burst;
      forall i | 0 <= i < j
        ensures Allowance(p, times, i, j) == Allowance(p, times, i, j - 1)
                  - (if Granted(p, times, j - 1) then 1.0 else 0.0) + Earned(p, times[j - 1], times[j])
      {
      }
      var least :| 0 <= least <= j - 1 && Available(p, times, j - 1) == Allowance(p, times, least, j - 1);
      var witness_ := if Available(p, times, j) == p.burst then j else least;
      assert Available(p, times, j) == Allowance(p, times, witness_, j);
    }
  }

  /** A call is granted exactly when every window ending now still has room for it. */
  lemma GrantedExactlyWhenAllWindowsAllow(p: Policy, times: seq<real>, j: nat)
    requires 0 < j < |times|
    ensures Granted(p, times, j) <==>
            forall i | 0 <= i <= j :: Grants(p, times, i, j) as real + 1.0 <= p.burst + Earned(p, times[i], times[j])
  {
    AvailableIsLeastAllowance(p, times, j);
    assert Granted(p, times, j) <==> Available(p, times, j) >= 1.0;
    var least :| 0 <= least <= j && Available(p, times, j) == Allowance(p, times, least, j);
    if !Granted(p, times, j) {
      assert Grants(p, times, least, j) as real + 1.0 > p.burst + Earned(p, times[least], times[j]);
    } else {
      forall i | 0 <= i <= j ensures Grants(p, times, i, j) as real + 1.0 <= p.burst + Earned(p, times[i], times[j]) {
        assert Available(p, times, j) <= Allowance(p, times, i, j);
      }
    }
  }

  predicate Clocklike(times: seq<real>) {
    forall i, j | 0 <= i < j < |times| :: times[i] <= times[j]
  }

  lemma EarnedMonotone(p: Policy, from: real, to: real, later: real)
    requires p.rate >= 0.0 && to <= later
    ensures Earned(p, from, to) <= Earned(p, from, later)
  {
  }

  /** Under a clock that never runs back, no window grants more than the burst and what it earned. */
  lemma {:induction false} WindowBound(p: Policy, times: seq<real>, i: nat, j: nat)
    requires i <= j < |times| && Clocklike(times) && p.rate >= 0.0 && p.burst >= 0.0
    ensures Grants(p, times, i, j + 1) as real <= p.burst + Earned(p, times[i], times[j])
  {
    if Granted(p, times, j) {
      GrantedExactlyWhenAllWindowsAllow(p, times, j);
    } else if i == j {
      assert Grants(p, times, i, j + 1) == Grants(p, times, i, j) == 0;
    } else {
      WindowBound(p, times, i, j - 1);
      EarnedMonotone(p, times[i], times[j - 1], times[j]);
    }
  }

  /** The class of the source, with its call history. */
  class TokenBucket {
    var tokens: real
    var updatedAt: real
    const policy: Policy
    ghost var times: seq<real>

    ghost predicate Valid()
      reads this
    {
      times != [] && Bucket(tokens, updatedAt) == After(policy, times)
    }

    constructor (rate: real, burst: real, now: real)
      ensures Valid() && policy == Policy(rate, burst) && times == [now]
    {
      policy := Policy(rate, burst);
      tokens, updatedAt := burst, now;
      times := [now];
    }

    method TakeNow(now: real) returns (granted: bool)
      requires Valid()
      modifies this
      ensures Valid() && times == old(times) + [now]
      ensures granted <==> Granted(policy, times, |times| - 1)
    {
      ghost var before, calls := Bucket(tokens, updatedAt), times + [now];
      assert calls[..|calls| - 1] == times;
      assert After(policy, calls) == Take(policy, before, now).0;
      times := calls;
      tokens := Min(policy.burst, tokens + (now - updatedAt) / 1000.0 * policy.rate);
      assert tokens == Refilled(policy, before, now);
      updatedAt := now;
      if tokens < 1.0 { return false; }
      tokens := tokens - 1.0;
      granted := true;
    }
  }
}
