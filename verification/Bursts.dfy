/** How many calls an arbitrary interval of time can see allowed. */
module Bursts {
  import opened RateLimitSpec
  import opened Quota

  lemma {:induction false} AllowedSplits(maxKeys: nat, calls: seq<Call>, key: RateLimitKey, from: nat, a: nat, b: nat)
    requires ValidCalls(calls)
    ensures AllowedDuring(maxKeys, calls, key, from, a + b)
         == AllowedDuring(maxKeys, calls, key, from, a) + AllowedDuring(maxKeys, calls, key, from + a, b)
    decreases |calls|
  {
    if calls != [] {
      AllowedSplits(maxKeys, calls[..|calls| - 1], key, from, a, b);
    }
  }

  /** `n` times `x`, by addition. */
  function Times(n: nat, x: nat): nat {
    if n == 0 then 0 else Times(n - 1, x) + x
  }

  lemma {:induction false} TimesIsProduct(n: nat, x: nat)
    ensures Times(n, x) == n * x
  {
    if n > 0 {
      TimesIsProduct(n - 1, x);
      assert n * x == (n - 1) * x + x;
    }
  }

  lemma WindowOfMultiple(start: nat, n: nat, w: nat)
    requires w > 0 && WindowStart(start, w) == start
    ensures WindowStart(start + Times(n, w), w) == start + Times(n, w)
  {
    TimesIsProduct(n, w);
    var q := start / w;
    assert start == q * w;
    assert start + n * w == (q + n) * w;
    MultipleHasNoRemainder(q + n, w);
  }

  lemma MultipleHasNoRemainder(q: nat, w: nat)
    requires w > 0
    ensures q * w % w == 0
  {
    var d := q * w / w;
    assert q * w == d * w + q * w % w;
    if d < q {
      MultiplesApart(d, q, w);
    } else if q < d {
      MultiplesApart(q, d, w);
    }
  }

  lemma OneMoreWindow(
    maxKeys: nat, calls: seq<Call>, limits: RateLimitKey -> Limit, key: RateLimitKey, start: nat, past: nat)
    requires ValidCalls(calls) && LimitsPerKey(calls, limits) && NoLiveEviction(maxKeys, calls, limits)
    requires WindowStart(start + past, limits(key).windowSeconds) == start + past
    ensures AllowedDuring(maxKeys, calls, key, start, past + limits(key).windowSeconds)
         <= AllowedDuring(maxKeys, calls, key, start, past) + limits(key).maxCalls
  {
    QuotaHolds(maxKeys, calls, limits, key, start + past);
    AllowedSplits(maxKeys, calls, key, start, past, limits(key).windowSeconds);
  }

  /** `n` consecutive whole windows let at most `n` quotas through. */
  lemma {:induction false} ConsecutiveWindows(
    maxKeys: nat, calls: seq<Call>, limits: RateLimitKey -> Limit, key: RateLimitKey, start: nat, n: nat)
    requires ValidCalls(calls) && LimitsPerKey(calls, limits) && NoLiveEviction(maxKeys, calls, limits)
    requires WindowStart(start, limits(key).windowSeconds) == start
    ensures AllowedDuring(maxKeys, calls, key, start, Times(n, limits(key).windowSeconds)) <= Times(n, limits(key).maxCalls)
    decreases n
  {
    if n == 0 {
      NothingInNoTime(maxKeys, calls, key, start);
    } else {
      ConsecutiveWindows(maxKeys, calls, limits, key, start, n - 1);
      WindowOfMultiple(start, n - 1, limits(key).windowSeconds);
      OneMoreWindow(maxKeys, calls, limits, key, start, Times(n - 1, limits(key).windowSeconds));
    }
  }

  lemma {:induction false} NothingInNoTime(maxKeys: nat, calls: seq<Call>, key: RateLimitKey, from: nat)
    requires ValidCalls(calls)
    ensures AllowedDuring(maxKeys, calls, key, from, 0) == 0
    decreases |calls|
  {
    if calls != [] {
      NothingInNoTime(maxKeys, calls[..|calls| - 1], key, from);
    }
  }

  function CeilingOf(length: nat, w: nat): (n: nat)
    requires w > 0
    ensures length <= n * w < length + w
  {
    var n := (length + w - 1) / w;
    assert length + w - 1 == n * w + (length + w - 1) % w;
    n
  }

  lemma CeilingOfOne(w: nat)
    requires w > 0
    ensures CeilingOf(w, w) == 1
  {
    assert w + w - 1 == w + (w - 1) && (w - 1) / w == 0;
    assert (w + w - 1) / w == 1;
  }

  /** The window that contains `from` and the next ones, as many as `length` spans, cover the interval. */
  lemma WindowsCover(from: nat, length: nat, w: nat)
    requires w > 0
    ensures WindowStart(from, w) <= from && WindowStart(WindowStart(from, w), w) == WindowStart(from, w)
    ensures from + length <= WindowStart(from, w) + Times(CeilingOf(length, w) + 1, w)
  {
    TimesIsProduct(CeilingOf(length, w), w);
    assert WindowStart(from, w) == from / w * w;
    MultipleHasNoRemainder(from / w, w);
  }

  lemma EnclosedAllowsFewer(maxKeys: nat, calls: seq<Call>, key: RateLimitKey, from: nat, length: nat, start: nat, span: nat)
    requires ValidCalls(calls) && start <= from && from + length <= start + span
    ensures AllowedDuring(maxKeys, calls, key, from, length) <= AllowedDuring(maxKeys, calls, key, start, span)
  {
    var before, rest := from - start, span - (from - start) - length;
    AllowedSplits(maxKeys, calls, key, start, before, length + rest);
    AllowedSplits(maxKeys, calls, key, from, length, rest);
  }

  /**
   The burst bound: an interval of `length` seconds sees at most one quota for
   each window length it spans, rounded up, and one more.
   */
  lemma BurstBound(maxKeys: nat, calls: seq<Call>, limits: RateLimitKey -> Limit, key: RateLimitKey, from: nat, length: nat)
    requires ValidCalls(calls) && LimitsPerKey(calls, limits) && NoLiveEviction(maxKeys, calls, limits)
    ensures AllowedDuring(maxKeys, calls, key, from, length)
         <= (CeilingOf(length, limits(key).windowSeconds) + 1) * limits(key).maxCalls
  {
    var w := limits(key).windowSeconds;
    var n := CeilingOf(length, w) + 1;
    WindowsCover(from, length, w);
    ConsecutiveWindows(maxKeys, calls, limits, key, WindowStart(from, w), n);
    EnclosedAllowsFewer(maxKeys, calls, key, from, length, WindowStart(from, w), Times(n, w));
    TimesIsProduct(n, limits(key).maxCalls);
  }

  /** In particular, any interval of one window length sees at most twice the quota. */
  lemma TwiceTheQuota(maxKeys: nat, calls: seq<Call>, limits: RateLimitKey -> Limit, key: RateLimitKey, from: nat)
    requires ValidCalls(calls) && LimitsPerKey(calls, limits) && NoLiveEviction(maxKeys, calls, limits)
    ensures AllowedDuring(maxKeys, calls, key, from, limits(key).windowSeconds) <= 2 * limits(key).maxCalls
  {
    var w := limits(key).windowSeconds;
    BurstBound(maxKeys, calls, limits, key, from, w);
    CeilingOfOne(w);
  }
}
