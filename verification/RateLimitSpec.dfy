/** The fixed-window quota store as a function of its state, and the history of its calls. */
module RateLimitSpec {
  import opened Common

  datatype RateLimit = RateLimit(maxCalls: nat, windowSeconds: nat)

  datatype RateLimitKey = RateLimitKey(
    policyDigest: string,
    ruleIndex: nat,
    agent: Option<string>,
    user: Option<string>,
    tool: Option<string>)

  datatype Bucket = Bucket(start: nat, count: nat)

  type Buckets = map<RateLimitKey, Bucket>

  datatype Store = Store(lastNow: Option<nat>, buckets: Buckets, maxKeys: nat)

  datatype Answer = Allowed | Exhausted | StateError

  datatype Call = Call(key: RateLimitKey, limit: RateLimit, now: nat)

  function WindowStart(now: nat, windowSeconds: nat): (start: nat)
    requires windowSeconds > 0
    ensures start <= now < start + windowSeconds
  {
    now - now % windowSeconds
  }

  predicate Regresses(s: Store, now: nat) {
    s.lastNow.Some? && now < s.lastNow.value
  }

  /** The buckets that an eviction keeps: those of the caller's own window start. */
  function Retain(buckets: Buckets, start: nat): Buckets {
    map key | key in buckets && buckets[key].start == start :: buckets[key]
  }

  /** The slots of the window beginning at `start` that the store remembers as used. */
  function Used(buckets: Buckets, key: RateLimitKey, start: nat): nat {
    if key in buckets && buckets[key].start == start then buckets[key].count else 0
  }

  predicate MustEvict(s: Store, key: RateLimitKey) {
    key !in s.buckets && |s.buckets| >= s.maxKeys
  }

  /** One locked call of the store. */
  function Consume(s: Store, c: Call): (Store, Answer)
    requires c.limit.windowSeconds > 0
  {
    if Regresses(s, c.now) then (s, StateError)
    else
      var start := WindowStart(c.now, c.limit.windowSeconds);
      var count := Used(s.buckets, c.key, start);
      if count >= c.limit.maxCalls then
        (Store(Some(c.now), s.buckets[c.key := Bucket(start, count)], s.maxKeys), Exhausted)
      else
        var buckets := if MustEvict(s, c.key) then Retain(s.buckets, start) else s.buckets;
        if c.key !in buckets && |buckets| >= s.maxKeys then (Store(Some(c.now), buckets, s.maxKeys), StateError)
        else (Store(Some(c.now), buckets[c.key := Bucket(start, count + 1)], s.maxKeys), Allowed)
  }

  predicate ValidCalls(calls: seq<Call>) {
    forall i :: 0 <= i < |calls| ==> calls[i].limit.windowSeconds > 0
  }

  /** A store that has seen nothing. */
  function Empty(maxKeys: nat): Store {
    Store(None, map[], maxKeys)
  }

  function After(maxKeys: nat, calls: seq<Call>): Store
    requires ValidCalls(calls)
    decreases |calls|
  {
    if calls == [] then Empty(maxKeys)
    else Consume(After(maxKeys, calls[..|calls| - 1]), calls[|calls| - 1]).0
  }

  /** The answer that the last of `calls` got. */
  function LastAnswer(maxKeys: nat, calls: seq<Call>): Answer
    requires calls != [] && ValidCalls(calls)
  {
    Consume(After(maxKeys, calls[..|calls| - 1]), calls[|calls| - 1]).1
  }

  /** How many calls for `key` with a clock reading in [`from`, `from` + `length`) were allowed. */
  function AllowedDuring(maxKeys: nat, calls: seq<Call>, key: RateLimitKey, from: nat, length: nat): nat
    requires ValidCalls(calls)
    decreases |calls|
  {
    if calls == [] then 0
    else
      var last := calls[|calls| - 1];
      var counts := last.key == key && from <= last.now < from + length && LastAnswer(maxKeys, calls) == Allowed;
      AllowedDuring(maxKeys, calls[..|calls| - 1], key, from, length) + if counts then 1 else 0
  }

  /** How many calls in the window that begins at `start` removed the bucket that counts it for `key`. */
  function Evictions(maxKeys: nat, calls: seq<Call>, key: RateLimitKey, start: nat, length: nat): nat
    requires ValidCalls(calls)
    decreases |calls|
  {
    if calls == [] then 0
    else
      var init, now := calls[..|calls| - 1], calls[|calls| - 1].now;
      var before, after := After(maxKeys, init).buckets, After(maxKeys, calls).buckets;
      var evicted := key in before && key !in after && before[key].start == start && start <= now < start + length;
      Evictions(maxKeys, init, key, start, length) + if evicted then 1 else 0
  }

  /** A limit as a policy can set it. */
  type Limit = l: RateLimit | l.maxCalls >= 1 && l.windowSeconds >= 1 witness RateLimit(1, 1)

  /** Every call carries the limit of its key, which names one rule of one policy. */
  ghost predicate LimitsPerKey(calls: seq<Call>, limits: RateLimitKey -> Limit) {
    forall i :: 0 <= i < |calls| ==> calls[i].limit == limits(calls[i].key)
  }
}
