/** The in-process token bucket with lazy refill, in exact arithmetic; times are milliseconds. */
module RateLimit {
  import opened Basics

  datatype Bucket = Bucket(tokens: real, updatedAt: real)

  /** `retryAfterSeconds` is None where the source computes Infinity (nothing refills). */
  datatype Answer = Answer(allowed: bool, remaining: int, retryAfterSeconds: Option<int>)

  datatype Options = Options(capacity: real, refillPerMinute: real)

  function Least(a: real, b: real): real { if a <= b then a else b }

  function Ceil(x: real): int { -(-x).Floor }

  function Earned(o: Options, from: real, to: real): real { (to - from) / 60000.0 * o.refillPerMinute }

  /** The tokens in the bucket at a time, counting what has been earned since it was last written. */
  function Level(b: Option<Bucket>, o: Options, now: real): real {
    match b
    case None => Least(o.capacity, o.capacity + Earned(o, now, now))
    case Some(e) => Least(o.capacity, e.tokens + Earned(o, e.updatedAt, now))
  }

  function Written(b: Option<Bucket>, o: Options, now: real): Bucket {
    var tokens := Level(b, o, now);
    Bucket(if tokens < 1.0 then tokens else tokens - 1.0, now)
  }

  function SecondsFor(missing: real, o: Options): int
    requires o.refillPerMinute != 0.0
  {
    var secondsPerToken := 60.0 / o.refillPerMinute;
    Ceil(missing * secondsPerToken)
  }

  function ReplyTo(tokens: real, o: Options): Answer {
    if tokens < 1.0 then
      Answer(false, 0, if o.refillPerMinute == 0.0 then None else Some(SecondsFor(1.0 - tokens, o)))
    else Answer(true, (tokens - 1.0).Floor, Some(0))
  }

  function Reply(b: Option<Bucket>, o: Options, now: real): Answer { ReplyTo(Level(b, o, now), o) }

  class Limiter {
    var buckets: map<string, Bucket>

    constructor ()
      ensures buckets == map[]
    {
      buckets := map[];
    }

    method RateLimit(key: string, o: Options, now: real) returns (r: Answer)
      modifies this
      ensures r == Reply(At(old(buckets), key), o, now)
      ensures buckets == old(buckets)[key := Written(At(old(buckets), key), o, now)]
    {
      var existing := if key in buckets then buckets[key] else Bucket(o.capacity, now);
      var elapsedMinutes := (now - existing.updatedAt) / 60000.0;
      var tokens := Least(o.capacity, existing.tokens + elapsedMinutes * o.refillPerMinute);
      assert tokens == Level(At(buckets, key), o, now) by {
        assert elapsedMinutes * o.refillPerMinute == Earned(o, existing.updatedAt, now);
      }
      if tokens < 1.0 {
        buckets := buckets[key := Bucket(tokens, now)];
        if o.refillPerMinute == 0.0 { return Answer(false, 0, None); }
        return Answer(false, 0, Some(SecondsFor(1.0 - tokens, o)));
      }
      buckets := buckets[key := Bucket(tokens - 1.0, now)];
      return Answer(true, (tokens - 1.0).Floor, Some(0));
    }
  }

  // ----- Refilling is additive in time -------------------------------------

  predicate Usable(o: Options) { o.capacity >= 0.0 && o.refillPerMinute >= 0.0 }

  predicate WrittenBy(b: Option<Bucket>, now: real) { b.Some? ==> b.value.tokens >= 0.0 && b.value.updatedAt <= now }

  lemma EarnedAddsUp(o: Options, a: real, b: real, c: real)
    ensures Earned(o, a, b) + Earned(o, b, c) == Earned(o, a, c)
    ensures Usable(o) && a <= b ==> Earned(o, a, b) >= 0.0
  {
    var x, y := (b - a) / 60000.0, (c - b) / 60000.0;
    assert (c - a) / 60000.0 == x + y;
    assert x * o.refillPerMinute + y * o.refillPerMinute == (x + y) * o.refillPerMinute;
  }

  lemma LevelGrows(b: Option<Bucket>, o: Options, now: real, later: real)
    requires Usable(o) && WrittenBy(b, now) && now <= later
    ensures 0.0 <= Level(b, o, now) <= o.capacity
    ensures Level(b, o, later) == Least(o.capacity, Level(b, o, now) + Earned(o, now, later))
  {
    EarnedAddsUp(o, now, now, later);
    EarnedAddsUp(o, now, later, later);
    if b.Some? {
      EarnedAddsUp(o, b.value.updatedAt, now, later);
      EarnedAddsUp(o, b.value.updatedAt, now, now);
    }
  }

  // ----- How many requests any window allows --------------------------------

  datatype Call = Call(key: string, options: Options, now: real)

  type Calls = seq<Call>

  /** How many of these calls under `key` are allowed, starting from these buckets. */
  function AllowedCalls(buckets: map<string, Bucket>, calls: Calls, key: string): nat
    decreases |calls|
  {
    if calls == [] then 0
    else
      var c := calls[0];
      var b := At(buckets, c.key);
      AllowedCalls(buckets[c.key := Written(b, c.options, c.now)], calls[1..], key)
      + if c.key == key && Reply(b, c.options, c.now).allowed then 1 else 0
  }

  predicate Between(calls: Calls, from: real, to: real) {
    && from <= to
    && (forall i | 0 <= i < |calls| :: from <= calls[i].now <= to)
    && (forall i, j | 0 <= i < j < |calls| :: calls[i].now <= calls[j].now)
  }

  /** Every call under this key comes with these options; calls under other keys come with any. */
  predicate Uses(calls: Calls, key: string, o: Options) {
    forall i | 0 <= i < |calls| && calls[i].key == key :: calls[i].options == o
  }

  lemma {:induction false} AllowedWithinLevel(buckets: map<string, Bucket>, calls: Calls, o: Options, key: string, from: real, to: real)
    requires Usable(o) && Uses(calls, key, o) && Between(calls, from, to) && WrittenBy(At(buckets, key), from)
    ensures AllowedCalls(buckets, calls, key) as real <= Level(At(buckets, key), o, from) + Earned(o, from, to)
    decreases |calls|
  {
    var b := At(buckets, key);
    LevelGrows(b, o, from, to);
    EarnedAddsUp(o, from, to, to);
    if calls != [] {
      var c := calls[0];
      var next := buckets[c.key := Written(At(buckets, c.key), c.options, c.now)];
      if c.key == key {
        LevelGrows(b, o, from, c.now);
        LevelGrows(b, o, c.now, c.now);
        EarnedAddsUp(o, from, c.now, to);
        LevelAfterWriting(b, o, c.now);
        AllowedWithinLevel(next, calls[1..], o, key, c.now, to);
      } else {
        AllowedWithinLevel(next, calls[1..], o, key, from, to);
      }
    }
  }

  lemma LevelAfterWriting(b: Option<Bucket>, o: Options, now: real)
    requires Usable(o) && WrittenBy(b, now)
    ensures WrittenBy(Some(Written(b, o, now)), now)
    ensures Level(Some(Written(b, o, now)), o, now) == Level(b, o, now) - if Reply(b, o, now).allowed then 1.0 else 0.0
  {
    LevelGrows(b, o, now, now);
    assert Earned(o, now, now) == 0.0;
  }

  /**
   * Whatever other keys do and however the calls are spaced, one key is allowed
   * at most its capacity plus what refills between the two times.
   */
  lemma WindowBound(buckets: map<string, Bucket>, calls: Calls, o: Options, key: string, from: real, to: real)
    requires Usable(o) && Uses(calls, key, o) && Between(calls, from, to) && WrittenBy(At(buckets, key), from)
    ensures AllowedCalls(buckets, calls, key) as real <= o.capacity + Earned(o, from, to)
  {
    AllowedWithinLevel(buckets, calls, o, key, from, to);
    LevelGrows(At(buckets, key), o, from, from);
  }

  // ----- Lazy refill is continuous refill ------------------------------------

  /** The bucket as the source keeps it: every call writes it. */
  function Lazily(b: Option<Bucket>, times: seq<real>, o: Options): Option<Bucket>
    decreases |times|
  {
    if times == [] then b else Lazily(Some(Written(b, o, times[0])), times[1..], o)
  }

  /** The ideal bucket: only allowed calls touch it, and it refills continuously. */
  function Ideally(b: Option<Bucket>, times: seq<real>, o: Options): Option<Bucket>
    decreases |times|
  {
    if times == [] then b
    else Ideally(if Reply(b, o, times[0]).allowed then Some(Written(b, o, times[0])) else b, times[1..], o)
  }

  predicate Rising(times: seq<real>, from: real, to: real) {
    && from <= to
    && (forall i | 0 <= i < |times| :: from <= times[i] <= to)
    && (forall i, j | 0 <= i < j < |times| :: times[i] <= times[j])
  }

  /** Denied calls in between never change what a later call is told. */
  lemma {:induction false} LazyIsContinuous(b: Option<Bucket>, c: Option<Bucket>, times: seq<real>, o: Options, from: real, now: real)
    requires Usable(o) && WrittenBy(b, from) && WrittenBy(c, from) && Rising(times, from, now)
    requires Level(b, o, from) == Level(c, o, from)
    ensures Level(Lazily(b, times, o), o, now) == Level(Ideally(c, times, o), o, now)
    ensures Reply(Lazily(b, times, o), o, now) == Reply(Ideally(c, times, o), o, now)
    decreases |times|
  {
    if times == [] {
      LevelGrows(b, o, from, now);
      LevelGrows(c, o, from, now);
    } else {
      var t := times[0];
      LevelGrows(b, o, from, t);
      LevelGrows(c, o, from, t);
      LevelAfterWriting(b, o, t);
      LevelAfterWriting(c, o, t);
      var c' := if Reply(c, o, t).allowed then Some(Written(c, o, t)) else c;
      LazyIsContinuous(Some(Written(b, o, t)), c', times[1..], o, t, now);
    }
  }

  // ----- Remaining ---------------------------------------------------------------

  /** So many calls under one key, one after another at the same time. */
  function AtOnce(key: string, o: Options, now: real, n: nat): Calls { seq(n, _ => Call(key, o, now)) }

  /**
   * What a reply says is left is exact: of any number of further calls at that
   * time as many are allowed as it says and no more, and a refusal says none.
   */
  lemma {:induction false} RemainingIsExact(buckets: map<string, Bucket>, key: string, o: Options, now: real, n: nat)
    requires Usable(o) && WrittenBy(At(buckets, key), now)
    ensures var b := At(buckets, key);
            var r := Reply(b, o, now);
            && r.remaining >= 0
            && (!r.allowed ==> r.remaining == 0)
            && AllowedCalls(buckets[key := Written(b, o, now)], AtOnce(key, o, now, n), key) == Min(n, r.remaining)
    decreases n
  {
    var b := At(buckets, key);
    var w := Written(b, o, now);
    var next := buckets[key := w];
    LevelGrows(b, o, now, now);
    LevelAfterWriting(b, o, now);
    assert At(next, key) == Some(w);
    if n > 0 {
      RemainingIsExact(next, key, o, now, n - 1);
      assert AtOnce(key, o, now, n)[1..] == AtOnce(key, o, now, n - 1);
    }
  }

  /** A reply allows exactly when there is a whole token; then there is nothing to wait for, and otherwise for ever only if nothing refills. */
  lemma AllowsExactlyWhen(b: Option<Bucket>, o: Options, now: real)
    ensures Reply(b, o, now).allowed <==> Level(b, o, now) >= 1.0
    ensures Reply(b, o, now).allowed ==> Reply(b, o, now).retryAfterSeconds == Some(0)
    ensures !Reply(b, o, now).allowed ==> (Reply(b, o, now).retryAfterSeconds == None <==> o.refillPerMinute == 0.0)
  {
  }

  /** A key not seen before has its full capacity. */
  lemma StartsFull(o: Options, now: real)
    ensures Level(None, o, now) == o.capacity
  {
  }

  // ----- Retry-After -----------------------------------------------------------

  /**
   * After a refusal, a next call some whole number of seconds later is allowed
   * exactly when that number is at least `retryAfterSeconds`.
   */
  lemma RetryAfterIsExact(b: Option<Bucket>, o: Options, now: real, seconds: nat)
    requires o.capacity >= 1.0 && o.refillPerMinute > 0.0 && WrittenBy(b, now)
    requires !Reply(b, o, now).allowed
    ensures var retry := Reply(b, o, now).retryAfterSeconds.value;
            Reply(Some(Written(b, o, now)), o, now + seconds as real * 1000.0).allowed <==> seconds >= retry
  {
    var later := now + seconds as real * 1000.0;
    var tokens, r := Level(b, o, now), o.refillPerMinute;
    LevelAfterWriting(b, o, now);
    LevelGrows(Some(Written(b, o, now)), o, now, later);
    assert Earned(o, now, later) == seconds as real / 60.0 * r by {
      assert (later - now) / 60000.0 == seconds as real / 60.0;
    }
    var wait := (1.0 - tokens) * (60.0 / r);
    assert wait <= seconds as real <==> 1.0 - tokens <= seconds as real / 60.0 * r by { WaitCovers(1.0 - tokens, r, seconds as real); }
    assert Ceil(wait) <= seconds <==> wait <= seconds as real by { CeilAtMost(wait, seconds); }
  }

  lemma CeilAtMost(x: real, n: int)
    ensures Ceil(x) <= n <==> x <= n as real
  {
  }

  lemma WaitCovers(missing: real, r: real, seconds: real)
    requires r > 0.0
    ensures missing * (60.0 / r) <= seconds <==> missing <= seconds / 60.0 * r
  {
    var k := 60.0 / r;
    assert k * r == 60.0 && k > 0.0;
    var gap := seconds / 60.0 * r - missing;
    assert gap * k == seconds - missing * k by {
      assert seconds / 60.0 * r * k == seconds / 60.0 * (k * r);
      assert gap * k == seconds / 60.0 * r * k - missing * k;
    }
    if gap >= 0.0 { assert gap * k >= 0.0; } else { assert gap * k < 0.0; }
  }
}
