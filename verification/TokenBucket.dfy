/** The request limiter of `ratelimit.c`: one token bucket per address, refilled by
    the elapsed seconds. Tokens are reals, as the source's doubles stand for. */
module TokenBucket {
  import opened Options
  import opened Sequences

  datatype Bucket = Bucket(tokens: real, lastRefill: int)

  /** Tokens earned in `seconds` at `limit` per minute. */
  function Earned(limit: int, seconds: int): real {
    seconds as real * (limit as real / 60.0)
  }

  function Refilled(b: Bucket, limit: int, now: int): Bucket {
    if now - b.lastRefill > 0 then
      var tokens := b.tokens + Earned(limit, now - b.lastRefill);
      Bucket(if tokens > limit as real then limit as real else tokens, now)
    else b
  }

  /** The bucket a call works on: the one there is, or a full one made at
      `created`, refilled at `now`. */
  function Ready(b: Option<Bucket>, limit: int, created: int, now: int): Bucket {
    Refilled(if b.Some? then b.value else Bucket(limit as real, created), limit, now)
  }

  predicate Accepts(ready: Bucket) {
    ready.tokens >= 1.0
  }

  function Spent(ready: Bucket): Bucket {
    if Accepts(ready) then ready.(tokens := ready.tokens - 1.0) else ready
  }

  // ---------- The limiter list ----------

  class Limiter {
    const ip: string
    const maxTokens: real
    const refillRate: real
    var tokens: real
    var lastRefill: int

    constructor (ip: string, limit: int, now: int)
      ensures this.ip == ip && MadeFor(limit) && State() == Bucket(limit as real, now)
    {
      this.ip, maxTokens, refillRate := ip, limit as real, limit as real / 60.0;
      tokens, lastRefill := limit as real, now;
    }

    predicate MadeFor(limit: int) {
      maxTokens == limit as real && refillRate == limit as real / 60.0
    }

    function State(): Bucket
      reads this
    {
      Bucket(tokens, lastRefill)
    }

    /** `refill_tokens`. */
    method RefillTokens(ghost limit: int, now: int)
      requires MadeFor(limit)
      modifies this
      ensures State() == Refilled(old(State()), limit, now)
    {
      var elapsed := now - lastRefill;
      if elapsed > 0 {
        tokens := tokens + elapsed as real * refillRate;
        if tokens > maxTokens {
          tokens := maxTokens;
        }
        lastRefill := now;
      }
    }
  }

  /** The first limiter of the address, or the length of the list. */
  function Find(ls: seq<Limiter>, ip: string): (i: nat)
    ensures i <= |ls|
  {
    Position(ls, (l: Limiter) => l.ip, ip)
  }

  class RateLimiters {
    const limit: int
    const enabled: bool
    var limiters: seq<Limiter>

    /** One limiter per address, all made for this configuration. */
    ghost predicate Valid()
      reads this
    {
      && UniqueBy(limiters, (l: Limiter) => l.ip)
      && forall l | l in limiters :: l.MadeFor(limit)
    }

    ghost function Held(ip: string): Option<Bucket>
      reads this, limiters
    {
      var i := Find(limiters, ip);
      if i < |limiters| then Some(limiters[i].State()) else None
    }

    constructor (limit: int, enabled: bool)
      ensures Valid() && limiters == [] && this.limit == limit && this.enabled == enabled
    {
      this.limit, this.enabled, limiters := limit, enabled, [];
    }

    /** `get_rate_limiter`: the limiter of the address, or a new full one at the
        head of the list. */
    method GetRateLimiter(ip: string, now: int) returns (limiter: Limiter)
      requires Valid()
      modifies this
      ensures Valid() && limiter in limiters && limiter.ip == ip
      ensures forall l | l in limiters :: l in old(limiters) || fresh(l)
      ensures limiter.State() == if old(Held(ip)).Some? then old(Held(ip)).value else Bucket(limit as real, now)
      ensures forall other | other != ip :: Held(other) == old(Held(other))
    {
      for i := 0 to |limiters|
        invariant forall j | 0 <= j < i :: limiters[j].ip != ip
      {
        if limiters[i].ip == ip {
          return limiters[i];
        }
      }
      ghost var before := limiters;
      limiter := new Limiter(ip, limit, now);
      limiters := [limiter] + limiters;
      forall other | other != ip
        ensures Held(other) == old(Held(other))
      {
        assert limiters[1..] == before;
        assert Find(limiters, other) == 1 + Find(before, other);
      }
    }

    /** `ratelimit_check_request`: spends a token of this address if there is
        one; the buckets of other addresses stay as they are. */
    method CheckRequest(ip: string, created: int, now: int) returns (allowed: bool)
      requires Valid()
      modifies this, limiters
      ensures Valid()
      ensures forall other | other != ip :: Held(other) == old(Held(other))
      ensures var ready := Ready(old(Held(ip)), limit, created, now);
              if enabled then allowed == Accepts(ready) && Held(ip) == Some(Spent(ready))
              else allowed && Held(ip) == old(Held(ip))
    {
      if !enabled {
        return true;
      }
      var limiter := GetRateLimiter(ip, created);
      limiter.RefillTokens(limit, now);
      assert limiters[Find(limiters, ip)] == limiter;
      if limiter.tokens >= 1.0 {
        limiter.tokens := limiter.tokens - 1.0;
        return true;
      }
      return false;
    }
  }

  // ---------- Whole traces ----------

  /** One call: the clock is read once when the bucket is created and once at the
      refill. */
  datatype Call = Call(ip: string, created: int, now: int)

  /** The bucket of `ip` after the first `n` calls. */
  function Held(limit: int, calls: seq<Call>, ip: string, n: nat): Option<Bucket>
    requires n <= |calls|
    decreases n, 0
  {
    if n == 0 then None
    else if calls[n - 1].ip != ip then Held(limit, calls, ip, n - 1)
    else Some(Spent(ReadyAt(limit, calls, n - 1)))
  }

  /** The bucket that call `k` decides on. */
  function ReadyAt(limit: int, calls: seq<Call>, k: nat): Bucket
    requires k < |calls|
    decreases k, 1
  {
    Ready(Held(limit, calls, calls[k].ip, k), limit, calls[k].created, calls[k].now)
  }

  predicate AcceptedAt(limit: int, calls: seq<Call>, k: nat)
    requires k < |calls|
  {
    Accepts(ReadyAt(limit, calls, k))
  }

  /** How many calls of `ip` at positions `i <= k < j` were accepted. */
  function Accepted(limit: int, calls: seq<Call>, ip: string, i: nat, j: nat): nat
    requires j <= |calls|
  {
    if j <= i then 0
    else Accepted(limit, calls, ip, i, j - 1) +
         (if calls[j - 1].ip == ip && AcceptedAt(limit, calls, j - 1) then 1 else 0)
  }

  /** The running maximum of the clock readings of `ip` in the first `n` calls. */
  function High(calls: seq<Call>, ip: string, n: nat): Option<int>
    requires n <= |calls|
  {
    if n == 0 then None else
    var h, c := High(calls, ip, n - 1), calls[n - 1];
    if c.ip != ip then h
    else Some(Max(c.now, if h.None? then c.created else h.value))
  }

  function Max(a: int, b: int): int {
    if a > b then a else b
  }

  lemma EarnedIsMonotone(limit: int, seconds: nat)
    requires limit >= 0
    ensures Earned(limit, seconds) >= 0.0
  {
  }

  lemma EarnedAdds(limit: int, a: int, b: int)
    ensures Earned(limit, a + b) == Earned(limit, a) + Earned(limit, b)
  {
  }

  /** A sixtieth of the limit each second. */
  lemma EarnedIs(limit: int, seconds: int)
    ensures 60.0 * Earned(limit, seconds) == (limit * seconds) as real
  {
    EarnedProduct(limit as real, seconds as real);
    assert (limit * seconds) as real == limit as real * seconds as real;
  }

  lemma EarnedProduct(limit: real, seconds: real)
    ensures 60.0 * (seconds * (limit / 60.0)) == limit * seconds
  {
  }

  /** The refill time of a bucket is the latest clock its address has seen; it
      never holds more than the limit, nor less than nothing. */
  lemma {:induction false} BucketTracksClock(limit: int, calls: seq<Call>, ip: string, n: nat)
    requires n <= |calls|
    ensures var b := Held(limit, calls, ip, n);
            && (b.Some? <==> High(calls, ip, n).Some?)
            && (b.Some? ==> b.value.lastRefill == High(calls, ip, n).value && b.value.tokens <= limit as real)
            && (b.Some? && limit >= 0 ==> b.value.tokens >= 0.0)
  {
    if n > 0 {
      BucketTracksClock(limit, calls, ip, n - 1);
      if calls[n - 1].ip == ip {
        ReadyStaysWithin(limit, calls, n - 1);
      }
    }
  }

  lemma ReadyStaysWithin(limit: int, calls: seq<Call>, k: nat)
    requires k < |calls|
    requires var b := Held(limit, calls, calls[k].ip, k);
             b.Some? ==> b.value.tokens <= limit as real && (limit >= 0 ==> b.value.tokens >= 0.0)
    ensures ReadyAt(limit, calls, k).tokens <= limit as real
    ensures limit >= 0 ==> ReadyAt(limit, calls, k).tokens >= 0.0
  {
    var held, c := Held(limit, calls, calls[k].ip, k), calls[k];
    var b := if held.Some? then held.value else Bucket(limit as real, c.created);
    if limit >= 0 && c.now > b.lastRefill {
      EarnedIsMonotone(limit, c.now - b.lastRefill);
    }
  }

  /** A limit below one lets nothing through. */
  lemma NoTokensNoRequests(limit: int, calls: seq<Call>, k: nat)
    requires limit <= 0 && k < |calls|
    ensures !AcceptedAt(limit, calls, k)
  {
    BucketTracksClock(limit, calls, calls[k].ip, k);
    ReadyStaysWithin(limit, calls, k);
  }

  // ---------- The bound from above ----------

  /** After call `i` of `ip`, acceptances plus what is left never exceed the
      limit plus what was earned since. */
  lemma {:induction false} AcceptedPlusLeft(limit: int, calls: seq<Call>, ip: string, i: nat, n: nat)
    requires limit >= 0 && i < n <= |calls| && calls[i].ip == ip
    ensures Held(limit, calls, ip, n).Some? && High(calls, ip, n).Some? && High(calls, ip, i + 1).Some?
    ensures Accepted(limit, calls, ip, i, n) as real + Held(limit, calls, ip, n).value.tokens
            <= limit as real + Earned(limit, High(calls, ip, n).value - High(calls, ip, i + 1).value)
  {
    BucketTracksClock(limit, calls, ip, n - 1);
    if n == i + 1 {
      ReadyStaysWithin(limit, calls, i);
      assert Accepted(limit, calls, ip, i, i) == 0;
    } else {
      AcceptedPlusLeft(limit, calls, ip, i, n - 1);
      if calls[n - 1].ip == ip {
        var h0, h1, h := High(calls, ip, i + 1).value, High(calls, ip, n - 1).value, High(calls, ip, n).value;
        EarnedAdds(limit, h - h1, h1 - h0);
      }
    }
  }

  /** Between any two calls of one address, what is accepted stays within one full
      bucket and the tokens earned in between, a sixtieth of the limit for each second
      of the running maximum of its clock. */
  lemma AcceptedWithinBucket(limit: int, calls: seq<Call>, i: nat, j: nat)
    requires limit >= 0 && i <= j < |calls| && calls[i].ip == calls[j].ip
    ensures var ip := calls[i].ip;
            && High(calls, ip, i + 1).Some? && High(calls, ip, j + 1).Some?
            && Accepted(limit, calls, ip, i, j + 1) as real
               <= limit as real + Earned(limit, High(calls, ip, j + 1).value - High(calls, ip, i + 1).value)
            && 60 * Accepted(limit, calls, ip, i, j + 1)
               <= 60 * limit + limit * (High(calls, ip, j + 1).value - High(calls, ip, i + 1).value)
  {
    var ip := calls[i].ip;
    AcceptedPlusLeft(limit, calls, ip, i, j + 1);
    BucketTracksClock(limit, calls, ip, j + 1);
    InWholeNumbers(limit, Accepted(limit, calls, ip, i, j + 1),
                   High(calls, ip, j + 1).value - High(calls, ip, i + 1).value);
  }

  lemma InWholeNumbers(limit: int, accepted: nat, seconds: int)
    ensures accepted as real <= limit as real + Earned(limit, seconds)
            <==> 60 * accepted <= 60 * limit + limit * seconds
    ensures accepted as real > limit as real - 1.0 + Earned(limit, seconds)
            <==> 60 * accepted > 60 * limit - 60 + limit * seconds
  {
    EarnedIs(limit, seconds);
    var product := limit * seconds;
    assert 60.0 * accepted as real == (60 * accepted) as real;
    assert 60.0 * limit as real == (60 * limit) as real;
  }

  // ---------- The bound from below ----------

  /** The bucket was full when call `k` decided. */
  predicate FullAt(limit: int, calls: seq<Call>, k: nat)
    requires k < |calls|
  {
    ReadyAt(limit, calls, k).tokens == limit as real
  }

  /** Since the last time a bucket was full it holds exactly what it had, plus
      what it earned, minus what it let through. */
  lemma {:induction false} ExactSinceFull(limit: int, calls: seq<Call>, ip: string, n: nat) returns (k: nat)
    requires limit >= 0 && n <= |calls| && Held(limit, calls, ip, n).Some?
    ensures k < n && calls[k].ip == ip && FullAt(limit, calls, k)
    ensures High(calls, ip, n).Some? && High(calls, ip, k + 1).Some?
    ensures Held(limit, calls, ip, n).value.tokens ==
            limit as real + Earned(limit, High(calls, ip, n).value - High(calls, ip, k + 1).value)
            - Accepted(limit, calls, ip, k, n) as real
  {
    BucketTracksClock(limit, calls, ip, n - 1);
    if calls[n - 1].ip == ip && Held(limit, calls, ip, n - 1).None? {
      NewBucketIsFull(limit, calls, n - 1);
    }
    if calls[n - 1].ip != ip {
      k := ExactSinceFull(limit, calls, ip, n - 1);
    } else if FullAt(limit, calls, n - 1) {
      k := n - 1;
      assert Accepted(limit, calls, ip, k, k) == 0;
    } else {
      k := ExactSinceFull(limit, calls, ip, n - 1);
      var h0, h1, h := High(calls, ip, k + 1).value, High(calls, ip, n - 1).value, High(calls, ip, n).value;
      EarnedAdds(limit, h - h1, h1 - h0);
    }
  }

  lemma NewBucketIsFull(limit: int, calls: seq<Call>, k: nat)
    requires limit >= 0 && k < |calls| && Held(limit, calls, calls[k].ip, k).None?
    ensures FullAt(limit, calls, k)
  {
    if calls[k].now > calls[k].created {
      EarnedIsMonotone(limit, calls[k].now - calls[k].created);
    }
  }

  /** A rejection is deserved: since an earlier call that found the bucket full,
      more than the limit less one, plus everything earned, was accepted. */
  lemma RejectionIsDeserved(limit: int, calls: seq<Call>, j: nat) returns (k: nat)
    requires limit >= 0 && j < |calls| && !AcceptedAt(limit, calls, j)
    ensures k <= j && calls[k].ip == calls[j].ip && FullAt(limit, calls, k)
    ensures var ip := calls[j].ip;
            && High(calls, ip, j + 1).Some? && High(calls, ip, k + 1).Some?
            && Accepted(limit, calls, ip, k, j) as real
               > limit as real - 1.0 + Earned(limit, High(calls, ip, j + 1).value - High(calls, ip, k + 1).value)
            && 60 * Accepted(limit, calls, ip, k, j)
               > 60 * limit - 60 + limit * (High(calls, ip, j + 1).value - High(calls, ip, k + 1).value)
  {
    var ip := calls[j].ip;
    k := ExactSinceFull(limit, calls, ip, j + 1);
    if k < j {
      assert Accepted(limit, calls, ip, k, j + 1) == Accepted(limit, calls, ip, k, j);
    } else {
      assert Accepted(limit, calls, ip, j, j + 1) == 0;
    }
    InWholeNumbers(limit, Accepted(limit, calls, ip, k, j),
                   High(calls, ip, j + 1).value - High(calls, ip, k + 1).value);
  }
}
