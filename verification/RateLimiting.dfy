/**
 The per-IP token bucket limiter (`src/transport/rate_limit.rs`), over exact real time and tokens.
 */
module RateLimiting {
  import opened Addresses

  datatype TokenBucket = TokenBucket(tokens: real, lastRefill: real, lastUsed: real)

  datatype Limiter = Limiter(buckets: map<Ip, TokenBucket>, rate: nat, burst: nat)

  function Min(a: real, b: real): real {
    if a <= b then a else b
  }

  /** `x * n`, as repeated addition. */
  function Times(x: real, n: nat): real {
    if n == 0 then 0.0 else Times(x, n - 1) + x
  }

  /** `duration_since`, which is zero for an instant in the future. */
  function Elapsed(now: real, earlier: real): real {
    if now <= earlier then 0.0 else now - earlier
  }

  /** The tokens a bucket holds at `now`; an unknown IP starts with a full one. */
  function Available(l: Limiter, ip: Ip, now: real): real {
    if ip in l.buckets then
      var b := l.buckets[ip];
      Min(b.tokens + Times(Elapsed(now, b.lastRefill), l.rate), l.burst as real)
    else
      Min(l.burst as real, l.burst as real)
  }

  function CheckStep(l: Limiter, ip: Ip, now: real): (Limiter, bool) {
    var tokens := Available(l, ip, now);
    var allowed := tokens >= 1.0;
    (l.(buckets := l.buckets[ip := TokenBucket(if allowed then tokens - 1.0 else tokens, now, now)]), allowed)
  }

  function CleanupStep(l: Limiter, maxIdle: real, now: real): Limiter {
    l.(buckets := map ip | ip in l.buckets && Elapsed(now, l.buckets[ip].lastUsed) < maxIdle :: l.buckets[ip])
  }

  // ----- traces

  datatype Event = Check(ip: Ip, now: real) | Cleanup(maxIdle: real, now: real)

  function Apply(l: Limiter, e: Event): Limiter {
    match e
    case Check(ip, now) => CheckStep(l, ip, now).0
    case Cleanup(maxIdle, now) => CleanupStep(l, maxIdle, now)
  }

  function Run(l: Limiter, trace: seq<Event>): (r: Limiter)
    ensures r.rate == l.rate && r.burst == l.burst
  {
    if trace == [] then l else Apply(Run(l, trace[..|trace| - 1]), trace[|trace| - 1])
  }

  /** The clock never goes back. */
  ghost predicate Ordered(trace: seq<Event>) {
    forall i, j :: 0 <= i < j < |trace| ==> trace[i].now <= trace[j].now
  }

  function New(rate: nat, burst: nat): Limiter {
    Limiter(map[], rate, burst)
  }

  /** What every run keeps: tokens between 0 and `burst`, and refills not in the future. */
  ghost predicate Sound(l: Limiter, now: real) {
    forall ip :: ip in l.buckets ==>
      && 0.0 <= l.buckets[ip].tokens <= l.burst as real
      && l.buckets[ip].lastRefill == l.buckets[ip].lastUsed <= now
  }

  lemma {:induction false} TimesIsProduct(x: real, n: nat)
    ensures Times(x, n) == x * n as real
  {
    if n > 0 { TimesIsProduct(x, n - 1); }
  }

  lemma {:induction false} TimesMonotone(x: real, y: real, n: nat)
    requires x <= y
    ensures Times(x, n) <= Times(y, n)
  {
    if n > 0 { TimesMonotone(x, y, n - 1); }
  }

  lemma {:induction false} TimesZero(n: nat)
    ensures Times(0.0, n) == 0.0
  {
    if n > 0 { TimesZero(n - 1); }
  }

  lemma TimesNonNegative(x: real, n: nat)
    requires x >= 0.0
    ensures Times(x, n) >= 0.0
  {
    TimesZero(n);
    TimesMonotone(0.0, x, n);
  }

  lemma {:induction false} TimesAdds(x: real, y: real, n: nat)
    ensures Times(x + y, n) == Times(x, n) + Times(y, n)
  {
    if n > 0 { TimesAdds(x, y, n - 1); }
  }

  lemma AvailableBounds(l: Limiter, ip: Ip, now: real)
    requires Sound(l, now)
    ensures 0.0 <= Available(l, ip, now) <= l.burst as real
  {
    if ip in l.buckets { TimesNonNegative(Elapsed(now, l.buckets[ip].lastRefill), l.rate); }
  }

  lemma StepKeepsSound(l: Limiter, before: real, e: Event)
    requires Sound(l, before) && before <= e.now
    ensures Sound(Apply(l, e), e.now)
  {
    assert Sound(l, e.now);
    if e.Check? { AvailableBounds(l, e.ip, e.now); }
  }

  lemma {:induction false} RunKeepsSound(l: Limiter, trace: seq<Event>, start: real, now: real)
    requires Sound(l, start) && Ordered(trace)
    requires forall i :: 0 <= i < |trace| ==> start <= trace[i].now <= now
    requires start <= now
    ensures Sound(Run(l, trace), now)
  {
    if trace != [] {
      var front, last := trace[..|trace| - 1], trace[|trace| - 1];
      RunKeepsSound(l, front, start, last.now);
      StepKeepsSound(Run(l, front), last.now, last);
    }
  }

  // ----- traffic of other IPs

  /** The two limiters agree on one IP. */
  ghost predicate AgreeOn(a: Limiter, b: Limiter, ip: Ip) {
    && a.rate == b.rate && a.burst == b.burst
    && (ip in a.buckets <==> ip in b.buckets)
    && (ip in a.buckets ==> a.buckets[ip] == b.buckets[ip])
  }

  /** The events that concern `ip`: its own checks and every cleanup. */
  function Concerning(trace: seq<Event>, ip: Ip): seq<Event> {
    if trace == [] then []
    else
      var front, last := Concerning(trace[..|trace| - 1], ip), trace[|trace| - 1];
      if last.Check? && last.ip != ip then front else front + [last]
  }

  /** Other IPs' checks never change an IP's bucket, so never its answers. */
  lemma {:induction false} OthersDoNotMatter(l: Limiter, trace: seq<Event>, ip: Ip)
    ensures AgreeOn(Run(l, trace), Run(l, Concerning(trace, ip)), ip)
  {
    if trace != [] {
      var front, last := trace[..|trace| - 1], trace[|trace| - 1];
      OthersDoNotMatter(l, front, ip);
      if !(last.Check? && last.ip != ip) {
        var own := Concerning(front, ip) + [last];
        assert own[..|own| - 1] == Concerning(front, ip);
      }
    }
  }

  lemma AnswersDependOnOwnTraffic(l: Limiter, trace: seq<Event>, ip: Ip, now: real)
    ensures CheckStep(Run(l, trace), ip, now).1 == CheckStep(Run(l, Concerning(trace, ip)), ip, now).1
  {
    OthersDoNotMatter(l, trace, ip);
  }

  // ----- how much gets through

  /** The checks of `ip` in a trace that were allowed. */
  function Allowed(l: Limiter, trace: seq<Event>, ip: Ip): nat {
    if trace == [] then 0
    else
      var front, last := trace[..|trace| - 1], trace[|trace| - 1];
      Allowed(l, front, ip)
      + if last.Check? && last.ip == ip && CheckStep(Run(l, front), ip, last.now).1 then 1 else 0
  }

  /** Every cleanup leaves an entry the time to refill. */
  ghost predicate IdleLongEnough(trace: seq<Event>, rate: nat, burst: nat) {
    forall i :: 0 <= i < |trace| && trace[i].Cleanup? ==> Times(trace[i].maxIdle, rate) >= burst as real
  }

  lemma AvailableGrows(l: Limiter, ip: Ip, t: real, now: real)
    requires Sound(l, t) && t <= now
    ensures Available(l, ip, now) <= Available(l, ip, t) + Times(now - t, l.rate)
  {
    TimesNonNegative(now - t, l.rate);
    if ip in l.buckets {
      var b := l.buckets[ip];
      var e0, e1 := Elapsed(t, b.lastRefill), Elapsed(now, b.lastRefill);
      assert e1 == e0 + (now - t);
      TimesAdds(e0, now - t, l.rate);
    }
  }

  /** Tokens handed out plus tokens left never exceed the tokens at hand plus those refilled. */
  lemma {:induction false} TokensAreConserved(l: Limiter, trace: seq<Event>, ip: Ip, start: real, now: real)
    requires Sound(l, start) && Ordered(trace) && IdleLongEnough(trace, l.rate, l.burst)
    requires forall i :: 0 <= i < |trace| ==> start <= trace[i].now <= now
    requires start <= now
    ensures Allowed(l, trace, ip) as real + Available(Run(l, trace), ip, now)
         <= Available(l, ip, start) + Times(now - start, l.rate)
  {
    if trace == [] {
      AvailableGrows(l, ip, start, now);
    } else {
      var front, last := trace[..|trace| - 1], trace[|trace| - 1];
      var s := Run(l, front);
      TokensAreConserved(l, front, ip, start, last.now);
      RunKeepsSound(l, front, start, last.now);
      StepSpendsTokens(s, last, ip, last.now);
      StepKeepsSound(s, last.now, last);
      AvailableGrows(Run(l, trace), ip, last.now, now);
      TimesSplits(start, last.now, now, l.rate);
    }
  }

  lemma TimesSplits(start: real, mid: real, now: real, n: nat)
    ensures Times(now - start, n) == Times(mid - start, n) + Times(now - mid, n)
  {
    assert (mid - start) + (now - mid) == now - start;
    TimesAdds(mid - start, now - mid, n);
  }

  lemma StepSpendsTokens(s: Limiter, e: Event, ip: Ip, now: real)
    requires Sound(s, now) && e.now == now
    requires e.Cleanup? ==> Times(e.maxIdle, s.rate) >= s.burst as real
    ensures Available(Apply(s, e), ip, now)
            + (if e.Check? && e.ip == ip && CheckStep(s, ip, now).1 then 1.0 else 0.0) <= Available(s, ip, now)
  {
    AvailableBounds(s, ip, now);
    if e.Cleanup? {
      if ip in s.buckets && ip !in Apply(s, e).buckets {
        TimesMonotone(e.maxIdle, Elapsed(now, s.buckets[ip].lastRefill), s.rate);
      }
    } else if e.ip == ip {
      var b := Apply(s, e).buckets[ip];
      assert Elapsed(now, b.lastRefill) == 0.0;
      TimesZero(s.rate);
    }
  }

  lemma OrderedParts(a: seq<Event>, b: seq<Event>)
    requires Ordered(a + b)
    ensures Ordered(a) && Ordered(b)
  {
    assert forall i :: 0 <= i < |a| ==> a[i] == (a + b)[i];
    assert forall i :: 0 <= i < |b| ==> b[i] == (a + b)[|a| + i];
  }

  lemma WindowBoundFrom(s: Limiter, window: seq<Event>, ip: Ip, from: real, to: real)
    requires Sound(s, from) && Ordered(window) && IdleLongEnough(window, s.rate, s.burst) && from <= to
    requires forall i :: 0 <= i < |window| ==> from <= window[i].now <= to
    ensures Allowed(s, window, ip) as real <= s.burst as real + Times(to - from, s.rate)
  {
    TokensAreConserved(s, window, ip, from, to);
    RunKeepsSound(s, window, from, to);
    AvailableBounds(s, ip, from);
    AvailableBounds(Run(s, window), ip, to);
  }

  /**
   In any window of length t of any trace, one IP is allowed at most `burst + rate * t` requests, whatever came
   before and whoever else asks; cleanups inside the window may not be too early (see `WindowBoundIff`).
   */
  lemma WindowBound(rate: nat, burst: nat, before: seq<Event>, window: seq<Event>, ip: Ip, from: real, t: real)
    requires Ordered(before + window) && IdleLongEnough(window, rate, burst)
    requires 0.0 <= from && 0.0 <= t
    requires forall i :: 0 <= i < |before| ==> 0.0 <= before[i].now <= from
    requires forall i :: 0 <= i < |window| ==> from <= window[i].now <= from + t
    ensures Allowed(Run(New(rate, burst), before), window, ip) as real <= burst as real + t * rate as real
  {
    var s := Run(New(rate, burst), before);
    assert Sound(s, from) && Ordered(window) by {
      OrderedParts(before, window);
      RunKeepsSound(New(rate, burst), before, 0.0, from);
    }
    WindowBoundFrom(s, window, ip, from, from + t);
    assert (from + t) - from == t;
    TimesIsProduct(t, rate);
  }

  /** A request at least 1/rate after the previous one of its IP is always allowed. */
  lemma PatientRequestIsAllowed(l: Limiter, ip: Ip, now: real)
    requires Sound(l, now) && l.burst >= 1 && l.rate >= 1
    requires ip in l.buckets ==> Elapsed(now, l.buckets[ip].lastUsed) >= 1.0 / l.rate as real
    ensures CheckStep(l, ip, now).1
  {
    if ip in l.buckets {
      var r := l.rate as real;
      TimesMonotone(1.0 / r, Elapsed(now, l.buckets[ip].lastRefill), l.rate);
      TimesIsProduct(1.0 / r, l.rate);
      assert (1.0 / r) * r == 1.0;
    }
  }

  // ----- cleanup

  /** A trace without its cleanups. */
  function Checks(trace: seq<Event>): seq<Event> {
    if trace == [] then []
    else
      var front, last := Checks(trace[..|trace| - 1]), trace[|trace| - 1];
      if last.Check? then front + [last] else front
  }

  /** Every bucket cleaned away is one that has refilled completely by now. */
  ghost predicate CleanedIsFull(cleaned: Limiter, kept: Limiter, now: real) {
    && cleaned.rate == kept.rate && cleaned.burst == kept.burst
    && (forall ip :: ip in cleaned.buckets ==> ip in kept.buckets && cleaned.buckets[ip] == kept.buckets[ip])
    && (forall ip :: ip in kept.buckets && ip !in cleaned.buckets ==>
          kept.buckets[ip].tokens + Times(Elapsed(now, kept.buckets[ip].lastRefill), kept.rate) >= kept.burst as real)
  }

  lemma FullStaysFull(b: TokenBucket, rate: nat, burst: nat, t: real, now: real)
    requires t <= now
    requires b.tokens + Times(Elapsed(t, b.lastRefill), rate) >= burst as real
    ensures b.tokens + Times(Elapsed(now, b.lastRefill), rate) >= burst as real
  {
    TimesMonotone(Elapsed(t, b.lastRefill), Elapsed(now, b.lastRefill), rate);
  }

  lemma CheckKeepsCleaned(cleaned: Limiter, kept: Limiter, t: real, ip: Ip, now: real)
    requires CleanedIsFull(cleaned, kept, t) && t <= now && Sound(kept, t)
    ensures CheckStep(cleaned, ip, now).1 == CheckStep(kept, ip, now).1
    ensures CleanedIsFull(CheckStep(cleaned, ip, now).0, CheckStep(kept, ip, now).0, now)
  {
    forall p | p in kept.buckets && p !in cleaned.buckets
      ensures kept.buckets[p].tokens + Times(Elapsed(now, kept.buckets[p].lastRefill), kept.rate) >= kept.burst as real
    {
      FullStaysFull(kept.buckets[p], kept.rate, kept.burst, t, now);
    }
  }

  lemma CleanupKeepsCleaned(cleaned: Limiter, kept: Limiter, t: real, maxIdle: real, now: real)
    requires CleanedIsFull(cleaned, kept, t) && t <= now && Sound(kept, now)
    requires Times(maxIdle, kept.rate) >= kept.burst as real
    ensures CleanedIsFull(CleanupStep(cleaned, maxIdle, now), kept, now)
  {
    var after := CleanupStep(cleaned, maxIdle, now);
    forall p | p in kept.buckets && p !in after.buckets
      ensures kept.buckets[p].tokens + Times(Elapsed(now, kept.buckets[p].lastRefill), kept.rate) >= kept.burst as real
    {
      if p in cleaned.buckets {
        TimesMonotone(maxIdle, Elapsed(now, kept.buckets[p].lastRefill), kept.rate);
      } else {
        FullStaysFull(kept.buckets[p], kept.rate, kept.burst, t, now);
      }
    }
  }

  lemma {:induction false} CleanedRunsAgree(rate: nat, burst: nat, trace: seq<Event>, now: real)
    requires Ordered(trace) && IdleLongEnough(trace, rate, burst)
    requires now >= 0.0 && forall i :: 0 <= i < |trace| ==> 0.0 <= trace[i].now <= now
    ensures CleanedIsFull(Run(New(rate, burst), trace), Run(New(rate, burst), Checks(trace)), now)
    ensures Sound(Run(New(rate, burst), Checks(trace)), now)
  {
    var l := New(rate, burst);
    if trace != [] {
      var front, last := trace[..|trace| - 1], trace[|trace| - 1];
      var cleaned, kept := Run(l, front), Run(l, Checks(front));
      CleanedRunsAgree(rate, burst, front, last.now);
      if last.Check? {
        assert (Checks(front) + [last])[..|Checks(front)|] == Checks(front);
        CheckKeepsCleaned(cleaned, kept, last.now, last.ip, last.now);
        StepKeepsSound(kept, last.now, last);
      } else {
        CleanupKeepsCleaned(cleaned, kept, last.now, last.maxIdle, last.now);
      }
      CleanedLater(Run(l, trace), Run(l, Checks(trace)), last.now, now);
    }
  }

  lemma CleanedLater(cleaned: Limiter, kept: Limiter, t: real, now: real)
    requires CleanedIsFull(cleaned, kept, t) && t <= now
    ensures CleanedIsFull(cleaned, kept, now)
  {
    forall p | p in kept.buckets && p !in cleaned.buckets
      ensures kept.buckets[p].tokens + Times(Elapsed(now, kept.buckets[p].lastRefill), kept.rate) >= kept.burst as real
    {
      FullStaysFull(kept.buckets[p], kept.rate, kept.burst, t, now);
    }
  }

  /** Cleanups with this idle time never change an answer. */
  ghost predicate CleanupIsInvisible(rate: nat, burst: nat, maxIdle: real) {
    forall trace, ip, now :: CleansAfter(trace, maxIdle, now) ==> SameAnswer(rate, burst, trace, ip, now)
  }

  /** A trace up to `now` whose cleanups all use this idle time. */
  ghost predicate CleansAfter(trace: seq<Event>, maxIdle: real, now: real) {
    && Ordered(trace) && now >= 0.0
    && (forall i :: 0 <= i < |trace| ==> 0.0 <= trace[i].now <= now)
    && (forall i :: 0 <= i < |trace| && trace[i].Cleanup? ==> trace[i].maxIdle == maxIdle)
  }

  ghost predicate SameAnswer(rate: nat, burst: nat, trace: seq<Event>, ip: Ip, now: real) {
    CheckStep(Run(New(rate, burst), trace), ip, now).1
      == CheckStep(Run(New(rate, burst), Checks(trace)), ip, now).1
  }

  /** `n` checks of one IP at one instant. */
  function Repeat(ip: Ip, now: real, n: nat): seq<Event> {
    seq(n, _ => Check(ip, now))
  }

  lemma {:induction false} RunConcat(l: Limiter, a: seq<Event>, b: seq<Event>)
    ensures Run(l, a + b) == Run(Run(l, a), b)
  {
    if b == [] {
      assert a + b == a;
    } else {
      assert (a + b)[..|a + b| - 1] == a + b[..|b| - 1];
      RunConcat(l, a, b[..|b| - 1]);
    }
  }

  lemma {:induction false} ChecksConcat(a: seq<Event>, b: seq<Event>)
    ensures Checks(a + b) == Checks(a) + Checks(b)
  {
    if b == [] {
      assert a + b == a;
    } else {
      assert (a + b)[..|a + b| - 1] == a + b[..|b| - 1];
      ChecksConcat(a, b[..|b| - 1]);
    }
  }

  lemma {:induction false} ChecksOfChecks(a: seq<Event>)
    requires forall i :: 0 <= i < |a| ==> a[i].Check?
    ensures Checks(a) == a
  {
    if a != [] { ChecksOfChecks(a[..|a| - 1]); }
  }

  lemma AvailableAfterCheck(l: Limiter, ip: Ip, now: real)
    requires Sound(l, now)
    ensures var l' := CheckStep(l, ip, now).0;
            && Available(l', ip, now) == Available(l, ip, now) - (if Available(l, ip, now) >= 1.0 then 1.0 else 0.0)
            && ip in l'.buckets && l'.buckets[ip] == TokenBucket(Available(l', ip, now), now, now)
  {
    AvailableBounds(l, ip, now);
    TimesZero(l.rate);
  }

  /** Repeated checks take a token each while there are some, and leave less than one once there are not. */
  lemma {:induction false} RepeatDrains(l: Limiter, ip: Ip, now: real, n: nat)
    requires Sound(l, now)
    ensures var l', have := Run(l, Repeat(ip, now, n)), Available(l, ip, now);
            && Sound(l', now)
            && (n as real <= have ==> Available(l', ip, now) == have - n as real)
            && (have < n as real + 1.0 ==> Available(l', ip, now) < 1.0)
            && (n > 0 ==> ip in l'.buckets && l'.buckets[ip] == TokenBucket(Available(l', ip, now), now, now))
  {
    if n > 0 {
      RepeatDrains(l, ip, now, n - 1);
      var front := Run(l, Repeat(ip, now, n - 1));
      assert Repeat(ip, now, n)[..n - 1] == Repeat(ip, now, n - 1);
      AvailableAfterCheck(front, ip, now);
      StepKeepsSound(front, now, Check(ip, now));
    }
  }

  /** Drain the bucket, clean up after `maxIdle`, ask `burst - 1` times more: the next answer gives it away. */
  function Probe(ip: Ip, burst: nat, maxIdle: real): seq<Event>
    requires burst >= 1
  {
    Repeat(ip, 0.0, burst) + [Cleanup(maxIdle, maxIdle)] + Repeat(ip, maxIdle, burst - 1)
  }

  lemma ProbeCleaned(rate: nat, burst: nat, maxIdle: real, ip: Ip)
    requires maxIdle >= 0.0 && burst >= 1
    ensures CheckStep(Run(New(rate, burst), Probe(ip, burst, maxIdle)), ip, maxIdle).1
  {
    var l := New(rate, burst);
    var drain, again := Repeat(ip, 0.0, burst), Repeat(ip, maxIdle, burst - 1);
    var drained := Run(l, drain);
    RepeatDrains(l, ip, 0.0, burst);
    assert (drain + [Cleanup(maxIdle, maxIdle)])[..|drain|] == drain;
    var cleaned := CleanupStep(drained, maxIdle, maxIdle);
    assert Run(l, drain + [Cleanup(maxIdle, maxIdle)]) == cleaned;
    assert ip !in cleaned.buckets;
    assert Sound(cleaned, maxIdle);
    RunConcat(l, drain + [Cleanup(maxIdle, maxIdle)], again);
    RepeatDrains(cleaned, ip, maxIdle, burst - 1);
  }

  lemma ProbeKept(rate: nat, burst: nat, maxIdle: real, ip: Ip)
    requires maxIdle >= 0.0 && burst >= 1 && Times(maxIdle, rate) < burst as real
    ensures !CheckStep(Run(New(rate, burst), Checks(Probe(ip, burst, maxIdle))), ip, maxIdle).1
  {
    var l := New(rate, burst);
    var drain, again := Repeat(ip, 0.0, burst), Repeat(ip, maxIdle, burst - 1);
    ChecksOfProbe(ip, burst, maxIdle);
    var drained := Run(l, drain);
    RepeatDrains(l, ip, 0.0, burst);
    assert drained.buckets[ip] == TokenBucket(0.0, 0.0, 0.0);
    assert Sound(drained, maxIdle);
    assert Elapsed(maxIdle, 0.0) == maxIdle;
    assert Available(drained, ip, maxIdle) == Times(maxIdle, rate);
    RunConcat(l, drain, again);
    RepeatDrains(drained, ip, maxIdle, burst - 1);
  }

  lemma ChecksOfProbe(ip: Ip, burst: nat, maxIdle: real)
    requires burst >= 1
    ensures Checks(Probe(ip, burst, maxIdle)) == Repeat(ip, 0.0, burst) + Repeat(ip, maxIdle, burst - 1)
  {
    var drain, clean, again := Repeat(ip, 0.0, burst), [Cleanup(maxIdle, maxIdle)], Repeat(ip, maxIdle, burst - 1);
    ChecksConcat(drain + clean, again);
    ChecksConcat(drain, clean);
    ChecksOfChecks(drain);
    ChecksOfChecks(again);
    assert Checks(clean) == [];
  }

  lemma ProbeReveals(rate: nat, burst: nat, maxIdle: real, ip: Ip)
    requires maxIdle >= 0.0 && Times(maxIdle, rate) < burst as real
    ensures !CleanupIsInvisible(rate, burst, maxIdle)
  {
    TimesNonNegative(maxIdle, rate);
    ProbeIsTrace(ip, burst, maxIdle);
    ProbeCleaned(rate, burst, maxIdle, ip);
    ProbeKept(rate, burst, maxIdle, ip);
    assert !SameAnswer(rate, burst, Probe(ip, burst, maxIdle), ip, maxIdle);
  }

  lemma ProbeIsTrace(ip: Ip, burst: nat, maxIdle: real)
    requires burst >= 1 && maxIdle >= 0.0
    ensures CleansAfter(Probe(ip, burst, maxIdle), maxIdle, maxIdle)
  {
    var trace := Probe(ip, burst, maxIdle);
    assert forall i :: 0 <= i < |trace| ==>
      trace[i] == if i < burst then Check(ip, 0.0)
                  else if i == burst then Cleanup(maxIdle, maxIdle)
                  else Check(ip, maxIdle);
  }

  /**
   Cleaning up entries idle for `maxIdle`, at any points of any trace, never changes an answer if and only if
   an idle entry has had time to refill: `rate * maxIdle >= burst`.
   */
  lemma CleanupInvisibleIff(rate: nat, burst: nat, maxIdle: real)
    requires maxIdle >= 0.0
    ensures CleanupIsInvisible(rate, burst, maxIdle) <==> maxIdle * rate as real >= burst as real
  {
    TimesIsProduct(maxIdle, rate);
    if maxIdle * rate as real >= burst as real {
      forall trace, ip, now | CleansAfter(trace, maxIdle, now) ensures SameAnswer(rate, burst, trace, ip, now) {
        CleanedRunsAgree(rate, burst, trace, now);
        CheckKeepsCleaned(Run(New(rate, burst), trace), Run(New(rate, burst), Checks(trace)), now, ip, now);
      }
    } else {
      ProbeReveals(rate, burst, maxIdle, V4(127, 0, 0, 1));
    }
  }

  // ----- the bound on a window, as an equivalence

  /** A window of length `t` from `from` on, after any trace, whose cleanups all use this idle time. */
  ghost predicate IsWindow(before: seq<Event>, window: seq<Event>, maxIdle: real, from: real, t: real) {
    && Ordered(before + window) && 0.0 <= from && 0.0 <= t
    && (forall i :: 0 <= i < |before| ==> 0.0 <= before[i].now <= from)
    && (forall i :: 0 <= i < |window| ==> from <= window[i].now <= from + t)
    && (forall i :: 0 <= i < |window| && window[i].Cleanup? ==> window[i].maxIdle == maxIdle)
  }

  ghost predicate IsBounded(rate: nat, burst: nat, before: seq<Event>, window: seq<Event>, ip: Ip, t: real) {
    Allowed(Run(New(rate, burst), before), window, ip) as real <= burst as real + t * rate as real
  }

  ghost predicate WindowsAreBounded(rate: nat, burst: nat, maxIdle: real) {
    forall before, window, ip, from, t :: IsWindow(before, window, maxIdle, from, t)
      ==> IsBounded(rate, burst, before, window, ip, t)
  }

  lemma {:induction false} AllowedConcat(l: Limiter, a: seq<Event>, b: seq<Event>, ip: Ip)
    ensures Allowed(l, a + b, ip) == Allowed(l, a, ip) + Allowed(Run(l, a), b, ip)
  {
    if b == [] {
      assert a + b == a;
    } else {
      var n := |b| - 1;
      assert (a + b)[..|a + b| - 1] == a + b[..n];
      AllowedConcat(l, a, b[..n], ip);
      RunConcat(l, a, b[..n]);
    }
  }

  lemma {:induction false} RepeatAllowed(l: Limiter, ip: Ip, now: real, n: nat)
    requires Sound(l, now) && n as real <= Available(l, ip, now)
    ensures Allowed(l, Repeat(ip, now, n), ip) == n
  {
    if n > 0 {
      RepeatAllowed(l, ip, now, n - 1);
      RepeatDrains(l, ip, now, n - 1);
      assert Repeat(ip, now, n)[..n - 1] == Repeat(ip, now, n - 1);
    }
  }

  lemma CleanedAfterDrain(rate: nat, burst: nat, maxIdle: real, ip: Ip)
    requires maxIdle >= 0.0
    ensures var trace := Repeat(ip, 0.0, burst) + [Cleanup(maxIdle, maxIdle)];
            var cleaned := Run(New(rate, burst), trace);
            && ip !in cleaned.buckets && Sound(cleaned, maxIdle)
            && Allowed(New(rate, burst), trace, ip) == burst
  {
    var l, drain := New(rate, burst), Repeat(ip, 0.0, burst);
    var trace := drain + [Cleanup(maxIdle, maxIdle)];
    assert trace[..|drain|] == drain;
    RepeatAllowed(l, ip, 0.0, burst);
    RepeatDrains(l, ip, 0.0, burst);
    assert Run(l, trace) == CleanupStep(Run(l, drain), maxIdle, maxIdle);
  }

  function TwiceDrained(ip: Ip, burst: nat, maxIdle: real): seq<Event> {
    Repeat(ip, 0.0, burst) + [Cleanup(maxIdle, maxIdle)] + Repeat(ip, maxIdle, burst)
  }

  lemma TwiceDrainedAt(ip: Ip, burst: nat, maxIdle: real, i: nat)
    requires i < |TwiceDrained(ip, burst, maxIdle)|
    ensures TwiceDrained(ip, burst, maxIdle)[i] ==
              if i < burst then Check(ip, 0.0)
              else if i == burst then Cleanup(maxIdle, maxIdle)
              else Check(ip, maxIdle)
  {
  }

  lemma TwiceDrainedIsWindow(ip: Ip, burst: nat, maxIdle: real)
    requires maxIdle >= 0.0
    ensures IsWindow([], TwiceDrained(ip, burst, maxIdle), maxIdle, 0.0, maxIdle)
  {
    var window := TwiceDrained(ip, burst, maxIdle);
    forall i | 0 <= i < |window|
      ensures window[i].now == (if i < burst then 0.0 else maxIdle)
      ensures window[i].Cleanup? ==> window[i].maxIdle == maxIdle
    {
      TwiceDrainedAt(ip, burst, maxIdle, i);
    }
    EmptyBefore(window, maxIdle);
  }

  lemma EmptyBefore(window: seq<Event>, maxIdle: real)
    requires maxIdle >= 0.0 && Ordered(window)
    requires forall i :: 0 <= i < |window| ==> 0.0 <= window[i].now <= maxIdle
    requires forall i :: 0 <= i < |window| && window[i].Cleanup? ==> window[i].maxIdle == maxIdle
    ensures IsWindow([], window, maxIdle, 0.0, maxIdle)
  {
    assert [] + window == window;
  }

  /** Drain the bucket, clean up after `maxIdle`, and drain the new one: `2 * burst` requests get through. */
  lemma EarlyCleanupAllowsTwice(rate: nat, burst: nat, maxIdle: real, ip: Ip)
    requires maxIdle >= 0.0
    ensures Allowed(New(rate, burst), TwiceDrained(ip, burst, maxIdle), ip) == 2 * burst
  {
    var l, trace := New(rate, burst), Repeat(ip, 0.0, burst) + [Cleanup(maxIdle, maxIdle)];
    CleanedAfterDrain(rate, burst, maxIdle, ip);
    AllowedConcat(l, trace, Repeat(ip, maxIdle, burst), ip);
    RepeatAllowed(Run(l, trace), ip, maxIdle, burst);
  }

  /**
   With cleanups anywhere, the bound `burst + rate * t` holds in every window of every trace if and only if an
   idle entry has had time to refill.
   */
  lemma WindowBoundIff(rate: nat, burst: nat, maxIdle: real)
    requires maxIdle >= 0.0
    ensures WindowsAreBounded(rate, burst, maxIdle) <==> maxIdle * rate as real >= burst as real
  {
    TimesIsProduct(maxIdle, rate);
    if maxIdle * rate as real >= burst as real {
      forall before, window, ip, from, t | IsWindow(before, window, maxIdle, from, t)
        ensures IsBounded(rate, burst, before, window, ip, t)
      {
        WindowBound(rate, burst, before, window, ip, from, t);
      }
    } else {
      TimesNonNegative(maxIdle, rate);
      var ip := V4(127, 0, 0, 1);
      EarlyCleanupAllowsTwice(rate, burst, maxIdle, ip);
      TwiceDrainedIsWindow(ip, burst, maxIdle);
      assert !IsBounded(rate, burst, [], TwiceDrained(ip, burst, maxIdle), ip, maxIdle);
    }
  }

  // ----- the limiter, updated in place

  class RateLimiter {
    var buckets: map<Ip, TokenBucket>
    const ratePerSecond: nat
    const burst: nat

    ghost function Value(): Limiter
      reads this
    {
      Limiter(buckets, ratePerSecond, burst)
    }

    constructor (ratePerSecond: nat, burst: nat)
      ensures Value() == New(ratePerSecond, burst)
    {
      buckets, this.ratePerSecond, this.burst := map[], ratePerSecond, burst;
    }

    method Check(ip: Ip, now: real) returns (allowed: bool)
      modifies this
      ensures (Value(), allowed) == CheckStep(old(Value()), ip, now)
    {
      ghost var before := Value();
      if ip !in buckets {
        buckets := buckets[ip := TokenBucket(burst as real, now, now)];
      }
      var bucket := buckets[ip];
      var elapsed := Elapsed(now, bucket.lastRefill);
      var tokens := Min(bucket.tokens + elapsed * ratePerSecond as real, burst as real);
      assert tokens == Available(before, ip, now) by {
        TimesIsProduct(elapsed, ratePerSecond);
        TimesZero(ratePerSecond);
      }
      allowed := tokens >= 1.0;
      if allowed {
        tokens := tokens - 1.0;
      }
      buckets := buckets[ip := TokenBucket(tokens, now, now)];
      assert buckets == before.buckets[ip := TokenBucket(tokens, now, now)];
    }

    method Cleanup(maxIdle: real, now: real)
      modifies this
      ensures Value() == CleanupStep(old(Value()), maxIdle, now)
    {
      buckets := map ip | ip in buckets && Elapsed(now, buckets[ip].lastUsed) < maxIdle :: buckets[ip];
    }
  }
}
