/** Retrying a connector call with exponential backoff, under a policy read from the target's configuration. */
module Retry {
  import opened Json
  import opened Powers

  datatype Attempt<+T> = Returned(value: T) | Threw(error: string)

  datatype RetryOptions = RetryOptions(maxRetries: int, baseDelayMs: nat, maxDelayMs: nat, jitter: bool)

  function Min(a: int, b: int): int {
    if a < b then a else b
  }

  function Capped(attempt: nat, opts: RetryOptions): nat {
    Min(opts.baseDelayMs * Pow2(attempt), opts.maxDelayMs)
  }

  /** `random` stands for `Math.random()`. */
  function CalculateDelay(attempt: nat, opts: RetryOptions, random: real): (delay: int)
    requires 0.0 <= random < 1.0
    ensures if opts.jitter then Capped(attempt, opts) / 2 <= delay <= Capped(attempt, opts)
            else delay == Capped(attempt, opts)
  {
    var capped := Capped(attempt, opts);
    if !opts.jitter then capped
    else
      JitterBounds(capped, random);
      Jittered(capped as real, random).Floor
  }

  /** Delays start at the base and double until they reach the maximum, where they stay. */
  lemma DelaysDouble(attempt: nat, opts: RetryOptions)
    ensures Capped(0, opts) == Min(opts.baseDelayMs, opts.maxDelayMs)
    ensures Capped(attempt + 1, opts) == Min(2 * Capped(attempt, opts), opts.maxDelayMs)
  {
    assert opts.baseDelayMs * Pow2(attempt + 1) == 2 * (opts.baseDelayMs * Pow2(attempt));
  }

  /** Jitter can make a delay anything from half the capped one, rounded up, to just below the capped one. */
  lemma JitterReaches(attempt: nat, opts: RetryOptions, delay: nat) returns (random: real)
    requires opts.jitter && Capped(attempt, opts) <= 2 * delay && delay < Capped(attempt, opts)
    ensures 0.0 <= random < 1.0 && CalculateDelay(attempt, opts, random) == delay
  {
    var capped := Capped(attempt, opts) as real;
    random := (2.0 * delay as real - capped) / capped;
    Dividing(2.0 * delay as real - capped, capped);
    assert Jittered(capped, random) == 0.5 * capped + 0.5 * (capped * random) == delay as real;
  }

  lemma Dividing(x: real, c: real)
    requires 0.0 <= x < c
    ensures 0.0 <= x / c < 1.0 && c * (x / c) == x
  {
  }

  function Jittered(capped: real, random: real): real {
    capped * (0.5 + random * 0.5)
  }

  lemma JitterBounds(capped: nat, random: real)
    requires 0.0 <= random < 1.0
    ensures capped / 2 <= Jittered(capped as real, random).Floor <= capped
  {
    hide Jittered;
    var half := capped / 2;
    JitteredBetween(capped as real, random);
    assert (2 * half) as real <= capped as real;
    FloorBetween(Jittered(capped as real, random), half, capped);
  }

  lemma JitteredBetween(capped: real, random: real)
    requires 0.0 <= capped && 0.0 <= random < 1.0
    ensures capped * 0.5 <= Jittered(capped, random) <= capped
  {
    Product(capped, random);
    assert Jittered(capped, random) == capped * 0.5 + capped * random * 0.5;
  }

  lemma Product(c: real, r: real)
    requires 0.0 <= c && 0.0 <= r < 1.0
    ensures 0.0 <= c * r <= c
  {
  }

  lemma FloorBetween(x: real, low: int, high: int)
    requires low as real <= x <= high as real
    ensures low <= x.Floor <= high
  {
  }

  /** `attempt(i)` is what the i-th call does. The call is repeated until it returns, at most `maxRetries` times. */
  method Execute<T>(attempt: nat -> Attempt<T>, opts: RetryOptions, random: nat -> real)
    returns (result: Attempt<T>, calls: nat, delays: seq<int>)
    requires forall i :: 0.0 <= random(i) < 1.0
    ensures opts.maxRetries < 0 ==> calls == 0 && result == Threw("Retry exhausted")
    ensures opts.maxRetries >= 0 ==> 1 <= calls <= opts.maxRetries + 1 && result == attempt(calls - 1)
    ensures forall i: nat | i + 1 < calls :: attempt(i).Threw?
    ensures opts.maxRetries >= 0 && result.Threw? ==> calls == opts.maxRetries + 1
    ensures |delays| == if calls == 0 then 0 else calls - 1
    ensures forall i | 0 <= i < |delays| :: delays[i] == CalculateDelay(i, opts, random(i))
  {
    delays, calls := [], 0;
    var n := 0;
    while n <= opts.maxRetries
      invariant calls == n && |delays| == n
      invariant forall i: nat | i < n :: attempt(i).Threw?
      invariant forall i | 0 <= i < n :: delays[i] == CalculateDelay(i, opts, random(i))
      invariant n <= opts.maxRetries || n == 0
    {
      result := attempt(n);
      calls := calls + 1;
      if result.Returned? || n == opts.maxRetries {
        return;
      }
      delays := delays + [CalculateDelay(n, opts, random(n))];
      n := n + 1;
    }
    result := Threw("Retry exhausted");
  }

  function Sum(s: seq<int>): int {
    if s == [] then 0 else Sum(s[..|s| - 1]) + s[|s| - 1]
  }

  lemma {:induction false} SleepBelowMax(delays: seq<int>, most: nat)
    requires forall i | 0 <= i < |delays| :: 0 <= delays[i] <= most
    ensures 0 <= Sum(delays) <= |delays| * most
  {
    if delays != [] {
      SleepBelowMax(delays[..|delays| - 1], most);
    }
  }

  lemma {:induction false} SleepBelowDoubling(delays: seq<int>, base: nat)
    requires forall i | 0 <= i < |delays| :: delays[i] <= base * Pow2(i)
    ensures Sum(delays) <= base * (Pow2(|delays|) - 1)
  {
    if delays != [] {
      var n := |delays| - 1;
      SleepBelowDoubling(delays[..n], base);
      assert base * (Pow2(n) - 1) + base * Pow2(n) == base * (2 * Pow2(n) - 1);
    }
  }

  /** However the calls fail, the time slept stays below both bounds. */
  lemma TotalSleepIsBounded(delays: seq<int>, opts: RetryOptions)
    requires forall i | 0 <= i < |delays| :: 0 <= delays[i] <= Capped(i, opts)
    ensures 0 <= Sum(delays) <= Min(|delays| * opts.maxDelayMs, opts.baseDelayMs * (Pow2(|delays|) - 1))
  {
    SleepBelowMax(delays, opts.maxDelayMs);
    SleepBelowDoubling(delays, opts.baseDelayMs);
  }

  /** What the attempts from number `n` on come to: the first that returns, or the last allowed. */
  function Settled<T>(attempt: nat -> Attempt<T>, n: nat, last: nat): Attempt<T>
    decreases last - n
  {
    if attempt(n).Returned? || n >= last then attempt(n) else Settled(attempt, n + 1, last)
  }

  lemma {:induction false} ExecuteSettles<T>(attempt: nat -> Attempt<T>, n: nat, last: nat, final: nat)
    requires n <= final <= last && (attempt(final).Threw? ==> final == last)
    requires forall i: nat | n <= i < final :: attempt(i).Threw?
    ensures Settled(attempt, n, last) == attempt(final)
    decreases final - n
  {
    if n < final {
      ExecuteSettles(attempt, n + 1, last, final);
    }
  }

  /** The number of calls, said without the loop: up to the first that returns, or all of them. */
  lemma CallsAreDetermined<T>(attempt: nat -> Attempt<T>, maxRetries: nat, calls: nat, first: nat)
    requires 1 <= calls <= maxRetries + 1
    requires forall i: nat | i + 1 < calls :: attempt(i).Threw?
    requires attempt(calls - 1).Threw? ==> calls == maxRetries + 1
    requires attempt(first).Returned? && forall i: nat | i < first :: attempt(i).Threw?
    ensures calls == Min(first, maxRetries) + 1
  {
    if calls - 1 < first {
      assert attempt(calls - 1).Threw?;
    }
  }

  // ----- The policy of a target system -----

  datatype Policy = Policy(options: RetryOptions, dlqLeaseSeconds: int)

  const DEFAULT_LEASE_SECONDS := 300

  /** `number` stands for `Number(value)` where it is an integer. */
  function PositiveInteger(number: Json -> Option<int>, raw: JsonObject, key: string, otherwise: int): (n: int)
    ensures n == otherwise || n > 0
  {
    if key in raw && number(raw[key]).Some? && number(raw[key]).value > 0 then number(raw[key]).value else otherwise
  }

  /** `config` is the target's stored configuration, if any; `lease` the configured default lease. */
  function ForTarget(number: Json -> Option<int>, config: JsonObject, lease: Option<int>): (p: Policy)
    ensures p.options.maxRetries >= 1 && p.options.baseDelayMs >= 1 && p.options.maxDelayMs >= 1
    ensures (lease.Some? ==> lease.value > 0) ==> p.dlqLeaseSeconds > 0
  {
    var defaultLease := match lease case None => DEFAULT_LEASE_SECONDS case Some(s) => s;
    if "retryPolicy" !in config || !config["retryPolicy"].Object? then
      Policy(RetryOptions(3, 1000, 30000, true), defaultLease)
    else
      var raw := config["retryPolicy"].fields;
      Policy(
        RetryOptions(
          PositiveInteger(number, raw, "maxRetries", 3),
          PositiveInteger(number, raw, "baseDelayMs", 1000),
          PositiveInteger(number, raw, "maxDelayMs", 30000),
          if "jitter" in raw && raw["jitter"].Bool? then raw["jitter"].b else true),
        PositiveInteger(number, raw, "dlqLeaseSeconds", defaultLease))
  }

  /** The configuration has a usable number for the setting. */
  predicate Configures(number: Json -> Option<int>, config: JsonObject, key: string, n: int) {
    && "retryPolicy" in config && config["retryPolicy"].Object? && key in config["retryPolicy"].fields
    && number(config["retryPolicy"].fields[key]) == Some(n) && n > 0
  }

  /** The setting is the configured number if that is a positive integer, and the default otherwise. */
  ghost predicate Follows(number: Json -> Option<int>, config: JsonObject, key: string, setting: int, otherwise: int) {
    && (forall n :: Configures(number, config, key, n) ==> setting == n)
    && ((forall n :: !Configures(number, config, key, n)) ==> setting == otherwise)
  }

  predicate TurnsOffJitter(config: JsonObject) {
    && "retryPolicy" in config && config["retryPolicy"].Object? && "jitter" in config["retryPolicy"].fields
    && config["retryPolicy"].fields["jitter"] == Bool(false)
  }

  /** Each setting of a target's policy, whatever stands in its configuration. */
  lemma PolicyFollowsConfiguration(number: Json -> Option<int>, config: JsonObject, lease: Option<int>)
    ensures var p := ForTarget(number, config, lease);
      && Follows(number, config, "maxRetries", p.options.maxRetries, 3)
      && Follows(number, config, "baseDelayMs", p.options.baseDelayMs, 1000)
      && Follows(number, config, "maxDelayMs", p.options.maxDelayMs, 30000)
      && Follows(number, config, "dlqLeaseSeconds", p.dlqLeaseSeconds, if lease.Some? then lease.value else 300)
      && (p.options.jitter <==> !TurnsOffJitter(config))
  {
    forall key, otherwise
      ensures "retryPolicy" in config && config["retryPolicy"].Object? ==>
        Follows(number, config, key, PositiveInteger(number, config["retryPolicy"].fields, key, otherwise), otherwise)
      ensures "retryPolicy" !in config || !config["retryPolicy"].Object? ==>
        Follows(number, config, key, otherwise, otherwise)
    {
      SettingFollows(number, config, key, otherwise);
    }
  }

  lemma SettingFollows(number: Json -> Option<int>, config: JsonObject, key: string, otherwise: int)
    ensures "retryPolicy" in config && config["retryPolicy"].Object? ==>
      Follows(number, config, key, PositiveInteger(number, config["retryPolicy"].fields, key, otherwise), otherwise)
    ensures "retryPolicy" !in config || !config["retryPolicy"].Object? ==>
      Follows(number, config, key, otherwise, otherwise)
  {
    if "retryPolicy" in config && config["retryPolicy"].Object? {
      var raw := config["retryPolicy"].fields;
      var setting := PositiveInteger(number, raw, key, otherwise);
      if key in raw && number(raw[key]).Some? && number(raw[key]).value > 0 {
        assert Configures(number, config, key, number(raw[key]).value);
      }
    }
  }

  /** Under any policy a target can configure, the loop always calls the connector and its sleep is bounded. */
  method ExecuteForTarget<T>(attempt: nat -> Attempt<T>, number: Json -> Option<int>, config: JsonObject,
                             lease: Option<int>, random: nat -> real)
    returns (result: Attempt<T>, calls: nat, delays: seq<int>)
    requires forall i :: 0.0 <= random(i) < 1.0
    ensures var o := ForTarget(number, config, lease).options;
      && 1 <= calls <= o.maxRetries + 1 && result == attempt(calls - 1)
      && (forall i: nat | i + 1 < calls :: attempt(i).Threw?)
      && (result.Threw? ==> calls == o.maxRetries + 1)
      && Sum(delays) <= Min(o.maxRetries * o.maxDelayMs, o.baseDelayMs * (Pow2(o.maxRetries) - 1))
  {
    var o := ForTarget(number, config, lease).options;
    result, calls, delays := Execute(attempt, o, random);
    TotalSleepIsBounded(delays, o);
    BoundsGrow(|delays|, o.maxRetries, o);
  }

  lemma BoundsGrow(n: nat, m: nat, o: RetryOptions)
    requires n <= m
    ensures n * o.maxDelayMs <= m * o.maxDelayMs
    ensures o.baseDelayMs * (Pow2(n) - 1) <= o.baseDelayMs * (Pow2(m) - 1)
  {
    Pow2Grows(n, m);
  }
}
