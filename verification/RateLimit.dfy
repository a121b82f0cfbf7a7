/**
 The sliding-window rate limiter (internal/rules/rate_limit.go): rateLimitScript on a store of
 expiring counters, and RateLimitRule.Evaluate. Times are nanoseconds since the epoch on one clock
 shared with the store; the weighted estimate is compared exactly, multiplied by the window.
 */
module RateLimit {
  import opened Results

  const SECOND: nat := 1_000_000_000

  datatype Scope = ActorScope | ActorActionScope | GlobalScope

  datatype Request = Request(actor: string, action: string)

  /** Window in nanoseconds; NewRateLimitRule accepts only positive windows and limits. */
  datatype Config = Config(scope: Scope, action: string, window: nat, limit: nat) {
    /** int64(window.Seconds()) */
    function WindowSeconds(): nat {
      window / SECOND
    }

    /** int64(math.Ceil((2 * window).Seconds())) */
    function TtlSeconds(): nat {
      (2 * window + SECOND - 1) / SECOND
    }

    /** keyPrefix */
    function KeyPrefix(request: Request): string {
      match scope
      case GlobalScope => "pds:rl:global"
      case ActorActionScope => "pds:rl:" + request.actor + ":" + request.action
      case ActorScope => "pds:rl:" + request.actor + ":" + action
    }
  }

  function Unix(at: nat): nat {
    at / SECOND
  }

  function Bucket(w: nat, at: nat): nat
    requires w > 0
  {
    Unix(at) / w
  }

  function Elapsed(w: nat, at: nat): (e: nat)
    requires w > 0
    ensures e < w
  {
    Unix(at) % w
  }

  /** The weighted estimate, multiplied by the window. */
  function Weighted(w: nat, current: nat, previous: nat, elapsed: nat): nat
    requires elapsed <= w
  {
    current * w + previous * (w - elapsed)
  }

  /** When the bucket after b is over. */
  function NeededUntil(w: nat, b: int): int {
    (b + 2) * w * SECOND
  }

  // ----- Histories: what happened, independent of any counter -----

  /** Lost: the script ran but its reply did not arrive. */
  datatype Verdict = Allowed | Exceeded | Lost

  /** One run of the script. */
  datatype Event = Event(prefix: string, at: nat, verdict: Verdict)

  ghost function Count(h: seq<Event>, f: Event -> bool): (n: nat)
    ensures n <= |h|
  {
    if h == [] then 0 else Count(h[..|h| - 1], f) + if f(h[|h| - 1]) then 1 else 0
  }

  ghost function InBucket(w: nat, p: string, b: int): Event -> bool
    requires w > 0
  {
    (e: Event) => e.prefix == p && Bucket(w, e.at) == b
  }

  ghost function AllowedInBucket(w: nat, p: string, b: int): Event -> bool
    requires w > 0
  {
    (e: Event) => e.prefix == p && Bucket(w, e.at) == b && e.verdict == Allowed
  }

  /** Allowed at one of the times from, ..., until - 1. */
  ghost function AllowedBetween(p: string, from: nat, until: nat): Event -> bool {
    (e: Event) => e.prefix == p && from <= e.at < until && e.verdict == Allowed
  }

  /** In one of the seconds from, ..., until - 1, whatever the verdict. */
  ghost function Between(p: string, from: int, until: int): Event -> bool {
    (e: Event) => e.prefix == p && from <= Unix(e.at) < until
  }

  /** The estimate that decides on one more attempt at time at, multiplied by the window. */
  ghost function Estimate(w: nat, h: seq<Event>, p: string, at: nat): nat
    requires w > 0
  {
    var b := Bucket(w, at);
    Weighted(w, Count(h, InBucket(w, p, b)) + 1, Count(h, InBucket(w, p, b - 1)), Elapsed(w, at))
  }

  ghost predicate WithinLimit(w: nat, limit: nat, h: seq<Event>, p: string, at: nat)
    requires w > 0
  {
    Estimate(w, h, p, at) <= limit * w
  }

  /** Time does not go back, and every verdict that arrived was right for the history before it. */
  ghost predicate IsHistory(w: nat, limit: nat, h: seq<Event>)
    requires w > 0
  {
    h == [] ||
    var init, last := h[..|h| - 1], h[|h| - 1];
    && IsHistory(w, limit, init)
    && (init != [] ==> init[|init| - 1].at <= last.at)
    && (last.verdict == Lost || (last.verdict == Allowed <==> WithinLimit(w, limit, init, last.prefix, last.at)))
  }

  // ----- Keys -----

  function Digits(n: nat): (s: string)
    ensures s != [] && forall c :: c in s ==> '0' <= c <= '9'
  {
    if n < 10 then ['0' + n as char] else Digits(n / 10) + ['0' + (n % 10) as char]
  }

  /** %d */
  function Decimal(n: int): string {
    if n < 0 then "-" + Digits(-n) else Digits(n)
  }

  /** The key of the counter of one prefix and bucket: %s:%d */
  function KeyText(prefix: string, bucket: int): string {
    prefix + ":" + Decimal(bucket)
  }

  /** The number that a string of digits stands for. */
  function Value(digits: string): int {
    if digits == "" then 0 else Value(digits[..|digits| - 1]) * 10 + (digits[|digits| - 1] as int - '0' as int)
  }

  lemma {:induction false} DigitsHaveValue(n: nat)
    ensures Value(Digits(n)) == n
    decreases n
  {
    if n >= 10 {
      DigitsHaveValue(n / 10);
      assert Digits(n)[..|Digits(n)| - 1] == Digits(n / 10);
    } else {
      assert Digits(n)[..0] == "";
    }
  }

  lemma DecimalHasNoColon(n: int)
    ensures ':' !in Decimal(n)
    ensures n < 0 <==> Decimal(n)[0] == '-'
  {
    if n >= 0 {
      assert Digits(n)[0] in Digits(n);
    }
  }

  lemma LastColon(p: string, s: string, p': string, s': string)
    requires ':' !in s && ':' !in s' && p + ":" + s == p' + ":" + s'
    ensures p == p' && s == s'
  {
    var k, k' := p + ":" + s, p' + ":" + s';
    assert k[|p|] == ':' && k'[|p'|] == ':';
    if |p| < |p'| {
      assert false;
    } else if |p'| < |p| {
      assert false;
    }
    assert k[..|p|] == p && k'[..|p'|] == p' && k[|p| + 1..] == s && k'[|p'| + 1..] == s';
  }

  /** Different counters have different keys. */
  lemma KeysDiffer(p: string, b: int, p': string, b': int)
    ensures KeyText(p, b) == KeyText(p', b') <==> p == p' && b == b'
  {
    hide Value, Digits;
    if KeyText(p, b) == KeyText(p', b') {
      DecimalHasNoColon(b);
      DecimalHasNoColon(b');
      LastColon(p, Decimal(b), p', Decimal(b'));
      if b < 0 {
        assert Decimal(b)[1..] == Decimal(b')[1..];
        DigitsHaveValue(-b);
        DigitsHaveValue(-b');
      } else {
        DigitsHaveValue(b);
        DigitsHaveValue(b');
      }
    }
  }

  // ----- Which requests share a counter -----

  /** The requests that a rule counts. */
  predicate Counts(config: Config, request: Request) {
    config.action == "" || request.action == config.action
  }

  lemma AppendCancels(s: string, s': string, t: string)
    ensures s + t == s' + t <==> s == s'
    ensures t + s == t + s' <==> s == s'
  {
    assert (t + s)[|t|..] == s && (t + s')[|t|..] == s';
    if s + t == s' + t {
      assert |s| == |s'| && (s + t)[..|s|] == s && (s' + t)[..|s'|] == s';
    }
  }

  /** The first of two requests under one prefix has the shorter actor, and its action makes up for it. */
  ghost predicate Overlap(r: Request, r': Request) {
    exists x: string :: r'.actor == r.actor + ":" + x && r.action == x + ":" + r'.action
  }

  lemma OverlapsExactly(r: Request, r': Request)
    requires |r.actor| < |r'.actor|
    ensures r.actor + ":" + r.action == r'.actor + ":" + r'.action <==> Overlap(r, r')
  {
    var n := |r.actor|;
    var left, right := r.actor + ":" + r.action, r'.actor + ":" + r'.action;
    if left == right {
      var x := r'.actor[n + 1..];
      assert left[n] == ':' && left[..n] == r.actor && left[n + 1..] == r.action;
      assert right[n] == r'.actor[n] && right[..n] == r'.actor[..n] && right[n + 1..] == x + ":" + r'.action;
      assert r'.actor == r.actor + ":" + x && r.action == x + ":" + r'.action;
    }
    if x: string :| r'.actor == r.actor + ":" + x && r.action == x + ":" + r'.action {
      assert left == r.actor + ":" + x + ":" + r'.action == right;
    }
  }

  /**
   Exactly when do two requests that a rule counts share a counter? With the scope of an actor, or of an
   actor and an action with a filter on the action, when they have one actor. Without a filter, when they
   are one request, or when an actor with a colon in it overlaps the other's action.
   */
  lemma SharedExactly(config: Config, r: Request, r': Request)
    requires Counts(config, r) && Counts(config, r')
    ensures config.KeyPrefix(r) == config.KeyPrefix(r') <==>
            match config.scope
            case GlobalScope => true
            case ActorScope => r.actor == r'.actor
            case ActorActionScope =>
              if config.action != "" then r.actor == r'.actor else r == r' || Overlap(r, r') || Overlap(r', r)
  {
    match config.scope
    case GlobalScope =>
    case ActorScope =>
      PrefixesOfScope(r.actor, config.action, r'.actor, config.action);
      assert r.actor + ":" + config.action == r.actor + (":" + config.action);
      assert r'.actor + ":" + config.action == r'.actor + (":" + config.action);
      AppendCancels(r.actor, r'.actor, ":" + config.action);
    case ActorActionScope =>
      PrefixesOfScope(r.actor, r.action, r'.actor, r'.action);
      SameActorAndAction(r, r');
  }

  lemma PrefixesOfScope(actor: string, action: string, actor': string, action': string)
    ensures "pds:rl:" + actor + ":" + action == "pds:rl:" + actor' + ":" + action' <==>
            actor + ":" + action == actor' + ":" + action'
  {
    assert "pds:rl:" + actor + ":" + action == "pds:rl:" + (actor + ":" + action);
    assert "pds:rl:" + actor' + ":" + action' == "pds:rl:" + (actor' + ":" + action');
    AppendCancels(actor + ":" + action, actor' + ":" + action', "pds:rl:");
  }

  lemma SameActorAndAction(r: Request, r': Request)
    ensures r.actor + ":" + r.action == r'.actor + ":" + r'.action <==> r == r' || Overlap(r, r') || Overlap(r', r)
    ensures r.action == r'.action ==>
              (r.actor + ":" + r.action == r'.actor + ":" + r'.action <==> r.actor == r'.actor)
  {
    if |r.actor| < |r'.actor| {
      OverlapsExactly(r, r');
    } else if |r'.actor| < |r.actor| {
      OverlapsExactly(r', r);
    } else {
      var left, right := r.actor + ":" + r.action, r'.actor + ":" + r'.action;
      var n := |r.actor|;
      assert left[..n] == r.actor && left[n + 1..] == r.action;
      assert right[..n] == r'.actor && right[n + 1..] == r'.action;
    }
  }

  /** Without colons in the actors, actor and action each have a counter of their own. */
  lemma NoColonNoOverlap(r: Request, r': Request)
    requires ':' !in r.actor && ':' !in r'.actor
    ensures !Overlap(r, r') && !Overlap(r', r)
  {
    forall x: string ensures ':' in r.actor + ":" + x && ':' in r'.actor + ":" + x {
      assert (r.actor + ":" + x)[|r.actor|] == ':' && (r'.actor + ":" + x)[|r'.actor|] == ':';
    }
  }

  /** Actor "a:b" with action "c" and actor "a" with action "b:c" are counted together. */
  lemma SharedByTwo(config: Config)
    requires config.scope == ActorActionScope && config.action == ""
    ensures config.KeyPrefix(Request("a:b", "c")) == config.KeyPrefix(Request("a", "b:c"))
  {
    assert Request("a:b", "c").actor == "a" + ":" + "b";
    assert Overlap(Request("a", "b:c"), Request("a:b", "c"));
    SharedExactly(config, Request("a", "b:c"), Request("a:b", "c"));
  }

  // ----- The store -----

  datatype Entry = Entry(count: nat, expiresAt: nat)

  /** An expired key is gone. */
  predicate IsLive(entries: map<string, Entry>, key: string, now: nat) {
    key in entries && now < entries[key].expiresAt
  }

  /** Every counter holds the number of runs in its bucket, and outlives the bucket after that. */
  ghost predicate Mirrors(w: nat, entries: map<string, Entry>, h: seq<Event>)
    requires w > 0
  {
    forall p, b ::
      var key, n := KeyText(p, b), Count(h, InBucket(w, p, b));
      if key in entries then entries[key].count == n > 0 && entries[key].expiresAt >= NeededUntil(w, b) else n == 0
  }

  datatype RateError = BelowOneSecond | StoreFailed

  /** What goes wrong with one call of the store: nothing, or an error before or after the script ran. */
  datatype Fault = NoFault | BeforeScript | AfterScript

  class RateLimiter {
    const config: Config
    var entries: map<string, Entry>
    ghost var history: seq<Event>

    constructor (config: Config)
      ensures this.config == config && Valid() && history == []
    {
      this.config := config;
      entries := map[];
      history := [];
    }

    ghost predicate Valid()
      reads this
    {
      var w := config.WindowSeconds();
      if w == 0 then history == []
      else IsHistory(w, config.limit, history) && Mirrors(w, entries, history)
    }

    /** rateLimitScript: INCR and EXPIRE the first key, GET the second one. */
    method RunScript(currentKey: string, previousKey: string, ttl: nat, now: nat) returns (current: nat, previous: nat)
      requires currentKey != previousKey
      modifies this`entries
      ensures current == if IsLive(old(entries), currentKey, now) then old(entries)[currentKey].count + 1 else 1
      ensures entries == old(entries)[currentKey := Entry(current, now + ttl * SECOND)]
      ensures previous == if IsLive(old(entries), previousKey, now) then old(entries)[previousKey].count else 0
    {
      current := 1;
      if IsLive(entries, currentKey, now) {
        current := entries[currentKey].count + 1;
        entries := entries[currentKey := entries[currentKey].(count := current)];
      }
      entries := entries[currentKey := Entry(current, now + ttl * SECOND)];
      previous := 0;
      if IsLive(entries, previousKey, now) {
        previous := entries[previousKey].count;
      }
    }

    /** Run the script and compare: the counters give the exact numbers of runs, so the answer is right. */
    method Attempt(w: nat, prefix: string, now: nat) returns (within: bool)
      requires w == config.WindowSeconds() > 0 && Mirrors(w, entries, history)
      modifies this`entries
      ensures within <==> WithinLimit(w, config.limit, history, prefix, now)
      ensures forall v :: Mirrors(w, entries, history + [Event(prefix, now, v)])
    {
      var bucket: int := Bucket(w, now);
      CountersAreExact(w, entries, history, prefix, now);
      TtlIsLongEnough(config, now);
      KeysDiffer(prefix, bucket, prefix, bucket - 1);
      hide Bucket, Elapsed, Weighted, NeededUntil, Unix, IsLive, Count, Mirrors, KeyText;
      hide Config.TtlSeconds, Config.WindowSeconds;
      var currentKey, previousKey := KeyText(prefix, bucket), KeyText(prefix, bucket - 1);
      var current, previous := RunScript(currentKey, previousKey, config.TtlSeconds(), now);
      forall v ensures Mirrors(w, entries, history + [Event(prefix, now, v)]) {
        MirrorsNext(w, old(entries), history, Event(prefix, now, v), entries[currentKey]);
      }
      return Weighted(w, current, previous, Elapsed(w, now)) <= config.limit * w;
    }

    /**
     Evaluate: Ok(true) when the limit is exceeded. The counters never show: the answer is that of the
     exact numbers of script runs in this bucket and the one before, and it is the verdict that goes down
     in the history. A call that is not counted, or fails before the script has run, leaves no trace.
     */
    method Evaluate(request: Request, now: nat, fault: Fault) returns (r: Result<bool, RateError>)
      requires Valid()
      requires history != [] ==> history[|history| - 1].at <= now
      modifies this
      ensures Valid()
      ensures r == Err(BelowOneSecond) <==> Counts(config, request) && config.window < SECOND
      ensures r == Err(StoreFailed) <==> Counts(config, request) && config.window >= SECOND && fault != NoFault
      ensures !Counts(config, request) ==> r == Ok(false) && history == old(history)
      ensures r.Ok? && Counts(config, request) ==>
                var w, p := config.WindowSeconds(), config.KeyPrefix(request);
                && (r.value <==> !WithinLimit(w, config.limit, old(history), p, now))
                && history == old(history) + [Event(p, now, if r.value then Exceeded else Allowed)]
      ensures r.Err? ==> history == if r == Err(StoreFailed) && fault == AfterScript
                                    then old(history) + [Event(config.KeyPrefix(request), now, Lost)] else old(history)
    {
      hide WithinLimit, Mirrors, IsHistory, Config.WindowSeconds, Config.KeyPrefix;
      WholeSeconds(config);
      if config.action != "" && request.action != config.action {
        return Ok(false);
      }
      var windowSeconds := config.WindowSeconds();
      if windowSeconds <= 0 {
        return Err(BelowOneSecond);
      }
      var prefix := config.KeyPrefix(request);
      if fault == BeforeScript {
        return Err(StoreFailed);
      }
      var within := Attempt(windowSeconds, prefix, now);
      ghost var verdict := if fault == AfterScript then Lost else if within then Allowed else Exceeded;
      HistoryNext(windowSeconds, config.limit, history, Event(prefix, now, verdict));
      history := history + [Event(prefix, now, verdict)];
      if fault == AfterScript {
        return Err(StoreFailed);
      }
      return Ok(!within);
    }
  }

  /** w whole seconds fit in the window, and one more does not. */
  lemma WholeSeconds(config: Config)
    ensures var w := config.WindowSeconds(); w * SECOND <= config.window < (w + 1) * SECOND
    ensures config.WindowSeconds() == 0 <==> config.window < SECOND
  {
  }

  /** The counter is refreshed for two windows, rounded up to a second and no further. */
  lemma TtlRoundsUp(config: Config)
    ensures 2 * config.window <= config.TtlSeconds() * SECOND < 2 * config.window + SECOND
  {
  }

  /** A rule without an action counts every request, another one those with its action. */
  lemma CountsExactly(config: Config, request: Request)
    ensures Counts(config, request) <==> config.action in {"", request.action}
  {
  }

  lemma HistoryNext(w: nat, limit: nat, h: seq<Event>, e: Event)
    requires w > 0 && IsHistory(w, limit, h)
    requires h != [] ==> h[|h| - 1].at <= e.at
    requires e.verdict == Lost || (e.verdict == Allowed <==> WithinLimit(w, limit, h, e.prefix, e.at))
    ensures IsHistory(w, limit, h + [e])
  {
  }

  /** No counter that is read has expired, so what is read is the number of runs. */
  lemma CountersAreExact(w: nat, entries: map<string, Entry>, h: seq<Event>, p: string, now: nat)
    requires w > 0 && Mirrors(w, entries, h)
    ensures forall b: int :: Bucket(w, now) - 1 <= b <= Bucket(w, now) ==>
              Count(h, InBucket(w, p, b)) ==
              if IsLive(entries, KeyText(p, b), now) then entries[KeyText(p, b)].count else 0
  {
    var b := Bucket(w, now);
    assert now < (b + 1) * w * SECOND by { TimeInBucket(w, now); }
    assert (b + 1) * w * SECOND <= (b + 2) * w * SECOND by {
      MulMono(b + 1, b + 2, w);
      MulMono((b + 1) * w, (b + 2) * w, SECOND);
    }
  }

  lemma MulMono(x: nat, y: nat, z: nat)
    requires x <= y
    ensures x * z <= y * z
  {
  }

  lemma TimeInBucket(w: nat, now: nat)
    requires w > 0
    ensures Bucket(w, now) * w * SECOND <= now < (Bucket(w, now) + 1) * w * SECOND
  {
    var u, b := Unix(now), Bucket(w, now);
    assert b * w <= u < (b + 1) * w;
    MulMono(b * w, u, SECOND);
    MulMono(u + 1, (b + 1) * w, SECOND);
  }

  /** A counter touched now is kept until the next bucket is over. */
  lemma TtlIsLongEnough(config: Config, now: nat)
    requires config.WindowSeconds() > 0
    ensures var w := config.WindowSeconds();
            now + config.TtlSeconds() * SECOND >= NeededUntil(w, Bucket(w, now))
  {
    var w := config.WindowSeconds();
    TimeInBucket(w, now);
    assert config.TtlSeconds() >= 2 * w;
    MulMono(2 * w, config.TtlSeconds(), SECOND);
    assert (Bucket(w, now) + 2) * w * SECOND == Bucket(w, now) * w * SECOND + 2 * w * SECOND;
  }

  lemma MirrorsNext(w: nat, entries: map<string, Entry>, h: seq<Event>, e: Event, entry: Entry)
    requires w > 0 && Mirrors(w, entries, h)
    requires entry.count == Count(h, InBucket(w, e.prefix, Bucket(w, e.at))) + 1
    requires entry.expiresAt >= NeededUntil(w, Bucket(w, e.at))
    ensures Mirrors(w, entries[KeyText(e.prefix, Bucket(w, e.at)) := entry], h + [e])
  {
    forall p, b: int
      ensures KeyText(p, b) == KeyText(e.prefix, Bucket(w, e.at)) <==> p == e.prefix && b == Bucket(w, e.at)
      ensures Count(h + [e], InBucket(w, p, b)) ==
              Count(h, InBucket(w, p, b)) + if p == e.prefix && b == Bucket(w, e.at) then 1 else 0
    {
      KeysDiffer(p, b, e.prefix, Bucket(w, e.at));
      assert (h + [e])[..|h|] == h;
    }
  }
}
