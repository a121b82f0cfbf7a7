/**
 What the rate limiter guarantees over whole histories: how many attempts it allows in one bucket, in
 two adjacent buckets and in the w seconds from any moment on, and how its estimate relates to the true
 number of attempts.
 */
module RateBounds {
  import opened RateLimit

  // ----- Counting -----

  lemma {:induction false} CountMono(h: seq<Event>, f: Event -> bool, g: Event -> bool)
    requires forall e :: e in h && f(e) ==> g(e)
    ensures Count(h, f) <= Count(h, g)
    decreases |h|
  {
    if h != [] {
      assert h[|h| - 1] in h;
      CountMono(h[..|h| - 1], f, g);
    }
  }

  /** f counts what g and g' count, each once. */
  lemma {:induction false} CountSplit(h: seq<Event>, f: Event -> bool, g: Event -> bool, g': Event -> bool)
    requires forall e :: e in h ==> (f(e) <==> g(e) || g'(e)) && !(g(e) && g'(e))
    ensures Count(h, f) == Count(h, g) + Count(h, g')
    decreases |h|
  {
    if h != [] {
      assert h[|h| - 1] in h;
      CountSplit(h[..|h| - 1], f, g, g');
    }
  }

  lemma {:induction false} CountZero(h: seq<Event>, f: Event -> bool)
    requires forall e :: e in h ==> !f(e)
    ensures Count(h, f) == 0
    decreases |h|
  {
    if h != [] {
      assert h[|h| - 1] in h;
      CountZero(h[..|h| - 1], f);
    }
  }

  // ----- Histories run forward in time -----

  lemma {:induction false} NothingLater(w: nat, limit: nat, h: seq<Event>, e: Event)
    requires w > 0 && IsHistory(w, limit, h) && e in h
    ensures e.at <= h[|h| - 1].at
    decreases |h|
  {
    var init := h[..|h| - 1];
    assert h == init + [h[|h| - 1]];
    if e in init {
      NothingLater(w, limit, init, e);
    }
  }

  lemma BucketMono(w: nat, at: nat, at': nat)
    requires w > 0 && at <= at'
    ensures Unix(at) <= Unix(at') && Bucket(w, at) <= Bucket(w, at')
  {
    DivMono(at, at', SECOND);
    DivMono(Unix(at), Unix(at'), w);
  }

  lemma DivMono(x: nat, y: nat, d: nat)
    requires d > 0 && x <= y
    ensures x / d <= y / d
  {
    if x / d > y / d {
      assert x == x / d * d + x % d && y == y / d * d + y % d;
      assert (x / d) * d >= (y / d + 1) * d by { MulMono(y / d + 1, x / d, d); }
      assert false;
    }
  }

  lemma SecondInBucket(w: nat, at: nat)
    requires w > 0
    ensures Unix(at) == Bucket(w, at) * w + Elapsed(w, at)
  {
  }

  lemma BucketOfSecond(w: nat, at: nat, b: nat, o: nat)
    requires w > 0 && o < w && Unix(at) == b * w + o
    ensures Bucket(w, at) == b && Elapsed(w, at) == o
  {
    var c := Bucket(w, at);
    SecondInBucket(w, at);
    if c < b { MulMono(c + 1, b, w); }
    if c > b { MulMono(b + 1, c, w); }
  }

  // ----- How many attempts are allowed -----

  ghost function Budget(w: nat, limit: nat): nat {
    limit * w
  }

  /** What n attempts take, with the bucket before at the least weight it has in the first o seconds. */
  ghost function Taken(w: nat, n: nat, previous: nat, o: nat): nat
    requires o <= w
  {
    n * w + previous * (w - o + 1)
  }

  /** An attempt within the limit, in one of the first o seconds of its bucket, leaves room for the bucket before. */
  lemma WithinLeavesRoom(w: nat, limit: nat, h: seq<Event>, p: string, at: nat, o: nat)
    requires w > 0 && WithinLimit(w, limit, h, p, at)
    requires Elapsed(w, at) < o <= w
    ensures var b := Bucket(w, at);
            Taken(w, Count(h, InBucket(w, p, b)) + 1, Count(h, InBucket(w, p, b - 1)), o) <= Budget(w, limit)
  {
    var b: int := Bucket(w, at);
    LeastWeight(w, Count(h, InBucket(w, p, b)) + 1, Count(h, InBucket(w, p, b - 1)), Elapsed(w, at), o);
  }

  lemma LeastWeight(w: nat, current: nat, previous: nat, elapsed: nat, o: nat)
    requires elapsed < o <= w
    ensures Taken(w, current, previous, o) <= Weighted(w, current, previous, elapsed)
  {
    MulMono(w - o + 1, w - elapsed, previous);
  }

  lemma TakenCancels(w: nat, n: nat, previous: nat, limit: nat)
    requires w > 0 && Taken(w, n, previous, w) <= Budget(w, limit)
    ensures n <= limit
  {
    if n > limit { MulMono(limit + 1, n, w); }
  }

  /** Allowed attempts of a bucket are at most its attempts, and at most the limit. */
  lemma {:induction false} AllowedPerBucket(w: nat, limit: nat, h: seq<Event>, p: string, b: int)
    requires w > 0 && IsHistory(w, limit, h)
    ensures Count(h, AllowedInBucket(w, p, b)) <= Count(h, InBucket(w, p, b))
    ensures Count(h, AllowedInBucket(w, p, b)) <= limit
    decreases |h|
  {
    if h != [] {
      var init, last := h[..|h| - 1], h[|h| - 1];
      AllowedPerBucket(w, limit, init, p, b);
      if AllowedInBucket(w, p, b)(last) {
        WithinLeavesRoom(w, limit, init, p, last.at, w);
        TakenCancels(w, Count(init, InBucket(w, p, b)) + 1, Count(init, InBucket(w, p, b - 1)), limit);
      }
    }
  }

  /** Allowed in the first o seconds of bucket b. */
  ghost function AllowedEarly(w: nat, p: string, b: int, o: nat): Event -> bool
    requires w > 0
  {
    (e: Event) => e.prefix == p && Bucket(w, e.at) == b && Elapsed(w, e.at) < o && e.verdict == Allowed
  }

  lemma TakenMono(w: nat, n: nat, n': nat, previous: nat, o: nat)
    requires n <= n' && o <= w
    ensures Taken(w, n, previous, o) <= Taken(w, n', previous, o)
  {
    MulMono(n, n', w);
  }

  /**
   Once an attempt is allowed in the first o seconds of bucket b, the allowed ones there and the
   attempts of the bucket before, with the least weight they had, fit the limit.
   */
  lemma {:induction false} RoomAfterAllowed(w: nat, limit: nat, h: seq<Event>, p: string, b: int, o: nat)
    requires w > 0 && 0 < o <= w && IsHistory(w, limit, h)
    requires Count(h, AllowedEarly(w, p, b, o)) > 0
    ensures Taken(w, Count(h, AllowedEarly(w, p, b, o)), Count(h, InBucket(w, p, b - 1)), o) <= Budget(w, limit)
    decreases |h|
  {
    hide Bucket, Elapsed, Unix, Taken, Budget, WithinLimit, IsHistory, Count;
    assert h != [] by { CountZero([], AllowedEarly(w, p, b, o)); }
    var init, last := h[..|h| - 1], h[|h| - 1];
    var f := AllowedEarly(w, p, b, o);
    HistoryStep(w, limit, h);
    CountStep(h, f);
    CountStep(h, InBucket(w, p, b - 1));
    if f(last) {
      CountMono(init, f, InBucket(w, p, b));
      WithinLeavesRoom(w, limit, init, p, last.at, o);
      TakenMono(w, Count(h, f), Count(init, InBucket(w, p, b)) + 1, Count(h, InBucket(w, p, b - 1)), o);
    } else {
      RoomAfterAllowed(w, limit, init, p, b, o);
      if InBucket(w, p, b - 1)(last) {
        NothingAllowedYet(w, limit, h, p, b, o);
        assert false;
      }
    }
  }

  lemma HistoryStep(w: nat, limit: nat, h: seq<Event>)
    requires w > 0 && h != [] && IsHistory(w, limit, h)
    ensures var init, last := h[..|h| - 1], h[|h| - 1];
            && h == init + [last] && IsHistory(w, limit, init)
            && (last.verdict == Allowed ==> WithinLimit(w, limit, init, last.prefix, last.at))
  {
  }

  lemma CountStep(h: seq<Event>, f: Event -> bool)
    requires h != []
    ensures Count(h, f) == Count(h[..|h| - 1], f) + if f(h[|h| - 1]) then 1 else 0
  {
  }

  /** While the last event is in the bucket before b, nothing has happened in b. */
  lemma NothingAllowedYet(w: nat, limit: nat, h: seq<Event>, p: string, b: int, o: nat)
    requires w > 0 && h != [] && IsHistory(w, limit, h) && Bucket(w, h[|h| - 1].at) == b - 1
    ensures Count(h, AllowedEarly(w, p, b, o)) == 0
  {
    hide Bucket, Elapsed, Unix, IsHistory, Count;
    forall e | e in h ensures !AllowedEarly(w, p, b, o)(e) {
      NothingLater(w, limit, h, e);
      BucketMono(w, e.at, h[|h| - 1].at);
    }
    CountZero(h, AllowedEarly(w, p, b, o));
  }

  lemma TwoBucketArithmetic(w: nat, limit: nat, o: nat, a0: nat, a1: nat, previous: nat)
    requires 0 < o <= w && a0 <= limit && a0 <= previous
    requires a1 > 0 ==> Taken(w, a1, previous, o) <= Budget(w, limit)
    ensures w * (a0 + a1) <= limit * (w + o - 1)
  {
    MulMono(a0, limit, o - 1);
    assert limit * (w + o - 1) == limit * w + limit * (o - 1);
    if a1 == 0 {
      MulMono(a0, limit, w);
    } else {
      MulMono(a0, previous, w - o + 1);
      assert w * (a0 + a1) == a0 * (w - o + 1) + a0 * (o - 1) + a1 * w;
    }
  }

  /** One bucket and the first o seconds of the next allow limit * (w + o - 1) / w together. */
  lemma AllowedAcross(w: nat, limit: nat, h: seq<Event>, p: string, b: int, o: nat)
    requires 0 < o <= w && IsHistory(w, limit, h)
    ensures w * (Count(h, AllowedInBucket(w, p, b - 1)) + Count(h, AllowedEarly(w, p, b, o))) <= limit * (w + o - 1)
  {
    var a0, a1 := Count(h, AllowedInBucket(w, p, b - 1)), Count(h, AllowedEarly(w, p, b, o));
    AllowedPerBucket(w, limit, h, p, b - 1);
    if a1 > 0 {
      RoomAfterAllowed(w, limit, h, p, b, o);
    }
    hide Count, IsHistory, Taken;
    TwoBucketArithmetic(w, limit, o, a0, a1, Count(h, InBucket(w, p, b - 1)));
  }

  /** Two adjacent buckets allow at most limit * (2w - 1) / w attempts together. */
  lemma AllowedInTwoBuckets(w: nat, limit: nat, h: seq<Event>, p: string, b: int)
    requires w > 0 && IsHistory(w, limit, h)
    ensures w * (Count(h, AllowedInBucket(w, p, b - 1)) + Count(h, AllowedInBucket(w, p, b))) <= limit * (2 * w - 1)
  {
    AllowedAcross(w, limit, h, p, b, w);
    CountMono(h, AllowedInBucket(w, p, b), AllowedEarly(w, p, b, w));
    CountMono(h, AllowedEarly(w, p, b, w), AllowedInBucket(w, p, b));
  }

  // ----- Windows -----

  /** The attempts allowed in the w seconds from time from on, which need not be a whole second. */
  ghost function AllowedInWindow(w: nat, h: seq<Event>, p: string, from: nat): nat {
    Count(h, AllowedBetween(p, from, from + w * SECOND))
  }

  /**
   A window that starts at time from reaches into that many seconds of the next bucket, where a partial
   second counts in full; at least 1.
   */
  ghost function Reach(w: nat, from: nat): (o: int)
    requires w > 0
    ensures 0 < o <= w
  {
    var o := Unix(from + SECOND - 1) - Bucket(w, from) * w;
    SecondInBucket(w, from);
    if o == 0 then 1 else o
  }

  /** Where a second before (b + 1) * w + o lies. */
  lemma SecondInReach(w: nat, at: nat, b: nat, o: nat)
    requires w > 0 && o <= w && b * w <= Unix(at) < (b + 1) * w + o
    ensures Bucket(w, at) == b || (Bucket(w, at) == b + 1 && Elapsed(w, at) < o)
  {
    var first := b * w;
    assert (b + 1) * w == first + w;
    if Unix(at) < first + w {
      BucketOfSecond(w, at, b, Unix(at) - first);
    } else {
      BucketOfSecond(w, at, b + 1, Unix(at) - (first + w));
    }
  }

  lemma UnixWindow(w: nat, from: nat, at: nat)
    requires from <= at < from + w * SECOND
    ensures Unix(from) <= Unix(at) < Unix(from + SECOND - 1) + w
  {
  }

  /** Whatever happens in a window happens in the bucket it starts in or within its reach in the next. */
  lemma WindowCovered(w: nat, h: seq<Event>, p: string, from: nat)
    requires w > 0
    ensures AllowedInWindow(w, h, p, from) <= Count(h, AllowedInBucket(w, p, Bucket(w, from)))
                                              + Count(h, AllowedEarly(w, p, Bucket(w, from) + 1, Reach(w, from)))
  {
    var b, o := Bucket(w, from), Reach(w, from);
    var f, g, g' := AllowedBetween(p, from, from + w * SECOND), AllowedInBucket(w, p, b), AllowedEarly(w, p, b + 1, o);
    var either: Event -> bool := (e: Event) => g(e) || g'(e);
    SecondInBucket(w, from);
    assert (b + 1) * w == b * w + w;
    assert Unix(from + SECOND - 1) <= b * w + o;
    hide Bucket, Elapsed, Unix, Reach;
    forall e | e in h && f(e) ensures either(e) {
      UnixWindow(w, from, e.at);
      SecondInReach(w, e.at, b, o);
    }
    CountMono(h, f, either);
    CountSplit(h, either, g, g');
  }

  /**
   The w seconds from any moment on see at most limit * (w + o - 1) / w allowed attempts, where o is their
   reach, and so never more than limit * (2w - 1) / w, which is less than twice the limit.
   */
  lemma AllowedInAnyWindow(w: nat, limit: nat, h: seq<Event>, p: string, from: nat)
    requires w > 0 && IsHistory(w, limit, h)
    ensures w * AllowedInWindow(w, h, p, from) <= limit * (w + Reach(w, from) - 1) <= limit * (2 * w - 1)
  {
    var b, o := Bucket(w, from), Reach(w, from);
    hide AllowedInWindow, Count, IsHistory, Bucket, Elapsed, Reach;
    WindowCovered(w, h, p, from);
    AllowedAcross(w, limit, h, p, b + 1, o);
    WindowArithmetic(w, limit, o, AllowedInWindow(w, h, p, from),
                     Count(h, AllowedInBucket(w, p, b)) + Count(h, AllowedEarly(w, p, b + 1, o)));
  }

  lemma WindowArithmetic(w: nat, limit: nat, o: nat, n: nat, m: nat)
    requires 0 < o <= w && n <= m && w * m <= limit * (w + o - 1)
    ensures w * n <= limit * (w + o - 1) <= limit * (2 * w - 1)
  {
    MulMono(n, m, w);
    MulMono(w + o - 1, 2 * w - 1, limit);
  }

  // ----- Bursts: the bound is attained in every window -----

  /** k allowed attempts at one time. */
  ghost function Burst(p: string, at: nat, k: nat): (h: seq<Event>)
    ensures |h| == k
  {
    seq(k, _ => Event(p, at, Allowed))
  }

  lemma BurstGrows(h: seq<Event>, p: string, at: nat, k: nat)
    ensures h + Burst(p, at, k + 1) == h + Burst(p, at, k) + [Event(p, at, Allowed)]
    ensures h + Burst(p, at, 0) == h
    ensures k > 0 ==> (h + Burst(p, at, k))[|h| + k - 1].at == at
  {
  }

  lemma CountNext(h: seq<Event>, e: Event, f: Event -> bool)
    ensures Count(h + [e], f) == Count(h, f) + if f(e) then 1 else 0
  {
    assert (h + [e])[..|h|] == h;
  }

  lemma {:induction false} BurstCounts(h: seq<Event>, p: string, at: nat, k: nat, f: Event -> bool)
    ensures Count(h + Burst(p, at, k), f) == Count(h, f) + if f(Event(p, at, Allowed)) then k else 0
    decreases k
  {
    hide Burst, Count;
    if k == 0 {
      BurstGrows(h, p, at, 0);
    } else {
      BurstCounts(h, p, at, k - 1, f);
      BurstGrows(h, p, at, k - 1);
      CountNext(h + Burst(p, at, k - 1), Event(p, at, Allowed), f);
    }
  }

  /** The weighted estimate of the last of k attempts made at one time. */
  ghost function BurstEstimate(w: nat, h: seq<Event>, p: string, at: nat, k: nat): nat
    requires w > 0
  {
    var b: int := Bucket(w, at);
    Weighted(w, Count(h, InBucket(w, p, b)) + k, Count(h, InBucket(w, p, b - 1)), Elapsed(w, at))
  }

  lemma BurstEstimates(w: nat, h: seq<Event>, p: string, at: nat, k: nat)
    requires w > 0
    ensures Estimate(w, h + Burst(p, at, k), p, at) == BurstEstimate(w, h, p, at, k + 1)
    ensures BurstEstimate(w, h, p, at, k) <= BurstEstimate(w, h, p, at, k + 1)
  {
    var b: int := Bucket(w, at);
    var c := Count(h, InBucket(w, p, b));
    assert InBucket(w, p, b)(Event(p, at, Allowed)) && !InBucket(w, p, b - 1)(Event(p, at, Allowed));
    hide Burst, Count, Bucket, Elapsed;
    BurstCounts(h, p, at, k, InBucket(w, p, b));
    BurstCounts(h, p, at, k, InBucket(w, p, b - 1));
    MulMono(c + k, c + k + 1, w);
  }

  /** A burst whose last attempt is within the limit is allowed. */
  lemma {:induction false} BurstFollows(w: nat, limit: nat, h: seq<Event>, p: string, at: nat, k: nat)
    requires w > 0 && IsHistory(w, limit, h)
    requires h != [] ==> h[|h| - 1].at <= at
    requires BurstEstimate(w, h, p, at, k) <= limit * w
    ensures IsHistory(w, limit, h + Burst(p, at, k))
    decreases k
  {
    hide Burst, IsHistory, BurstEstimate, Estimate;
    if k == 0 {
      BurstGrows(h, p, at, 0);
    } else {
      BurstEstimates(w, h, p, at, k - 1);
      BurstFollows(w, limit, h, p, at, k - 1);
      BurstGrows(h, p, at, k - 1);
      HistoryNext(w, limit, h + Burst(p, at, k - 1), Event(p, at, Allowed));
    }
  }

  /** n attempts in the window from time from on: up to limit of them at its start, the others at its end. */
  ghost function TwoBursts(w: nat, limit: nat, p: string, from: nat, n: nat): seq<Event>
    requires w > 0
  {
    if n <= limit then Burst(p, from, n)
    else Burst(p, from, limit) + Burst(p, EndOfReach(w, from), n - limit)
  }

  /** The start of the last second within reach. */
  ghost function EndOfReach(w: nat, from: nat): nat
    requires w > 0
  {
    ((Bucket(w, from) + 1) * w + (Reach(w, from) - 1)) * SECOND
  }

  lemma EndOfReachInWindow(w: nat, from: nat)
    requires w > 0 && Reach(w, from) > 1
    ensures from < EndOfReach(w, from) < from + w * SECOND
    ensures Bucket(w, EndOfReach(w, from)) == Bucket(w, from) + 1
    ensures Elapsed(w, EndOfReach(w, from)) == Reach(w, from) - 1
  {
    var b, o, at := Bucket(w, from), Reach(w, from), EndOfReach(w, from);
    assert Unix(at) == (b + 1) * w + (o - 1);
    BucketOfSecond(w, at, b + 1, o - 1);
    SecondInBucket(w, from);
    assert (b + 1) * w == b * w + w;
    hide Bucket, Elapsed;
    assert Unix(from + SECOND - 1) == b * w + o;
  }

  /** A burst of up to limit attempts out of nothing is allowed. */
  lemma FirstBurst(w: nat, limit: nat, p: string, from: nat, n: nat)
    requires w > 0 && n <= limit
    ensures IsHistory(w, limit, Burst(p, from, n))
    ensures AllowedInWindow(w, Burst(p, from, n), p, from) == n
    ensures Count(Burst(p, from, n), InBucket(w, p, Bucket(w, from))) == n
    ensures Count(Burst(p, from, n), InBucket(w, p, Bucket(w, from) + 1)) == 0
  {
    hide Bucket, Burst, Count, BurstEstimate, IsHistory;
    var b := Bucket(w, from);
    NothingHappenedYet(w, limit);
    assert [] + Burst(p, from, n) == Burst(p, from, n);
    EmptyCount(AllowedBetween(p, from, from + w * SECOND));
    EmptyCount(InBucket(w, p, b));
    EmptyCount(InBucket(w, p, b + 1));
    BurstCounts([], p, from, n, AllowedBetween(p, from, from + w * SECOND));
    BurstCounts([], p, from, n, InBucket(w, p, b));
    BurstCounts([], p, from, n, InBucket(w, p, b + 1));
    FirstEstimate(w, p, from, n);
    MulMono(n, limit, w);
    BurstFollows(w, limit, [], p, from, n);
  }

  lemma NothingHappenedYet(w: nat, limit: nat)
    requires w > 0
    ensures IsHistory(w, limit, [])
  {
  }

  lemma EmptyCount(f: Event -> bool)
    ensures Count([], f) == 0
  {
  }

  lemma FirstEstimate(w: nat, p: string, at: nat, n: nat)
    requires w > 0
    ensures BurstEstimate(w, [], p, at, n) == n * w
  {
    hide Bucket, Elapsed;
  }

  lemma SecondBurstArithmetic(w: nat, limit: nat, o: nat, n: nat)
    requires 0 < o <= w && w * n <= limit * (w + o - 1) && n > limit
    ensures o > 1 && Weighted(w, n - limit, limit, o - 1) <= limit * w
  {
    assert limit * (w + o - 1) == limit * w + limit * (o - 1);
    assert (n - limit) * w == w * n - limit * w;
    assert limit * (w - (o - 1)) == limit * w - limit * (o - 1);
    if o == 1 { MulMono(limit + 1, n, w); }
  }

  lemma TwoBurstsAllowed(w: nat, limit: nat, p: string, from: nat, n: nat)
    requires w > 0 && w * n <= limit * (w + Reach(w, from) - 1)
    ensures var h := TwoBursts(w, limit, p, from, n);
            IsHistory(w, limit, h) && AllowedInWindow(w, h, p, from) == n
  {
    hide IsHistory, Burst, Bucket, Elapsed, Reach, EndOfReach, Count, Weighted;
    FirstBurst(w, limit, p, from, if n <= limit then n else limit);
    if n > limit {
      var b, o, at, h := Bucket(w, from), Reach(w, from), EndOfReach(w, from), Burst(p, from, limit);
      SecondBurstArithmetic(w, limit, o, n);
      EndOfReachInWindow(w, from);
      BurstGrows([], p, from, limit);
      assert [] + h == h;
      assert b + 1 - 1 == b;
      BurstFollows(w, limit, h, p, at, n - limit);
      BurstCounts(h, p, at, n - limit, AllowedBetween(p, from, from + w * SECOND));
    }
  }

  /** How many attempts can be allowed in the window from time from on? n, if and only if the bound permits it. */
  lemma AllowedExactly(w: nat, limit: nat, p: string, from: nat, n: nat)
    requires w > 0
    ensures (exists h :: IsHistory(w, limit, h) && AllowedInWindow(w, h, p, from) >= n)
            <==> w * n <= limit * (w + Reach(w, from) - 1)
  {
    hide IsHistory, AllowedInWindow, Reach, TwoBursts;
    if h :| IsHistory(w, limit, h) && AllowedInWindow(w, h, p, from) >= n {
      AllowedInAnyWindow(w, limit, h, p, from);
      MulMono(n, AllowedInWindow(w, h, p, from), w);
    }
    if w * n <= limit * (w + Reach(w, from) - 1) {
      TwoBurstsAllowed(w, limit, p, from, n);
      assert AllowedInWindow(w, TwoBursts(w, limit, p, from, n), p, from) >= n;
    }
  }

  // ----- When the limit holds -----

  /** At most limit in the w seconds from time from on, in every history. */
  ghost predicate LimitHoldsFrom(w: nat, limit: nat, from: nat)
    requires w > 0
  {
    forall h, p :: IsHistory(w, limit, h) ==> AllowedInWindow(w, h, p, from) <= limit
  }

  /** The limit of a window holds exactly if one more attempt at the end of its reach would be too much. */
  lemma LimitHoldsFromExactly(w: nat, limit: nat, from: nat)
    requires w > 0
    ensures LimitHoldsFrom(w, limit, from) <==> limit * (Reach(w, from) - 1) < w
  {
    OneMoreArithmetic(w, limit, Reach(w, from));
    hide IsHistory, AllowedInWindow, Reach;
    if limit * (Reach(w, from) - 1) < w {
      forall h, p | IsHistory(w, limit, h) ensures AllowedInWindow(w, h, p, from) <= limit {
        AllowedExactly(w, limit, p, from, limit + 1);
      }
    } else {
      AllowedExactly(w, limit, "", from, limit + 1);
    }
  }

  lemma OneMoreArithmetic(w: nat, limit: nat, o: nat)
    requires 0 < o <= w
    ensures w * (limit + 1) <= limit * (w + o - 1) <==> limit * (o - 1) >= w
  {
    assert limit * (w + o - 1) == limit * w + limit * (o - 1);
  }

  /**
   Exactly when does no window of w seconds, whenever it starts, see more than limit allowed attempts?
   When w is 1 or limit is 1, and in no other case.
   */
  lemma LimitHoldsExactly(w: nat, limit: nat)
    requires w > 0 && limit > 0
    ensures (forall from: nat :: LimitHoldsFrom(w, limit, from)) <==> w == 1 || limit == 1
  {
    hide LimitHoldsFrom;
    if w == 1 || limit == 1 {
      forall from: nat ensures LimitHoldsFrom(w, limit, from) {
        LimitHoldsFromExactly(w, limit, from);
        OneIsEnough(w, limit, Reach(w, from));
      }
    } else {
      LimitHoldsFromExactly(w, limit, w * SECOND - 1);
      LastReach(w);
      MulMono(2, limit, w - 1);
    }
  }

  lemma OneIsEnough(w: nat, limit: nat, o: nat)
    requires 0 < o <= w && (w == 1 || limit == 1)
    ensures limit * (o - 1) < w
  {
  }

  /** A window that starts just before the end of a bucket reaches through all of the next one. */
  lemma LastReach(w: nat)
    requires w > 0
    ensures Reach(w, w * SECOND - 1) == w
  {
    assert Unix(w * SECOND - 1) == 0 * w + (w - 1) && Unix(w * SECOND - 1 + SECOND - 1) == w;
    BucketOfSecond(w, w * SECOND - 1, 0, w - 1);
    hide Bucket;
  }

  // ----- The estimate and the truth -----

  /** In the last w seconds up to time at. */
  ghost function InLastWindow(w: nat, p: string, at: nat): Event -> bool {
    (e: Event) => e.prefix == p && at - w * SECOND < e.at <= at
  }

  /** The attempts in the w seconds up to the one at time at, which is counted too. */
  ghost function TrueCount(w: nat, h: seq<Event>, p: string, at: nat): nat {
    Count(h, InLastWindow(w, p, at)) + 1
  }

  lemma LastWindow(w: nat, at: nat, now: nat)
    requires w > 0 && at <= now
    ensures Bucket(w, at) == Bucket(w, now) ==> now - w * SECOND < at
    ensures Bucket(w, at) + 1 < Bucket(w, now) ==> at <= now - w * SECOND
  {
    var b, b' := Bucket(w, at), Bucket(w, now);
    TimeInBucket(w, at);
    TimeInBucket(w, now);
    hide Bucket;
    assert (b + 1) * w * SECOND == b * w * SECOND + w * SECOND;
    assert (b + 2) * w * SECOND == (b + 1) * w * SECOND + w * SECOND;
    if b + 2 <= b' {
      MulMono(b + 2, b', w);
      MulMono((b + 2) * w, b' * w, SECOND);
    }
  }

  /** Estimate and truth lie between the attempts of this bucket and those of both buckets. */
  lemma EstimateBracketsTruth(w: nat, limit: nat, h: seq<Event>, p: string, at: nat)
    requires w > 0 && IsHistory(w, limit, h)
    requires h != [] ==> h[|h| - 1].at <= at
    ensures var current := Count(h, InBucket(w, p, Bucket(w, at))) + 1;
            var previous := Count(h, InBucket(w, p, Bucket(w, at) - 1));
            && current * w <= Estimate(w, h, p, at) <= (current + previous) * w
            && current <= TrueCount(w, h, p, at) <= current + previous
  {
    var b: int := Bucket(w, at);
    var f, g, g' := InLastWindow(w, p, at), InBucket(w, p, b), InBucket(w, p, b - 1);
    var either: Event -> bool := (e: Event) => g(e) || g'(e);
    WeightedBounds(w, Count(h, g) + 1, Count(h, g'), Elapsed(w, at));
    hide Bucket, Elapsed, Weighted, Count;
    forall e | e in h ensures (g(e) ==> f(e)) && (f(e) ==> either(e)) {
      NothingLater(w, limit, h, e);
      BucketMono(w, e.at, at);
      LastWindow(w, e.at, at);
    }
    CountMono(h, g, f);
    CountMono(h, f, either);
    CountSplit(h, either, g, g');
  }

  /** Few attempts are never rejected, many always are, and after a quiet bucket the first limit attempts pass. */
  lemma WhenAllowed(w: nat, limit: nat, h: seq<Event>, p: string, at: nat)
    requires w > 0
    ensures var current := Count(h, InBucket(w, p, Bucket(w, at))) + 1;
            var previous := Count(h, InBucket(w, p, Bucket(w, at) - 1));
            && (current + previous <= limit ==> WithinLimit(w, limit, h, p, at))
            && (current > limit ==> !WithinLimit(w, limit, h, p, at))
            && (previous == 0 ==> (WithinLimit(w, limit, h, p, at) <==> current <= limit))
  {
    WeightedVersusLimit(w, limit, Count(h, InBucket(w, p, Bucket(w, at))) + 1,
                        Count(h, InBucket(w, p, Bucket(w, at) - 1)), Elapsed(w, at));
  }

  lemma WeightedVersusLimit(w: nat, limit: nat, current: nat, previous: nat, elapsed: nat)
    requires w > 0 && elapsed < w
    ensures current * w <= Weighted(w, current, previous, elapsed) <= (current + previous) * w
    ensures current + previous <= limit ==> Weighted(w, current, previous, elapsed) <= limit * w
    ensures current > limit ==> Weighted(w, current, previous, elapsed) > limit * w
    ensures previous == 0 ==> (Weighted(w, current, previous, elapsed) <= limit * w <==> current <= limit)
  {
    WeightedBounds(w, current, previous, elapsed);
    hide Weighted;
    if current + previous <= limit {
      MulMono(current + previous, limit, w);
    }
    if current > limit {
      MulMono(limit + 1, current, w);
      assert (limit + 1) * w == limit * w + w;
    }
  }

  lemma WeightedBounds(w: nat, current: nat, previous: nat, elapsed: nat)
    requires w > 0 && elapsed < w
    ensures current * w <= Weighted(w, current, previous, elapsed) <= (current + previous) * w
  {
    MulMono(w - elapsed, w, previous);
    assert (current + previous) * w == current * w + w * previous;
  }

  ghost function InSecond(h: seq<Event>, p: string, second: int): nat {
    Count(h, Between(p, second, second + 1))
  }

  lemma {:induction false} SteadyCount(h: seq<Event>, p: string, k: nat, from: int, until: int)
    requires from <= until
    requires forall s: int :: from <= s < until ==> InSecond(h, p, s) == k
    ensures Count(h, Between(p, from, until)) == k * (until - from)
    decreases until - from
  {
    if from == until {
      CountZero(h, Between(p, from, until));
    } else {
      SteadyCount(h, p, k, from, until - 1);
      CountSplit(h, Between(p, from, until), Between(p, from, until - 1), Between(p, until - 1, until));
      assert InSecond(h, p, until - 1) == k && until - 1 + 1 == until;
      assert k * (until - from) == k * (until - 1 - from) + k;
    }
  }

  /**
   When every second of the bucket before saw k attempts, the estimate is no estimate: it is the true
   number of attempts from second Unix(at) - w on.
   */
  lemma SteadyEstimateIsExact(w: nat, h: seq<Event>, p: string, at: nat, k: nat)
    requires w > 0 && Bucket(w, at) > 0
    requires forall s: int :: (Bucket(w, at) - 1) * w <= s < Bucket(w, at) * w ==> InSecond(h, p, s) == k
    ensures var b := Bucket(w, at);
            Estimate(w, h, p, at) ==
            w * (Count(h, InBucket(w, p, b)) + 1 + Count(h, Between(p, Unix(at) - w, b * w)))
  {
    var b, e := Bucket(w, at), Elapsed(w, at);
    var start := (b - 1) * w;
    SecondInBucket(w, at);
    hide Count, Weighted, Bucket, Elapsed;
    assert b * w == start + w;
    SteadyCount(h, p, k, start, b * w);
    SteadyCount(h, p, k, start + e, b * w);
    BucketIsBetween(w, h, p, b - 1);
    SteadyArithmetic(w, Count(h, InBucket(w, p, b)) + 1, k, e);
  }

  lemma SteadyArithmetic(w: nat, current: nat, k: nat, e: nat)
    requires e < w
    ensures Weighted(w, current, k * w, e) == w * (current + k * (w - e))
  {
    assert k * w * (w - e) == w * (k * (w - e));
  }

  lemma BucketIsBetween(w: nat, h: seq<Event>, p: string, b: nat)
    requires w > 0
    ensures Count(h, InBucket(w, p, b)) == Count(h, Between(p, b * w, (b + 1) * w))
  {
    forall e | e in h ensures InBucket(w, p, b)(e) <==> Between(p, b * w, (b + 1) * w)(e) {
      SecondInBucket(w, e.at);
      if Between(p, b * w, (b + 1) * w)(e) {
        BucketOfSecond(w, e.at, b, Unix(e.at) - b * w);
      }
    }
    CountMono(h, InBucket(w, p, b), Between(p, b * w, (b + 1) * w));
    CountMono(h, Between(p, b * w, (b + 1) * w), InBucket(w, p, b));
  }
}
