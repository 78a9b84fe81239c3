/** Token buckets, one per API key, behind a get-or-create map. Times are seconds since
    the zero time, as reals; the rounding of the rate library is not modelled. */
module RateLimiter {
  import opened Text

  datatype Params = Params(limit: real, burst: int)

  /** The state of one limiter: the tokens left after the last accepted request, and when that was. */
  datatype Bucket = Bucket(tokens: real, last: real)

  function NewBucket(p: Params): Bucket {
    Bucket(p.burst as real, 0.0)
  }

  function Min(a: real, b: real): real { if a <= b then a else b }

  /** Time that passes from reading u to reading w; a step back takes none. */
  function Elapsed(u: real, w: real): real { if u <= w then w - u else 0.0 }

  /** Tokens that drip in. */
  function Drip(p: Params, time: real): real { time * p.limit }

  /** Tokens available at time t. A clock that went backwards adds none. */
  function Available(p: Params, b: Bucket, t: real): real {
    Min(p.burst as real, b.tokens + Drip(p, Elapsed(b.last, t)))
  }

  /** rate.Limiter.Allow: spend a token if one is there, leave the bucket alone otherwise. */
  function TryTake(p: Params, b: Bucket, t: real): (Bucket, bool) {
    var tokens := Available(p, b, t) - 1.0;
    if p.burst >= 1 && tokens >= 0.0 then (Bucket(tokens, t), true) else (b, false)
  }

  function Verdicts(p: Params, b: Bucket, times: seq<real>): (v: seq<bool>)
    ensures |v| == |times|
    decreases |times|
  {
    if times == [] then []
    else [TryTake(p, b, times[0]).1] + Verdicts(p, TryTake(p, b, times[0]).0, times[1..])
  }

  function After(p: Params, b: Bucket, times: seq<real>): Bucket
    decreases |times|
  {
    if times == [] then b else After(p, TryTake(p, b, times[0]).0, times[1..])
  }

  lemma {:induction false} OneMore(p: Params, b: Bucket, times: seq<real>, t: real)
    ensures Verdicts(p, b, times + [t]) == Verdicts(p, b, times) + [TryTake(p, After(p, b, times), t).1]
    ensures After(p, b, times + [t]) == TryTake(p, After(p, b, times), t).0
    decreases |times|
  {
    if times == [] {
      assert ([t])[1..] == [];
    } else {
      assert (times + [t])[1..] == times[1..] + [t];
      OneMore(p, TryTake(p, b, times[0]).0, times[1..], t);
    }
  }

  // ---- The bound on a window ----

  /** How many of the requests at these times, with these verdicts, passed within [s, t]. */
  function PassedWithin(times: seq<real>, verdicts: seq<bool>, s: real, t: real): nat
    requires |times| == |verdicts|
  {
    if times == [] then 0
    else (if verdicts[0] && s <= times[0] <= t then 1 else 0) + PassedWithin(times[1..], verdicts[1..], s, t)
  }

  predicate NonDecreasing(times: seq<real>) {
    forall i, j :: 0 <= i < j < |times| ==> times[i] <= times[j]
  }

  /** How far the clock moves back over a sequence of readings, in all. */
  function Backward(times: seq<real>): (d: real)
    ensures d >= 0.0
  {
    if |times| < 2 then 0.0 else Elapsed(times[1], times[0]) + Backward(times[1..])
  }

  lemma {:induction false} NeverBackward(times: seq<real>)
    requires NonDecreasing(times)
    ensures Backward(times) == 0.0
  {
    if |times| >= 2 {
      assert times[0] <= times[1];
      NeverBackward(times[1..]);
    }
  }

  lemma DripSum(p: Params, d: real, e: real)
    ensures Drip(p, d + e) == Drip(p, d) + Drip(p, e)
    ensures Drip(p, 0.0) == 0.0
  {
  }

  lemma DripGrows(p: Params, d: real, e: real)
    requires p.limit >= 0.0 && d <= e
    ensures Drip(p, d) <= Drip(p, e)
  {
    DripSum(p, d, e - d);
  }

  lemma DripPositive(p: Params, d: real)
    requires p.limit >= 0.0 && d >= 0.0
    ensures Drip(p, d) >= 0.0
  {
  }

  /** From reading u to reading w a bucket gains at most the drip of the time that passes. */
  lemma Refill(p: Params, b: Bucket, u: real, w: real)
    requires p.limit >= 0.0
    ensures Available(p, b, w) <= Available(p, b, u) + Drip(p, Elapsed(u, w))
  {
    hide Drip;
    var du, dw, e := Elapsed(b.last, u), Elapsed(b.last, w), Elapsed(u, w);
    DripGrows(p, dw, du + e);
    DripSum(p, du, e);
    DripPositive(p, e);
  }

  /** What a bucket can pay for between reading u and time t: what it holds at u and what drips
      in if the clock moves on straight to t. */
  function Budget(p: Params, b: Bucket, u: real, t: real): real {
    Available(p, b, u) + Drip(p, t - u)
  }

  /** A request at reading w pays for itself out of the budget; only a step back adds to it. */
  lemma TakePays(p: Params, b: Bucket, u: real, w: real, t: real)
    requires p.limit >= 0.0
    ensures var (next, ok) := TryTake(p, b, w);
            Budget(p, next, w, t) + (if ok then 1.0 else 0.0) <= Budget(p, b, u, t) + Drip(p, Elapsed(w, u))
  {
    hide Drip;
    Refill(p, b, u, w);
    DripSum(p, 0.0, 0.0);
    DripSum(p, Elapsed(u, w), t - w);
    DripSum(p, t - u, Elapsed(w, u));
    assert Elapsed(u, w) + (t - w) == (t - u) + Elapsed(w, u);
  }

  lemma PassedFirst(p: Params, b: Bucket, times: seq<real>, s: real, t: real)
    requires times != []
    ensures var (next, ok) := TryTake(p, b, times[0]);
            PassedWithin(times, Verdicts(p, b, times), s, t)
            == (if ok && s <= times[0] <= t then 1 else 0) + PassedWithin(times[1..], Verdicts(p, next, times[1..]), s, t)
  {
    hide TryTake;
    assert Verdicts(p, b, times)[1..] == Verdicts(p, TryTake(p, b, times[0]).0, times[1..]);
  }

  lemma TakenLeavesBudget(p: Params, b: Bucket, w: real, t: real)
    requires p.limit >= 0.0 && w <= t && TryTake(p, b, w).1
    ensures Budget(p, TryTake(p, b, w).0, w, t) >= 0.0
  {
    DripSum(p, 0.0, 0.0);
    DripPositive(p, t - w);
  }

  /** After reading u a bucket pays for at most its budget and the drip of all steps back. */
  lemma {:induction false} PaidFor(p: Params, b: Bucket, times: seq<real>, u: real, s: real, t: real)
    requires p.limit >= 0.0
    ensures var passed := PassedWithin(times, Verdicts(p, b, times), s, t);
            passed > 0 ==> passed as real <= Budget(p, b, u, t) + Drip(p, Backward([u] + times))
    decreases |times|
  {
    hide TryTake, Budget, Drip, Verdicts, PassedWithin;
    if times == [] {
      NothingPassed(p, b, s, t);
    } else {
      var w, rest := times[0], times[1..];
      var (next, ok) := TryTake(p, b, w);
      PaidFor(p, next, rest, w, s, t);
      PassedFirst(p, b, times, s, t);
      TakePays(p, b, u, w, t);
      if ok && s <= w <= t { TakenLeavesBudget(p, b, w, t); }
      assert times == [w] + rest && ([u] + times)[1..] == times;
      DripSum(p, Elapsed(w, u), Backward(times));
      DripPositive(p, Backward(times));
    }
  }

  lemma NothingPassed(p: Params, b: Bucket, s: real, t: real)
    ensures PassedWithin([], Verdicts(p, b, []), s, t) == 0
  {
  }

  /** burst + limit * length, where a negative burst counts as none. */
  function WindowAllowance(p: Params, length: real): real {
    (if p.burst >= 0 then p.burst as real else 0.0) + length * p.limit
  }

  lemma AllowanceIs(p: Params, length: real)
    ensures WindowAllowance(p, length) == (if p.burst >= 0 then p.burst as real else 0.0) + Drip(p, length)
  {
  }

  /** From its first reading in the window on, a bucket pays out of at most a full burst. */
  lemma PaidFromStart(p: Params, b: Bucket, times: seq<real>, s: real, t: real)
    requires p.limit >= 0.0 && times != [] && s <= times[0] <= t
    ensures PassedWithin(times, Verdicts(p, b, times), s, t) as real <= WindowAllowance(p, t - s + Backward(times))
  {
    hide TryTake, Drip, Verdicts, PassedWithin;
    var w, d := times[0], Backward(times);
    PaidFor(p, b, times, w, s, t);
    assert ([w] + times)[1..] == times && Backward([w] + times) == d;
    DripSum(p, t - w, d);
    DripGrows(p, t - w + d, t - s + d);
    DripPositive(p, t - s + d);
    hide WindowAllowance;
    AllowanceIs(p, t - s + d);
  }

  /** The window theorem. Whatever the clock readings are, and in whatever order they reach the
      bucket, the requests that pass with readings in a window number at most burst + limit *
      (length of the window + total backward movement of the readings). */
  lemma {:induction false} WindowBound(p: Params, b: Bucket, times: seq<real>, s: real, t: real)
    requires p.limit >= 0.0 && s <= t
    ensures PassedWithin(times, Verdicts(p, b, times), s, t) as real <= WindowAllowance(p, t - s + Backward(times))
    decreases |times|
  {
    hide TryTake, Drip, Verdicts, PassedWithin;
    DripPositive(p, t - s + Backward(times));
    hide WindowAllowance;
    AllowanceIs(p, t - s + Backward(times));
    if times == [] {
      NothingPassed(p, b, s, t);
    } else if s <= times[0] <= t {
      PaidFromStart(p, b, times, s, t);
    } else {
      PassedFirst(p, b, times, s, t);
      WindowBound(p, TryTake(p, b, times[0]).0, times[1..], s, t);
      DripGrows(p, t - s + Backward(times[1..]), t - s + Backward(times));
      AllowanceIs(p, t - s + Backward(times[1..]));
    }
  }

  /** With readings in order this is burst + limit * length. */
  lemma WindowBoundInOrder(p: Params, b: Bucket, times: seq<real>, s: real, t: real)
    requires p.limit >= 0.0 && s <= t && NonDecreasing(times)
    ensures PassedWithin(times, Verdicts(p, b, times), s, t) as real <= WindowAllowance(p, t - s)
  {
    hide PassedWithin, Verdicts;
    WindowBound(p, b, times, s, t);
    NeverBackward(times);
  }

  // ---- The bound is the only reason to refuse ----

  /** How far the clock moves forward over a sequence of readings, in all. */
  function Forward(times: seq<real>): (d: real)
    ensures d >= 0.0
    ensures times != [] ==> d == times[|times| - 1] - times[0] + Backward(times)
  {
    if |times| < 2 then 0.0 else Elapsed(times[0], times[1]) + Forward(times[1..])
  }

  lemma {:induction false} ForwardOneMore(times: seq<real>, t: real, w: real)
    ensures Forward(times + [t] + [w]) == Forward(times + [t]) + Elapsed(t, w)
  {
    if times == [] {
      assert [] + [t] + [w] == [t, w] && [t, w][1..] == [w] && [] + [t] == [t];
    } else {
      ForwardOneMore(times[1..], t, w);
      assert (times + [t] + [w])[1..] == times[1..] + [t] + [w] && (times + [t])[1..] == times[1..] + [t];
    }
  }

  /** The readings of the requests that passed. */
  function Passed(times: seq<real>, verdicts: seq<bool>): seq<real>
    requires |times| == |verdicts|
  {
    if times == [] then []
    else
      var n := |times| - 1;
      Passed(times[..n], verdicts[..n]) + (if verdicts[n] then [times[n]] else [])
  }

  lemma PassedOneMore(times: seq<real>, verdicts: seq<bool>, w: real, ok: bool)
    requires |times| == |verdicts|
    ensures Passed(times + [w], verdicts + [ok])
            == if ok then Passed(times, verdicts) + [w] else Passed(times, verdicts)
  {
    assert (times + [w])[..|times|] == times && (verdicts + [ok])[..|times|] == verdicts;
    assert !ok ==> Passed(times, verdicts) + [] == Passed(times, verdicts);
  }

  /** What the bound leaves at reading w of the stretch from the k-th passed request on. */
  function StretchLeft(p: Params, passed: seq<real>, k: nat, w: real): real
    requires k <= |passed|
  {
    p.burst as real - (|passed| - k) as real + Drip(p, Forward(passed[k..] + [w]))
  }

  lemma EmptyStretch(p: Params, passed: seq<real>, w: real)
    ensures StretchLeft(p, passed, |passed|, w) == p.burst as real
  {
    assert passed[|passed|..] + [w] == [w];
  }

  lemma StretchGrows(p: Params, passed: seq<real>, k: nat, t: real, w: real)
    requires k <= |passed|
    ensures StretchLeft(p, passed + [t], k, w) == StretchLeft(p, passed, k, t) - 1.0 + Drip(p, Elapsed(t, w))
  {
    hide Drip;
    assert (passed + [t])[k..] == passed[k..] + [t];
    ForwardOneMore(passed[k..], t, w);
    DripSum(p, Forward(passed[k..] + [t]), Elapsed(t, w));
  }

  lemma AvailableAfter(p: Params, b: Bucket, t: real, w: real)
    ensures var (next, ok) := TryTake(p, b, t);
            if ok
            then Available(p, next, w) == Min(p.burst as real, Available(p, b, t) - 1.0 + Drip(p, Elapsed(t, w)))
            else next == b
  {
  }

  ghost predicate Tightest(p: Params, passed: seq<real>, w: real, left: real) {
    && (forall k :: 0 <= k <= |passed| ==> left <= StretchLeft(p, passed, k, w))
    && (exists k :: 0 <= k <= |passed| && left == StretchLeft(p, passed, k, w))
  }

  /** A bucket holds exactly what its tightest stretch has left. */
  lemma {:induction false} BucketIsTightest(p: Params, times: seq<real>, w: real)
    requires p.limit >= 0.0
    ensures var b := NewBucket(p);
            Tightest(p, Passed(times, Verdicts(p, b, times)), w, Available(p, After(p, b, times), w))
    decreases |times|
  {
    hide Drip, StretchLeft, TryTake, Available, After, Verdicts, NewBucket, Passed, Tightest;
    var b := NewBucket(p);
    if times == [] {
      FreshIsTightest(p, w);
    } else {
      var before, t := times[..|times| - 1], times[|times| - 1];
      var passed, was := Passed(before, Verdicts(p, b, before)), After(p, b, before);
      assert times == before + [t];
      OneMore(p, b, before, t);
      PassedOneMore(before, Verdicts(p, b, before), t, TryTake(p, was, t).1);
      AvailableAfter(p, was, t, w);
      if TryTake(p, was, t).1 {
        BucketIsTightest(p, before, t);
        TightestGrows(p, passed, t, Available(p, was, t), w);
      } else {
        BucketIsTightest(p, before, w);
      }
    }
  }

  lemma FreshIsTightest(p: Params, w: real)
    requires p.limit >= 0.0
    ensures var b := NewBucket(p);
            Tightest(p, Passed([], Verdicts(p, b, [])), w, Available(p, After(p, b, []), w))
  {
    hide Drip;
    DripPositive(p, Elapsed(0.0, w));
    EmptyStretch(p, [], w);
  }

  lemma TightestGrows(p: Params, passed: seq<real>, t: real, left: real, w: real)
    requires Tightest(p, passed, t, left)
    ensures Tightest(p, passed + [t], w, Min(p.burst as real, left - 1.0 + Drip(p, Elapsed(t, w))))
  {
    hide StretchLeft, Drip;
    var n, all := |passed| + 1, passed + [t];
    var now := Min(p.burst as real, left - 1.0 + Drip(p, Elapsed(t, w)));
    EmptyStretch(p, all, w);
    forall k | 0 <= k <= n ensures now <= StretchLeft(p, all, k, w) {
      if k < n { StretchGrows(p, passed, k, t, w); }
    }
    var k :| 0 <= k <= |passed| && left == StretchLeft(p, passed, k, t);
    StretchGrows(p, passed, k, t, w);
    assert now == StretchLeft(p, all, k, w) || now == StretchLeft(p, all, n, w);
  }

  /** Passing at reading w would break no stretch's bound: in every stretch of passed requests
      that ends with this one, with it counted, there are at most burst + limit * (forward
      movement of the clock over the stretch). */
  ghost predicate RoomInEveryStretch(p: Params, passed: seq<real>, w: real) {
    forall k :: 0 <= k <= |passed| ==> RoomInStretch(p, passed, k, w)
  }

  predicate RoomInStretch(p: Params, passed: seq<real>, k: nat, w: real)
    requires k <= |passed|
  {
    (|passed| - k + 1) as real <= p.burst as real + Forward(passed[k..] + [w]) * p.limit
  }

  lemma RoomIsLeft(p: Params, passed: seq<real>, k: nat, w: real)
    requires k <= |passed|
    ensures StretchLeft(p, passed, k, w) >= 1.0 <==> RoomInStretch(p, passed, k, w)
  {
    hide Forward;
  }

  /** The limiter is exact, for every order of clock readings: a request passes if and only if
      there is room for it in every stretch that ends with it. */
  lemma PassesIffRoom(p: Params, times: seq<real>, w: real)
    requires p.limit >= 0.0
    ensures TryTake(p, After(p, NewBucket(p), times), w).1
            <==> RoomInEveryStretch(p, Passed(times, Verdicts(p, NewBucket(p), times)), w)
  {
    hide StretchLeft, RoomInStretch, Drip, After, Verdicts, Passed;
    var passed := Passed(times, Verdicts(p, NewBucket(p), times));
    BucketIsTightest(p, times, w);
    EmptyStretch(p, passed, w);
    forall k | 0 <= k <= |passed| ensures StretchLeft(p, passed, k, w) >= 1.0 <==> RoomInStretch(p, passed, k, w) {
      RoomIsLeft(p, passed, k, w);
    }
    var k :| 0 <= k <= |passed| && Available(p, After(p, NewBucket(p), times), w) == StretchLeft(p, passed, k, w);
  }

  // ---- With readings in order, stretches are windows ----

  /** Passing at reading w would break no window's bound. */
  ghost predicate RoomInEveryWindow(p: Params, times: seq<real>, verdicts: seq<bool>, w: real)
    requires |times| == |verdicts|
  {
    forall s :: s <= w ==> RoomInWindow(p, times, verdicts, s, w)
  }

  predicate RoomInWindow(p: Params, times: seq<real>, verdicts: seq<bool>, s: real, w: real)
    requires |times| == |verdicts|
  {
    PassedWithin(times, verdicts, s, w) as real + 1.0 <= p.burst as real + (w - s) * p.limit
  }

  lemma InOrderLater(a: seq<real>, t: real, w: real)
    requires NonDecreasing(a + [t]) && t <= w
    ensures NonDecreasing(a + [w]) && NonDecreasing(a + [t] + [w])
  {
    var all := a + [t];
    forall i | 0 <= i < |a| ensures a[i] <= t { assert all[i] == a[i] && all[|a|] == t; }
    forall i, j | 0 <= i < j < |a| ensures a[i] <= a[j] { assert all[i] == a[i] && all[j] == a[j]; }
  }

  lemma InOrderPrefix(a: seq<real>, n: nat)
    requires n <= |a| && NonDecreasing(a)
    ensures NonDecreasing(a[..n])
  {
  }

  lemma {:induction false} PassedInOrder(times: seq<real>, verdicts: seq<bool>, w: real)
    requires |times| == |verdicts| && NonDecreasing(times + [w])
    ensures NonDecreasing(Passed(times, verdicts) + [w])
    decreases |times|
  {
    if times != [] {
      hide NonDecreasing;
      var n := |times| - 1;
      var t := times[n];
      InOrderPrefix(times + [w], n + 1);
      assert times[..n] + [t] == (times + [w])[..n + 1];
      PassedInOrder(times[..n], verdicts[..n], t);
      LastInOrder(times, w);
      assert t in times;
      InOrderLater(Passed(times[..n], verdicts[..n]), t, w);
      assert !verdicts[n] ==> Passed(times, verdicts) == Passed(times[..n], verdicts[..n]);
    }
  }

  lemma LastInOrder(times: seq<real>, w: real)
    requires NonDecreasing(times + [w])
    ensures forall t <- times :: t <= w
  {
    forall t | t in times ensures t <= w {
      var i :| 0 <= i < |times| && times[i] == t;
      assert (times + [w])[i] == t && (times + [w])[|times|] == w;
    }
  }

  /** Of readings in order, those from s on are a suffix. */
  lemma {:induction false} PassedSince(times: seq<real>, verdicts: seq<bool>, s: real, w: real) returns (k: nat)
    requires |times| == |verdicts| && forall t <- times :: t <= w
    requires NonDecreasing(Passed(times, verdicts))
    ensures PassedWithin(times, verdicts, s, w) + k == |Passed(times, verdicts)|
    ensures SplitsAt(Passed(times, verdicts), k, s)
    decreases |times|
  {
    if times == [] {
      k := 0;
    } else {
      hide NonDecreasing, PassedWithin;
      var n := |times| - 1;
      var before, v, t, ok := times[..n], verdicts[..n], times[n], verdicts[n];
      var passed, all := Passed(before, v), Passed(times, verdicts);
      assert times == before + [t] && verdicts == v + [ok];
      assert t in times && forall x <- before :: x in times;
      CountOneMore(before, v, t, ok, s, w);
      assert all == if ok then passed + [t] else passed;
      hide Passed;
      assert all[..|passed|] == passed;
      InOrderPrefix(all, |passed|);
      k := PassedSince(before, v, s, w);
      if ok { k := SplitLater(passed, k, s, t); }
    }
  }

  predicate SplitsAt(passed: seq<real>, k: nat, s: real) {
    && k <= |passed|
    && (forall i :: 0 <= i < k ==> passed[i] < s)
    && (forall i :: k <= i < |passed| ==> passed[i] >= s)
  }

  lemma SplitLater(passed: seq<real>, k: nat, s: real, t: real) returns (j: nat)
    requires SplitsAt(passed, k, s) && NonDecreasing(passed + [t])
    ensures SplitsAt(passed + [t], j, s)
    ensures j == if t >= s then k else k + 1
  {
    var all := passed + [t];
    if k < |passed| { assert all[k] == passed[k] && all[k] <= all[|passed|]; }
    j := if t >= s then k else k + 1;
  }

  lemma {:induction false} CountOneMore(times: seq<real>, verdicts: seq<bool>, w: real, ok: bool, s: real, t: real)
    requires |times| == |verdicts|
    ensures PassedWithin(times + [w], verdicts + [ok], s, t)
            == PassedWithin(times, verdicts, s, t) + (if ok && s <= w <= t then 1 else 0)
  {
    if times == [] {
      assert [w][1..] == [] && [ok][1..] == [];
    } else {
      assert (times + [w])[1..] == times[1..] + [w] && (verdicts + [ok])[1..] == verdicts[1..] + [ok];
      CountOneMore(times[1..], verdicts[1..], w, ok, s, t);
    }
  }

  lemma ForwardInOrder(passed: seq<real>, k: nat, w: real)
    requires k < |passed| && NonDecreasing(passed + [w])
    ensures Forward(passed[k..] + [w]) == w - passed[k]
  {
    var stretch, all := passed[k..] + [w], passed + [w];
    assert stretch == all[k..] && stretch[0] == passed[k];
    NeverBackward(stretch);
  }

  lemma RateGrows(limit: real, d: real, e: real)
    requires limit >= 0.0 && d <= e
    ensures d * limit <= e * limit
  {
  }

  lemma ForwardNow(passed: seq<real>, w: real)
    ensures Forward(passed[|passed|..] + [w]) == 0.0
  {
    assert passed[|passed|..] + [w] == [w];
  }

  /** What fits into a shorter time fits into a longer one. */
  lemma RoomGrows(p: Params, times: seq<real>, verdicts: seq<bool>, s: real, w: real, d: real)
    requires p.limit >= 0.0 && |times| == |verdicts| && d <= w - s
    requires PassedWithin(times, verdicts, s, w) as real + 1.0 <= p.burst as real + d * p.limit
    ensures RoomInWindow(p, times, verdicts, s, w)
  {
    hide PassedWithin;
    RateGrows(p.limit, d, w - s);
  }

  /** With readings in order, room in every stretch is room in every window. */
  lemma StretchesAreWindows(p: Params, times: seq<real>, verdicts: seq<bool>, w: real)
    requires p.limit >= 0.0 && |times| == |verdicts| && NonDecreasing(times + [w])
    ensures RoomInEveryStretch(p, Passed(times, verdicts), w) <==> RoomInEveryWindow(p, times, verdicts, w)
  {
    hide Passed, PassedWithin, Forward, NonDecreasing, RoomInWindow, RoomInStretch;
    var passed := Passed(times, verdicts);
    PassedInOrder(times, verdicts, w);
    LastInOrder(times, w);
    if RoomInEveryStretch(p, passed, w) {
      forall s | s <= w ensures RoomInWindow(p, times, verdicts, s, w) { WindowFromStretch(p, times, verdicts, s, w); }
    }
    if RoomInEveryWindow(p, times, verdicts, w) {
      forall k | 0 <= k <= |passed| ensures RoomInStretch(p, passed, k, w) { StretchFromWindow(p, times, verdicts, k, w); }
    }
  }

  lemma WindowFromStretch(p: Params, times: seq<real>, verdicts: seq<bool>, s: real, w: real)
    requires p.limit >= 0.0 && |times| == |verdicts| && s <= w && forall t <- times :: t <= w
    requires NonDecreasing(Passed(times, verdicts) + [w]) && RoomInEveryStretch(p, Passed(times, verdicts), w)
    ensures RoomInWindow(p, times, verdicts, s, w)
  {
    hide Passed, PassedWithin, Forward, NonDecreasing;
    var passed := Passed(times, verdicts);
    assert (passed + [w])[..|passed|] == passed;
    InOrderPrefix(passed + [w], |passed|);
    var k := PassedSince(times, verdicts, s, w);
    var d := Forward(passed[k..] + [w]);
    assert RoomInStretch(p, passed, k, w);
    assert (|passed| - k + 1) as real == PassedWithin(times, verdicts, s, w) as real + 1.0;
    if k < |passed| { ForwardInOrder(passed, k, w); } else { ForwardNow(passed, w); }
    assert d <= w - s;
    hide RoomInWindow;
    RoomGrows(p, times, verdicts, s, w, d);
  }

  lemma StretchFromWindow(p: Params, times: seq<real>, verdicts: seq<bool>, k: nat, w: real)
    requires |times| == |verdicts| && k <= |Passed(times, verdicts)| && forall t <- times :: t <= w
    requires NonDecreasing(Passed(times, verdicts) + [w]) && RoomInEveryWindow(p, times, verdicts, w)
    ensures RoomInStretch(p, Passed(times, verdicts), k, w)
  {
    hide Passed, PassedWithin, Forward, NonDecreasing;
    var passed := Passed(times, verdicts);
    assert (passed + [w])[..|passed|] == passed;
    InOrderPrefix(passed + [w], |passed|);
    LastInOrder(passed, w);
    if k < |passed| {
      var s := passed[k];
      assert s in passed && RoomInWindow(p, times, verdicts, s, w);
      var j := PassedSince(times, verdicts, s, w);
      assert j <= k;
      ForwardInOrder(passed, k, w);
    } else {
      assert RoomInWindow(p, times, verdicts, w, w);
      ForwardNow(passed, w);
    }
  }

  lemma OneAtATime(p: Params, b: Bucket, t: real, rest: seq<real>, s: real, e: real)
    ensures var (next, ok) := TryTake(p, b, t);
            PassedWithin([t] + rest, Verdicts(p, b, [t] + rest), s, e)
            == (if ok && s <= t <= e then 1 else 0) + PassedWithin(rest, Verdicts(p, next, rest), s, e)
  {
    var (next, ok) := TryTake(p, b, t);
    assert ([t] + rest)[1..] == rest;
    assert Verdicts(p, b, [t] + rest)[1..] == Verdicts(p, next, rest);
  }

  /** Backward movement does let more pass: a clock that steps back and forth again refills the
      bucket for time that passed only once, and three requests pass at one instant through a
      burst of two. */
  lemma BackwardClockBreaksBound()
    ensures var p := Params(1.0, 2);
            var times := [10.0] + ([0.0] + ([10.0] + ([10.0] + [])));
            PassedWithin(times, Verdicts(p, NewBucket(p), times), 10.0, 10.0) == 3
  {
    var p := Params(1.0, 2);
    OneAtATime(p, Bucket(2.0, 0.0), 10.0, [0.0] + ([10.0] + ([10.0] + [])), 10.0, 10.0);
    OneAtATime(p, Bucket(1.0, 10.0), 0.0, [10.0] + ([10.0] + []), 10.0, 10.0);
    OneAtATime(p, Bucket(0.0, 0.0), 10.0, [10.0] + [], 10.0, 10.0);
    OneAtATime(p, Bucket(1.0, 10.0), 10.0, [], 10.0, 10.0);
  }

  // ---- The classes ----

  /** rate.Limiter */
  class TokenBucket {
    const params: Params
    var tokens: real
    var last: real

    constructor (p: Params)
      ensures params == p && State() == NewBucket(p)
    {
      params := p;
      tokens := p.burst as real;
      last := 0.0;
    }

    function State(): Bucket
      reads this
    {
      Bucket(tokens, last)
    }

    method Allow(t: real) returns (ok: bool)
      modifies this
      ensures (State(), ok) == TryTake(params, old(State()), t)
    {
      var since := last;
      if t < since { since := t; }
      var available := tokens + Drip(params, t - since);
      if available > params.burst as real { available := params.burst as real; }
      assert available == Available(params, State(), t);
      available := available - 1.0;
      ok := 1 <= params.burst && available >= 0.0;
      if ok {
        last := t;
        tokens := available;
      }
    }
  }

  /** The buckets as values: what a caller can observe of the map. */
  type Contents = map<string, Bucket>

  function BucketOf(p: Params, m: Contents, key: string): Bucket {
    if key in m then m[key] else NewBucket(p)
  }

  class KeyedLimiter {
    const params: Params
    var limits: map<string, TokenBucket>

    constructor (p: Params)
      ensures Valid() && params == p && limits == map[]
    {
      params := p;
      limits := map[];
    }

    /** Every bucket has this limiter's parameters, and no two keys share one. */
    ghost predicate Valid()
      reads this
    {
      && (forall k :: k in limits ==> limits[k].params == params)
      && (forall j, k :: j in limits && k in limits && limits[j] == limits[k] ==> j == k)
    }

    ghost function Buckets(): set<object>
      reads this
    {
      set k | k in limits :: limits[k]
    }

    ghost function Contents(): Contents
      reads this, Buckets()
    {
      map k | k in limits :: limits[k].State()
    }

    /** Get or create, in one locked step. */
    method Limit(key: string) returns (limiter: TokenBucket)
      requires Valid()
      modifies this
      ensures Valid() && limits == old(limits)[key := limiter]
      ensures key in old(limits) ==> limiter == old(limits)[key]
      ensures key !in old(limits) ==> fresh(limiter)
      ensures Contents() == old(Contents())[key := BucketOf(params, old(Contents()), key)]
    {
      if key in limits {
        limiter := limits[key];
      } else {
        limiter := new TokenBucket(params);
        limits := limits[key := limiter];
      }
    }

    /** Allow on the bucket of a key that has one. */
    method Judge(key: string, t: real) returns (ok: bool)
      requires Valid() && key in limits
      modifies limits[key]
      ensures Valid() && limits == old(limits)
      ensures (Contents()[key], ok) == TryTake(params, old(Contents()[key]), t)
      ensures Contents() == old(Contents())[key := Contents()[key]]
    {
      hide TryTake;
      ok := limits[key].Allow(t);
    }

    /** The two limiter lines of the proxy handler. */
    method Pass(key: string, t: real) returns (ok: bool)
      requires Valid()
      modifies this, Buckets()
      ensures Valid()
      ensures var judged := TryTake(params, BucketOf(params, old(Contents()), key), t);
              ok == judged.1 && Contents() == old(Contents())[key := judged.0]
      ensures fresh(Buckets() - old(Buckets()))
    {
      hide TryTake, BucketOf;
      var limiter := Limit(key);
      ok := Judge(key, t);
    }
  }
}
