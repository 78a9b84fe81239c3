/** Requests served by many goroutines at once. A request is decided, then looks up its
    bucket in one locked step, then takes a token in another; steps of different
    goroutines interleave freely, and only the lookup holds the map's lock. The clock reading
    that comes with a token was made earlier, so readings may arrive in any order. */
module LimiterRuns {
  import opened Text
  import opened RateLimiter
  import opened Gate

  /** Where a goroutine stands between its decision and its answer: it wants the bucket of
      its key, or it holds a reference to a bucket. */
  datatype Stage = Wants | Holds(bucket: nat)
  datatype Thread = Thread(request: Request, key: string, stage: Stage)

  datatype Entry =
    | Answered(g: nat, request: Request, reply: Reply)
    | Judged(g: nat, request: Request, key: string, time: real, passed: bool)
  {
    /** What the client got. */
    function Outcome(): Reply { if Answered? then reply else if passed then Upstream else RateLimited }

    predicate ReachedUpstream() { Outcome().Upstream? }
  }

  datatype State = State(
    limits: map<string, nat>,
    buckets: seq<Bucket>,
    threads: map<nat, Thread>,
    log: seq<Entry>)

  datatype Event = Arrive(g: nat, request: Request) | Lookup(g: nat) | Take(g: nat, time: real)

  const START := State(map[], [], map[], [])

  function ParamsOf(c: Server): Params {
    if c.limiter.Some? then c.limiter.value else Params(0.0, 0)
  }

  /** One step. An event that its goroutine is not ready for changes nothing. */
  function Step(c: Server, s: State, e: Event): State {
    match e
    case Arrive(g, r) => if g in s.threads then s else DoArrive(c, s, g, r)
    case Lookup(g) => if g in s.threads && s.threads[g].stage.Wants? then DoLookup(c, s, g) else s
    case Take(g, t) =>
      if g in s.threads && s.threads[g].stage.Holds? && s.threads[g].stage.bucket < |s.buckets|
      then DoTake(c, s, g, t) else s
  }

  function DoArrive(c: Server, s: State, g: nat, r: Request): State {
    match Decide(c, r)
    case Answer(reply) => s.(log := s.log + [Answered(g, r, reply)])
    case Forward => s.(log := s.log + [Answered(g, r, Upstream)])
    case ToLimiter(key) => s.(threads := s.threads[g := Thread(r, key, Wants)])
  }

  function DoLookup(c: Server, s: State, g: nat): State
    requires g in s.threads
  {
    var th := s.threads[g];
    if th.key in s.limits then s.(threads := s.threads[g := th.(stage := Holds(s.limits[th.key]))])
    else
      var id := |s.buckets|;
      s.(limits := s.limits[th.key := id],
         buckets := s.buckets + [NewBucket(ParamsOf(c))],
         threads := s.threads[g := th.(stage := Holds(id))])
  }

  function DoTake(c: Server, s: State, g: nat, t: real): State
    requires g in s.threads && s.threads[g].stage.Holds? && s.threads[g].stage.bucket < |s.buckets|
  {
    var th := s.threads[g];
    var (next, passed) := TryTake(ParamsOf(c), s.buckets[th.stage.bucket], t);
    s.(buckets := s.buckets[th.stage.bucket := next],
       threads := s.threads - {g},
       log := s.log + [Judged(g, th.request, th.key, t, passed)])
  }

  function Run(c: Server, s: State, events: seq<Event>): State
    decreases |events|
  {
    if events == [] then s else Run(c, Step(c, s, events[0]), events[1..])
  }

  // ---- One bucket per key ----

  ghost predicate Owned(limits: map<string, nat>, id: nat) {
    exists k :: k in limits && limits[k] == id
  }

  /** Every bucket belongs to exactly one key, and whoever holds a bucket holds the one
      that the map gives its key. */
  ghost predicate OneBucketPerKey(s: State) {
    && (forall k :: k in s.limits ==> s.limits[k] < |s.buckets|)
    && (forall j, k :: j in s.limits && k in s.limits && s.limits[j] == s.limits[k] ==> j == k)
    && (forall id :: 0 <= id < |s.buckets| ==> Owned(s.limits, id))
    && (forall g :: g in s.threads && s.threads[g].stage.Holds? ==>
          && s.threads[g].key in s.limits
          && s.limits[s.threads[g].key] == s.threads[g].stage.bucket)
  }

  ghost predicate KeepsLimits(s: State, s': State) {
    forall k :: k in s.limits ==> k in s'.limits && s'.limits[k] == s.limits[k]
  }

  lemma LookupKeepsBuckets(c: Server, s: State, g: nat)
    requires OneBucketPerKey(s) && g in s.threads
    ensures OneBucketPerKey(DoLookup(c, s, g)) && KeepsLimits(s, DoLookup(c, s, g))
  {
    hide NewBucket;
    var s', key := DoLookup(c, s, g), s.threads[g].key;
    assert key in s'.limits;
    assert KeepsLimits(s, s');
    forall id | 0 <= id < |s'.buckets| ensures Owned(s'.limits, id) {
      if id < |s.buckets| {
        assert Owned(s.limits, id);
        var k :| k in s.limits && s.limits[k] == id;
        assert k in s'.limits && s'.limits[k] == id;
      } else {
        assert s'.limits[key] == id;
      }
    }
  }

  lemma StepKeepsBuckets(c: Server, s: State, e: Event)
    requires OneBucketPerKey(s)
    ensures OneBucketPerKey(Step(c, s, e)) && KeepsLimits(s, Step(c, s, e))
  {
    hide TryTake, NewBucket, Decide, DoLookup;
    var s' := Step(c, s, e);
    if e.Lookup? {
      if e.g in s.threads { LookupKeepsBuckets(c, s, e.g); }
    } else {
      assert s'.limits == s.limits && |s'.buckets| == |s.buckets|;
      assert forall g :: g in s'.threads && s'.threads[g].stage.Holds? ==> g in s.threads && s'.threads[g] == s.threads[g];
    }
  }

  /** However the goroutines interleave, a key that has a bucket keeps that one for ever,
      and keys never share. */
  lemma {:induction false} RunKeepsBuckets(c: Server, s: State, events: seq<Event>)
    requires OneBucketPerKey(s)
    ensures OneBucketPerKey(Run(c, s, events))
    ensures KeepsLimits(s, Run(c, s, events))
    decreases |events|
  {
    if events != [] {
      StepKeepsBuckets(c, s, events[0]);
      RunKeepsBuckets(c, Step(c, s, events[0]), events[1..]);
    }
  }

  // ---- What the limiter did to one key ----

  predicate IsOf(e: Entry, key: string) { e.Judged? && e.key == key }

  function TimesOf(log: seq<Entry>, key: string): seq<real> {
    if log == [] then []
    else
      var e, times := log[|log| - 1], TimesOf(log[..|log| - 1], key);
      if IsOf(e, key) then times + [e.time] else times
  }

  function VerdictsOf(log: seq<Entry>, key: string): (v: seq<bool>)
    ensures |v| == |TimesOf(log, key)|
  {
    if log == [] then []
    else
      var e, verdicts := log[|log| - 1], VerdictsOf(log[..|log| - 1], key);
      if IsOf(e, key) then verdicts + [e.passed] else verdicts
  }

  lemma LogGrows(log: seq<Entry>, e: Entry, key: string)
    ensures TimesOf(log + [e], key) == if IsOf(e, key) then TimesOf(log, key) + [e.time] else TimesOf(log, key)
    ensures VerdictsOf(log + [e], key) == if IsOf(e, key) then VerdictsOf(log, key) + [e.passed] else VerdictsOf(log, key)
  {
    assert (log + [e])[..|log|] == log;
  }

  /** The key's bucket and verdicts are those of a private bucket that saw only the key's
      own requests, at the times of their Take steps. */
  ghost predicate LikePrivate(c: Server, s: State, key: string) {
    var p, times := ParamsOf(c), TimesOf(s.log, key);
    && VerdictsOf(s.log, key) == Verdicts(p, NewBucket(p), times)
    && (key in s.limits ==> s.limits[key] < |s.buckets| && s.buckets[s.limits[key]] == After(p, NewBucket(p), times))
    && (key !in s.limits ==> times == [])
  }

  lemma TakeLikePrivate(c: Server, s: State, g: nat, t: real, key: string)
    requires OneBucketPerKey(s) && LikePrivate(c, s, key)
    requires g in s.threads && s.threads[g].stage.Holds?
    ensures LikePrivate(c, DoTake(c, s, g, t), key)
  {
    hide TryTake, NewBucket, TimesOf, VerdictsOf, After, Verdicts;
    var s' := DoTake(c, s, g, t);
    var entry := s'.log[|s.log|];
    assert s'.log == s.log + [entry];
    LogGrows(s.log, entry, key);
    if entry.key == key {
      OneMore(ParamsOf(c), NewBucket(ParamsOf(c)), TimesOf(s.log, key), t);
    }
  }

  lemma ArriveLikePrivate(c: Server, s: State, g: nat, r: Request, key: string)
    requires LikePrivate(c, s, key)
    ensures LikePrivate(c, DoArrive(c, s, g, r), key)
  {
    hide NewBucket, Decide, TimesOf, VerdictsOf, After, Verdicts;
    var s' := DoArrive(c, s, g, r);
    if s'.log != s.log {
      assert s'.log == s.log + [s'.log[|s.log|]];
      LogGrows(s.log, s'.log[|s.log|], key);
    }
  }

  lemma LookupLikePrivate(c: Server, s: State, g: nat, key: string)
    requires OneBucketPerKey(s) && LikePrivate(c, s, key) && g in s.threads
    ensures LikePrivate(c, DoLookup(c, s, g), key)
  {
    assert After(ParamsOf(c), NewBucket(ParamsOf(c)), []) == NewBucket(ParamsOf(c));
    hide NewBucket, TimesOf, VerdictsOf, After, Verdicts;
  }

  lemma StepLikePrivate(c: Server, s: State, e: Event, key: string)
    requires OneBucketPerKey(s) && LikePrivate(c, s, key)
    ensures LikePrivate(c, Step(c, s, e), key)
  {
    hide DoTake, DoArrive, DoLookup, LikePrivate, OneBucketPerKey;
    match e {
      case Take(g, t) =>
        if g in s.threads && s.threads[g].stage.Holds? { TakeLikePrivate(c, s, g, t, key); }
      case Arrive(g, r) =>
        if g !in s.threads { ArriveLikePrivate(c, s, g, r, key); }
      case Lookup(g) =>
        if g in s.threads { LookupLikePrivate(c, s, g, key); }
    }
  }

  /** Under every interleaving, the verdicts for a key are those of a private bucket. */
  lemma {:induction false} RunLikePrivate(c: Server, s: State, events: seq<Event>, key: string)
    requires OneBucketPerKey(s) && LikePrivate(c, s, key)
    ensures LikePrivate(c, Run(c, s, events), key)
    decreases |events|
  {
    if events != [] {
      StepKeepsBuckets(c, s, events[0]);
      StepLikePrivate(c, s, events[0], key);
      RunLikePrivate(c, Step(c, s, events[0]), events[1..], key);
    }
  }

  /** The rate limit as a promise about whole runs: in every window of every interleaving, and
      in whatever order racing requests bring their clock readings to the bucket, the requests
      with a given key that pass number at most burst + limit * (length + total backward movement
      of the key's readings). With readings in order that is burst + limit * length. */
  lemma RunWindowBound(c: Server, events: seq<Event>, key: string, from: real, to: real)
    requires ParamsOf(c).limit >= 0.0 && from <= to
    ensures var log := Run(c, START, events).log;
            var times := TimesOf(log, key);
            var passed := PassedWithin(times, VerdictsOf(log, key), from, to) as real;
            && passed <= WindowAllowance(ParamsOf(c), to - from + Backward(times))
            && (NonDecreasing(times) ==> passed <= WindowAllowance(ParamsOf(c), to - from))
  {
    RunLikePrivate(c, START, events, key);
    hide PassedWithin, TimesOf, VerdictsOf, Backward, NonDecreasing;
    var times := TimesOf(Run(c, START, events).log, key);
    WindowBound(ParamsOf(c), NewBucket(ParamsOf(c)), times, from, to);
    if NonDecreasing(times) { WindowBoundInOrder(ParamsOf(c), NewBucket(ParamsOf(c)), times, from, to); }
  }

  /** The limiter refuses for no other reason: in every interleaving and for every order of
      readings, the next request that takes a token for a key passes if and only if there is room
      for it in every stretch of the key's passed requests that ends with it. With readings in
      order, it passes if and only if the bound has room for it in every window that ends with it. */
  lemma NextPassesIffRoom(c: Server, events: seq<Event>, g: nat, now: real)
    requires ParamsOf(c).limit >= 0.0
    requires var s := Run(c, START, events); g in s.threads && s.threads[g].stage.Holds?
    ensures var s := Run(c, START, events);
            var key, s' := s.threads[g].key, Step(c, s, Take(g, now));
            var times, verdicts := TimesOf(s.log, key), VerdictsOf(s.log, key);
            && |s'.log| == |s.log| + 1 && IsOf(s'.log[|s.log|], key)
            && (s'.log[|s.log|].passed <==> RoomInEveryStretch(ParamsOf(c), Passed(times, verdicts), now))
            && (NonDecreasing(times + [now]) ==>
                  (s'.log[|s.log|].passed <==> RoomInEveryWindow(ParamsOf(c), times, verdicts, now)))
  {
    var s := Run(c, START, events);
    var key := s.threads[g].key;
    RunKeepsBuckets(c, START, events);
    RunLikePrivate(c, START, events, key);
    hide TryTake, NewBucket, TimesOf, VerdictsOf, RoomInEveryStretch, RoomInEveryWindow, Run, Verdicts, After, Passed,
         NonDecreasing;
    var times := TimesOf(s.log, key);
    PassesIffRoom(ParamsOf(c), times, now);
    if NonDecreasing(times + [now]) {
      StretchesAreWindows(ParamsOf(c), times, VerdictsOf(s.log, key), now);
    }
  }

  // ---- Keys do not affect each other ----

  /** The key on whose behalf an event acts in a state, if it acts for one. */
  function ActsFor(c: Server, s: State, e: Event): Option<string> {
    if e.Arrive? then
      var d := Decide(c, e.request);
      if e.g !in s.threads && d.ToLimiter? then Some(d.key) else None
    else if e.g in s.threads then Some(s.threads[e.g].key)
    else None
  }

  /** The events of a run that act for one key. */
  function Projected(c: Server, s: State, events: seq<Event>, key: string): seq<Event>
    decreases |events|
  {
    if events == [] then []
    else
      (if ActsFor(c, s, events[0]) == Some(key) then [events[0]] else [])
      + Projected(c, Step(c, s, events[0]), events[1..], key)
  }

  /** Two states look the same to one key: the same goroutines work for it, at the same
      stage, and its requests were judged at the same times. The second state knows only it. */
  ghost predicate SameFor(s: State, t: State, key: string) {
    && (forall g :: g in t.threads ==> g in s.threads && s.threads[g].key == t.threads[g].key == key)
    && (forall g :: g in s.threads && s.threads[g].key == key ==>
          && g in t.threads
          && t.threads[g].request == s.threads[g].request
          && (t.threads[g].stage.Wants? <==> s.threads[g].stage.Wants?))
    && TimesOf(s.log, key) == TimesOf(t.log, key)
  }

  lemma OwnLookupSameFor(c: Server, s: State, t: State, g: nat, key: string)
    requires SameFor(s, t, key) && g in s.threads && s.threads[g].key == key
    ensures SameFor(DoLookup(c, s, g), DoLookup(c, t, g), key)
  {
    hide NewBucket, TimesOf;
  }

  lemma OwnTakeSameFor(c: Server, s: State, t: State, g: nat, time: real, key: string)
    requires OneBucketPerKey(s) && OneBucketPerKey(t) && SameFor(s, t, key)
    requires g in s.threads && s.threads[g].key == key && s.threads[g].stage.Holds?
    ensures SameFor(DoTake(c, s, g, time), DoTake(c, t, g, time), key)
  {
    hide TryTake, TimesOf, VerdictsOf;
    var s', t' := DoTake(c, s, g, time), DoTake(c, t, g, time);
    LogGrows(s.log, s'.log[|s.log|], key);
    LogGrows(t.log, t'.log[|t.log|], key);
  }

  lemma OwnStepSameFor(c: Server, s: State, t: State, e: Event, key: string)
    requires OneBucketPerKey(s) && OneBucketPerKey(t) && SameFor(s, t, key)
    requires ActsFor(c, s, e) == Some(key)
    ensures SameFor(Step(c, s, e), Step(c, t, e), key)
  {
    hide Decide, DoLookup, DoTake, TimesOf;
    match e {
      case Arrive(g, r) =>
      case Lookup(g) => OwnLookupSameFor(c, s, t, g, key);
      case Take(g, time) => if s.threads[g].stage.Holds? { OwnTakeSameFor(c, s, t, g, time, key); }
    }
  }

  lemma ForeignTakeSameFor(c: Server, s: State, t: State, g: nat, time: real, key: string)
    requires SameFor(s, t, key)
    requires g in s.threads && s.threads[g].key != key
    requires s.threads[g].stage.Holds? && s.threads[g].stage.bucket < |s.buckets|
    ensures SameFor(DoTake(c, s, g, time), t, key)
  {
    hide TryTake, TimesOf, VerdictsOf;
    LogGrows(s.log, DoTake(c, s, g, time).log[|s.log|], key);
  }

  lemma ForeignLookupSameFor(c: Server, s: State, t: State, g: nat, key: string)
    requires SameFor(s, t, key) && g in s.threads && s.threads[g].key != key
    ensures SameFor(DoLookup(c, s, g), t, key)
  {
    hide NewBucket, TimesOf;
  }

  lemma ForeignArriveSameFor(c: Server, s: State, t: State, g: nat, r: Request, key: string)
    requires SameFor(s, t, key) && g !in s.threads
    requires Decide(c, r).ToLimiter? ==> Decide(c, r).key != key
    ensures SameFor(DoArrive(c, s, g, r), t, key)
  {
    hide Decide, TimesOf, VerdictsOf, NewBucket, TryTake;
    var s' := DoArrive(c, s, g, r);
    if s'.log != s.log {
      assert s'.log == s.log + [s'.log[|s.log|]];
      LogGrows(s.log, s'.log[|s.log|], key);
    }
  }

  lemma ForeignStepSameFor(c: Server, s: State, t: State, e: Event, key: string)
    requires SameFor(s, t, key)
    requires ActsFor(c, s, e) != Some(key)
    ensures SameFor(Step(c, s, e), t, key)
  {
    hide Decide, DoArrive, DoLookup, DoTake, SameFor;
    match e {
      case Arrive(g, r) => if g !in s.threads { ForeignArriveSameFor(c, s, t, g, r, key); }
      case Lookup(g) => if g in s.threads { ForeignLookupSameFor(c, s, t, g, key); }
      case Take(g, time) => if Step(c, s, e) != s { ForeignTakeSameFor(c, s, t, g, time, key); }
    }
  }

  lemma {:induction false} RunSameFor(c: Server, s: State, t: State, events: seq<Event>, key: string)
    requires OneBucketPerKey(s) && OneBucketPerKey(t) && SameFor(s, t, key)
    ensures SameFor(Run(c, s, events), Run(c, t, Projected(c, s, events, key)), key)
    decreases |events|
  {
    if events != [] {
      hide SameFor, OneBucketPerKey, Step;
      var e := events[0];
      var rest := Projected(c, Step(c, s, e), events[1..], key);
      StepKeepsBuckets(c, s, e);
      StepKeepsBuckets(c, t, e);
      if ActsFor(c, s, e) == Some(key) {
        OwnStepSameFor(c, s, t, e, key);
        RunSameFor(c, Step(c, s, e), Step(c, t, e), events[1..], key);
        assert ([e] + rest)[1..] == rest;
      } else {
        ForeignStepSameFor(c, s, t, e, key);
        RunSameFor(c, Step(c, s, e), t, events[1..], key);
        assert Projected(c, s, events, key) == rest;
      }
    }
  }

  /** Key isolation: in every run the verdicts for a key are those of the run in which only
      that key's requests occur, whatever the other keys do. */
  lemma KeyIsolation(c: Server, events: seq<Event>, key: string)
    ensures var full := Run(c, START, events);
            var alone := Run(c, START, Projected(c, START, events, key));
            TimesOf(full.log, key) == TimesOf(alone.log, key) && VerdictsOf(full.log, key) == VerdictsOf(alone.log, key)
  {
    RunSameFor(c, START, START, events, key);
    RunLikePrivate(c, START, events, key);
    RunLikePrivate(c, START, Projected(c, START, events, key), key);
  }

  // ---- Refused requests are invisible ----

  predicate AnsweredAtGate(c: Server, e: Event) {
    e.Arrive? && Decide(c, e.request).Answer?
  }

  function WithoutAnswered(c: Server, events: seq<Event>): seq<Event> {
    if events == [] then []
    else (if AnsweredAtGate(c, events[0]) then [] else [events[0]]) + WithoutAnswered(c, events[1..])
  }

  /** A log without the requests that the gate answered. */
  function Visible(c: Server, log: seq<Entry>): seq<Entry> {
    if log == [] then []
    else
      var e, before := log[|log| - 1], Visible(c, log[..|log| - 1]);
      if Decide(c, e.request).Answer? then before else before + [e]
  }

  lemma VisibleGrows(c: Server, log: seq<Entry>, e: Entry)
    ensures Visible(c, log + [e]) == if Decide(c, e.request).Answer? then Visible(c, log) else Visible(c, log) + [e]
  {
    assert (log + [e])[..|log|] == log;
  }

  ghost predicate SameButAnswered(c: Server, s: State, t: State) {
    && s.limits == t.limits && s.buckets == t.buckets && s.threads == t.threads
    && Visible(c, s.log) == Visible(c, t.log)
  }

  lemma StepSameButAnswered(c: Server, s: State, t: State, e: Event)
    requires SameButAnswered(c, s, t)
    ensures SameButAnswered(c, Step(c, s, e), if AnsweredAtGate(c, e) then t else Step(c, t, e))
  {
    hide TryTake, NewBucket, Decide, Visible;
    var s', t' := Step(c, s, e), Step(c, t, e);
    if s'.log != s.log {
      var entry := s'.log[|s.log|];
      VisibleGrows(c, s.log, entry);
      VisibleGrows(c, t.log, entry);
      assert s'.log == s.log + [entry] && t'.log == t.log + [entry];
    }
  }

  /** Deleting every request that the gate answers - refused origins, preflights, unknown
      paths, missing or invalid keys - changes no bucket and no other request's outcome. */
  lemma {:induction false} AnsweredAreInvisible(c: Server, s: State, t: State, events: seq<Event>)
    requires SameButAnswered(c, s, t)
    ensures SameButAnswered(c, Run(c, s, events), Run(c, t, WithoutAnswered(c, events)))
    decreases |events|
  {
    if events != [] {
      var e, rest := events[0], WithoutAnswered(c, events[1..]);
      StepSameButAnswered(c, s, t, e);
      AnsweredAreInvisible(c, Step(c, s, e), if AnsweredAtGate(c, e) then t else Step(c, t, e), events[1..]);
      assert ([e] + rest)[1..] == rest;
      assert WithoutAnswered(c, events) == if AnsweredAtGate(c, e) then rest else [e] + rest;
    }
  }

  // ---- Who reaches upstream ----

  /** Every request behind the gate or in the log was decided properly. */
  ghost predicate Sound(c: Server, s: State) {
    && (forall g :: g in s.threads ==> Decide(c, s.threads[g].request) == ToLimiter(s.threads[g].key))
    && (forall e <- s.log :: e.ReachedUpstream() ==> Admissible(c, e.request))
    && (forall e <- s.log :: e.Judged? ==> Decide(c, e.request) == ToLimiter(e.key))
  }

  lemma StepSound(c: Server, s: State, e: Event)
    requires Sound(c, s)
    ensures Sound(c, Step(c, s, e))
  {
    hide TryTake, NewBucket, Decide, Admissible;
    var s' := Step(c, s, e);
    if e.Arrive? { PassesIffAdmissible(c, e.request); }
    if e.g in s.threads { PassesIffAdmissible(c, s.threads[e.g].request); }
    if s'.log != s.log {
      var entry := s'.log[|s.log|];
      assert s'.log == s.log + [entry];
    }
  }

  /** In every run, every request that reached upstream had an allowed origin and path, a
      validated key where one is required, and was counted against its own key. */
  lemma {:induction false} UpstreamIsAdmissible(c: Server, s: State, events: seq<Event>)
    requires Sound(c, s)
    ensures Sound(c, Run(c, s, events))
    decreases |events|
  {
    if events != [] {
      StepSound(c, s, events[0]);
      UpstreamIsAdmissible(c, Step(c, s, events[0]), events[1..]);
    }
  }

  // ---- The sequential handler is a special case ----

  /** The buckets by key, as the class sees them. */
  ghost function ByKey(s: State): RateLimiter.Contents
    requires OneBucketPerKey(s)
  {
    map k | k in s.limits :: s.buckets[s.limits[k]]
  }

  lemma LookupView(c: Server, s: State, g: nat)
    requires OneBucketPerKey(s) && g in s.threads && c.limiter.Some?
    ensures var key, s' := s.threads[g].key, DoLookup(c, s, g);
            && OneBucketPerKey(s') && g in s'.threads && s'.threads[g].stage.Holds?
            && ByKey(s') == ByKey(s)[key := BucketOf(ParamsOf(c), ByKey(s), key)]
            && s'.log == s.log && s'.threads == s.threads[g := s'.threads[g]]
            && s'.threads[g].key == key && s'.threads[g].request == s.threads[g].request
  {
    hide NewBucket;
    LookupKeepsBuckets(c, s, g);
  }

  lemma TakeView(c: Server, s: State, g: nat, t: real)
    requires OneBucketPerKey(s) && g in s.threads && s.threads[g].stage.Holds?
    ensures var key, s' := s.threads[g].key, DoTake(c, s, g, t);
            && OneBucketPerKey(s') && key in ByKey(s)
            && var (next, passed) := TryTake(ParamsOf(c), ByKey(s)[key], t);
            && ByKey(s') == ByKey(s)[key := next]
            && s'.log == s.log + [Judged(g, s.threads[g].request, key, t, passed)]
            && s'.threads == s.threads - {g}
  {
    hide TryTake, ByKey;
    StepKeepsBuckets(c, s, Take(g, t));
    hide OneBucketPerKey;
    HeldBucketExists(s, g);
    ByKeyAfterTake(s, g, DoTake(c, s, g, t));
  }

  lemma ByKeyAfterTake(s: State, g: nat, s': State)
    requires OneBucketPerKey(s) && OneBucketPerKey(s') && g in s.threads && s.threads[g].stage.Holds?
    requires s'.limits == s.limits && |s'.buckets| == |s.buckets|
    requires var id := s.threads[g].stage.bucket;
             id < |s.buckets| && s'.buckets == s.buckets[id := s'.buckets[id]]
    ensures var key, id := s.threads[g].key, s.threads[g].stage.bucket;
            && key in ByKey(s) && ByKey(s)[key] == s.buckets[id]
            && ByKey(s') == ByKey(s)[key := s'.buckets[id]]
  {
  }

  lemma ThreeSteps(c: Server, s: State, e0: Event, e1: Event, e2: Event)
    ensures Run(c, s, [e0, e1, e2]) == Step(c, Step(c, Step(c, s, e0), e1), e2)
  {
    hide Step;
    assert [e0, e1, e2][1..] == [e1, e2] && [e1, e2][1..] == [e2] && [e2][1..] == [];
    assert Run(c, s, [e0, e1, e2]) == Run(c, Step(c, s, e0), [e1, e2]);
    assert Run(c, Step(c, s, e0), [e1, e2]) == Run(c, Step(c, Step(c, s, e0), e1), [e2]);
  }

  /** s' is s after request r was served at time t, exactly as the handler serves it. */
  ghost predicate ServedAs(c: Server, s: State, s': State, r: Request, t: real)
    requires OneBucketPerKey(s)
  {
    && OneBucketPerKey(s') && s'.threads == s.threads
    && ByKey(s') == Serve(c, ByKey(s), r, t).1
    && |s'.log| == |s.log| + 1 && s'.log[..|s.log|] == s.log
    && s'.log[|s.log|].request == r
    && s'.log[|s.log|].Outcome() == Serve(c, ByKey(s), r, t).0
  }

  lemma LimitedIsServe(c: Server, s: State, g: nat, r: Request, t: real)
    requires OneBucketPerKey(s) && g !in s.threads && Decide(c, r).ToLimiter?
    ensures var s2 := DoLookup(c, DoArrive(c, s, g, r), g);
            && g in s2.threads && s2.threads[g].stage.Holds? && s2.threads[g].stage.bucket < |s2.buckets|
            && ServedAs(c, s, DoTake(c, s2, g, t), r, t)
  {
    hide TryTake, NewBucket, Decide, DoArrive, DoLookup, DoTake, OneBucketPerKey, ByKey, Serve;
    ArriveLimited(c, s, g, r);
    var s1 := DoArrive(c, s, g, r);
    LookupView(c, s1, g);
    var s2 := DoLookup(c, s1, g);
    TakeView(c, s2, g, t);
    HeldBucketExists(s2, g);
    ServeLimited(c, ByKey(s), r, t);
    assert s2.threads - {g} == s.threads;
  }

  lemma ArriveLimited(c: Server, s: State, g: nat, r: Request)
    requires OneBucketPerKey(s) && g !in s.threads && Decide(c, r).ToLimiter?
    ensures var s1 := DoArrive(c, s, g, r);
            && OneBucketPerKey(s1) && ByKey(s1) == ByKey(s) && s1.log == s.log
            && s1.threads == s.threads[g := Thread(r, ApiKey(r), Wants)]
  {
    hide Decide;
  }

  lemma HeldBucketExists(s: State, g: nat)
    requires OneBucketPerKey(s) && g in s.threads && s.threads[g].stage.Holds?
    ensures s.threads[g].stage.bucket < |s.buckets|
  {
  }

  lemma ServeLimited(c: Server, m: RateLimiter.Contents, r: Request, t: real)
    requires Decide(c, r).ToLimiter?
    ensures var judged := TryTake(ParamsOf(c), BucketOf(ParamsOf(c), m, ApiKey(r)), t);
            Decide(c, r).key == ApiKey(r)
            && Serve(c, m, r, t) == (if judged.1 then Upstream else RateLimited, m[ApiKey(r) := judged.0])
  {
    hide TryTake;
  }

  lemma UnlimitedIsServe(c: Server, s: State, g: nat, r: Request, t: real)
    requires OneBucketPerKey(s) && g !in s.threads && !Decide(c, r).ToLimiter?
    ensures DoArrive(c, s, g, r).threads == s.threads
    ensures ServedAs(c, s, DoArrive(c, s, g, r), r, t)
  {
    PassesIffAdmissible(c, r);
    hide TryTake, Decide;
    assert ByKey(DoArrive(c, s, g, r)) == ByKey(s);
  }

  /** An uninterrupted request has the reply and the effect that Handle computes. */
  lemma UninterruptedIsServe(c: Server, s: State, g: nat, r: Request, t: real)
    requires OneBucketPerKey(s) && g !in s.threads
    ensures ServedAs(c, s, Run(c, s, [Arrive(g, r), Lookup(g), Take(g, t)]), r, t)
  {
    hide Decide, DoLookup, DoTake, Run, ServedAs;
    ThreeSteps(c, s, Arrive(g, r), Lookup(g), Take(g, t));
    if Decide(c, r).ToLimiter? {
      LimitedIsServe(c, s, g, r, t);
    } else {
      UnlimitedIsServe(c, s, g, r, t);
    }
  }
}
