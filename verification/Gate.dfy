/** What the server decides about a request before, and apart from, the rate limiter. */
module Gate {
  import opened Text
  import RateLimiter

  // ---- Path patterns ----

  function PathMatchesPattern(pattern: string, path: string): bool {
    if HasSuffix(pattern, "*") then HasPrefix(path, pattern[..|pattern| - 1]) else pattern == path
  }

  /** The language of a pattern: the path itself, or any continuation of what stands before
      a trailing star. */
  ghost predicate Denotes(pattern: string, path: string) {
    if exists stem: string :: pattern == stem + "*"
    then exists stem: string, rest: string :: pattern == stem + "*" && path == stem + rest
    else path == pattern
  }

  lemma PatternMeaning(pattern: string, path: string)
    ensures PathMatchesPattern(pattern, path) <==> Denotes(pattern, path)
  {
    if HasSuffix(pattern, "*") {
      var stem := pattern[..|pattern| - 1];
      assert pattern == stem + "*";
      if HasPrefix(path, stem) { assert path == stem + path[|stem|..]; }
      forall s: string | pattern == s + "*" ensures s == stem { assert (s + "*")[..|pattern| - 1] == s; }
    } else {
      forall s: string ensures pattern != s + "*" { assert (s + "*")[|s|..] == "*"; }
    }
  }

  function PathAllowed(allowedPaths: seq<string>, path: string): (r: bool)
    ensures r <==> exists p <- allowedPaths :: PathMatchesPattern(p, path)
  {
    if allowedPaths == [] then false
    else if PathMatchesPattern(allowedPaths[0], path) then true
    else PathAllowed(allowedPaths[1..], path)
  }

  function RequiresAuth(authenticatedEndpoints: Option<seq<string>>, path: string): bool {
    match authenticatedEndpoints
    case None => path == "/v1/chat/completions"
    case Some(patterns) => PathAllowed(patterns, path)
  }

  // ---- Requests and replies ----

  /** The answer of the key validator, which is a remote service. */
  datatype Validation = Valid | Refused(status: int, message: string) | Broken

  datatype Request = Request(
    origin: string,
    verb: string,
    path: string,
    authorization: string,
    ehbpRejects: bool,
    validation: Validation)

  datatype Reply =
    | CorsForbidden
    | Preflight
    | Local
    | NotFound
    | EhbpRejected
    | KeyRequired
    | KeyRefused(status: int, message: string)
    | ServerError
    | RateLimited
    | Upstream

  /** The attestation is served behind the encryption middleware. */
  const ATTESTATION_PATH := "/.well-known/tinfoil-attestation"

  /** localPaths are the other paths the server answers itself; limiter is absent when the
      configured rate is not positive. */
  datatype Server = Server(
    originDomains: seq<string>,
    localPaths: seq<string>,
    paths: seq<string>,
    authenticatedEndpoints: Option<seq<string>>,
    hasValidator: bool,
    limiter: Option<RateLimiter.Params>)

  function ApiKey(r: Request): string {
    TrimPrefix(r.authorization, "Bearer ")
  }

  datatype Decision = Answer(reply: Reply) | ToLimiter(key: string) | Forward

  /** The checks in the order the handlers make them. */
  function Decide(c: Server, r: Request): (d: Decision)
    ensures d.ToLimiter? ==> c.limiter.Some? && d.key == ApiKey(r) != ""
  {
    if r.origin != "" && |c.originDomains| > 0 && r.origin !in c.originDomains then Answer(CorsForbidden)
    else if r.origin != "" && r.verb == "OPTIONS" then Answer(Preflight)
    else if r.path == ATTESTATION_PATH then Answer(if r.ehbpRejects then EhbpRejected else Local)
    else if r.path in c.localPaths then Answer(Local)
    else if |c.paths| > 0 && !PathAllowed(c.paths, r.path) then Answer(NotFound)
    else if r.ehbpRejects then Answer(EhbpRejected)
    else DecideProxied(c, r)
  }

  function DecideProxied(c: Server, r: Request): (d: Decision)
    ensures d.ToLimiter? ==> c.limiter.Some? && d.key == ApiKey(r) != ""
  {
    var apiKey := ApiKey(r);
    var checked := c.hasValidator && RequiresAuth(c.authenticatedEndpoints, r.path);
    if checked && |apiKey| == 0 then Answer(KeyRequired)
    else if checked && r.validation.Refused? then Answer(KeyRefused(r.validation.status, r.validation.message))
    else if checked && r.validation.Broken? then Answer(ServerError)
    else if c.limiter.None? then Forward
    else if apiKey == "" then Answer(KeyRequired)
    else ToLimiter(apiKey)
  }

  /** What a request must satisfy to be let through to the limiter or upstream. */
  ghost predicate Admissible(c: Server, r: Request) {
    && (r.origin == "" || c.originDomains == [] || r.origin in c.originDomains)
    && (r.origin == "" || r.verb != "OPTIONS")
    && r.path != ATTESTATION_PATH && r.path !in c.localPaths
    && (c.paths == [] || exists p <- c.paths :: Denotes(p, r.path))
    && !r.ehbpRejects
    && (c.hasValidator && NeedsKey(c, r) ==> ApiKey(r) != "" && r.validation == Valid)
    && (c.limiter.Some? ==> ApiKey(r) != "")
  }

  ghost predicate NeedsKey(c: Server, r: Request) {
    match c.authenticatedEndpoints
    case None => r.path == "/v1/chat/completions"
    case Some(patterns) => exists p <- patterns :: Denotes(p, r.path)
  }

  lemma PathAllowedMeaning(patterns: seq<string>, path: string)
    ensures PathAllowed(patterns, path) <==> exists p <- patterns :: Denotes(p, path)
  {
    forall p | p in patterns ensures PathMatchesPattern(p, path) <==> Denotes(p, path) {
      PatternMeaning(p, path);
    }
  }

  /** The gate is exact: a request passes it if and only if it is admissible, and every
      other request is answered on the spot. */
  lemma PassesIffAdmissible(c: Server, r: Request)
    ensures Decide(c, r).Answer? <==> !Admissible(c, r)
    ensures Decide(c, r).Forward? ==> c.limiter.None?
    ensures Decide(c, r).Answer? ==> !Decide(c, r).reply.Upstream? && !Decide(c, r).reply.RateLimited?
  {
    PathAllowedMeaning(c.paths, r.path);
    if c.authenticatedEndpoints.Some? {
      PathAllowedMeaning(c.authenticatedEndpoints.value, r.path);
    }
  }

  /** A key reaches the same bucket with and without its scheme, unless the bare key itself
      starts with the scheme. */
  lemma BearerIsOptional(r: Request, key: string)
    ensures ApiKey(r.(authorization := "Bearer " + key)) == key
    ensures ApiKey(r.(authorization := key)) == key <==> !HasPrefix(key, "Bearer ")
  {
    assert ("Bearer " + key)[7..] == key;
  }

  /** The whole handler, one request at a time. */
  method Handle(c: Server, limiter: RateLimiter.KeyedLimiter, r: Request, now: real) returns (reply: Reply)
    requires limiter.Valid() && (c.limiter.Some? ==> limiter.params == c.limiter.value)
    modifies limiter, limiter.Buckets()
    ensures limiter.Valid()
    ensures (reply, limiter.Contents()) == Serve(c, old(limiter.Contents()), r, now)
  {
    if r.origin != "" {
      if |c.originDomains| > 0 && r.origin !in c.originDomains { return CorsForbidden; }
      if r.verb == "OPTIONS" { return Preflight; }
    }
    if r.path == ATTESTATION_PATH {
      if r.ehbpRejects { return EhbpRejected; }
      return Local;
    }
    if r.path in c.localPaths { return Local; }
    if |c.paths| > 0 && !PathAllowed(c.paths, r.path) { return NotFound; }
    if r.ehbpRejects { return EhbpRejected; }
    var apiKey := TrimPrefix(r.authorization, "Bearer ");
    if c.hasValidator && RequiresAuth(c.authenticatedEndpoints, r.path) {
      if |apiKey| == 0 { return KeyRequired; }
      match r.validation {
        case Valid =>
        case Refused(status, message) => return KeyRefused(status, message);
        case Broken => return ServerError;
      }
    }
    if c.limiter.Some? {
      if apiKey == "" { return KeyRequired; }
      var passed := limiter.Pass(apiKey, now);
      if !passed { return RateLimited; }
    }
    return Upstream;
  }

  /** One request against the map of buckets. */
  function Serve(c: Server, m: RateLimiter.Contents, r: Request, now: real): (Reply, RateLimiter.Contents) {
    match Decide(c, r)
    case Answer(reply) => (reply, m)
    case Forward => (Upstream, m)
    case ToLimiter(key) =>
      var p := c.limiter.value;
      var (next, passed) := RateLimiter.TryTake(p, RateLimiter.BucketOf(p, m, key), now);
      (if passed then Upstream else RateLimited, m[key := next])
  }

  // ---- Which request gets which reply ----

  ghost predicate OriginFits(c: Server, r: Request) {
    r.origin == "" || c.originDomains == [] || r.origin in c.originDomains
  }

  /** The request is not answered by the CORS checks. */
  ghost predicate ReachesMux(c: Server, r: Request) {
    OriginFits(c, r) && !(r.origin != "" && r.verb == "OPTIONS")
  }

  ghost predicate IsAttestation(r: Request) { r.path == "/.well-known/tinfoil-attestation" }

  /** The request falls to the catch-all pattern, and its path is allowed. */
  ghost predicate ReachesProxy(c: Server, r: Request) {
    && ReachesMux(c, r) && !IsAttestation(r) && r.path !in c.localPaths
    && (c.paths == [] || exists p <- c.paths :: Denotes(p, r.path))
  }

  ghost predicate MustValidate(c: Server, r: Request) { c.hasValidator && NeedsKey(c, r) }

  /** Every reply has its exact cause: one check fails and all earlier ones hold. */
  lemma AnswersIff(c: Server, r: Request)
    ensures Decide(c, r) == Answer(CorsForbidden) <==> !OriginFits(c, r)
    ensures Decide(c, r) == Answer(Preflight) <==> OriginFits(c, r) && r.origin != "" && r.verb == "OPTIONS"
    ensures Decide(c, r) == Answer(Local)
            <==> ReachesMux(c, r) && if IsAttestation(r) then !r.ehbpRejects else r.path in c.localPaths
    ensures Decide(c, r) == Answer(NotFound)
            <==> ReachesMux(c, r) && !IsAttestation(r) && r.path !in c.localPaths
                 && c.paths != [] && forall p <- c.paths :: !Denotes(p, r.path)
    ensures Decide(c, r) == Answer(EhbpRejected)
            <==> r.ehbpRejects && (ReachesProxy(c, r) || (ReachesMux(c, r) && IsAttestation(r)))
  {
    hide Denotes;
    PathAllowedMeaning(c.paths, r.path);
  }

  lemma ProxiedIff(c: Server, r: Request)
    ensures Decide(c, r) == Answer(KeyRequired)
            <==> ReachesProxy(c, r) && !r.ehbpRejects && ApiKey(r) == "" && (MustValidate(c, r) || c.limiter.Some?)
    ensures forall status, message ::
              Decide(c, r) == Answer(KeyRefused(status, message))
              <==> ReachesProxy(c, r) && !r.ehbpRejects && ApiKey(r) != "" && MustValidate(c, r)
                   && r.validation == Refused(status, message)
    ensures Decide(c, r) == Answer(ServerError)
            <==> ReachesProxy(c, r) && !r.ehbpRejects && ApiKey(r) != "" && MustValidate(c, r) && r.validation == Broken
    ensures Decide(c, r) == Forward
            <==> ReachesProxy(c, r) && !r.ehbpRejects && c.limiter.None?
                 && (MustValidate(c, r) ==> ApiKey(r) != "" && r.validation == Valid)
    ensures Decide(c, r) == ToLimiter(ApiKey(r))
            <==> ReachesProxy(c, r) && !r.ehbpRejects && c.limiter.Some? && ApiKey(r) != ""
                 && (MustValidate(c, r) ==> r.validation == Valid)
  {
    hide Denotes, ApiKey;
    PathAllowedMeaning(c.paths, r.path);
    if c.authenticatedEndpoints.Some? { PathAllowedMeaning(c.authenticatedEndpoints.value, r.path); }
  }

  /** The limiter's part: only a request that passed everything else takes a token, the one of
      its key's bucket, and only an empty bucket makes RateLimited. */
  lemma LimitedIff(c: Server, m: RateLimiter.Contents, r: Request, now: real)
    ensures var (reply, after) := Serve(c, m, r, now);
            var judged := ReachesProxy(c, r) && !r.ehbpRejects && c.limiter.Some? && ApiKey(r) != ""
                          && (MustValidate(c, r) ==> r.validation == Valid);
            var forwarded := ReachesProxy(c, r) && !r.ehbpRejects && c.limiter.None?
                             && (MustValidate(c, r) ==> ApiKey(r) != "" && r.validation == Valid);
            if judged then
              var p := c.limiter.value;
              var (next, passed) := RateLimiter.TryTake(p, RateLimiter.BucketOf(p, m, ApiKey(r)), now);
              reply == (if passed then Upstream else RateLimited) && after == m[ApiKey(r) := next]
            else
              && reply != RateLimited && after == m
              && (reply == Upstream <==> forwarded)
              && (reply != Upstream ==> Decide(c, r) == Answer(reply))
  {
    hide ReachesProxy, MustValidate, RateLimiter.TryTake, RateLimiter.BucketOf, ApiKey, Decide;
    ProxiedIff(c, r);
    PassesIffAdmissible(c, r);
  }
}
