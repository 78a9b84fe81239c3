/** The two-phase relay: order a certificate, serve the HTTP-01 challenges of the order
    (section 8.3 of RFC 8555), report ready, and take the certificate. */
module ChallengeRelay {
  import opened Text

  datatype Challenge = Challenge(domain: string, token: string, keyAuthorization: string)

  /** A 200 reply to phase 1 that parses. */
  datatype Order = Order(id: string, challenges: seq<Challenge>)

  /** What happens to one attempt: the reply to phase 1, whether the port can be bound, and
      the certificate of the reply to phase 2. None stands for every transport, status or
      parse error. */
  datatype World = World(phase1: Option<Order>, bindFails: bool, phase2: Option<string>)

  datatype Failure = Phase1Failed | NoOrderId | CannotBind | Phase2Failed | EmptyCertificate

  /** Registering one pattern twice panics in the request multiplexer. */
  datatype Outcome = Issued(certificate: string) | Failed(why: Failure) | Panicked

  const CHALLENGE_PATH := "/.well-known/acme-challenge/"

  type Routes = map<string, string>

  // ---- The protocol ----

  datatype Effect =
    | Phase1Sent
    | Phase1Returned(reply: Option<Order>)
    | ServerOpened(routes: Routes)
    | Phase2Sent(orderId: string)
    | Phase2Returned(certificate: Option<string>)
    | ServerClosed

  /** Every challenge of the order is answered with its own key authorization. */
  ghost predicate Serves(routes: Routes, challenges: seq<Challenge>) {
    forall ch <- challenges :: CHALLENGE_PATH + ch.token in routes && routes[CHALLENGE_PATH + ch.token] == ch.keyAuthorization
  }

  /** Where an attempt stands, read off its effects alone. */
  datatype Monitor = Monitor(asked: bool, order: Option<Order>, server: Option<Routes>, sent: nat, waiting: bool)

  const START := Monitor(false, None, None, 0, false)

  /** The effects that the protocol allows next. */
  ghost predicate Allowed(m: Monitor, e: Effect) {
    match e
    case Phase1Sent => !m.asked
    case Phase1Returned(reply) => m.asked && m.order.None? && m.sent == 0
    case ServerOpened(routes) => m.order.Some? && m.server.None? && m.sent == 0 && Serves(routes, m.order.value.challenges)
    case Phase2Sent(id) =>
      && m.order.Some? && m.sent == 0
      && id == m.order.value.id != ""
      && (m.order.value.challenges != [] ==> m.server.Some?)
    case Phase2Returned(certificate) => m.waiting
    case ServerClosed => m.server.Some? && !m.waiting
  }

  function Observe(m: Monitor, e: Effect): Monitor {
    match e
    case Phase1Sent => m.(asked := true)
    case Phase1Returned(reply) => m.(order := reply)
    case ServerOpened(routes) => m.(server := Some(routes))
    case Phase2Sent(id) => m.(sent := m.sent + 1, waiting := true)
    case Phase2Returned(certificate) => m.(waiting := false)
    case ServerClosed => m.(server := None)
  }

  function ObserveAll(m: Monitor, effects: seq<Effect>): Monitor {
    if effects == [] then m
    else Observe(ObserveAll(m, effects[..|effects| - 1]), effects[|effects| - 1])
  }

  ghost predicate Conforms(effects: seq<Effect>) {
    forall n :: 0 <= n < |effects| ==> Allowed(ObserveAll(START, effects[..n]), effects[n])
  }

  /** Nothing is left open. */
  predicate AtRest(m: Monitor) { m.server.None? && !m.waiting }

  lemma ObserveOne(effects: seq<Effect>, e: Effect)
    ensures ObserveAll(START, effects + [e]) == Observe(ObserveAll(START, effects), e)
    ensures Conforms(effects) && Allowed(ObserveAll(START, effects), e) ==> Conforms(effects + [e])
  {
    var all := effects + [e];
    assert all[..|all| - 1] == effects;
    assert forall n :: 0 <= n <= |effects| ==> all[..n] == effects[..n];
  }

  /** What conformance means at every moment of an attempt: phase 2 went out at most once, and
      while it is outstanding the server answers each challenge of the order with its own key
      authorization. */
  lemma {:induction false} ConformingIsSafe(effects: seq<Effect>)
    requires Conforms(effects)
    ensures var m := ObserveAll(START, effects);
            && m.sent <= 1
            && (m.sent > 0 ==> m.order.Some? && m.order.value.id != "")
            && (m.server.Some? ==> m.order.Some? && Serves(m.server.value, m.order.value.challenges))
            && (m.waiting ==> m.sent == 1 && (m.order.value.challenges != [] ==> m.server.Some?))
  {
    if effects != [] {
      var n := |effects| - 1;
      var before := effects[..n];
      forall k | 0 <= k < |before| ensures Allowed(ObserveAll(START, before[..k]), before[k]) {
        assert before[..k] == effects[..k];
      }
      ConformingIsSafe(before);
      assert Allowed(ObserveAll(START, effects[..n]), effects[n]);
    }
  }

  /** Any two reports of phase 2 in one attempt are the same report, and it carries the id of
      the order that phase 1 returned before it. */
  lemma ReadyOnce(effects: seq<Effect>, i: nat, j: nat)
    requires Conforms(effects) && i <= j < |effects|
    requires effects[i].Phase2Sent? && effects[j].Phase2Sent?
    ensures i == j
    ensures exists k :: 0 <= k < i && effects[k].Phase1Returned? && effects[k].reply.Some?
                        && effects[k].reply.value.id == effects[i].orderId != ""
  {
    assert Allowed(ObserveAll(START, effects[..i]), effects[i]);
    assert Allowed(ObserveAll(START, effects[..j]), effects[j]);
    assert effects[..i + 1][..i] == effects[..i];
    assert ObserveAll(START, effects[..i + 1]).sent == 1;
    OrderWasReturned(effects[..i]);
    if i < j { SentGrows(effects, i + 1, j); }
  }

  lemma {:induction false} SentGrows(effects: seq<Effect>, i: nat, j: nat)
    requires i <= j <= |effects|
    ensures ObserveAll(START, effects[..i]).sent <= ObserveAll(START, effects[..j]).sent
  {
    if i < j {
      SentGrows(effects, i, j - 1);
      assert effects[..j][..j - 1] == effects[..j - 1];
    }
  }

  lemma {:induction false} OrderWasReturned(effects: seq<Effect>)
    ensures var m := ObserveAll(START, effects);
            m.order.Some? ==> exists k :: 0 <= k < |effects| && effects[k] == Phase1Returned(m.order)
  {
    if effects != [] {
      var n := |effects| - 1;
      var before := effects[..n];
      OrderWasReturned(before);
      var m := ObserveAll(START, effects);
      if effects[n].Phase1Returned? {
        assert effects[n] == Phase1Returned(m.order);
      } else if m.order.Some? {
        var k :| 0 <= k < |before| && before[k] == Phase1Returned(m.order);
        assert effects[k] == before[k];
      }
    }
  }

  // ---- The program ----

  /** Tokens of the base64url alphabet make exact patterns; RFC 8555 allows no others. */
  predicate PlainToken(token: string) {
    token != "" && forall c <- token :: 'A' <= c <= 'Z' || 'a' <= c <= 'z' || '0' <= c <= '9' || c == '-' || c == '_'
  }

  predicate PlainTokens(w: World) {
    w.phase1.Some? ==> forall ch <- w.phase1.value.challenges :: PlainToken(ch.token)
  }

  predicate DistinctTokens(challenges: seq<Challenge>) {
    forall i, j :: 0 <= i < j < |challenges| ==> challenges[i].token != challenges[j].token
  }

  lemma NoDuplicateOfNone(challenges: seq<Challenge>)
    ensures challenges == [] ==> DistinctTokens(challenges)
  {
  }

  /** How an attempt ends, by the first thing that goes wrong. */
  function Ending(w: World): Outcome {
    if w.phase1.None? then Failed(Phase1Failed)
    else if w.phase1.value.id == "" then Failed(NoOrderId)
    else if !DistinctTokens(w.phase1.value.challenges) then Panicked
    else if w.phase1.value.challenges != [] && w.bindFails then Failed(CannotBind)
    else if w.phase2.None? then Failed(Phase2Failed)
    else if w.phase2.value == "" then Failed(EmptyCertificate)
    else Issued(w.phase2.value)
  }

  /** The order can be served: it has no challenges, or its tokens differ and the port is free. */
  predicate Servable(order: Order, bindFails: bool) {
    order.challenges == [] || (DistinctTokens(order.challenges) && !bindFails)
  }

  /** Every ending of an attempt has its exact cause. */
  lemma EndingIff(w: World)
    ensures Ending(w) == Failed(Phase1Failed) <==> w.phase1.None?
    ensures Ending(w) == Failed(NoOrderId) <==> w.phase1.Some? && w.phase1.value.id == ""
    ensures Ending(w) == Panicked
            <==> w.phase1.Some? && w.phase1.value.id != "" && !DistinctTokens(w.phase1.value.challenges)
    ensures Ending(w) == Failed(CannotBind)
            <==> w.phase1.Some? && w.phase1.value.id != "" && DistinctTokens(w.phase1.value.challenges)
                 && w.phase1.value.challenges != [] && w.bindFails
    ensures Ending(w) == Failed(Phase2Failed)
            <==> w.phase1.Some? && w.phase1.value.id != "" && Servable(w.phase1.value, w.bindFails) && w.phase2.None?
    ensures Ending(w) == Failed(EmptyCertificate)
            <==> w.phase1.Some? && w.phase1.value.id != "" && Servable(w.phase1.value, w.bindFails) && w.phase2 == Some("")
    ensures Ending(w).Issued?
            <==> w.phase1.Some? && w.phase1.value.id != "" && Servable(w.phase1.value, w.bindFails)
                 && w.phase2.Some? && w.phase2.value != ""
    ensures Ending(w).Issued? ==> Some(Ending(w).certificate) == w.phase2
  {
    if w.phase1.Some? { NoDuplicateOfNone(w.phase1.value.challenges); }
  }

  class Relay {
    var server: Option<Routes>
    ghost var effects: seq<Effect>

    constructor ()
      ensures server == None && effects == []
    {
      server, effects := None, [];
    }

    /** The effects so far conform, and the server is as they say. */
    ghost predicate Valid()
      reads this
    {
      Conforms(effects) && ObserveAll(START, effects).server == server
    }

    ghost method Record(e: Effect)
      modifies this`effects
      ensures effects == old(effects) + [e]
      ensures ObserveAll(START, effects) == Observe(old(ObserveAll(START, effects)), e)
      ensures old(Conforms(effects) && Allowed(ObserveAll(START, effects), e)) ==> Conforms(effects)
    {
      ObserveOne(effects, e);
      effects := effects + [e];
    }

    /** The loop that registers one handler per challenge; it stops at a duplicate pattern. */
    method Register(challenges: seq<Challenge>) returns (mux: Option<Routes>)
      requires forall ch <- challenges :: PlainToken(ch.token)
      ensures mux.Some? <==> DistinctTokens(challenges)
      ensures mux.Some? ==> Serves(mux.value, challenges)
      ensures mux.Some? ==>
                forall p :: p in mux.value
                            <==> exists k :: 0 <= k < |challenges| && p == "/.well-known/acme-challenge/" + challenges[k].token
    {
      var routes: Routes := map[];
      var i := 0;
      while i < |challenges|
        invariant 0 <= i <= |challenges|
        invariant forall p :: p in routes <==> exists k :: 0 <= k < i && p == CHALLENGE_PATH + challenges[k].token
        invariant DistinctTokens(challenges[..i]) && Serves(routes, challenges[..i])
      {
        var ch := challenges[i];
        var pattern := CHALLENGE_PATH + ch.token;
        SamePath(challenges, i);
        assert challenges[..i + 1] == challenges[..i] + [ch];
        if pattern in routes { return None; }
        routes := routes[pattern := ch.keyAuthorization];
        i := i + 1;
      }
      assert challenges[..i] == challenges;
      return Some(routes);
    }

    static lemma SamePath(challenges: seq<Challenge>, i: nat)
      requires i < |challenges|
      ensures forall k :: 0 <= k < |challenges| && CHALLENGE_PATH + challenges[k].token == CHALLENGE_PATH + challenges[i].token
                          ==> challenges[k].token == challenges[i].token
    {
      var n := |CHALLENGE_PATH|;
      assert forall k :: 0 <= k < |challenges| ==> (CHALLENGE_PATH + challenges[k].token)[n..] == challenges[k].token;
    }

    /** Phase 2: report ready and take the certificate. */
    method Ready(order: Order, phase2: Option<string>) returns (r: Outcome)
      requires Conforms(effects)
      requires var m := ObserveAll(START, effects);
               m.order == Some(order) && Allowed(m, Phase2Sent(order.id)) && !m.waiting
      modifies this`effects
      ensures Conforms(effects)
      ensures ObserveAll(START, effects) == old(ObserveAll(START, effects)).(sent := 1)
      ensures r == if phase2.None? then Failed(Phase2Failed)
                   else if phase2.value == "" then Failed(EmptyCertificate) else Issued(phase2.value)
    {
      hide ObserveAll, Conforms, Serves;
      Record(Phase2Sent(order.id));
      Record(Phase2Returned(phase2));
      if phase2.None? { return Failed(Phase2Failed); }
      if phase2.value == "" { return Failed(EmptyCertificate); }
      return Issued(phase2.value);
    }

    /** Open the challenge server, if the order has challenges; or the outcome that ends the attempt. */
    method Open(order: Order, bindFails: bool) returns (ended: Option<Outcome>)
      requires Valid() && server == None && forall ch <- order.challenges :: PlainToken(ch.token)
      requires var m := ObserveAll(START, effects); m.order == Some(order) && m.sent == 0
      modifies this
      ensures Valid()
      ensures ObserveAll(START, effects) == old(ObserveAll(START, effects)).(server := server)
      ensures ended == if order.challenges == [] then None
                       else if !DistinctTokens(order.challenges) then Some(Panicked)
                       else if bindFails then Some(Failed(CannotBind)) else None
      ensures server.Some? <==> ended.None? && order.challenges != []
    {
      hide ObserveAll, Conforms, Serves, DistinctTokens, PlainToken;
      if |order.challenges| > 0 {
        var mux := Register(order.challenges);
        if mux.None? { return Some(Panicked); }
        if bindFails { return Some(Failed(CannotBind)); }
        server := mux;
        Record(ServerOpened(mux.value));
      }
      return None;
    }

    /** Phase 1: send the request and take its reply. */
    method Ask(phase1: Option<Order>)
      requires effects == [] && server == None
      modifies this`effects
      ensures Conforms(effects) && ObserveAll(START, effects) == START.(asked := true, order := phase1)
    {
      assert Conforms([]) && ObserveAll(START, []) == START;
      hide ObserveAll, Conforms, Serves;
      Record(Phase1Sent);
      Record(Phase1Returned(phase1));
    }

    /** Close the challenge server, if it is open. */
    method Close()
      requires Valid() && !ObserveAll(START, effects).waiting
      modifies this
      ensures Valid() && server == None
      ensures ObserveAll(START, effects) == old(ObserveAll(START, effects)).(server := None)
    {
      hide ObserveAll, Conforms, Serves;
      if server.Some? {
        server := None;
        Record(ServerClosed);
      }
    }

    /** obtainWithHTTPRelay on a fresh relay. Every exit leaves the server closed, and all it
        did conforms to the protocol; phase 2 goes out exactly when nothing went wrong before. */
    method Obtain(w: World) returns (r: Outcome)
      requires effects == [] && server == None && PlainTokens(w)
      modifies this
      ensures r == Ending(w)
      ensures Valid() && server == None && AtRest(ObserveAll(START, effects))
      ensures ObserveAll(START, effects).sent
              == if r.Issued? || r == Failed(Phase2Failed) || r == Failed(EmptyCertificate) then 1 else 0
    {
      hide ObserveAll, Conforms, Serves, DistinctTokens, PlainToken;
      Ask(w.phase1);
      if w.phase1.None? { return Failed(Phase1Failed); }
      var order := w.phase1.value;
      if order.id == "" { return Failed(NoOrderId); }
      NoDuplicateOfNone(order.challenges);
      var ended := Open(order, w.bindFails);
      if ended.Some? { return ended.value; }
      r := Ready(order, w.phase2);
      Close();
    }
  }
}
