/** Which names go into the certificate, and what can be read back from them. */
module Publication {
  import opened Text
  import Base32
  import opened Dcode

  // ---- Configuration ----

  datatype Config = Config(
    upstreamPort: int,
    tlsMode: string,
    tlsEnv: string,
    tlsChallengeMode: string,
    tlsWildcard: bool,
    tlsOwnSANDomain: bool,
    publishAttestation: bool,
    publishFullAttestation: bool)

  /** The acceptance checks of config.Load. */
  predicate Accepted(c: Config) {
    && c.upstreamPort != 0
    && c.tlsMode in ["self-signed", "acme", "cert-proxy"]
    && c.tlsEnv in ["production", "staging"]
    && c.tlsChallengeMode in ["tls", "dns", "http"]
    && (c.tlsWildcard ==> c.tlsChallengeMode == "dns")
  }

  /** The domain under which keys and attestations are published; registrable is the
      answer of the public suffix list, if it has one. */
  function EncodedSANDomain(c: Config, baseDomain: string, registrable: Option<string>): string {
    if !c.tlsOwnSANDomain then "tinfoil.sh"
    else if registrable.Some? then registrable.value else baseDomain
  }

  // ---- Tags ----

  datatype Tag = Hpke | Att | Hatt

  function TagDomain(tag: Tag, sanDomain: string): (domain: string)
    ensures |sanDomain| + 4 <= |domain| <= |sanDomain| + 5
  {
    match tag
    case Hpke => "hpke." + sanDomain
    case Att => "att." + sanDomain
    case Hatt => "hatt." + sanDomain
  }

  lemma TagDomainsDiffer(s: Tag, t: Tag, sanDomain: string)
    requires s != t
    ensures TagDomain(s, sanDomain) != TagDomain(t, sanDomain)
  {
    assert TagDomain(s, sanDomain)[0] == if s == Att then 'a' else 'h';
    assert TagDomain(t, sanDomain)[0] == if t == Att then 'a' else 'h';
    assert TagDomain(Hpke, sanDomain)[1] == 'p' && TagDomain(Hatt, sanDomain)[1] == 'a';
  }

  /** Everything that main has computed when it starts to build the names. */
  datatype Inputs<!D> = Inputs(
    config: Config,
    baseDomain: string,
    registrable: Option<string>,
    hpkeKey: seq<Byte>,
    att: D,
    attHash: seq<Byte>,
    lib: DocLib<D>)
  {
    /** The names of each tag are non-empty text only within this limit. */
    predicate Fits() { |SanDomain()| <= 54 }

    function SanDomain(): string { EncodedSANDomain(config, baseDomain, registrable) }

    function Payload(tag: Tag): Option<seq<Byte>> {
      match tag
      case Hpke => Some(hpkeKey)
      case Att => Packed(lib, att)
      case Hatt => Some(attHash)
    }

    function Names(tag: Tag): seq<string>
      requires Fits()
    {
      if Payload(tag).None? then [] else EncodeNames(Payload(tag).value, TagDomain(tag, SanDomain()))
    }

    function Reserved(): nat { if config.tlsWildcard then 2 else 1 }

    predicate WithinBudget(tag: Tag)
      requires Fits()
    {
      |Names(tag)| + |Names(Hpke)| + Reserved() <= 100
    }

    /** Is this tag among the encoded names? */
    predicate Publishes(tag: Tag)
      requires Fits()
    {
      match tag
      case Hpke => true
      case Att => config.publishAttestation && config.publishFullAttestation && WithinBudget(Att)
      case Hatt => config.publishAttestation && !config.publishFullAttestation
    }

    /** The branches of the final switch that keep the encoded names. */
    predicate IncludesEncoded() {
      config.tlsMode == "cert-proxy" || config.tlsChallengeMode == "dns"
    }
  }

  datatype FatalError = BadKeyLength | CannotEncodeAttestation | HashTooLarge
  datatype Outcome = Fatal(error: FatalError) | Domains(names: seq<string>)

  /** The fatal exits of main while it builds the names, in the order it meets them. */
  function FatalExit<D>(x: Inputs<D>): Option<FatalError>
    requires x.Fits()
  {
    if |x.hpkeKey| != 32 then Some(BadKeyLength)
    else if !x.config.publishAttestation then None
    else if x.config.publishFullAttestation then
      if x.Payload(Att).None? then Some(CannotEncodeAttestation) else None
    else if !x.WithinBudget(Hatt) then Some(HashTooLarge)
    else None
  }

  function EncodedPart<D>(x: Inputs<D>): seq<string>
    requires x.Fits()
  {
    x.Names(Hpke)
    + (if x.Publishes(Att) then x.Names(Att) else [])
    + (if x.Publishes(Hatt) then x.Names(Hatt) else [])
  }

  /** The names placed in front of the encoded ones. */
  function PlainPart<D>(x: Inputs<D>): seq<string> {
    if x.config.tlsWildcard && x.config.tlsChallengeMode == "dns"
    then [x.baseDomain, "*." + x.baseDomain] else [x.baseDomain]
  }

  /** The encoded names as main collects them, or its fatal exit. */
  method BuildEncoded<D>(x: Inputs<D>) returns (r: Outcome)
    requires x.Fits()
    ensures r == if FatalExit(x).Some? then Fatal(FatalExit(x).value) else Domains(EncodedPart(x))
  {
    hide EncodeNames, TagDomain, EncodedSANDomain;
    if |x.hpkeKey| != 32 { return Fatal(BadKeyLength); }
    var encodedDomains: seq<string> := [];
    var hpkeKeyDomains := Encode(x.hpkeKey, TagDomain(Hpke, x.SanDomain()));
    encodedDomains := encodedDomains + hpkeKeyDomains;
    assert encodedDomains == x.Names(Hpke) && EncodedPart(x)[..|encodedDomains|] == encodedDomains;
    var reservedSANs := 1;
    if x.config.tlsWildcard { reservedSANs := 2; }
    if x.config.publishAttestation {
      if x.config.publishFullAttestation {
        var attDomains := EncodeAtt(x.lib, x.att, TagDomain(Att, x.SanDomain()));
        if attDomains.None? { return Fatal(CannotEncodeAttestation); }
        if |attDomains.value| + |encodedDomains| + reservedSANs <= 100 {
          assert attDomains.value == x.Names(Att);
          encodedDomains := encodedDomains + attDomains.value;
        }
      } else {
        var attHashDomains := Encode(x.attHash, TagDomain(Hatt, x.SanDomain()));
        if |attHashDomains| + |encodedDomains| + reservedSANs <= 100 {
          encodedDomains := encodedDomains + attHashDomains;
        } else {
          return Fatal(HashTooLarge);
        }
      }
    }
    return Domains(encodedDomains);
  }

  /** The final switch over provider and challenge type. */
  method SelectDomains<D>(x: Inputs<D>, encodedDomains: seq<string>) returns (domains: seq<string>)
    requires Accepted(x.config)
    ensures domains == PlainPart(x) + (if x.IncludesEncoded() then encodedDomains else [])
  {
    var proxied := x.config.tlsMode == "cert-proxy";
    var mode := x.config.tlsChallengeMode;
    if proxied && mode == "http" {
      domains := [x.baseDomain] + encodedDomains;
    } else if !proxied && (mode == "tls" || mode == "http") {
      domains := [x.baseDomain];
    } else {
      if x.config.tlsWildcard {
        domains := [x.baseDomain, "*." + x.baseDomain] + encodedDomains;
      } else {
        domains := [x.baseDomain] + encodedDomains;
      }
    }
  }

  method BuildDomains<D>(x: Inputs<D>) returns (r: Outcome)
    requires x.Fits() && Accepted(x.config)
    ensures r == if FatalExit(x).Some? then Fatal(FatalExit(x).value) else Domains(CertificateNames(x))
  {
    r := BuildEncoded(x);
    if r.Domains? {
      var names := SelectDomains(x, r.names);
      r := Domains(names);
    }
  }

  /** The certificate names of a run that does not end in a fatal exit. */
  function CertificateNames<D>(x: Inputs<D>): seq<string>
    requires x.Fits()
  {
    PlainPart(x) + (if x.IncludesEncoded() then EncodedPart(x) else [])
  }

  // ---- Budget and wildcard ----

  lemma MulMonotone(a: nat, b: nat, m: nat)
    requires a <= b
    ensures a * m <= b * m
  {
  }

  lemma CeilDivAtMost(n: nat, m: nat)
    requires m >= 1 && n >= 1
    ensures CeilDiv(n, m) <= n
  {
    var c, r := (n + m - 1) / m, (n + m - 1) % m;
    assert c * m + r == n + m - 1;
    MulMonotone(n + 1, if c > n then c else n + 1, m);
    MulMonotone(1, m, n);
    assert (n + 1) * m == n * m + m && m * n == n * m;
  }

  /** A 32-byte key takes at most 52 names. */
  lemma HpkeNames<D>(x: Inputs<D>)
    requires x.Fits() && |x.hpkeKey| == 32
    ensures |x.Names(Hpke)| <= 52
  {
    var d := TagDomain(Hpke, x.SanDomain());
    assert |d| == 5 + |x.SanDomain()|;
    EncodeSize(x.hpkeKey, d);
    CeilDivAtMost(52, 60 - |d|);
  }

  /** In every branch the certificate gets at most 100 names, the base domain first, and
      the wildcard exactly when the configuration asks for it. */
  lemma BudgetAndWildcard<D>(x: Inputs<D>)
    requires x.Fits() && Accepted(x.config) && FatalExit(x).None?
    ensures |CertificateNames(x)| <= 100
    ensures CertificateNames(x)[0] == x.baseDomain
    ensures "*." + x.baseDomain in CertificateNames(x) <==> x.config.tlsWildcard
  {
    HpkeNames(x);
    WildcardNotEncoded(x);
    hide EncodedPart, EncodeNames, TagDomain;
    EncodedPartSize(x);
    var w := "*." + x.baseDomain;
    assert |w| != |x.baseDomain|;
    assert w in PlainPart(x) <==> x.config.tlsWildcard;
  }

  lemma WildcardNotEncoded<D>(x: Inputs<D>)
    requires x.Fits()
    ensures "*." + x.baseDomain !in EncodedPart(x)
  {
    var w := "*." + x.baseDomain;
    assert w[0] == '*';
    forall tag, n | n in x.Names(tag) ensures n != w {
      EncodedNameParts(x.Payload(tag).value, TagDomain(tag, x.SanDomain()));
    }
  }

  lemma EncodedPartSize<D>(x: Inputs<D>)
    requires x.Fits() && FatalExit(x).None? && |x.Names(Hpke)| <= 52
    ensures |EncodedPart(x)| + x.Reserved() <= 100
  {
    hide EncodeNames, TagDomain, EncodedSANDomain;
  }

  // ---- Reading one tag back ----

  /** The names whose text after the first dot is the given domain, in order. */
  function Under(names: seq<string>, domain: string): seq<string> {
    if names == [] then []
    else
      var rest := Under(names[1..], domain);
      if AfterFirstDot(names[0]) == Some(domain) then [names[0]] + rest else rest
  }

  lemma {:induction false} UnderConcat(a: seq<string>, b: seq<string>, domain: string)
    ensures Under(a + b, domain) == Under(a, domain) + Under(b, domain)
  {
    hide AfterFirstDot;
    if a == [] {
      assert a + b == b;
    } else {
      UnderConcat(a[1..], b, domain);
      assert (a + b)[0] == a[0] && (a + b)[1..] == a[1..] + b;
    }
  }

  lemma {:induction false} UnderUniform(a: seq<string>, own: string, domain: string)
    requires forall n <- a :: AfterFirstDot(n) == Some(own)
    ensures Under(a, domain) == if own == domain then a else []
  {
    if a != [] { UnderUniform(a[1..], own, domain); }
  }

  lemma UnderTag<D>(x: Inputs<D>, s: Tag, t: Tag)
    requires x.Fits()
    ensures Under(x.Names(s), TagDomain(t, x.SanDomain())) == if s == t then x.Names(s) else []
  {
    if x.Payload(s).Some? {
      EncodedNameParts(x.Payload(s).value, TagDomain(s, x.SanDomain()));
    }
    if s != t { TagDomainsDiffer(s, t, x.SanDomain()); }
    UnderUniform(x.Names(s), TagDomain(s, x.SanDomain()), TagDomain(t, x.SanDomain()));
  }

  lemma UnderEncoded<D>(x: Inputs<D>, tag: Tag)
    requires x.Fits()
    ensures Under(EncodedPart(x), TagDomain(tag, x.SanDomain())) == if x.Publishes(tag) then x.Names(tag) else []
  {
    var d := TagDomain(tag, x.SanDomain());
    var a := if x.Publishes(Att) then x.Names(Att) else [];
    var h := if x.Publishes(Hatt) then x.Names(Hatt) else [];
    UnderConcat(x.Names(Hpke) + a, h, d);
    UnderConcat(x.Names(Hpke), a, d);
    UnderTag(x, Hpke, tag);
    UnderTag(x, Att, tag);
    UnderTag(x, Hatt, tag);
  }

  /** The base domain neither is a tag domain nor sits directly under one. */
  predicate BaseApart<D>(x: Inputs<D>, tag: Tag) {
    && x.baseDomain != TagDomain(tag, x.SanDomain())
    && AfterFirstDot(x.baseDomain) != Some(TagDomain(tag, x.SanDomain()))
  }

  lemma UnderPlain<D>(x: Inputs<D>, tag: Tag)
    requires BaseApart(x, tag)
    ensures Under(PlainPart(x), TagDomain(tag, x.SanDomain())) == []
  {
    SplitAtDot("*", x.baseDomain);
    assert "*." + x.baseDomain == "*" + ("." + x.baseDomain);
    var d := TagDomain(tag, x.SanDomain());
    UnderConcat([x.baseDomain], ["*." + x.baseDomain], d);
    assert PlainPart(x) == [x.baseDomain] || PlainPart(x) == [x.baseDomain] + ["*." + x.baseDomain];
    assert Under([x.baseDomain], d) == Under([x.baseDomain][1..], d) == [];
    assert Under(["*." + x.baseDomain], d) == Under(["*." + x.baseDomain][1..], d) == [];
  }

  lemma UnderCertificate<D>(x: Inputs<D>, tag: Tag)
    requires x.Fits() && BaseApart(x, tag)
    ensures Under(CertificateNames(x), TagDomain(tag, x.SanDomain()))
            == if x.IncludesEncoded() && x.Publishes(tag) then x.Names(tag) else []
  {
    hide PlainPart, EncodedPart, TagDomain, BaseApart;
    UnderPlain(x, tag);
    UnderEncoded(x, tag);
    UnderConcat(PlainPart(x), if x.IncludesEncoded() then EncodedPart(x) else [], TagDomain(tag, x.SanDomain()));
  }

  lemma PublishedSize<D>(x: Inputs<D>, tag: Tag)
    requires x.Fits() && FatalExit(x).None? && x.Publishes(tag)
    ensures x.Payload(tag).Some? && |x.Names(tag)| <= 100
  {
    HpkeNames(x);
  }

  /** The publication theorem. From the assembled certificate, the names directly under a
      tag domain, taken in any order, give back exactly the bytes published under that tag;
      when the tag was not published, or the branch keeps no encoded names, there are none. */
  lemma PublicationRoundTrip<D>(x: Inputs<D>, tag: Tag, q: seq<string>)
    requires x.Fits() && FatalExit(x).None? && BaseApart(x, tag)
    requires SortedReorderingOf(q, Under(CertificateNames(x), TagDomain(tag, x.SanDomain())))
    ensures if x.IncludesEncoded() && x.Publishes(tag)
            then x.Payload(tag).Some? && q == x.Names(tag) && Reassemble(q) == x.Payload(tag)
            else q == []
  {
    hide Under, Reassemble, CertificateNames, EncodeNames, FatalExit, BaseApart;
    UnderCertificate(x, tag);
    if x.IncludesEncoded() && x.Publishes(tag) {
      PublishedSize(x, tag);
      RoundTrip(x.Payload(tag).value, TagDomain(tag, x.SanDomain()), q);
    } else {
      assert |q| == |multiset(q)| == 0;
    }
  }

  /** A full attestation that passed the budget test always decodes to itself. */
  lemma AttestationRoundTrip<D(!new)>(x: Inputs<D>, q: seq<string>)
    requires x.Fits() && FatalExit(x).None? && BaseApart(x, Att)
    requires SortedReorderingOf(q, Under(CertificateNames(x), TagDomain(Att, x.SanDomain())))
    ensures x.IncludesEncoded() && x.Publishes(Att) && Faithful(x.lib) ==> DecodeSorted(x.lib, q) == Document(x.att)
  {
    hide Under, Reassemble, CertificateNames, EncodeNames, FatalExit, BaseApart;
    PublicationRoundTrip(x, Att, q);
  }
}
