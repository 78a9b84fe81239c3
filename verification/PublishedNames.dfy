/** The certificate of main, name by name: under which domains the key, the attestation and its
    hash are found, and when they are there, read off the configuration and the sizes alone. */
module PublishedNames {
  import opened Text
  import Base32
  import opened Dcode
  import opened Publication

  /** Where the encoded names live: tinfoil.sh, or with an own domain the registrable domain, or
      the base domain if there is none. */
  function Site<D>(x: Inputs<D>): string {
    if !x.config.tlsOwnSANDomain then "tinfoil.sh"
    else match x.registrable
      case Some(domain) => domain
      case None => x.baseDomain
  }

  /** The number of names that n bytes take under a domain. */
  function NameCount(n: nat, domain: string): nat
    requires |domain| <= 59
  {
    CeilDiv((8 * n + 4) / 5, 60 - |domain|)
  }

  function PlainCount(c: Config): nat { if c.tlsWildcard then 2 else 1 }

  /** Every branch of the switch keeps the encoded names but the one for TLS-ALPN-01 or HTTP-01
      without the certificate proxy. */
  predicate KeepsEncoded(c: Config) {
    !(c.tlsMode != "cert-proxy" && (c.tlsChallengeMode == "tls" || c.tlsChallengeMode == "http"))
  }

  /** The whole attestation is published if that is asked for and it fits beside the key. */
  predicate AttestationFits<D>(x: Inputs<D>)
    requires |Site(x)| <= 54
  {
    && x.config.publishAttestation && x.config.publishFullAttestation && Packed(x.lib, x.att).Some?
    && NameCount(|Packed(x.lib, x.att).value|, "att." + Site(x)) + NameCount(|x.hpkeKey|, "hpke." + Site(x))
       + PlainCount(x.config) <= 100
  }

  lemma TagDomainsAre<D>(x: Inputs<D>)
    ensures x.SanDomain() == Site(x)
    ensures TagDomain(Hpke, Site(x)) == "hpke." + Site(x)
    ensures TagDomain(Att, Site(x)) == "att." + Site(x)
    ensures TagDomain(Hatt, Site(x)) == "hatt." + Site(x)
  {
  }

  /** Without an own domain these are fixed. */
  lemma DefaultDomains<D>(x: Inputs<D>)
    requires !x.config.tlsOwnSANDomain
    ensures TagDomain(Hpke, Site(x)) == "hpke.tinfoil.sh"
    ensures TagDomain(Att, Site(x)) == "att.tinfoil.sh"
    ensures TagDomain(Hatt, Site(x)) == "hatt.tinfoil.sh"
  {
    assert "hpke." + "tinfoil.sh" == "hpke.tinfoil.sh";
    assert "att." + "tinfoil.sh" == "att.tinfoil.sh";
    assert "hatt." + "tinfoil.sh" == "hatt.tinfoil.sh";
  }

  lemma CountOf(content: seq<Byte>, domain: string)
    requires |domain| <= 59
    ensures |EncodeNames(content, domain)| == NameCount(|content|, domain)
  {
    EncodeSize(content, domain);
  }

  lemma CountsAre<D>(x: Inputs<D>)
    requires x.Fits()
    ensures |Site(x)| <= 54
    ensures |x.Names(Hpke)| == NameCount(|x.hpkeKey|, "hpke." + Site(x))
    ensures |x.Names(Hatt)| == NameCount(|x.attHash|, "hatt." + Site(x))
    ensures Packed(x.lib, x.att).Some? ==>
              |x.Names(Att)| == NameCount(|Packed(x.lib, x.att).value|, "att." + Site(x))
  {
    TagDomainsAre(x);
    CountOf(x.hpkeKey, "hpke." + Site(x));
    CountOf(x.attHash, "hatt." + Site(x));
    if Packed(x.lib, x.att).Some? { CountOf(Packed(x.lib, x.att).value, "att." + Site(x)); }
  }

  /** Main exits exactly on a key of another length than 32, on an attestation that cannot be
      packed, and on a hash that does not fit beside the key. */
  lemma FatalIff<D>(x: Inputs<D>)
    requires x.Fits()
    ensures |Site(x)| <= 54
    ensures FatalExit(x) == Some(BadKeyLength) <==> |x.hpkeKey| != 32
    ensures FatalExit(x) == Some(CannotEncodeAttestation)
            <==> |x.hpkeKey| == 32 && x.config.publishAttestation && x.config.publishFullAttestation
                 && Packed(x.lib, x.att).None?
    ensures FatalExit(x) == Some(HashTooLarge)
            <==> |x.hpkeKey| == 32 && x.config.publishAttestation && !x.config.publishFullAttestation
                 && NameCount(|x.attHash|, "hatt." + Site(x)) + NameCount(|x.hpkeKey|, "hpke." + Site(x))
                    + PlainCount(x.config) > 100
  {
    CountsAre(x);
    hide EncodeNames, NameCount, Site, TagDomain;
  }

  /** The list itself: the base domain, the wildcard if asked for, and, if the switch keeps
      them, the key's names, the attestation's if they fit, or the hash's. */
  lemma CertificateNamesAre<D>(x: Inputs<D>)
    requires x.Fits()
    ensures |Site(x)| <= 54
    ensures Accepted(x.config) && FatalExit(x).None? ==>
            CertificateNames(x)
            == (if x.config.tlsWildcard then [x.baseDomain, "*." + x.baseDomain] else [x.baseDomain])
               + (if !KeepsEncoded(x.config) then []
                  else EncodeNames(x.hpkeKey, "hpke." + Site(x))
                       + (if AttestationFits(x) then EncodeNames(Packed(x.lib, x.att).value, "att." + Site(x)) else [])
                       + (if x.config.publishAttestation && !x.config.publishFullAttestation
                          then EncodeNames(x.attHash, "hatt." + Site(x)) else []))
  {
    CountsAre(x);
    TagDomainsAre(x);
    if Accepted(x.config) && FatalExit(x).None? {
      KeptIff(x);
      PublishedIff(x);
      hide EncodeNames, NameCount, Site, TagDomain, AttestationFits, KeepsEncoded, FatalExit;
    }
  }

  lemma KeptIff<D>(x: Inputs<D>)
    requires Accepted(x.config)
    ensures x.IncludesEncoded() <==> KeepsEncoded(x.config)
    ensures x.config.tlsWildcard ==> x.config.tlsChallengeMode == "dns"
  {
  }

  lemma PublishedIff<D>(x: Inputs<D>)
    requires x.Fits() && FatalExit(x).None?
    ensures |Site(x)| <= 54
    ensures x.Publishes(Att) <==> AttestationFits(x)
    ensures x.Publishes(Hatt) <==> x.config.publishAttestation && !x.config.publishFullAttestation
  {
    CountsAre(x);
    hide EncodeNames, NameCount, Site, TagDomain;
  }

  /** The base domain is no name that would be read as one of these. */
  predicate ApartFrom(base: string, domain: string) { base != domain && AfterFirstDot(base) != Some(domain) }

  /** The names right below hpke and the site, in any order, give back the key. */
  lemma KeyFromCertificate<D>(x: Inputs<D>, q: seq<string>)
    requires x.Fits() && SortedReorderingOf(q, Under(CertificateNames(x), "hpke." + Site(x)))
    ensures |Site(x)| <= 54
    ensures Accepted(x.config) && FatalExit(x).None? && ApartFrom(x.baseDomain, "hpke." + Site(x)) ==>
              if KeepsEncoded(x.config) then Reassemble(q) == Some(x.hpkeKey) else q == []
  {
    TagDomainsAre(x);
    if Accepted(x.config) && FatalExit(x).None? && ApartFrom(x.baseDomain, "hpke." + Site(x)) {
      KeptIff(x);
      hide Site, TagDomain, Under, Reassemble, CertificateNames, EncodeNames, FatalExit, KeepsEncoded, AttestationFits;
      PublicationRoundTrip(x, Hpke, q);
    }
  }

  /** The names right below att and the site give back the packed attestation. */
  lemma AttestationFromCertificate<D>(x: Inputs<D>, q: seq<string>)
    requires x.Fits() && SortedReorderingOf(q, Under(CertificateNames(x), "att." + Site(x)))
    ensures |Site(x)| <= 54
    ensures Accepted(x.config) && FatalExit(x).None? && ApartFrom(x.baseDomain, "att." + Site(x)) ==>
              if KeepsEncoded(x.config) && AttestationFits(x)
              then Reassemble(q).Some? && Reassemble(q) == Packed(x.lib, x.att) else q == []
  {
    TagDomainsAre(x);
    if Accepted(x.config) && FatalExit(x).None? && ApartFrom(x.baseDomain, "att." + Site(x)) {
      KeptIff(x);
      PublishedIff(x);
      hide Site, TagDomain, Under, Reassemble, CertificateNames, EncodeNames, FatalExit, KeepsEncoded, AttestationFits;
      PublicationRoundTrip(x, Att, q);
    }
  }

  /** The names right below hatt and the site give back the hash. */
  lemma HashFromCertificate<D>(x: Inputs<D>, q: seq<string>)
    requires x.Fits() && SortedReorderingOf(q, Under(CertificateNames(x), "hatt." + Site(x)))
    ensures |Site(x)| <= 54
    ensures Accepted(x.config) && FatalExit(x).None? && ApartFrom(x.baseDomain, "hatt." + Site(x)) ==>
              if KeepsEncoded(x.config) && x.config.publishAttestation && !x.config.publishFullAttestation
              then Reassemble(q) == Some(x.attHash) else q == []
  {
    TagDomainsAre(x);
    if Accepted(x.config) && FatalExit(x).None? && ApartFrom(x.baseDomain, "hatt." + Site(x)) {
      KeptIff(x);
      PublishedIff(x);
      hide Site, TagDomain, Under, Reassemble, CertificateNames, EncodeNames, FatalExit, KeepsEncoded, AttestationFits;
      PublicationRoundTrip(x, Hatt, q);
    }
  }
}
