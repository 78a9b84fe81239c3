/** The client's filter: of the names in a certificate it keeps those that no other
    name extends, and hands them to Decode. */
module LeafFilter {
  import opened Text
  import Base32
  import opened Dcode

  /** other lies below domain: strings.HasSuffix(other, "."+domain). */
  predicate Below(other: string, domain: string) {
    other != domain && HasSuffix(other, "." + domain)
  }

  /** That is, it is the domain with some labels and a dot in front. */
  lemma BelowIff(other: string, domain: string)
    ensures Below(other, domain) <==> exists front: string :: other == front + "." + domain
  {
    var suffix := "." + domain;
    if Below(other, domain) {
      var front := other[..|other| - |suffix|];
      assert other == front + suffix;
      assert front + suffix == front + "." + domain;
    }
    forall front: string | other == front + "." + domain ensures Below(other, domain) {
      assert other == front + suffix;
      assert other[|other| - |suffix|..] == suffix;
    }
  }

  predicate HasDescendant(names: set<string>, domain: string) {
    exists o :: o in names && Below(o, domain)
  }

  function LeafSet(names: set<string>): set<string> {
    set d | d in names && !HasDescendant(names, d)
  }

  lemma KeptIff(names: set<string>, d: string)
    ensures d in LeafSet(names) <==> d in names && forall front: string :: front + "." + d !in names
  {
    hide Below;
    forall o | o in names ensures Below(o, d) <==> exists front: string :: o == front + "." + d { BelowIff(o, d); }
    if HasDescendant(names, d) {
      var o :| o in names && Below(o, d);
      var front: string :| o == front + "." + d;
    }
    forall front: string | front + "." + d in names ensures HasDescendant(names, d) {
      BelowIff(front + "." + d, d);
      assert Below(front + "." + d, d);
    }
  }

  /** The nested loops that mark every name another name extends. */
  method Covered(domainSet: set<string>) returns (baseDomains: set<string>)
    ensures baseDomains == set d | d in domainSet && HasDescendant(domainSet, d)
  {
    hide Below;
    baseDomains := {};
    var outer := domainSet;
    while outer != {}
      invariant outer <= domainSet
      invariant forall d :: d in baseDomains <==> d in domainSet - outer && HasDescendant(domainSet, d)
      decreases outer
    {
      var domain :| domain in outer;
      outer := outer - {domain};
      var inner := domainSet;
      while inner != {}
        invariant inner <= domainSet
        invariant forall o :: o in domainSet - inner ==> !Below(o, domain)
        invariant domain !in baseDomains
        decreases inner
      {
        var otherDomain :| otherDomain in inner;
        inner := inner - {otherDomain};
        if Below(otherDomain, domain) {
          baseDomains := baseDomains + {domain};
          break;
        }
      }
    }
  }

  /** The filter as the client runs it. The order in which Go visits a map is open, and so
      is the order of the result. */
  method Leaves(dnsNames: seq<string>) returns (domains: seq<string>)
    ensures multiset(domains) == multiset(LeafSet(set n | n in dnsNames))
  {
    var domainSet := set n | n in dnsNames;
    var baseDomains := Covered(domainSet);
    hide HasDescendant;
    domains := [];
    var rest := domainSet;
    while rest != {}
      invariant rest <= domainSet
      invariant multiset(domains) == multiset(LeafSet(domainSet) - rest)
      decreases rest
    {
      var domain :| domain in rest;
      ghost var leaves := LeafSet(domainSet);
      if domain !in baseDomains {
        assert leaves - (rest - {domain}) == (leaves - rest) + {domain};
        domains := domains + [domain];
      } else {
        assert leaves - (rest - {domain}) == leaves - rest;
      }
      rest := rest - {domain};
    }
    assert LeafSet(domainSet) - {} == LeafSet(domainSet);
  }

  lemma BelowTransitive(a: string, b: string, c: string)
    requires Below(a, b) && Below(b, c)
    ensures Below(a, c)
  {
    var bs, cs := "." + b, "." + c;
    assert a[|a| - |bs|..] == bs && b[|b| - |cs|..] == cs;
    assert a[|a| - |cs|..] == bs[|bs| - |cs|..] == b[|b| - |cs|..];
  }

  function Descendants(names: set<string>, d: string): set<string> {
    set o | o in names && Below(o, d)
  }

  /** Nothing is lost: every removed name still has a kept name below it. */
  lemma {:induction false} RemovedHasKeptDescendant(names: set<string>, d: string)
    requires d in names && d !in LeafSet(names)
    ensures exists e :: e in LeafSet(names) && Below(e, d)
    decreases Descendants(names, d)
  {
    var o :| o in names && Below(o, d);
    if o !in LeafSet(names) {
      forall p | p in names && Below(p, o) ensures Below(p, d) { BelowTransitive(p, o, d); }
      assert o in Descendants(names, d) && o !in Descendants(names, o);
      RemovedHasKeptDescendant(names, o);
      var e :| e in LeafSet(names) && Below(e, o);
      BelowTransitive(e, o, d);
    }
  }

  /** Two names directly under the same domain never extend one another. */
  lemma SiblingsApart(a: string, b: string, domain: string)
    requires AfterFirstDot(a) == Some(domain) && AfterFirstDot(b) == Some(domain)
    ensures !Below(a, b)
  {
    var i, bs := IndexOf(a, '.'), "." + b;
    assert |domain| == |a| - i - 1 == |b| - IndexOf(b, '.') - 1;
    assert bs[0] == '.';
    assert |bs| <= |a| ==> |a| - |bs| < i && a[|a| - |bs|..][0] == a[|a| - |bs|] != '.';
  }

  lemma DirectlyUnder(name: string, domain: string)
    requires AfterFirstDot(name) == Some(domain)
    ensures Below(name, domain)
  {
    var i := IndexOf(name, '.');
    assert name[i..] == [name[i]] + name[i + 1..];
  }

  /** From a certificate that carries one tag and the tag's own ancestors, in any number,
      the filter keeps exactly the encoded names. */
  lemma KeepsSingleTag(encoded: seq<string>, ancestors: set<string>, domain: string)
    requires encoded != [] && forall n <- encoded :: AfterFirstDot(n) == Some(domain)
    requires forall a <- ancestors :: a == domain || Below(domain, a)
    ensures LeafSet((set n | n in encoded) + ancestors) == set n | n in encoded
  {
    var own := set n | n in encoded;
    var names := own + ancestors;
    assert encoded[0] in names;
    forall a | a in ancestors ensures Below(encoded[0], a) {
      DirectlyUnder(encoded[0], domain);
      if a != domain { BelowTransitive(encoded[0], domain, a); }
    }
    forall n, o | n in own && o in names ensures !Below(o, n) {
      if o in own {
        SiblingsApart(o, n, domain);
      } else {
        DirectlyUnder(n, domain);
        assert |n| > |domain| >= |o|;
      }
    }
    assert forall n :: n in own ==> n in names && !HasDescendant(names, n);
    assert forall a :: a in ancestors ==> HasDescendant(names, a);
  }

  lemma {:induction false} DistinctAsSet(s: seq<string>)
    requires Distinct(s)
    ensures multiset(s) == multiset(set n | n in s)
  {
    if s != [] {
      var n := |s| - 1;
      var rest := s[..n];
      DistinctAsSet(rest);
      assert s == rest + [s[n]];
      assert s[n] !in rest;
      assert (set x | x in s) == (set x | x in rest) + {s[n]};
    }
  }

  /** End to end for a single tag: whatever order the filter returns, and whatever order
      sorting leaves, the client reads the published document back. */
  lemma ClientRoundTrip<D(!new)>(lib: DocLib<D>, att: D, domain: string, ancestors: set<string>,
                                 filtered: seq<string>, q: seq<string>)
    requires Faithful(lib) && Packed(lib, att).Some? && Packed(lib, att).value != []
    requires MaxChunk(domain) >= 1 && |EncodeNames(Packed(lib, att).value, domain)| <= 100
    requires forall a <- ancestors :: a == domain || Below(domain, a)
    requires var names := EncodeNames(Packed(lib, att).value, domain);
             multiset(filtered) == multiset(LeafSet((set n | n in names) + ancestors))
    requires SortedReorderingOf(q, filtered)
    ensures DecodeSorted(lib, q) == Document(att)
  {
    var content := Packed(lib, att).value;
    var names := EncodeNames(content, domain);
    EncodedNameParts(content, domain);
    EncodeSize(content, domain);
    ChunkCount(Base32.LowerText(content), MaxChunk(domain));
    KeepsSingleTag(names, ancestors, domain);
    DistinctAsSet(names);
    DocumentRoundTrip(lib, att, domain, q);
  }
}
