/** What the client reads from the certificate that main builds: the filter's result on its
    names, handed to Decode with all tags together. */
module ClientReading {
  import opened Text
  import Base32
  import opened Dcode
  import opened Publication
  import opened LeafFilter

  // ---- Which names reach Decode ----

  function NameSet(names: seq<string>): set<string> { set n | n in names }

  /** No plain name extends an encoded one: the base domain is not below an encoded name, and
      if there is a wildcard, it is none itself. */
  predicate BaseExtendsNone<D>(x: Inputs<D>)
    requires x.Fits()
  {
    forall n <- EncodedPart(x) :: !Below(x.baseDomain, n) && (|PlainPart(x)| == 2 ==> n != x.baseDomain)
  }

  lemma ShorterRest(o: string, n: string, rest: string)
    requires AfterFirstDot(o) == Some(rest) && |n| > |rest|
    ensures !Below(o, n)
  {
    var i, ns := IndexOf(o, '.'), "." + n;
    assert ns[0] == '.' && |rest| == |o| - i - 1;
    assert |ns| <= |o| ==> |o| - |ns| < i && o[|o| - |ns|..][0] == o[|o| - |ns|] != '.';
  }

  lemma EncodedNameTag<D>(x: Inputs<D>, n: string) returns (tag: Tag)
    requires x.Fits() && n in EncodedPart(x)
    ensures AfterFirstDot(n) == Some(TagDomain(tag, x.SanDomain()))
    ensures |n| > 5 + |x.SanDomain()|
  {
    hide EncodeNames;
    tag := if n in x.Names(Hpke) then Hpke else if n in x.Names(Att) then Att else Hatt;
    assert n in x.Names(tag);
    EncodedNameParts(x.Payload(tag).value, TagDomain(tag, x.SanDomain()));
  }

  /** Encoded names never extend one another, whatever their tags. */
  lemma EncodedApart<D>(x: Inputs<D>, o: string, n: string)
    requires x.Fits() && o in EncodedPart(x) && n in EncodedPart(x)
    ensures !Below(o, n)
  {
    hide EncodedPart, Below, TagDomain;
    var s := EncodedNameTag(x, o);
    var t := EncodedNameTag(x, n);
    ShorterRest(o, n, TagDomain(s, x.SanDomain()));
  }

  lemma SuffixByIndex(s: string, suffix: string)
    ensures HasSuffix(s, suffix)
            <==> |suffix| <= |s| && forall k :: 0 <= k < |suffix| ==> suffix[k] == s[|s| - |suffix| + k]
  {
    if |suffix| <= |s| {
      var t := s[|s| - |suffix|..];
      assert forall k :: 0 <= k < |suffix| ==> t[k] == s[|s| - |suffix| + k];
    }
  }

  lemma SuffixOfLonger(c: char, t: string, suffix: string)
    requires |suffix| <= |t|
    ensures HasSuffix([c] + t, suffix) <==> HasSuffix(t, suffix)
  {
    hide HasSuffix;
    var s := [c] + t;
    SuffixByIndex(s, suffix);
    SuffixByIndex(t, suffix);
    forall k | 0 <= k < |suffix| ensures suffix[k] == s[|s| - |suffix| + k] <==> suffix[k] == t[|t| - |suffix| + k] {
      assert s[|s| - |suffix| + k] == t[|t| - |suffix| + k];
    }
  }

  lemma WholeSuffix(s: string, suffix: string)
    requires |suffix| == |s|
    ensures HasSuffix(s, suffix) <==> suffix == s
  {
    assert s[0..] == s;
  }

  lemma WildcardBelow(base: string, n: string)
    ensures Below("*." + base, n) <==> n == base || Below(base, n)
  {
    var bs, ns := "." + base, "." + n;
    assert "*." + base == ['*'] + bs && bs == ['.'] + base;
    assert ns[0] == '.' && ns[1..] == n && bs[1..] == base;
    hide HasSuffix;
    if |ns| <= |base| {
      SuffixOfLonger('*', bs, ns);
      SuffixOfLonger('.', base, ns);
    } else if |ns| == |bs| {
      SuffixOfLonger('*', bs, ns);
      WholeSuffix(bs, ns);
      SuffixIsShorter(base, ns);
    } else {
      if |ns| == |bs| + 1 { WholeSuffix("*." + base, ns); }
      SuffixIsShorter("*." + base, ns);
      SuffixIsShorter(base, ns);
    }
  }

  lemma SuffixIsShorter(s: string, suffix: string)
    ensures HasSuffix(s, suffix) ==> |suffix| <= |s|
  {
  }

  /** The client's filter keeps every encoded name of the certificate if and only if no plain
      name extends one. */
  lemma EncodedSurviveIff<D>(x: Inputs<D>)
    requires x.Fits() && x.IncludesEncoded()
    ensures NameSet(EncodedPart(x)) <= LeafSet(NameSet(CertificateNames(x))) <==> BaseExtendsNone(x)
  {
    hide EncodedPart, Below;
    var base, wildcard := x.baseDomain, "*." + x.baseDomain;
    var names := NameSet(CertificateNames(x));
    assert PlainPart(x) == if |PlainPart(x)| == 2 then [base, wildcard] else [base];
    forall n | n in EncodedPart(x)
      ensures n in LeafSet(names) <==> !Below(base, n) && (|PlainPart(x)| == 2 ==> n != base)
    {
      WildcardBelow(base, n);
      forall o | o in EncodedPart(x) ensures !Below(o, n) { EncodedApart(x, o, n); }
      assert base in names && n in names;
      if |PlainPart(x)| == 2 { assert wildcard in PlainPart(x) && wildcard in names; }
    }
  }

  // ---- How much text they carry ----

  /** Characters of payload text that a list of names carries. */
  function Width(names: seq<string>): nat
    requires Labelled(names)
  {
    if names == [] then 0 else |FirstLabel(names[0])| - 2 + Width(names[1..])
  }

  lemma {:induction false} WidthConcat(a: seq<string>, b: seq<string>)
    requires Labelled(a) && Labelled(b)
    ensures Labelled(a + b) && Width(a + b) == Width(a) + Width(b)
  {
    if a == [] {
      assert a + b == b;
    } else {
      WidthConcat(a[1..], b);
      assert a + b == [a[0]] + (a[1..] + b);
    }
  }

  lemma TakeOut(names: seq<string>, k: nat)
    requires k < |names| && Labelled(names)
    ensures Labelled(names[..k] + names[k + 1..])
    ensures Width(names) == Width(names[..k] + names[k + 1..]) + |FirstLabel(names[k])| - 2
  {
    var tail := names[k..];
    assert names == names[..k] + tail && tail == [names[k]] + names[k + 1..];
    WidthConcat(names[..k], tail);
    WidthConcat(names[..k], names[k + 1..]);
    assert tail[1..] == names[k + 1..];
  }

  /** A list of names carries at least the text of the names it covers, in whatever order. */
  lemma {:induction false} WidthCovers(names: seq<string>, q: seq<string>)
    requires multiset(names) <= multiset(q) && Labelled(q)
    ensures Labelled(names) && Width(names) <= Width(q)
  {
    hide FirstLabel;
    if names != [] {
      assert names[0] in multiset(names);
      assert names[0] in multiset(q);
      var k: nat :| k < |q| && q[k] == names[0];
      OneLessCovered(names, q, k);
      TakeOut(q, k);
      WidthCovers(names[1..], q[..k] + q[k + 1..]);
    }
  }

  lemma OneLessCovered(names: seq<string>, q: seq<string>, k: nat)
    requires multiset(names) <= multiset(q) && names != [] && k < |q| && q[k] == names[0]
    ensures multiset(names[1..]) <= multiset(q[..k] + q[k + 1..])
  {
    OneOut(q, k);
    OneOut(names, 0);
    assert names[..0] + names[1..] == names[1..];
    StillCovered(multiset(names[1..]), multiset(q[..k] + q[k + 1..]), q[k]);
  }

  lemma StillCovered(a: multiset<string>, b: multiset<string>, e: string)
    requires a + multiset{e} <= b + multiset{e}
    ensures a <= b
  {
    forall x ensures a[x] <= b[x] { assert (a + multiset{e})[x] <= (b + multiset{e})[x]; }
  }

  predicate AllOneLine(names: seq<string>) { forall n <- names :: OneLine(n) }

  lemma {:induction false} GatheredText(names: seq<string>)
    requires Labelled(names)
    ensures |Gathered(names)| == Width(names)
    ensures AllOneLine(names) ==> OneLine(Gathered(names))
  {
    if names != [] {
      GatheredText(names[1..]);
      var first := FirstLabel(names[0])[2..];
      assert forall c <- first :: c in names[0];
    }
  }

  /** Names in range carry exactly the encoded text, and no line breaks of their own. */
  lemma EncodedText(content: seq<Byte>, domain: string)
    requires Encodable(content, domain) && |EncodeNames(content, domain)| <= 100
    requires OneLine(domain)
    ensures Labelled(EncodeNames(content, domain))
    ensures Width(EncodeNames(content, domain)) == Base32.DigitCount(|content|)
    ensures AllOneLine(EncodeNames(content, domain))
  {
    EncodedNameParts(content, domain);
    if content != [] {
      var chunks := ContentChunks(content, domain);
      var names := NamesOf(chunks, domain);
      GatheredFrom(chunks, domain, 0);
      assert names[0..] == names && chunks[0..] == chunks;
      GatheredText(names);
      Base32.LowerTextChars(content);
      forall n | n in names ensures OneLine(n) {
        var j: nat :| j < |chunks| && n == names[j];
        ConcatHolds(chunks, j);
        NameOneLine(chunks[j], domain, j);
      }
    }
  }

  lemma NameOneLine(chunk: string, domain: string, j: nat)
    requires OneLine(domain) && forall c <- chunk :: Base32.IsLowerChar(c)
    ensures OneLine(Pad2(j) + chunk + ("." + domain))
  {
    Pad2Digits(j);
    var dotted := "." + domain;
    assert forall c <- dotted :: c == '.' || c in domain;
  }

  lemma {:induction false} ConcatHolds(chunks: seq<string>, j: nat)
    requires j < |chunks|
    ensures forall c <- chunks[j] :: c in Concat(chunks)
  {
    if j > 0 { ConcatHolds(chunks[1..], j - 1); }
  }

  /** Text longer than a content's encoding by more than a quantum decodes to something longer. */
  lemma LongTextDecodesLong(s: string, n: nat)
    requires OneLine(s) && |s| >= 16 + Base32.DigitCount(n)
    ensures Base32.Decode(Base32.ToUpper(s)).Some? ==> |Base32.Decode(Base32.ToUpper(s)).value| > n
  {
    var t := Base32.ToUpper(s);
    assert OneLine(t);
    StripIsIdentity(t);
    if AllRead(t, Base32.CharDigit) { Base32.DecodedSize(ReadAll(t, Base32.CharDigit)); }
  }

  lemma TagText<D>(x: Inputs<D>, tag: Tag)
    requires x.Fits() && FatalExit(x).None? && x.Publishes(tag) && OneLine(x.SanDomain())
    ensures Labelled(x.Names(tag)) && AllOneLine(x.Names(tag))
    ensures x.Payload(tag).Some? && Width(x.Names(tag)) == Base32.DigitCount(|x.Payload(tag).value|)
  {
    assert OneLine(TagDomain(tag, x.SanDomain()));
    hide EncodeNames, TagDomain, FatalExit, Width, OneLine, EncodedSANDomain, AllOneLine, Labelled;
    PublishedSize(x, tag);
    EncodedText(x.Payload(tag).value, TagDomain(tag, x.SanDomain()));
  }

  /** A reader that hands the names of the key and of an attestation to one Decode, with any
      other names, gets an error or more bytes than the attestation has: the text is too long for
      them in every order. */
  lemma MixedTagsNeverDecode<D>(x: Inputs<D>, q: seq<string>)
    requires x.Fits() && FatalExit(x).None? && OneLine(x.SanDomain()) && x.Publishes(Att)
    requires multiset(x.Names(Hpke) + x.Names(Att)) <= multiset(q) && Labelled(q) && AllOneLine(q)
    ensures x.Payload(Att).Some?
    ensures Reassemble(q).Some? ==> |Reassemble(q).value| > |x.Payload(Att).value|
  {
    TagText(x, Hpke);
    TagText(x, Att);
    hide EncodeNames, TagDomain, FatalExit, Width, Gathered, Base32.Decode, Base32.ToUpper, OneLine;
    WidthConcat(x.Names(Hpke), x.Names(Att));
    WidthCovers(x.Names(Hpke) + x.Names(Att), q);
    GatheredText(q);
    KeyText(x);
    LongTextDecodesLong(Gathered(q), |x.Payload(Att).value|);
  }

  lemma KeyText<D>(x: Inputs<D>)
    requires x.Fits() && FatalExit(x).None?
    ensures x.Payload(Hpke).Some? && Base32.DigitCount(|x.Payload(Hpke).value|) == 52
  {
  }

  // ---- The certificate of main, read by the client ----

  lemma TagNames<D>(x: Inputs<D>, tag: Tag)
    requires x.Fits() && FatalExit(x).None? && x.Publishes(tag)
    ensures Distinct(x.Names(tag)) && forall n <- x.Names(tag) :: AfterFirstDot(n) == Some(TagDomain(tag, x.SanDomain()))
  {
    hide EncodeNames, AfterFirstDot;
    PublishedSize(x, tag);
    EncodeSize(x.Payload(tag).value, TagDomain(tag, x.SanDomain()));
    EncodedNameParts(x.Payload(tag).value, TagDomain(tag, x.SanDomain()));
  }

  /** Key and attestation names are pairwise distinct. */
  lemma PublishedDistinct<D>(x: Inputs<D>)
    requires x.Fits() && FatalExit(x).None? && x.Publishes(Att)
    ensures EncodedPart(x) == x.Names(Hpke) + x.Names(Att) && Distinct(EncodedPart(x))
  {
    TagNames(x, Hpke);
    TagNames(x, Att);
    TagDomainsDiffer(Hpke, Att, x.SanDomain());
    hide EncodeNames, TagDomain, AfterFirstDot;
    var key, att := x.Names(Hpke), x.Names(Att);
    assert EncodedPart(x) == key + att;
    forall i, j | 0 <= j < i < |key + att| ensures (key + att)[i] != (key + att)[j] {
      if j < |key| && i >= |key| {
        assert (key + att)[j] in key && (key + att)[i] in att;
      }
    }
  }

  lemma CoveredBySet(names: seq<string>, s: set<string>, q: seq<string>)
    requires Distinct(names) && NameSet(names) <= s && multiset(q) == multiset(s)
    ensures multiset(names) <= multiset(q)
  {
    DistinctAsSet(names);
  }

  lemma CertificateOneLine<D>(x: Inputs<D>)
    requires x.Fits() && FatalExit(x).None? && x.Publishes(Att) && OneLine(x.baseDomain) && OneLine(x.SanDomain())
    ensures AllOneLine(CertificateNames(x))
  {
    hide EncodeNames, TagDomain, EncodedPart, FatalExit;
    PublishedDistinct(x);
    TagText(x, Hpke);
    TagText(x, Att);
    assert OneLine("*." + x.baseDomain);
  }

  /** The client's reading of main's certificate. If no plain name extends an encoded one, then
      in whatever order the filter returns the names and the sort leaves them, Decode gets an
      error or more bytes than the attestation has: the attestation's bytes never come back. */
  lemma ClientNeverReadsAttestation<D>(x: Inputs<D>, filtered: seq<string>, q: seq<string>)
    requires x.Fits() && FatalExit(x).None? && x.IncludesEncoded() && x.Publishes(Att) && BaseExtendsNone(x)
    requires OneLine(x.baseDomain) && OneLine(x.SanDomain())
    requires multiset(filtered) == multiset(LeafSet(NameSet(CertificateNames(x))))
    requires multiset(q) == multiset(filtered) && Labelled(q)
    ensures Reassemble(q).Some? ==> |Reassemble(q).value| > |x.Payload(Att).value|
    ensures Reassemble(q) != x.Payload(Att)
  {
    EncodedSurviveIff(x);
    PublishedDistinct(x);
    CertificateOneLine(x);
    hide EncodedPart, EncodeNames, Reassemble, CertificateNames, FatalExit, OneLine;
    CoveredBySet(EncodedPart(x), LeafSet(NameSet(CertificateNames(x))), q);
    forall n | n in q ensures OneLine(n) {
      assert n in multiset(q);
      assert n in multiset(LeafSet(NameSet(CertificateNames(x))));
    }
    MixedTagsNeverDecode(x, q);
  }
}
