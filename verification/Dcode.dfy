/** The name codec: bytes are published as DNS names NN<chunk>.<domain> and put
    together again from any ordering of those names. */
module Dcode {
  import opened Text
  import Base32

  // ---- Chunks and names ----

  function Decimal(n: nat): (s: string)
    ensures s != ""
    ensures '.' !in s
  {
    var d := ['0' + (n % 10) as char];
    if n < 10 then d else Decimal(n / 10) + d
  }

  /** fmt.Sprintf("%02d", n) */
  function Pad2(n: nat): (s: string)
    ensures |s| >= 2
    ensures '.' !in s
    ensures n < 100 ==> s == ['0' + (n / 10) as char, '0' + (n % 10) as char]
  {
    assert 10 <= n < 100 ==> Decimal(n / 10) == ['0' + (n / 10) as char];
    if n < 10 then "0" + Decimal(n) else Decimal(n)
  }

  /** Room for a chunk in a 63-character name, after the suffix and the two digits. */
  function MaxChunk(domain: string): int {
    63 - |"." + domain| - 2
  }

  function Chunks(text: string, m: nat): (c: seq<string>)
    requires m >= 1
    ensures forall j :: 0 <= j < |c| ==> 1 <= |c[j]| <= m && forall x <- c[j] :: x in text
  {
    if text == "" then []
    else if |text| <= m then [text]
    else [text[..m]] + Chunks(text[m..], m)
  }

  function NamesOf(chunks: seq<string>, domain: string): (names: seq<string>)
    ensures |names| == |chunks|
  {
    seq(|chunks|, j requires 0 <= j < |chunks| => Pad2(j) + chunks[j] + ("." + domain))
  }

  predicate Encodable(content: seq<Byte>, domain: string) {
    content == [] || MaxChunk(domain) >= 1
  }

  function EncodeNames(content: seq<Byte>, domain: string): seq<string>
    requires Encodable(content, domain)
  {
    if content == [] then []
    else NamesOf(Chunks(Base32.LowerText(content), MaxChunk(domain)), domain)
  }

  /** Encode as the program runs it. On non-empty content the loop advances only when
      the domain leaves room for a chunk (LoopFinishesIff). */
  method Encode(content: seq<Byte>, domain: string) returns (domains: seq<string>)
    requires Encodable(content, domain)
    ensures domains == EncodeNames(content, domain)
  {
    var encoded := Base32.LowerText(content);
    var suffix := "." + domain;
    var maxLength := 63 - |suffix| - 2;
    domains := [];
    var i := 0;
    assert encoded[0..] == encoded;
    while i < |encoded|
      invariant content == [] ==> domains == []
      invariant content != [] ==> PublishedUpTo(encoded, domain, i, domains)
      decreases |encoded| - i
    {
      var end := if i + maxLength < |encoded| then i + maxLength else |encoded|;
      var chunk := encoded[i..end];
      var index := |domains|;
      PublishNext(encoded, domain, i, domains);
      domains := domains + [Pad2(index) + chunk + suffix];
      i := i + maxLength;
    }
  }

  /** The loop of Encode has cut off the first i characters and made these names of them. */
  ghost predicate PublishedUpTo(text: string, domain: string, i: int, names: seq<string>) {
    && MaxChunk(domain) >= 1 && i >= 0
    && var chunks := Chunks(text, MaxChunk(domain));
    && |names| <= |chunks|
    && names == NamesOf(chunks[..|names|], domain)
    && (i <= |text| ==> Chunks(text[i..], MaxChunk(domain)) == chunks[|names|..])
    && (i >= |text| ==> |names| == |chunks|)
  }

  lemma PublishNext(text: string, domain: string, i: nat, names: seq<string>)
    requires i < |text| && PublishedUpTo(text, domain, i, names)
    ensures var m := MaxChunk(domain);
            var chunk := text[i..if i + m < |text| then i + m else |text|];
            PublishedUpTo(text, domain, i + m, names + [Pad2(|names|) + chunk + ("." + domain)])
  {
    var m, k := MaxChunk(domain), |names|;
    var chunks := Chunks(text, m);
    NextChunk(text, m, i, k);
    hide Chunks, Pad2;
    assert chunks[..k + 1] == chunks[..k] + [chunks[k]];
    assert NamesOf(chunks[..k + 1], domain) == names + [Pad2(k) + chunks[k] + ("." + domain)];
  }

  /** One pass of the loop takes the next chunk off the text. */
  lemma NextChunk(text: string, m: nat, i: nat, k: nat)
    requires m >= 1 && i < |text| && k <= |Chunks(text, m)|
    requires Chunks(text[i..], m) == Chunks(text, m)[k..]
    ensures k < |Chunks(text, m)|
    ensures Chunks(text, m)[k] == text[i..if i + m < |text| then i + m else |text|]
    ensures i + m <= |text| ==> Chunks(text[i + m..], m) == Chunks(text, m)[k + 1..]
    ensures i + m > |text| ==> |Chunks(text, m)| == k + 1
  {
    var rest, c := text[i..], Chunks(text, m);
    assert c[k..][0] == c[k] && c[k..][1..] == c[k + 1..];
    if i + m < |text| {
      assert rest[..m] == text[i..i + m] && rest[m..] == text[i + m..];
    } else {
      assert rest == text[i..|text|];
      assert i + m == |text| ==> text[i + m..] == "";
    }
  }

  // ---- When the loop of Encode finishes ----

  datatype Loop = Running(i: int) | Finished | Panicked

  /** One test of the loop condition and, if it holds, one pass through the body over a
      text of n characters; slicing with a bound below its start panics. */
  function Turn(s: Loop, n: nat, m: int): Loop {
    match s
    case Running(i) =>
      if i >= n then Finished
      else if (if i + m < n then i + m else n) < i then Panicked
      else Running(i + m)
    case _ => s
  }

  function Turns(k: nat, n: nat, m: int): Loop {
    if k == 0 then Running(0) else Turn(Turns(k - 1, n, m), n, m)
  }

  lemma {:induction false} LoopAdvances(k: nat, n: nat, m: int)
    requires m >= 1
    ensures Turns(k, n, m) == Finished || (Turns(k, n, m).Running? && Turns(k, n, m).i >= k)
  {
    if k > 0 { LoopAdvances(k - 1, n, m); }
  }

  lemma {:induction false} LoopStuck(k: nat, n: nat, m: int)
    requires n > 0 && m <= 0
    ensures Turns(k, n, m) == if m < 0 && k > 0 then Panicked else Running(0)
  {
    if k > 0 { LoopStuck(k - 1, n, m); }
  }

  /** The loop of Encode ends exactly when there is nothing to encode or the domain
      leaves room for at least one character; a domain of 60 characters makes it run
      for ever and a longer one makes it panic. */
  lemma LoopFinishesIff(content: seq<Byte>, domain: string)
    ensures (exists k: nat :: Turns(k, Base32.DigitCount(|content|), MaxChunk(domain)) == Finished)
            <==> Encodable(content, domain)
  {
    var n, m := Base32.DigitCount(|content|), MaxChunk(domain);
    if Encodable(content, domain) {
      if m >= 1 {
        LoopAdvances(n + 1, n, m);
        LoopAdvances(n, n, m);
        assert Turns(n + 1, n, m) == Finished;
      } else {
        assert Turns(1, n, m) == Turn(Turns(0, n, m), n, m) == Finished;
      }
    } else {
      forall k: nat ensures Turns(k, n, m) != Finished { LoopStuck(k, n, m); }
    }
  }

  // ---- Counts and lengths ----

  lemma {:induction false} ChunkCount(text: string, m: nat)
    requires m >= 1
    ensures var c := |Chunks(text, m)|; (c - 1) * m < |text| <= c * m || c == |text| == 0
  {
    if |text| > m {
      ChunkCount(text[m..], m);
    }
  }

  function CeilDiv(n: nat, m: nat): nat
    requires m >= 1
  {
    (n + m - 1) / m
  }

  lemma CeilDivUnique(n: nat, m: nat, c: nat)
    requires m >= 1 && c >= 1
    requires (c - 1) * m < n <= c * m
    ensures CeilDiv(n, m) == c
  {
    var q, r := (n + m - 1) / m, (n + m - 1) % m;
    assert n + m - 1 == q * m + r;
    assert q < c ==> q * m <= (c - 1) * m;
    assert q > c ==> q * m >= (c + 1) * m;
  }

  predicate Distinct(names: seq<string>) {
    forall i, j :: 0 <= j < i < |names| ==> names[i] != names[j]
  }

  lemma AscendingDistinct(names: seq<string>)
    requires Wide(names) && Ascending(names)
    ensures Distinct(names)
  {
    forall i, j | 0 <= j < i < |names| ensures names[i] != names[j] {
      assert PrefixLess(names[j], names[i]);
    }
  }

  /** Encode publishes exactly ceil(ceil(8n/5) / (60 - |domain|)) names; while there are
      at most 100 they are pairwise distinct and none is longer than 63 characters. */
  lemma EncodeSize(content: seq<Byte>, domain: string)
    requires MaxChunk(domain) >= 1
    ensures var names := EncodeNames(content, domain);
            && |names| == CeilDiv(Base32.DigitCount(|content|), 60 - |domain|)
            && (|names| <= 100 ==> Distinct(names) && forall n <- names :: |n| <= 63)
  {
    var m := MaxChunk(domain);
    if content != [] {
      var text := Base32.LowerText(content);
      var chunks := Chunks(text, m);
      ChunkCount(text, m);
      hide Chunks, CeilDiv, Base32.DigitCount, Base32.LowerText;
      CeilDivUnique(|text|, m, |chunks|);
      if |chunks| <= 100 {
        NamesAscend(chunks, domain);
        AscendingDistinct(NamesOf(chunks, domain));
      }
    }
  }

  // ---- Order of names ----

  /** Go's a[:2] < b[:2] */
  predicate PrefixLess(a: string, b: string)
    requires |a| >= 2 && |b| >= 2
  {
    a[0] < b[0] || (a[0] == b[0] && a[1] < b[1])
  }

  predicate Wide(names: seq<string>) {
    forall n <- names :: |n| >= 2
  }

  predicate SortedByPrefix(names: seq<string>)
    requires Wide(names)
  {
    forall i, j :: 0 <= i < j < |names| ==> !PrefixLess(names[j], names[i])
  }

  ghost predicate Ascending(names: seq<string>)
    requires Wide(names)
  {
    forall i, j :: 0 <= i < j < |names| ==> PrefixLess(names[i], names[j])
  }

  /** Below 100 the two printed digits compare like the numbers. */
  lemma NamesAscend(chunks: seq<string>, domain: string)
    requires |chunks| <= 100
    ensures Wide(NamesOf(chunks, domain)) && Ascending(NamesOf(chunks, domain))
  {
    var names := NamesOf(chunks, domain);
    forall j | 0 <= j < |names| ensures |names[j]| >= 2 && names[j][..2] == Pad2(j) && |Pad2(j)| == 2 {}
    hide NamesOf, Pad2;
    forall i, j | 0 <= i < j < |names| ensures PrefixLess(names[i], names[j]) {
      Pad2Ascends(i, j);
      assert names[i][..2][0] == names[i][0] && names[i][..2][1] == names[i][1];
      assert names[j][..2][0] == names[j][0] && names[j][..2][1] == names[j][1];
    }
  }

  lemma Pad2Ascends(i: nat, j: nat)
    requires i < j < 100
    ensures PrefixLess(Pad2(i), Pad2(j))
  {
  }

  lemma OneOut(q: seq<string>, k: nat)
    requires k < |q|
    ensures multiset(q) == multiset(q[..k] + q[k + 1..]) + multiset{q[k]}
  {
    assert q == q[..k] + ([q[k]] + q[k + 1..]);
  }

  lemma SameWithout(a: multiset<string>, b: multiset<string>, e: string)
    requires a + multiset{e} == b + multiset{e}
    ensures a == b
  {
    forall x ensures a[x] == b[x] { assert (a + multiset{e})[x] == (b + multiset{e})[x]; }
  }

  lemma FirstOut(q: seq<string>)
    requires q != []
    ensures multiset(q) == multiset(q[1..]) + multiset{q[0]}
  {
    assert q == [q[0]] + q[1..];
  }

  /** Taking the same first element off two reorderings of each other. */
  lemma SameTail(q: seq<string>, names: seq<string>)
    requires multiset(q) == multiset(names) && q != [] && names != [] && q[0] == names[0]
    ensures multiset(q[1..]) == multiset(names[1..])
  {
    FirstOut(q);
    FirstOut(names);
    SameWithout(multiset(q[1..]), multiset(names[1..]), q[0]);
  }

  lemma NothingReordered(q: seq<string>)
    requires multiset(q) == multiset([])
    ensures q == []
  {
    assert |q| == |multiset(q)|;
  }

  lemma HeadAndTail(q: seq<string>, names: seq<string>)
    requires q != [] && names != [] && q[0] == names[0] && q[1..] == names[1..]
    ensures q == names
  {
    assert q == [q[0]] + q[1..] && names == [names[0]] + names[1..];
  }

  lemma SmallestFirst(q: seq<string>, names: seq<string>)
    requires multiset(q) == multiset(names) && names != []
    requires Wide(q) && Wide(names) && SortedByPrefix(q) && Ascending(names)
    ensures q != [] && q[0] == names[0]
  {
    hide PrefixLess;
    assert |q| == |multiset(q)| == |names|;
    assert names[0] in multiset(q) && q[0] in multiset(names);
    var i :| 0 <= i < |q| && q[i] == names[0];
    var k :| 0 <= k < |names| && names[k] == q[0];
    assert i == 0 || !PrefixLess(q[i], q[0]);
    assert k == 0 || PrefixLess(names[0], names[k]);
  }

  lemma TailsInOrder(q: seq<string>, names: seq<string>)
    requires Wide(q) && Wide(names) && SortedByPrefix(q) && Ascending(names) && q != [] && names != []
    ensures Wide(q[1..]) && Wide(names[1..]) && SortedByPrefix(q[1..]) && Ascending(names[1..])
  {
    hide PrefixLess;
    assert forall n <- q[1..] :: n in q;
    assert forall n <- names[1..] :: n in names;
  }

  /** Sorting leaves no freedom: a sorted reordering of a strictly ascending list is that list. */
  lemma {:induction false} SortedUnique(q: seq<string>, names: seq<string>)
    requires multiset(q) == multiset(names)
    requires Wide(q) && Wide(names) && SortedByPrefix(q) && Ascending(names)
    ensures q == names
  {
    hide *;
    if names == [] {
      NothingReordered(q);
    } else {
      SmallestFirst(q, names);
      TailsInOrder(q, names);
      SameTail(q, names);
      SortedUnique(q[1..], names[1..]);
      HeadAndTail(q, names);
    }
  }

  // ---- Reassembly ----

  predicate Labelled(names: seq<string>) {
    forall n <- names :: |FirstLabel(n)| >= 2
  }

  function Gathered(names: seq<string>): string
    requires Labelled(names)
  {
    if names == [] then "" else FirstLabel(names[0])[2..] + Gathered(names[1..])
  }

  /** What Decode makes of names that are already sorted, up to the base32 step. */
  function Reassemble(names: seq<string>): Option<seq<Byte>>
    requires Labelled(names)
  {
    Base32.Decode(Base32.ToUpper(Gathered(names)))
  }

  /** A sorted reordering of names: what sort.Slice may leave in its argument. */
  ghost predicate SortedReorderingOf(q: seq<string>, names: seq<string>) {
    multiset(q) == multiset(names) && Labelled(q) && Wide(q) && SortedByPrefix(q)
  }

  lemma NameParts(chunks: seq<string>, domain: string, j: nat)
    requires j < |chunks| && '.' !in chunks[j]
    ensures var name := NamesOf(chunks, domain)[j];
            FirstLabel(name) == Pad2(j) + chunks[j] && AfterFirstDot(name) == Some(domain)
  {
    SplitAtDot(Pad2(j) + chunks[j], domain);
    assert NamesOf(chunks, domain)[j] == Pad2(j) + chunks[j] + ("." + domain);
  }

  function Concat(chunks: seq<string>): string {
    if chunks == [] then "" else chunks[0] + Concat(chunks[1..])
  }

  lemma {:induction false} ChunksConcat(text: string, m: nat)
    requires m >= 1
    ensures Concat(Chunks(text, m)) == text
  {
    if |text| > m {
      ChunksConcat(text[m..], m);
      assert Chunks(text, m)[1..] == Chunks(text[m..], m);
    }
  }

  /** Stripping label prefixes and joining gives the chunks back, from name j on. */
  lemma {:induction false} GatheredFrom(chunks: seq<string>, domain: string, j: nat)
    requires j <= |chunks| <= 100
    requires forall c <- chunks :: '.' !in c
    ensures Labelled(NamesOf(chunks, domain)[j..])
    ensures Gathered(NamesOf(chunks, domain)[j..]) == Concat(chunks[j..])
    decreases |chunks| - j
  {
    hide NamesOf, Pad2, FirstLabel;
    if j < |chunks| {
      var names := NamesOf(chunks, domain);
      GatheredFrom(chunks, domain, j + 1);
      NameParts(chunks, domain, j);
      assert names[j..] == [names[j]] + names[j + 1..];
      assert names[j..][1..] == names[j + 1..] && chunks[j..][1..] == chunks[j + 1..];
    }
  }

  /** Every published name splits at its first dot into a label of at least two
      characters and the domain it was published under. */
  lemma EncodedNameParts(content: seq<Byte>, domain: string)
    requires Encodable(content, domain)
    ensures Labelled(EncodeNames(content, domain)) && Wide(EncodeNames(content, domain))
    ensures forall n <- EncodeNames(content, domain) :: AfterFirstDot(n) == Some(domain) && n[0] != '*'
  {
    if content != [] {
      var chunks := ContentChunks(content, domain);
      forall n | n in NamesOf(chunks, domain)
        ensures |n| >= 2 && |FirstLabel(n)| >= 2 && AfterFirstDot(n) == Some(domain) && n[0] != '*'
      {
        var j: nat :| j < |chunks| && n == NamesOf(chunks, domain)[j];
        NameParts(chunks, domain, j);
        Pad2Digits(j);
        assert n[0] == Pad2(j)[0] && Pad2(j)[0] in Pad2(j);
      }
    }
  }

  lemma DecimalDigits(n: nat)
    ensures forall c <- Decimal(n) :: '0' <= c <= '9'
  {
  }

  lemma Pad2Digits(n: nat)
    ensures forall c <- Pad2(n) :: '0' <= c <= '9'
  {
    DecimalDigits(n);
  }

  /** The chunks of a published content, none of which holds a dot. */
  ghost function ContentChunks(content: seq<Byte>, domain: string): (chunks: seq<string>)
    requires MaxChunk(domain) >= 1
    ensures forall c <- chunks :: '.' !in c
    ensures content != [] ==> EncodeNames(content, domain) == NamesOf(chunks, domain)
    ensures content == [] ==> chunks == []
    ensures Concat(chunks) == Base32.LowerText(content)
  {
    Base32.LowerTextChars(content);
    ChunksConcat(Base32.LowerText(content), MaxChunk(domain));
    Chunks(Base32.LowerText(content), MaxChunk(domain))
  }

  /** In range, any sorted reordering of the published names gives the content back. */
  lemma RoundTrip(content: seq<Byte>, domain: string, q: seq<string>)
    requires Encodable(content, domain) && |EncodeNames(content, domain)| <= 100
    requires SortedReorderingOf(q, EncodeNames(content, domain))
    ensures q == EncodeNames(content, domain)
    ensures Reassemble(q) == Some(content)
  {
    var names := EncodeNames(content, domain);
    if content == [] {
      assert multiset(q) == multiset{};
      assert q == [];
      Base32.RoundTrip([]);
      assert Base32.ToUpper(Gathered([])) == Base32.ToUpper(Base32.LowerText([]));
    } else {
      var chunks := ContentChunks(content, domain);
      NamesAscend(chunks, domain);
      SortedUnique(q, names);
      GatheredFrom(chunks, domain, 0);
      assert names[0..] == names && chunks[0..] == chunks;
      Base32.RoundTrip(content);
    }
  }

  lemma {:induction false} GatheredKeeps(names: seq<string>, n: string, c: char)
    requires Labelled(names) && n in names
    requires c in FirstLabel(n)[2..]
    ensures c in Gathered(names)
  {
    if names[0] != n { GatheredKeeps(names[1..], n, c); }
  }

  lemma ZeroIsCorrupt(s: string)
    requires '0' in s
    ensures Base32.Decode(Base32.ToUpper(s)) == None
  {
    var t := Base32.ToUpper(s);
    var i :| 0 <= i < |s| && s[i] == '0';
    assert t[i] == '0';
    StripKeeps(t, '0');
  }

  lemma ThreeDigitLabel(chunks: seq<string>, domain: string)
    requires |chunks| > 100 && '.' !in chunks[100]
    ensures |FirstLabel(NamesOf(chunks, domain)[100])| > 2 && FirstLabel(NamesOf(chunks, domain)[100])[2] == '0'
  {
    NameParts(chunks, domain, 100);
    assert Decimal(100) == "100";
  }

  /** Out of range the name with index 100 carries a '0' past its two stripped characters,
      so no reordering, sorted or not, decodes. */
  lemma BeyondRangeFails(content: seq<Byte>, domain: string, q: seq<string>)
    requires Encodable(content, domain) && |EncodeNames(content, domain)| > 100
    requires multiset(q) == multiset(EncodeNames(content, domain)) && Labelled(q)
    ensures Reassemble(q) == None
  {
    var chunks := ContentChunks(content, domain);
    ThreeDigitLabel(chunks, domain);
    hide Gathered, EncodeNames, FirstLabel, Base32.Decode;
    var n := EncodeNames(content, domain)[100];
    assert n in multiset(EncodeNames(content, domain));
    assert n in multiset(q);
    assert FirstLabel(n)[2..][0] == '0';
    GatheredKeeps(q, n, '0');
    ZeroIsCorrupt(Gathered(q));
  }

  /** The codec is exact: whatever order the names arrive in, decoding gives the published
      bytes if there are at most 100 names, and an error otherwise. */
  lemma DecodesIff(content: seq<Byte>, domain: string, q: seq<string>)
    requires Encodable(content, domain)
    requires SortedReorderingOf(q, EncodeNames(content, domain))
    ensures Reassemble(q) == if |EncodeNames(content, domain)| <= 100 then Some(content) else None
  {
    if |EncodeNames(content, domain)| <= 100 {
      RoundTrip(content, domain, q);
    } else {
      BeyondRangeFails(content, domain, q);
    }
  }

  // ---- Documents ----

  datatype DecodeError = BadBase32 | BadGzip | BadJson
  datatype Decoded<+D> = Document(doc: D) | Failed(error: DecodeError)

  /** json.Marshal, gzip, and their inverses, which are unseen libraries. */
  datatype DocLib<!D> = DocLib(
    marshal: D -> Option<seq<Byte>>,
    compress: seq<Byte> -> Option<seq<Byte>>,
    decompress: seq<Byte> -> Option<seq<Byte>>,
    unmarshal: seq<Byte> -> Option<D>)

  ghost predicate Faithful<D(!new)>(lib: DocLib<D>) {
    && (forall d :: lib.marshal(d).Some? ==> lib.unmarshal(lib.marshal(d).value) == Some(d))
    && (forall b :: lib.compress(b).Some? ==> lib.decompress(lib.compress(b).value) == Some(b))
  }

  /** The bytes that EncodeAtt hands to Encode. */
  function Packed<D>(lib: DocLib<D>, doc: D): Option<seq<Byte>> {
    if lib.marshal(doc).None? then None else lib.compress(lib.marshal(doc).value)
  }

  method EncodeAtt<D>(lib: DocLib<D>, att: D, domain: string) returns (domains: Option<seq<string>>)
    requires Packed(lib, att).Some? ==> Encodable(Packed(lib, att).value, domain)
    ensures domains.Some? <==> Packed(lib, att).Some?
    ensures domains.Some? ==> domains.value == EncodeNames(Packed(lib, att).value, domain)
  {
    var attJSON := lib.marshal(att);
    if attJSON.None? { return None; }
    var compressed := lib.compress(attJSON.value);
    if compressed.None? { return None; }
    var names := Encode(compressed.value, domain);
    return Some(names);
  }

  function DecodeSorted<D>(lib: DocLib<D>, names: seq<string>): Decoded<D>
    requires Labelled(names)
  {
    var gzJSON := Reassemble(names);
    if gzJSON.None? then Failed(BadBase32) else
    var attJSON := lib.decompress(gzJSON.value);
    if attJSON.None? then Failed(BadGzip) else
    var att := lib.unmarshal(attJSON.value);
    if att.None? then Failed(BadJson) else Document(att.value)
  }

  lemma SwapReorders(s: seq<string>, i: nat, j: nat)
    requires i < j < |s|
    ensures multiset(s[i := s[j]][j := s[i]]) == multiset(s)
  {
  }

  /** !less(a[y], a[x]) for all x < y up to i, except that the element at j is new. */
  predicate SortedBut(s: seq<string>, i: nat, j: nat)
    requires Wide(s)
  {
    forall x, y :: 0 <= x < y <= i && y != j && y < |s| ==> !PrefixLess(s[y], s[x])
  }

  /** sort.Slice by the first two characters, in place. Only what its contract says is
      used: the order of names with equal prefixes stays open. */
  method SortByPrefix(a: array<string>)
    requires Wide(a[..])
    modifies a
    ensures multiset(a[..]) == multiset(old(a[..]))
    ensures Wide(a[..]) && SortedByPrefix(a[..])
  {
    var i := 0;
    while i < a.Length
      invariant 0 <= i <= a.Length
      invariant multiset(a[..]) == multiset(old(a[..]))
      invariant Wide(a[..]) && SortedBut(a[..], i, i)
    {
      var j := i;
      while j > 0 && PrefixLess(a[j], a[j - 1])
        invariant 0 <= j <= i
        invariant multiset(a[..]) == multiset(old(a[..]))
        invariant Wide(a[..]) && SortedBut(a[..], i, j)
        invariant forall y :: j < y <= i ==> PrefixLess(a[j], a[y])
      {
        SwapDown(a, i, j);
        j := j - 1;
      }
      SettledAt(a[..], i, j);
      i := i + 1;
    }
  }

  /** One step of the insertion: the new element moves one place down. */
  method SwapDown(a: array<string>, i: nat, j: nat)
    requires 0 < j <= i < a.Length && Wide(a[..]) && SortedBut(a[..], i, j)
    requires PrefixLess(a[j], a[j - 1])
    requires forall y :: j < y <= i ==> PrefixLess(a[j], a[y])
    modifies a
    ensures multiset(a[..]) == multiset(old(a[..]))
    ensures Wide(a[..]) && SortedBut(a[..], i, j - 1)
    ensures forall y :: j - 1 < y <= i ==> PrefixLess(a[j - 1], a[y])
  {
    ghost var s := a[..];
    SwapReorders(s, j - 1, j);
    SwapKeepsSorted(s, i, j);
    a[j - 1], a[j] := a[j], a[j - 1];
    assert a[..] == Swapped(s, j);
  }

  function Swapped(s: seq<string>, j: nat): (t: seq<string>)
    requires 0 < j < |s|
    ensures |t| == |s|
  {
    s[j - 1 := s[j]][j := s[j - 1]]
  }

  lemma SwapKeepsSorted(s: seq<string>, i: nat, j: nat)
    requires 0 < j <= i < |s| && Wide(s) && SortedBut(s, i, j)
    requires PrefixLess(s[j], s[j - 1])
    requires forall y :: j < y <= i ==> PrefixLess(s[j], s[y])
    ensures var t := Swapped(s, j);
            && Wide(t) && SortedBut(t, i, j - 1)
            && forall y :: j - 1 < y <= i ==> PrefixLess(t[j - 1], t[y])
  {
    var t := Swapped(s, j);
    forall x, y | 0 <= x < y <= i && y != j - 1 ensures !PrefixLess(t[y], t[x]) {
      if y == j && x < j - 1 { assert !PrefixLess(s[j - 1], s[x]); }
    }
  }

  lemma SettledAt(s: seq<string>, i: nat, j: nat)
    requires j <= i < |s| && Wide(s) && SortedBut(s, i, j)
    requires j > 0 ==> !PrefixLess(s[j], s[j - 1])
    requires forall y :: j < y <= i ==> PrefixLess(s[j], s[y])
    ensures SortedBut(s, i + 1, i + 1)
  {
    forall x | 0 <= x < j ensures !PrefixLess(s[j], s[x]) {
      if x < j - 1 { assert !PrefixLess(s[j - 1], s[x]); }
    }
  }

  /** The loop of Decode that joins the labels without their prefixes. */
  method Gather(domains: array<string>) returns (encodedData: string)
    requires Labelled(domains[..])
    ensures encodedData == Gathered(domains[..])
  {
    hide FirstLabel;
    encodedData := "";
    var k := 0;
    while k < domains.Length
      invariant 0 <= k <= domains.Length
      invariant Gathered(domains[..]) == encodedData + Gathered(domains[k..])
    {
      var first := FirstLabel(domains[k]);
      assert domains[k..][1..] == domains[k + 1..];
      encodedData := encodedData + first[2..];
      k := k + 1;
    }
  }

  /** Decode as the program runs it: it sorts its argument in place, joins the labels
      without their prefixes, and decodes. */
  method Decode<D>(lib: DocLib<D>, domains: array<string>) returns (r: Decoded<D>)
    requires Labelled(domains[..])
    modifies domains
    ensures SortedReorderingOf(domains[..], old(domains[..]))
    ensures r == DecodeSorted(lib, domains[..])
  {
    assert Wide(domains[..]);
    SortByPrefix(domains);
    LabelledReordering(domains[..], old(domains[..]));
    hide Base32.Decode, Base32.ToUpper, Gathered;
    var encodedData := Gather(domains);
    var gzJSON := Base32.Decode(Base32.ToUpper(encodedData));
    if gzJSON.None? { return Failed(BadBase32); }
    var attJSON := lib.decompress(gzJSON.value);
    if attJSON.None? { return Failed(BadGzip); }
    var att := lib.unmarshal(attJSON.value);
    if att.None? { return Failed(BadJson); }
    return Document(att.value);
  }

  lemma LabelledReordering(q: seq<string>, names: seq<string>)
    requires multiset(q) == multiset(names) && Labelled(names)
    ensures Labelled(q)
  {
    forall n | n in q ensures |FirstLabel(n)| >= 2 {
      assert n in multiset(q);
      assert n in multiset(names);
    }
  }

  /** Documents survive publication: any order of EncodeAtt's names decodes to the
      document, or, with more than 100 names, to a base32 error. */
  lemma DocumentRoundTrip<D(!new)>(lib: DocLib<D>, att: D, domain: string, q: seq<string>)
    requires Faithful(lib) && Packed(lib, att).Some?
    requires Encodable(Packed(lib, att).value, domain)
    requires SortedReorderingOf(q, EncodeNames(Packed(lib, att).value, domain))
    ensures DecodeSorted(lib, q) ==
            if |EncodeNames(Packed(lib, att).value, domain)| <= 100 then Document(att) else Failed(BadBase32)
  {
    hide Reassemble, EncodeNames, SortedReorderingOf;
    DecodesIff(Packed(lib, att).value, domain, q);
  }
}
