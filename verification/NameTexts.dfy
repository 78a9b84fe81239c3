/** The text that names carry, and how Decode ends on names of any kind. */
module NameTexts {
  import opened Text
  import Base32
  import opened Dcode

  // ---- What each published name carries ----

  lemma ChunkStep(text: string, m: nat)
    requires m >= 1 && text != []
    ensures var c := Chunks(text, m);
            && c != [] && c[0] == Part(text, 0, m)
            && (if |text| <= m then |c| == 1 else c[1..] == Chunks(text[m..], m) && text == text[..m] + text[m..])
  {
    if |text| <= m { PartOfShort(text, m); } else { assert text[0..0 + m] == text[..m]; }
  }

  lemma OneLessTimes(j: nat, m: nat)
    requires j > 0
    ensures j * m == m + (j - 1) * m
  {
  }

  /** Chunks are consecutive stretches of the text, all of full length but the last. */
  lemma {:induction false} ChunkAt(text: string, m: nat, j: nat)
    requires m >= 1 && j < |Chunks(text, m)|
    ensures j * m < |text| && Chunks(text, m)[j] == Part(text, j * m, m)
    decreases j
  {
    assert text != [];
    hide Chunks, Part;
    ChunkStep(text, m);
    if j > 0 {
      OneLessTimes(j, m);
      ChunkAt(text[m..], m, j - 1);
      PartOfRest(text[..m], text[m..], (j - 1) * m, m);
      assert Chunks(text, m)[1..][j - 1] == Chunks(text, m)[j];
    } else {
      assert j * m == 0;
    }
  }

  /** The number that decimal digits spell. */
  function NumberOf(s: string): int {
    if s == "" then 0 else NumberOf(s[..|s| - 1]) * 10 + (s[|s| - 1] as int - '0' as int)
  }

  /** Indices print in decimal, without leading zeros of their own. */
  lemma {:induction false} DecimalIs(n: nat)
    ensures NumberOf(Decimal(n)) == n && (n > 0 ==> Decimal(n)[0] != '0')
  {
    var d := ['0' + (n % 10) as char];
    if n < 10 {
      assert d[..0] == "";
    } else {
      DecimalIs(n / 10);
      assert (Decimal(n / 10) + d)[..|Decimal(n / 10)|] == Decimal(n / 10);
    }
  }

  lemma ChunkNames(content: seq<Byte>, domain: string, j: nat)
    requires MaxChunk(domain) >= 1 && j < |EncodeNames(content, domain)|
    ensures var chunks := Chunks(Base32.LowerText(content), MaxChunk(domain));
            j < |chunks| && EncodeNames(content, domain)[j] == Pad2(j) + chunks[j] + ("." + domain)
  {
    hide Chunks, Pad2, Base32.LowerText;
  }

  /** Name j carries the j-th stretch of the base32 text behind its index. */
  lemma EncodedNameAt(content: seq<Byte>, domain: string, j: nat)
    requires |domain| <= 59 && j < |EncodeNames(content, domain)|
    ensures var text, m := Base32.LowerText(content), 60 - |domain|;
            && j * m < |text|
            && EncodeNames(content, domain)[j] == Pad2(j) + Part(text, j * m, m) + ("." + domain)
  {
    assert MaxChunk(domain) == 60 - |domain|;
    hide *;
    ChunkNames(content, domain, j);
    ChunkAt(Base32.LowerText(content), MaxChunk(domain), j);
  }

  // ---- Which names decode ----

  lemma {:induction false} GatheredHolds(names: seq<string>, c: char)
    requires Labelled(names)
    ensures c in Gathered(names) <==> exists n <- names :: c in FirstLabel(n)[2..]
  {
    hide FirstLabel;
    if names != [] {
      GatheredHolds(names[1..], c);
      assert forall n :: n in names <==> n == names[0] || n in names[1..];
    }
  }

  /** Digits of the text in either case, and the line breaks that the decoder skips. */
  predicate IsTextChar(c: char) {
    'a' <= c <= 'z' || 'A' <= c <= 'Z' || '2' <= c <= '7' || c == '\r' || c == '\n'
  }

  lemma UpperDecodesIff(s: string)
    ensures Base32.Decode(Base32.ToUpper(s)).Some? <==> forall c <- s :: IsTextChar(c)
  {
    var t := Base32.ToUpper(s);
    AllReadIff(t, Base32.CharDigit);
    if forall c <- s :: IsTextChar(c) {
      forall c | c in t && c != '\r' && c != '\n' ensures Base32.CharDigit(c).Some? {
        var i :| 0 <= i < |t| && t[i] == c;
        assert s[i] in s;
      }
    }
    if forall c <- t :: c != '\r' && c != '\n' ==> Base32.CharDigit(c).Some? {
      forall c | c in s ensures IsTextChar(c) {
        var i :| 0 <= i < |s| && s[i] == c;
        assert t[i] in t;
      }
    }
  }

  lemma InLabel(n: string, i: nat)
    requires |FirstLabel(n)| >= 2 && 2 <= i < |n| && '.' !in n[..i + 1]
    ensures n[i] in FirstLabel(n)[2..]
  {
    var dot := IndexOf(n, '.');
    forall k | 0 <= k <= i ensures n[k] != '.' { assert n[..i + 1][k] == n[k]; }
    assert FirstLabel(n)[2..][i - 2] == n[i];
  }

  lemma FromLabel(n: string, c: char) returns (i: nat)
    requires |FirstLabel(n)| >= 2 && c in FirstLabel(n)[2..]
    ensures 2 <= i < |n| && '.' !in n[..i + 1] && n[i] == c
  {
    var k :| 0 <= k < |FirstLabel(n)| - 2 && FirstLabel(n)[2..][k] == c;
    i := k + 2;
    assert forall j :: 0 <= j <= i ==> n[j] != '.';
  }

  /** Some name carries, past the two characters of its index and before its first dot, a
      character that is no letter, no digit from 2 to 7 and no line break. */
  ghost predicate HasForeign(q: seq<string>) {
    exists n, i :: n in q && 2 <= i < |n| && '.' !in n[..i + 1] && !IsTextChar(n[i])
  }

  /** Names decode exactly when none carries a foreign character. */
  lemma ReassemblesIff(q: seq<string>)
    requires Labelled(q)
    ensures Reassemble(q).None? <==> HasForeign(q)
  {
    hide FirstLabel, Base32.Decode, Base32.ToUpper;
    UpperDecodesIff(Gathered(q));
    if Reassemble(q).Some? {
      forall n, i | n in q && 2 <= i < |n| && '.' !in n[..i + 1] ensures IsTextChar(n[i]) {
        InLabel(n, i);
        GatheredHolds(q, n[i]);
      }
    } else {
      var c :| c in Gathered(q) && !IsTextChar(c);
      GatheredHolds(q, c);
      var n :| n in q && c in FirstLabel(n)[2..];
      var i := FromLabel(n, c);
    }
  }

  /** Letter case carries no information. */
  lemma {:induction false} CaseIgnored(q: seq<string>, r: seq<string>)
    requires Labelled(q) && Labelled(r) && |q| == |r|
    requires forall i :: 0 <= i < |q| ==> Base32.ToUpper(q[i]) == Base32.ToUpper(r[i])
    ensures Base32.ToUpper(Gathered(q)) == Base32.ToUpper(Gathered(r)) && Reassemble(q) == Reassemble(r)
  {
    if q != [] {
      hide Base32.ToUpper, Base32.Decode, FirstLabel;
      CaseIgnored(q[1..], r[1..]);
      SameLabel(q[0], r[0]);
      UpperConcat(FirstLabel(q[0])[2..], Gathered(q[1..]));
      UpperConcat(FirstLabel(r[0])[2..], Gathered(r[1..]));
    }
  }

  lemma UpperConcat(a: string, b: string)
    ensures Base32.ToUpper(a + b) == Base32.ToUpper(a) + Base32.ToUpper(b)
  {
  }

  lemma SameLabel(n: string, m: string)
    requires |FirstLabel(n)| >= 2 && |FirstLabel(m)| >= 2 && Base32.ToUpper(n) == Base32.ToUpper(m)
    ensures Base32.ToUpper(FirstLabel(n)[2..]) == Base32.ToUpper(FirstLabel(m)[2..])
  {
    var i, j, u := IndexOf(n, '.'), IndexOf(m, '.'), Base32.ToUpper(n);
    assert |n| == |m| == |u|;
    assert forall k :: 0 <= k < |u| ==> u[k] == Base32.Upper(n[k]) == Base32.Upper(m[k]);
    assert forall k :: 0 <= k < |u| ==> (n[k] == '.' <==> m[k] == '.');
    assert i == j;
    assert forall k :: 0 <= k < i - 2 ==> FirstLabel(n)[2..][k] == n[k + 2] && FirstLabel(m)[2..][k] == m[k + 2];
  }

  /** How Decode ends, by the first step that fails: a foreign character, a text that is no
      gzip, a text that is no document. */
  lemma OutcomeIff<D>(lib: DocLib<D>, q: seq<string>)
    requires Labelled(q)
    ensures var r, bytes := DecodeSorted(lib, q), Reassemble(q);
            && (r == Failed(BadBase32) <==> HasForeign(q))
            && (r == Failed(BadGzip) <==> bytes.Some? && lib.decompress(bytes.value).None?)
            && (r == Failed(BadJson)
                <==> bytes.Some? && lib.decompress(bytes.value).Some?
                     && lib.unmarshal(lib.decompress(bytes.value).value).None?)
            && (r.Document?
                <==> bytes.Some? && lib.decompress(bytes.value).Some?
                     && lib.unmarshal(lib.decompress(bytes.value).value).Some?)
            && (r.Document? ==> lib.unmarshal(lib.decompress(bytes.value).value) == Some(r.doc))
  {
    hide Reassemble, HasForeign;
    ReassemblesIff(q);
  }
}
