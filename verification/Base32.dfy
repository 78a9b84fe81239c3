/** Unpadded base32, section 6 of RFC 4648, as Go's encoding/base32 computes it
    quantum by quantum: five bytes give eight digits, and a short last quantum
    gives as few digits as hold its bits. */
module Base32 {
  import opened Text

  type Digit = x: int | 0 <= x < 32

  // ---- Alphabet ----

  function DigitChar(d: Digit): char {
    if d < 26 then 'A' + d as char else '2' + (d - 26) as char
  }

  function CharDigit(c: char): (d: Option<Digit>) {
    if 'A' <= c <= 'Z' then Some((c - 'A') as int)
    else if '2' <= c <= '7' then Some((c - '2') as int + 26)
    else None
  }

  /** Reading a digit inverts writing it. */
  lemma AlphabetInverse(d: Digit, c: char)
    ensures CharDigit(c) == Some(d) <==> c == DigitChar(d)
  {
  }

  /** The alphabet of section 6 of RFC 4648, in order. */
  lemma AlphabetText(d: Digit)
    ensures DigitChar(d) == "ABCDEFGHIJKLMNOPQRSTUVWXYZ234567"[d]
  {
    var text := "ABCDEFGHIJKLMNOPQRSTUVWXYZ234567";
    match d {
      case 0 => case 1 => case 2 => case 3 => case 4 => case 5 => case 6 => case 7 =>
      case 8 => case 9 => case 10 => case 11 => case 12 => case 13 => case 14 => case 15 =>
      case 16 => case 17 => case 18 => case 19 => case 20 => case 21 => case 22 => case 23 =>
      case 24 => case 25 => case 26 => case 27 => case 28 => case 29 => case 30 => case _ =>
    }
  }

  lemma ReadsWhatItSpells(c: char, text: string)
    requires |text| == 32 && forall d: Digit :: DigitChar(d) == text[d]
    ensures CharDigit(c).Some? <==> c in text
  {
    if CharDigit(c).Some? {
      assert c == DigitChar(CharDigit(c).value) == text[CharDigit(c).value];
    }
    if c in text {
      var d: nat :| d < |text| && text[d] == c;
      assert DigitChar(d) == c;
    }
  }

  lemma AlphabetReads(c: char)
    ensures CharDigit(c).Some? <==> c in "ABCDEFGHIJKLMNOPQRSTUVWXYZ234567"
  {
    forall d: Digit ensures DigitChar(d) == "ABCDEFGHIJKLMNOPQRSTUVWXYZ234567"[d] { AlphabetText(d); }
    hide DigitChar, CharDigit;
    ReadsWhatItSpells(c, "ABCDEFGHIJKLMNOPQRSTUVWXYZ234567");
  }

  function Lower(c: char): char {
    if 'A' <= c <= 'Z' then c - 'A' + 'a' else c
  }

  function Upper(c: char): char {
    if 'a' <= c <= 'z' then c - 'a' + 'A' else c
  }

  function ToLower(s: string): (t: string)
    ensures |t| == |s| && forall i :: 0 <= i < |s| ==> t[i] == Lower(s[i])
  {
    seq(|s|, i requires 0 <= i < |s| => Lower(s[i]))
  }

  function ToUpper(s: string): (t: string)
    ensures |t| == |s| && forall i :: 0 <= i < |s| ==> t[i] == Upper(s[i])
  {
    seq(|s|, i requires 0 <= i < |s| => Upper(s[i]))
  }

  // ---- One quantum ----

  /** Number of digits that hold n bytes: ceil(8n/5). */
  function DigitCount(n: nat): nat {
    (8 * n + 4) / 5
  }

  /** Number of bytes that a quantum of n digits yields. The library writes nothing,
      and reports nothing, for the lengths 1, 3 and 6 that no encoder produces. */
  function QuantumBytes(n: nat): nat {
    if n == 8 then 5 else if n == 7 then 4 else if n == 5 then 3
    else if n == 4 then 2 else if n == 2 then 1 else 0
  }

  function EncodeQuantum(b: seq<Byte>): (d: seq<Digit>)
    requires 1 <= |b| <= 5
    ensures |d| == DigitCount(|b|)
  {
    var b0, b1, b2, b3, b4: Byte := At(b, 0), At(b, 1), At(b, 2), At(b, 3), At(b, 4);
    [b0 / 8, b0 % 8 * 4 + b1 / 64, b1 / 2 % 32, b1 % 2 * 16 + b2 / 16,
     b2 % 16 * 2 + b3 / 128, b3 / 4 % 32, b3 % 4 * 8 + b4 / 32, b4 % 32][..DigitCount(|b|)]
  }

  function DecodeQuantum(d: seq<Digit>): (b: seq<Byte>)
    requires 1 <= |d| <= 8
    ensures |b| == QuantumBytes(|d|)
  {
    var d0, d1, d2, d3: Digit := At(d, 0), At(d, 1), At(d, 2), At(d, 3);
    var d4, d5, d6, d7: Digit := At(d, 4), At(d, 5), At(d, 6), At(d, 7);
    [d0 * 8 + d1 / 4, d1 % 4 * 64 + d2 * 2 + d3 / 16, d3 % 16 * 16 + d4 / 2,
     d4 % 2 * 128 + d5 * 4 + d6 / 8, d6 % 8 * 32 + d7][..QuantumBytes(|d|)]
  }

  /** Each byte is split over neighbouring digits and comes back together. */
  lemma BitsRejoin(b0: Byte, b1: Byte, b2: Byte, b3: Byte, b4: Byte)
    ensures b0 / 8 * 8 + (b0 % 8 * 4 + b1 / 64) / 4 == b0
    ensures (b0 % 8 * 4 + b1 / 64) % 4 * 64 + b1 / 2 % 32 * 2 + (b1 % 2 * 16 + b2 / 16) / 16 == b1
    ensures (b1 % 2 * 16 + b2 / 16) % 16 * 16 + (b2 % 16 * 2 + b3 / 128) / 2 == b2
    ensures (b2 % 16 * 2 + b3 / 128) % 2 * 128 + b3 / 4 % 32 * 4 + (b3 % 4 * 8 + b4 / 32) / 8 == b3
    ensures (b3 % 4 * 8 + b4 / 32) % 8 * 32 + b4 % 32 == b4
  {
    assert (b0 % 8 * 4 + b1 / 64) / 4 == b0 % 8 && (b0 % 8 * 4 + b1 / 64) % 4 == b1 / 64;
    assert (b1 % 2 * 16 + b2 / 16) / 16 == b1 % 2 && (b1 % 2 * 16 + b2 / 16) % 16 == b2 / 16;
    assert (b2 % 16 * 2 + b3 / 128) / 2 == b2 % 16 && (b2 % 16 * 2 + b3 / 128) % 2 == b3 / 128;
    assert (b3 % 4 * 8 + b4 / 32) / 8 == b3 % 4 && (b3 % 4 * 8 + b4 / 32) % 8 == b4 / 32;
  }

  /** The digits that a short quantum leaves out are zero. */
  lemma QuantumDigits(b: seq<Byte>)
    requires 1 <= |b| <= 5
    ensures var d, b0, b1, b2, b3, b4 := EncodeQuantum(b), At(b, 0), At(b, 1), At(b, 2), At(b, 3), At(b, 4);
            && At(d, 0) == b0 / 8 && At(d, 1) == b0 % 8 * 4 + b1 / 64 && At(d, 2) == b1 / 2 % 32
            && At(d, 3) == b1 % 2 * 16 + b2 / 16 && At(d, 4) == b2 % 16 * 2 + b3 / 128
            && At(d, 5) == b3 / 4 % 32 && At(d, 6) == b3 % 4 * 8 + b4 / 32 && At(d, 7) == b4 % 32
  {
  }

  /** The eight digits of a quantum, missing ones taken as zero. */
  function DigitsValue(d: seq<int>): int {
    ((((((At(d, 0) * 32 + At(d, 1)) * 32 + At(d, 2)) * 32 + At(d, 3)) * 32 + At(d, 4)) * 32
      + At(d, 5)) * 32 + At(d, 6)) * 32 + At(d, 7)
  }

  function BytesValue(b: seq<int>): int {
    (((At(b, 0) * 256 + At(b, 1)) * 256 + At(b, 2)) * 256 + At(b, 3)) * 256 + At(b, 4)
  }

  /** The standard's definition of a quantum: its digits are the 40-bit group of its bytes,
      most significant first, with missing bytes zero. */
  lemma QuantumIsBitGroup(b: seq<Byte>)
    requires 1 <= |b| <= 5
    ensures DigitsValue(EncodeQuantum(b)) == BytesValue(b)
  {
    hide EncodeQuantum;
    QuantumDigits(b);
    var b0, b1, b2, b3, b4 := At(b, 0), At(b, 1), At(b, 2), At(b, 3), At(b, 4);
    assert b0 == b0 / 8 * 8 + b0 % 8;
    assert b1 == b1 / 64 * 64 + b1 / 2 % 32 * 2 + b1 % 2;
    assert b2 == b2 / 16 * 16 + b2 % 16;
    assert b3 == b3 / 128 * 128 + b3 / 4 % 32 * 4 + b3 % 4;
    assert b4 == b4 / 32 * 32 + b4 % 32;
  }

  /** The bit groups that n whole bytes leave out. */
  function Unit(n: nat): int
    requires n <= 5
  {
    if n == 5 then 1 else if n == 4 then 0x100 else if n == 3 then 0x1_0000
    else if n == 2 then 0x100_0000 else if n == 1 then 0x1_0000_0000 else 0x100_0000_0000
  }

  lemma QuantumBytesAt(d: seq<Digit>)
    requires 1 <= |d| <= 8
    ensures var b, d0, d1, d2, d3 := DecodeQuantum(d), At(d, 0), At(d, 1), At(d, 2), At(d, 3);
            var d4, d5, d6, d7 := At(d, 4), At(d, 5), At(d, 6), At(d, 7);
            && (|b| > 0 ==> b[0] == d0 * 8 + d1 / 4)
            && (|b| > 1 ==> b[1] == d1 % 4 * 64 + d2 * 2 + d3 / 16)
            && (|b| > 2 ==> b[2] == d3 % 16 * 16 + d4 / 2)
            && (|b| > 3 ==> b[3] == d4 % 2 * 128 + d5 * 4 + d6 / 8)
            && (|b| > 4 ==> b[4] == d6 % 8 * 32 + d7)
  {
  }

  /** Any digits, also those that no encoder writes, decode to the whole bytes of their bit
      group; spare bits are ignored. */
  lemma DecodedBits(d: seq<Digit>)
    requires 1 <= |d| <= 8
    ensures var b := DecodeQuantum(d); BytesValue(b) == DigitsValue(d) / Unit(|b|) * Unit(|b|)
  {
    hide DecodeQuantum;
    QuantumBytesAt(d);
    var b, v := DecodeQuantum(d), DigitsValue(d);
    var d0, d1, d2, d3 := At(d, 0), At(d, 1), At(d, 2), At(d, 3);
    var d4, d5, d6, d7 := At(d, 4), At(d, 5), At(d, 6), At(d, 7);
    var b0, b1, b2, b3, b4 := d0 * 8 + d1 / 4, d1 % 4 * 64 + d2 * 2 + d3 / 16, d3 % 16 * 16 + d4 / 2,
                              d4 % 2 * 128 + d5 * 4 + d6 / 8, d6 % 8 * 32 + d7;
    assert v == (((b0 * 256 + b1) * 256 + b2) * 256 + b3) * 256 + b4;
    hide DigitsValue, At;
    assert 0 <= b0 < 256 && 0 <= b1 < 256 && 0 <= b2 < 256 && 0 <= b3 < 256 && 0 <= b4 < 256;
    SplitValue(b, v, b0, b1, b2, b3, b4);
  }

  lemma SplitValue(b: seq<Byte>, v: int, b0: int, b1: int, b2: int, b3: int, b4: int)
    requires |b| <= 5 && v == (((b0 * 256 + b1) * 256 + b2) * 256 + b3) * 256 + b4
    requires 0 <= b0 < 256 && 0 <= b1 < 256 && 0 <= b2 < 256 && 0 <= b3 < 256 && 0 <= b4 < 256
    requires |b| > 0 ==> b[0] == b0
    requires |b| > 1 ==> b[1] == b1
    requires |b| > 2 ==> b[2] == b2
    requires |b| > 3 ==> b[3] == b3
    requires |b| > 4 ==> b[4] == b4
    ensures BytesValue(b) == v / Unit(|b|) * Unit(|b|)
  {
    var n := |b|;
    if n == 5 {
    } else if n == 4 {
      assert v / 0x100 == ((b0 * 256 + b1) * 256 + b2) * 256 + b3;
    } else if n == 3 {
      assert v / 0x1_0000 == (b0 * 256 + b1) * 256 + b2;
    } else if n == 2 {
      assert v / 0x100_0000 == b0 * 256 + b1;
    } else if n == 1 {
      assert v / 0x1_0000_0000 == b0;
    } else {
      assert v / 0x100_0000_0000 == 0;
    }
  }

  lemma QuantumRoundTrip(b: seq<Byte>)
    requires 1 <= |b| <= 5
    ensures DecodeQuantum(EncodeQuantum(b)) == b
  {
    hide EncodeQuantum;
    QuantumDigits(b);
    BitsRejoin(At(b, 0), At(b, 1), At(b, 2), At(b, 3), At(b, 4));
  }

  // ---- Whole messages ----

  function EncodeDigits(b: seq<Byte>): (d: seq<Digit>)
    ensures |d| == DigitCount(|b|)
  {
    if b == [] then []
    else if |b| <= 5 then EncodeQuantum(b)
    else EncodeQuantum(b[..5]) + EncodeDigits(b[5..])
  }

  function DecodeDigits(d: seq<Digit>): seq<Byte> {
    if d == [] then []
    else if |d| <= 8 then DecodeQuantum(d)
    else DecodeQuantum(d[..8]) + DecodeDigits(d[8..])
  }

  lemma {:induction false} DecodedSize(d: seq<Digit>)
    ensures |DecodeDigits(d)| == |d| / 8 * 5 + QuantumBytes(|d| % 8)
  {
    hide DecodeQuantum;
    if |d| > 8 {
      DecodedSize(d[8..]);
      assert |d| / 8 == 1 + |d[8..]| / 8 && |d| % 8 == |d[8..]| % 8;
    }
  }

  lemma EncodeStep(b: seq<Byte>)
    requires b != []
    ensures var first := Part(b, 0, 5);
            && Part(EncodeDigits(b), 0, 8) == EncodeQuantum(first)
            && (|b| > 5 ==> b == first + b[5..] && EncodeDigits(b) == EncodeQuantum(first) + EncodeDigits(b[5..]))
  {
    hide EncodeQuantum, Part;
    if |b| <= 5 {
      assert |EncodeDigits(b)| <= 8;
      PartOfShort(b, 5);
      PartOfShort(EncodeDigits(b), 8);
    } else {
      var first, rest := b[..5], b[5..];
      assert b == first + rest && |EncodeQuantum(first)| == 8;
      assert EncodeDigits(b) == EncodeQuantum(first) + EncodeDigits(rest);
      hide EncodeDigits, DigitCount;
      PartOfFirst(first, rest);
      PartOfFirst(EncodeQuantum(first), EncodeDigits(rest));
    }
  }

  lemma DecodeStep(d: seq<Digit>)
    requires d != []
    ensures var first := Part(d, 0, 8);
            && Part(DecodeDigits(d), 0, 5) == DecodeQuantum(first)
            && (|d| > 8 ==> d == first + d[8..] && DecodeDigits(d) == DecodeQuantum(first) + DecodeDigits(d[8..]))
  {
    hide DecodeQuantum, Part;
    if |d| <= 8 {
      assert |DecodeDigits(d)| <= 5;
      PartOfShort(d, 8);
      PartOfShort(DecodeDigits(d), 5);
    } else {
      var first, rest := d[..8], d[8..];
      assert d == first + rest && |DecodeQuantum(first)| == 5;
      assert DecodeDigits(d) == DecodeQuantum(first) + DecodeDigits(rest);
      hide DecodeDigits, QuantumBytes;
      PartOfFirst(first, rest);
      PartOfFirst(DecodeQuantum(first), DecodeDigits(rest));
    }
  }

  /** Quantum by quantum, in order: the i-th five bytes give the i-th eight digits. */
  lemma {:induction false} EncodedPart(b: seq<Byte>, i: nat)
    requires 5 * i < |b|
    ensures 8 * i <= |EncodeDigits(b)| && Part(EncodeDigits(b), 8 * i, 8) == EncodeQuantum(Part(b, 5 * i, 5))
    decreases i
  {
    hide EncodeQuantum, EncodeDigits;
    EncodeStep(b);
    if i > 0 {
      assert |Part(b, 0, 5)| == 5 && |EncodeQuantum(Part(b, 0, 5))| == 8;
      hide *;
      EncodedPart(b[5..], i - 1);
      PartOfRest(Part(b, 0, 5), b[5..], 5 * (i - 1), 5);
      PartOfRest(EncodeQuantum(Part(b, 0, 5)), EncodeDigits(b[5..]), 8 * (i - 1), 8);
    }
  }

  /** And back: the i-th eight digits give the i-th five bytes. */
  lemma {:induction false} DecodedPart(d: seq<Digit>, i: nat)
    requires 8 * i < |d|
    ensures 5 * i <= |DecodeDigits(d)| && Part(DecodeDigits(d), 5 * i, 5) == DecodeQuantum(Part(d, 8 * i, 8))
    decreases i
  {
    hide DecodeQuantum, DecodeDigits;
    DecodeStep(d);
    if i > 0 {
      assert |Part(d, 0, 8)| == 8 && |DecodeQuantum(Part(d, 0, 8))| == 5;
      hide *;
      DecodedPart(d[8..], i - 1);
      PartOfRest(Part(d, 0, 8), d[8..], 8 * (i - 1), 8);
      PartOfRest(DecodeQuantum(Part(d, 0, 8)), DecodeDigits(d[8..]), 5 * (i - 1), 5);
    }
  }

  lemma {:induction false} DigitsRoundTrip(b: seq<Byte>)
    ensures DecodeDigits(EncodeDigits(b)) == b
  {
    if b != [] {
      if |b| <= 5 {
        QuantumRoundTrip(b);
      } else {
        var q, rest := EncodeQuantum(b[..5]), EncodeDigits(b[5..]);
        QuantumRoundTrip(b[..5]);
        DigitsRoundTrip(b[5..]);
        assert (q + rest)[..8] == q && (q + rest)[8..] == rest;
      }
    }
  }

  /** encoder.EncodeToString */
  function Encode(b: seq<Byte>): (s: string)
    ensures |s| == DigitCount(|b|)
  {
    Spelled(EncodeDigits(b), DigitChar)
  }

  /** encoder.DecodeString: one character outside the alphabet fails the whole decode. */
  function Decode(s: string): Option<seq<Byte>> {
    var t := StripNewlines(s);
    if AllRead(t, CharDigit) then Some(DecodeDigits(ReadAll(t, CharDigit))) else None
  }

  /** The text that names carry: Encode followed by strings.ToLower. */
  function LowerText(b: seq<Byte>): (s: string)
    ensures |s| == DigitCount(|b|)
  {
    ToLower(Encode(b))
  }

  /** Characters that LowerText can produce. */
  predicate IsLowerChar(c: char) {
    'a' <= c <= 'z' || '2' <= c <= '7'
  }

  lemma LowerTextChars(b: seq<Byte>)
    ensures forall i :: 0 <= i < |LowerText(b)| ==> IsLowerChar(LowerText(b)[i])
    ensures '.' !in LowerText(b)
  {
  }

  /** Which texts decode: those whose characters, line breaks apart, are all of the alphabet. */
  lemma DecodesIff(s: string)
    ensures Decode(s).Some?
            <==> forall c <- s :: c != '\r' && c != '\n' ==> c in "ABCDEFGHIJKLMNOPQRSTUVWXYZ234567"
  {
    AllReadIff(s, CharDigit);
    forall c | c in s ensures CharDigit(c).Some? <==> c in "ABCDEFGHIJKLMNOPQRSTUVWXYZ234567" { AlphabetReads(c); }
  }

  lemma EncodedIsClean(b: seq<Byte>)
    ensures AllRead(Encode(b), CharDigit) && ReadAll(Encode(b), CharDigit) == EncodeDigits(b)
    ensures OneLine(Encode(b))
  {
    hide EncodeDigits;
    var s, d := Encode(b), EncodeDigits(b);
    forall i | 0 <= i < |s| ensures CharDigit(s[i]) == Some(d[i]) { AlphabetInverse(d[i], s[i]); }
  }

  lemma CaseRestored(b: seq<Byte>)
    ensures ToUpper(LowerText(b)) == Encode(b)
  {
    hide EncodeDigits;
    var d := EncodeDigits(b);
    forall i | 0 <= i < |d| ensures Upper(Lower(DigitChar(d[i]))) == DigitChar(d[i]) {}
  }

  /** Base32 round trip through both case changes. */
  lemma RoundTrip(b: seq<Byte>)
    ensures Decode(ToUpper(LowerText(b))) == Some(b)
  {
    hide EncodeDigits, DecodeDigits, Encode, LowerText;
    CaseRestored(b);
    EncodedIsClean(b);
    StripIsIdentity(Encode(b));
    DigitsRoundTrip(b);
  }
}
