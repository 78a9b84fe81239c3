/** Unpadded base64url, section 5 of RFC 4648, as Go's RawURLEncoding computes it: line
    breaks are skipped when decoding and the spare bits of a short last quantum are ignored. */
module Base64Url {
  import opened Text

  type Digit = x: int | 0 <= x < 64

  function DigitChar(d: Digit): char {
    if d < 26 then 'A' + d as char
    else if d < 52 then 'a' + (d - 26) as char
    else if d < 62 then '0' + (d - 52) as char
    else if d == 62 then '-' else '_'
  }

  function CharDigit(c: char): (d: Option<Digit>) {
    if 'A' <= c <= 'Z' then Some((c - 'A') as int)
    else if 'a' <= c <= 'z' then Some((c - 'a') as int + 26)
    else if '0' <= c <= '9' then Some((c - '0') as int + 52)
    else if c == '-' then Some(62)
    else if c == '_' then Some(63)
    else None
  }

  lemma AlphabetInverse(d: Digit, c: char)
    ensures CharDigit(DigitChar(d)) == Some(d)
    ensures CharDigit(c).Some? ==> DigitChar(CharDigit(c).value) == c
  {
  }

  /** The alphabet of section 5 of RFC 4648, in order, in rows of sixteen. */
  const ALPHABET := "ABCDEFGHIJKLMNOP" + "QRSTUVWXYZabcdef" + "ghijklmnopqrstuv" + "wxyz0123456789-_"

  lemma FirstRow(d: nat)
    requires d < 16
    ensures DigitChar(d) == "ABCDEFGHIJKLMNOP"[d] && DigitChar(32 + d) == "ghijklmnopqrstuv"[d]
  {
    match d {
      case 0 => case 1 => case 2 => case 3 => case 4 => case 5 => case 6 => case 7 =>
      case 8 => case 9 => case 10 => case 11 => case 12 => case 13 => case 14 => case _ =>
    }
  }

  lemma SecondRow(d: nat)
    requires d < 16
    ensures DigitChar(16 + d) == "QRSTUVWXYZabcdef"[d] && DigitChar(48 + d) == "wxyz0123456789-_"[d]
  {
    match d {
      case 0 => case 1 => case 2 => case 3 => case 4 => case 5 => case 6 => case 7 =>
      case 8 => case 9 => case 10 => case 11 => case 12 => case 13 => case 14 => case _ =>
    }
  }

  lemma AlphabetText(d: Digit)
    ensures |ALPHABET| == 64 && DigitChar(d) == ALPHABET[d]
  {
    FirstRow(d % 16);
    SecondRow(d % 16);
    hide DigitChar;
    var k := d % 16;
    RowsAt("ABCDEFGHIJKLMNOP", "QRSTUVWXYZabcdef", "ghijklmnopqrstuv", "wxyz0123456789-_", k);
    assert d == k || d == 16 + k || d == 32 + k || d == 48 + k;
  }

  lemma RowsAt(a: string, b: string, c: string, e: string, k: nat)
    requires |a| == |b| == |c| == |e| == 16 && k < 16
    ensures var s := a + b + c + e;
            |s| == 64 && s[k] == a[k] && s[16 + k] == b[k] && s[32 + k] == c[k] && s[48 + k] == e[k]
  {
  }

  lemma AlphabetReads(c: char)
    ensures CharDigit(c).Some? <==> c in ALPHABET
  {
    AlphabetText(0);
    if CharDigit(c).Some? {
      AlphabetInverse(0, c);
      AlphabetText(CharDigit(c).value);
    }
    if c in ALPHABET {
      hide ALPHABET;
      var d: nat :| d < |ALPHABET| && ALPHABET[d] == c;
      AlphabetText(d);
      AlphabetInverse(d, c);
    }
  }

  function DigitCount(n: nat): nat { (8 * n + 5) / 6 }

  function QuantumBytes(n: nat): nat {
    if n == 4 then 3 else if n == 3 then 2 else if n == 2 then 1 else 0
  }

  function EncodeQuantum(b: seq<Byte>): (d: seq<Digit>)
    requires 1 <= |b| <= 3
    ensures |d| == DigitCount(|b|)
  {
    var b0, b1, b2: Byte := At(b, 0), At(b, 1), At(b, 2);
    [b0 / 4, b0 % 4 * 16 + b1 / 16, b1 % 16 * 4 + b2 / 64, b2 % 64][..DigitCount(|b|)]
  }

  function DecodeQuantum(d: seq<Digit>): (b: seq<Byte>)
    requires 1 <= |d| <= 4
    ensures |b| == QuantumBytes(|d|)
  {
    var d0, d1, d2, d3: Digit := At(d, 0), At(d, 1), At(d, 2), At(d, 3);
    [d0 * 4 + d1 / 16, d1 % 16 * 16 + d2 / 4, d2 % 4 * 64 + d3][..QuantumBytes(|d|)]
  }

  lemma QuantumRoundTrip(b: seq<Byte>)
    requires 1 <= |b| <= 3
    ensures DecodeQuantum(EncodeQuantum(b)) == b
  {
    var b0, b1, b2 := At(b, 0), At(b, 1), At(b, 2);
    assert (b0 % 4 * 16 + b1 / 16) / 16 == b0 % 4 && (b0 % 4 * 16 + b1 / 16) % 16 == b1 / 16;
    assert (b1 % 16 * 4 + b2 / 64) / 4 == b1 % 16 && (b1 % 16 * 4 + b2 / 64) % 4 == b2 / 64;
  }

  /** The standard's definition of a quantum: its digits are the 24-bit group of its bytes,
      most significant first, with missing bytes zero. */
  lemma QuantumIsBitGroup(b: seq<Byte>)
    requires 1 <= |b| <= 3
    ensures var d := EncodeQuantum(b);
            ((At(d, 0) * 64 + At(d, 1)) * 64 + At(d, 2)) * 64 + At(d, 3)
            == (At(b, 0) * 256 + At(b, 1)) * 256 + At(b, 2)
  {
    var d, b0, b1, b2 := EncodeQuantum(b), At(b, 0), At(b, 1), At(b, 2);
    assert At(d, 0) == b0 / 4 && At(d, 1) == b0 % 4 * 16 + b1 / 16;
    assert At(d, 2) == b1 % 16 * 4 + b2 / 64 && At(d, 3) == b2 % 64;
  }

  /** Any digits, also those that no encoder writes, decode to the whole bytes of their bit
      group; spare bits are ignored. */
  lemma DecodedBits(d: seq<Digit>)
    requires 1 <= |d| <= 4
    ensures var b, v := DecodeQuantum(d), ((At(d, 0) * 64 + At(d, 1)) * 64 + At(d, 2)) * 64 + At(d, 3);
            if |d| == 4 then b == [v / 0x1_0000, v / 0x100 % 0x100, v % 0x100]
            else if |d| == 3 then b == [v / 0x1_0000, v / 0x100 % 0x100]
            else if |d| == 2 then b == [v / 0x1_0000] else b == []
  {
    hide DecodeQuantum;
    var d0, d1, d2, d3: int := At(d, 0), At(d, 1), At(d, 2), At(d, 3);
    QuantumBytesAt(d);
    Bits(d0, d1, d2, d3);
  }

  lemma QuantumBytesAt(d: seq<Digit>)
    requires 1 <= |d| <= 4
    ensures var b, d0, d1, d2, d3 := DecodeQuantum(d), At(d, 0), At(d, 1), At(d, 2), At(d, 3);
            && 0 <= d0 < 64 && 0 <= d1 < 64 && 0 <= d2 < 64 && 0 <= d3 < 64
            && (|d| == 4 ==> b == [d0 * 4 + d1 / 16, d1 % 16 * 16 + d2 / 4, d2 % 4 * 64 + d3])
            && (|d| == 3 ==> b == [d0 * 4 + d1 / 16, d1 % 16 * 16 + d2 / 4])
            && (|d| == 2 ==> b == [d0 * 4 + d1 / 16])
  {
  }

  lemma Bits(d0: int, d1: int, d2: int, d3: int)
    requires 0 <= d0 < 64 && 0 <= d1 < 64 && 0 <= d2 < 64 && 0 <= d3 < 64
    ensures var v := ((d0 * 64 + d1) * 64 + d2) * 64 + d3;
            && v / 0x1_0000 == d0 * 4 + d1 / 16
            && v / 0x100 % 0x100 == d1 % 16 * 16 + d2 / 4
            && v % 0x100 == d2 % 4 * 64 + d3
  {
    var b0, b1, b2 := d0 * 4 + d1 / 16, d1 % 16 * 16 + d2 / 4, d2 % 4 * 64 + d3;
    var v := ((d0 * 64 + d1) * 64 + d2) * 64 + d3;
    assert v == (b0 * 256 + b1) * 256 + b2 && 0 <= b1 < 256 && 0 <= b2 < 256;
    assert v / 0x100 == b0 * 256 + b1;
  }

  /** A full quantum has no spare bits, so it is the only spelling of its bytes. */
  lemma QuantumCanonical(d: seq<Digit>)
    requires |d| == 4
    ensures EncodeQuantum(DecodeQuantum(d)) == d
  {
    var d0: int, d1: int, d2: int, d3: int := d[0], d[1], d[2], d[3];
    var b0, b1, b2 := d0 * 4 + d1 / 16, d1 % 16 * 16 + d2 / 4, d2 % 4 * 64 + d3;
    assert DecodeQuantum(d) == [b0, b1, b2];
    assert b0 / 4 == d0 && b0 % 4 == d1 / 16;
    assert b1 / 16 == d1 % 16 && b1 % 16 == d2 / 4;
    assert b2 / 64 == d2 % 4 && b2 % 64 == d3;
  }

  function EncodeDigits(b: seq<Byte>): (d: seq<Digit>)
    ensures |d| == DigitCount(|b|)
  {
    if b == [] then []
    else if |b| <= 3 then EncodeQuantum(b)
    else EncodeQuantum(b[..3]) + EncodeDigits(b[3..])
  }

  function DecodeDigits(d: seq<Digit>): (b: seq<Byte>)
    ensures |b| == |d| / 4 * 3 + QuantumBytes(|d| % 4)
  {
    if d == [] then []
    else if |d| <= 4 then DecodeQuantum(d)
    else DecodeQuantum(d[..4]) + DecodeDigits(d[4..])
  }

  lemma EncodeStep(b: seq<Byte>)
    requires b != []
    ensures var first := Part(b, 0, 3);
            && Part(EncodeDigits(b), 0, 4) == EncodeQuantum(first)
            && (|b| > 3 ==> b == first + b[3..] && EncodeDigits(b) == EncodeQuantum(first) + EncodeDigits(b[3..]))
  {
    hide EncodeQuantum, Part;
    if |b| <= 3 {
      assert |EncodeDigits(b)| <= 4;
      PartOfShort(b, 3);
      PartOfShort(EncodeDigits(b), 4);
    } else {
      var first, rest := b[..3], b[3..];
      assert b == first + rest && |EncodeQuantum(first)| == 4;
      assert EncodeDigits(b) == EncodeQuantum(first) + EncodeDigits(rest);
      hide EncodeDigits, DigitCount;
      PartOfFirst(first, rest);
      PartOfFirst(EncodeQuantum(first), EncodeDigits(rest));
    }
  }

  lemma DecodeStep(d: seq<Digit>)
    requires d != []
    ensures var first := Part(d, 0, 4);
            && Part(DecodeDigits(d), 0, 3) == DecodeQuantum(first)
            && (|d| > 4 ==> d == first + d[4..] && DecodeDigits(d) == DecodeQuantum(first) + DecodeDigits(d[4..]))
  {
    hide DecodeQuantum, Part;
    if |d| <= 4 {
      assert |DecodeDigits(d)| <= 3;
      PartOfShort(d, 4);
      PartOfShort(DecodeDigits(d), 3);
    } else {
      var first, rest := d[..4], d[4..];
      assert d == first + rest && |DecodeQuantum(first)| == 3;
      assert DecodeDigits(d) == DecodeQuantum(first) + DecodeDigits(rest);
      hide DecodeDigits, QuantumBytes;
      PartOfFirst(first, rest);
      PartOfFirst(DecodeQuantum(first), DecodeDigits(rest));
    }
  }

  /** Quantum by quantum, in order: the i-th three bytes give the i-th four digits. */
  lemma {:induction false} EncodedPart(b: seq<Byte>, i: nat)
    requires 3 * i < |b|
    ensures 4 * i <= |EncodeDigits(b)| && Part(EncodeDigits(b), 4 * i, 4) == EncodeQuantum(Part(b, 3 * i, 3))
    decreases i
  {
    hide EncodeQuantum, EncodeDigits;
    EncodeStep(b);
    if i > 0 {
      assert |Part(b, 0, 3)| == 3 && |EncodeQuantum(Part(b, 0, 3))| == 4;
      hide *;
      EncodedPart(b[3..], i - 1);
      PartOfRest(Part(b, 0, 3), b[3..], 3 * (i - 1), 3);
      PartOfRest(EncodeQuantum(Part(b, 0, 3)), EncodeDigits(b[3..]), 4 * (i - 1), 4);
    }
  }

  /** And back: the i-th four digits give the i-th three bytes. */
  lemma {:induction false} DecodedPart(d: seq<Digit>, i: nat)
    requires 4 * i < |d|
    ensures 3 * i <= |DecodeDigits(d)| && Part(DecodeDigits(d), 3 * i, 3) == DecodeQuantum(Part(d, 4 * i, 4))
    decreases i
  {
    hide DecodeQuantum, DecodeDigits;
    DecodeStep(d);
    if i > 0 {
      assert |Part(d, 0, 4)| == 4 && |DecodeQuantum(Part(d, 0, 4))| == 3;
      hide *;
      DecodedPart(d[4..], i - 1);
      PartOfRest(Part(d, 0, 4), d[4..], 4 * (i - 1), 4);
      PartOfRest(DecodeQuantum(Part(d, 0, 4)), DecodeDigits(d[4..]), 3 * (i - 1), 3);
    }
  }

  lemma {:induction false} DigitsRoundTrip(b: seq<Byte>)
    ensures DecodeDigits(EncodeDigits(b)) == b
  {
    if b != [] {
      if |b| <= 3 {
        QuantumRoundTrip(b);
      } else {
        var q, rest := EncodeQuantum(b[..3]), EncodeDigits(b[3..]);
        QuantumRoundTrip(b[..3]);
        DigitsRoundTrip(b[3..]);
        assert (q + rest)[..4] == q && (q + rest)[4..] == rest;
      }
    }
  }

  lemma {:induction false} DigitsCanonical(d: seq<Digit>)
    requires |d| % 4 == 0
    ensures EncodeDigits(DecodeDigits(d)) == d
  {
    if d != [] {
      if |d| <= 4 {
        QuantumCanonical(d);
      } else {
        var q, rest := DecodeQuantum(d[..4]), DecodeDigits(d[4..]);
        QuantumCanonical(d[..4]);
        DigitsCanonical(d[4..]);
        assert (q + rest)[..3] == q && (q + rest)[3..] == rest;
      }
    }
  }

  function Encode(b: seq<Byte>): (s: string)
    ensures |s| == DigitCount(|b|)
  {
    Spelled(EncodeDigits(b), DigitChar)
  }

  /** DecodeString: a foreign character, or a single character left over, is an error. */
  function Decode(s: string): Option<seq<Byte>> {
    var t := StripNewlines(s);
    if AllRead(t, CharDigit) && |t| % 4 != 1 then Some(DecodeDigits(ReadAll(t, CharDigit))) else None
  }

  /** Which texts decode: those whose characters, line breaks apart, are all of the alphabet,
      and that do not leave a single character over. */
  lemma DecodesIff(s: string)
    ensures Decode(s).Some?
            <==> (forall c <- s :: c != '\r' && c != '\n' ==> c in ALPHABET) && |StripNewlines(s)| % 4 != 1
    ensures Decode(s).Some? ==>
              var n := |StripNewlines(s)|;
              |Decode(s).value| == n / 4 * 3 + (if n % 4 == 0 then 0 else n % 4 - 1)
  {
    hide ALPHABET;
    AllReadIff(s, CharDigit);
    forall c | c in s ensures CharDigit(c).Some? <==> c in ALPHABET { AlphabetReads(c); }
  }

  lemma EncodedIsClean(b: seq<Byte>)
    ensures AllRead(Encode(b), CharDigit) && ReadAll(Encode(b), CharDigit) == EncodeDigits(b)
    ensures StripNewlines(Encode(b)) == Encode(b)
  {
    var s, d := Encode(b), EncodeDigits(b);
    forall i | 0 <= i < |s| ensures CharDigit(s[i]) == Some(d[i]) { AlphabetInverse(d[i], s[i]); }
    assert '\r' !in s && '\n' !in s;
    StripIsIdentity(s);
  }

  lemma RoundTrip(b: seq<Byte>)
    ensures Decode(Encode(b)) == Some(b)
  {
    EncodedIsClean(b);
    DigitsRoundTrip(b);
  }

  lemma ReencodeClean(t: string)
    requires AllRead(t, CharDigit) && |t| % 4 == 0
    ensures Encode(DecodeDigits(ReadAll(t, CharDigit))) == t
  {
    var d := ReadAll(t, CharDigit);
    DigitsCanonical(d);
    forall i | 0 <= i < |t| ensures t[i] == DigitChar(d[i]) { AlphabetInverse(d[i], t[i]); }
  }

  /** For a whole number of quanta the spelling is unique up to line breaks: a string decodes
      to these bytes if and only if, line breaks removed, it is their encoding. */
  lemma UniqueSpelling(s: string, b: seq<Byte>)
    requires |b| % 3 == 0
    ensures Decode(s) == Some(b) <==> StripNewlines(s) == Encode(b)
  {
    hide EncodeQuantum, DecodeQuantum, EncodeDigits, DecodeDigits, DigitChar, CharDigit;
    var t := StripNewlines(s);
    if t == Encode(b) {
      EncodedIsClean(b);
      DigitsRoundTrip(b);
    } else if Decode(s) == Some(b) {
      ReencodeClean(t);
    }
  }
}
