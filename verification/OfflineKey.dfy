/** Offline API keys: nonce, mint time and validity, signed, as one base64url string.
    Instants and durations are whole nanoseconds; instant 0 is the Unix epoch. */
module OfflineKey {
  import opened Text
  import Base64Url

  const NONCE_SIZE := 16
  const TIMESTAMP_SIZE := 8
  const VALIDITY_SIZE := 8
  const SIGNATURE_SIZE := 64
  const MESSAGE_SIZE := NONCE_SIZE + TIMESTAMP_SIZE + VALIDITY_SIZE
  const TOTAL_SIZE := MESSAGE_SIZE + SIGNATURE_SIZE

  // ---- 64-bit integers ----

  const TWO63 := 0x8000_0000_0000_0000
  const TWO64 := 0x1_0000_0000_0000_0000

  predicate IsInt64(x: int) { -TWO63 <= x < TWO63 }

  /** Two's complement wrap-around into int64. */
  function Wrap64(x: int): (w: int)
    ensures IsInt64(w)
    ensures IsInt64(x) ==> w == x
  {
    (x + TWO63) % TWO64 - TWO63
  }

  /** Conversion to uint64. */
  function ToUint64(x: int): (u: nat)
    ensures u < TWO64
    ensures IsInt64(x) ==> Wrap64(u) == x
  {
    x % TWO64
  }

  // ---- Big-endian fields ----

  function Power256(n: nat): (p: nat)
    ensures p >= 1
  {
    if n == 0 then 1 else 256 * Power256(n - 1)
  }

  function BigEndian(v: nat, n: nat): (b: seq<Byte>)
    ensures |b| == n
  {
    if n == 0 then [] else BigEndian(v / 256, n - 1) + [v % 256]
  }

  function Value(b: seq<Byte>): nat {
    if b == [] then 0 else Value(b[..|b| - 1]) * 256 + b[|b| - 1]
  }

  lemma {:induction false} BigEndianRoundTrip(v: nat, n: nat)
    requires v < Power256(n)
    ensures Value(BigEndian(v, n)) == v
  {
    if n > 0 {
      BigEndianRoundTrip(v / 256, n - 1);
      assert BigEndian(v, n)[..n - 1] == BigEndian(v / 256, n - 1);
    }
  }

  lemma EightBytes()
    ensures Power256(8) == TWO64
  {
    assert Power256(4) == 0x1_0000_0000;
  }

  /** binary.BigEndian.PutUint64 */
  method PutUint64(b: array<Byte>, v: nat)
    requires b.Length == 8 && v < TWO64
    modifies b
    ensures b[..] == BigEndian(v, 8)
  {
    var rest, i := v, 8;
    while i > 0
      invariant 0 <= i <= 8
      invariant BigEndian(v, 8) == BigEndian(rest, i) + b[i..]
    {
      i := i - 1;
      b[i] := rest % 256;
      rest := rest / 256;
      assert b[i..] == [b[i]] + b[i + 1..];
    }
  }

  // ---- Time ----

  const SECOND := 1_000_000_000

  /** Seconds between Go's zero time and the Unix epoch. */
  const UNIX_TO_INTERNAL := 62135596800

  /** time.Unix(sec, 0): the internal second count is an int64 and wraps. */
  function TimeUnix(sec: int): int {
    (Wrap64(sec + UNIX_TO_INTERNAL) - UNIX_TO_INTERNAL) * SECOND
  }

  /** t.Unix(): whole seconds, rounded down. */
  function UnixSeconds(t: int): int { t / SECOND }

  /** An instant that a time.Time can hold, not before the zero time. */
  predicate Representable(t: int) {
    0 <= UnixSeconds(t) + UNIX_TO_INTERNAL < TWO63
  }

  /** t.Sub(u): the difference, saturated to the range of a Duration. */
  function Sub(t: int, u: int): (d: int)
    ensures IsInt64(d)
  {
    var d := t - u;
    if d < -TWO63 then -TWO63 else if d >= TWO63 then TWO63 - 1 else d
  }

  /** time.Duration(validity) * time.Second */
  function SecondsToDuration(validity: int): int { Wrap64(validity * SECOND) }

  // ---- Signatures ----

  /** Ed25519, sections 5.1.6 and 5.1.7 of RFC 8032, which is an unseen library. */
  datatype Ed25519 = Ed25519(
    sign: (seq<Byte>, seq<Byte>) -> seq<Byte>,
    verify: (seq<Byte>, seq<Byte>, seq<Byte>) -> bool)

  /** A fresh signature has 64 bytes and verifies under the paired public key. */
  ghost predicate Paired(ed: Ed25519, privateKey: seq<Byte>, publicKey: seq<Byte>) {
    && |publicKey| == 32
    && forall m :: |ed.sign(privateKey, m)| == SIGNATURE_SIZE && ed.verify(publicKey, m, ed.sign(privateKey, m))
  }

  // ---- Validation ----

  /** Verifying with a public key of the wrong size panics in the library. */
  datatype Verdict = Accepted | InvalidFormat | InvalidLength | Expired | InvalidSignature | Panic

  function Timestamp(data: seq<Byte>): int
    requires |data| == TOTAL_SIZE
  {
    Wrap64(Value(data[NONCE_SIZE..NONCE_SIZE + TIMESTAMP_SIZE]))
  }

  function Validity(data: seq<Byte>): int
    requires |data| == TOTAL_SIZE
  {
    Wrap64(Value(data[NONCE_SIZE + TIMESTAMP_SIZE..MESSAGE_SIZE]))
  }

  function CheckSignature(ed: Ed25519, publicKey: seq<Byte>, data: seq<Byte>): Verdict
    requires |data| == TOTAL_SIZE
  {
    if |publicKey| != 32 then Panic
    else if ed.verify(publicKey, data[..MESSAGE_SIZE], data[MESSAGE_SIZE..]) then Accepted
    else InvalidSignature
  }

  /** Validator.Validate at instant now. */
  function Validate(ed: Ed25519, publicKey: seq<Byte>, apiKey: string, now: int): Verdict {
    var data := Base64Url.Decode(apiKey);
    if data.None? then InvalidFormat
    else if |data.value| != TOTAL_SIZE then InvalidLength
    else if Sub(now, TimeUnix(Timestamp(data.value))) > SecondsToDuration(Validity(data.value)) then Expired
    else CheckSignature(ed, publicKey, data.value)
  }

  // ---- Minting ----

  /** Signer.NewAPIKey with a validity of whole seconds; nonce and now are its random bytes
      and its clock. */
  method NewAPIKey(ed: Ed25519, privateKey: seq<Byte>, validity: nat, nonce: seq<Byte>, now: int)
    returns (key: string)
    requires |nonce| == NONCE_SIZE && validity * SECOND < TWO63
    ensures key == Minted(ed, privateKey, validity, nonce, now)
  {
    var timeBytes := new Byte[8](_ => 0);
    PutUint64(timeBytes, ToUint64(UnixSeconds(now)));
    var validityBytes := new Byte[8](_ => 0);
    PutUint64(validityBytes, validity);
    var message: seq<Byte> := [];
    message := message + nonce;
    message := message + timeBytes[..];
    message := message + validityBytes[..];
    assert message == Message(validity, nonce, now);
    var signature := ed.sign(privateKey, message);
    var finalKey: seq<Byte> := [];
    finalKey := finalKey + message;
    finalKey := finalKey + signature;
    assert finalKey == message + signature;
    key := Base64Url.Encode(finalKey);
  }

  function Message(validity: nat, nonce: seq<Byte>, now: int): seq<Byte> {
    nonce + BigEndian(ToUint64(UnixSeconds(now)), 8) + BigEndian(validity, 8)
  }

  function Minted(ed: Ed25519, privateKey: seq<Byte>, validity: nat, nonce: seq<Byte>, now: int): string {
    var message := Message(validity, nonce, now);
    Base64Url.Encode(message + ed.sign(privateKey, message))
  }

  /** The last instant at which a minted key is accepted: floor(mint time) + validity. */
  function MintedExpiry(validity: nat, minted: int): int {
    (UnixSeconds(minted) + validity) * SECOND
  }

  lemma MintedFields(validity: nat, nonce: seq<Byte>, minted: int, signature: seq<Byte>)
    requires |nonce| == NONCE_SIZE && |signature| == SIGNATURE_SIZE
    requires validity * SECOND < TWO63 && Representable(minted)
    ensures var data := Message(validity, nonce, minted) + signature;
            && |data| == TOTAL_SIZE
            && data[..MESSAGE_SIZE] == Message(validity, nonce, minted) && data[MESSAGE_SIZE..] == signature
            && Timestamp(data) == UnixSeconds(minted) && Validity(data) == validity
  {
    var data := Message(validity, nonce, minted) + signature;
    var stamp := ToUint64(UnixSeconds(minted));
    assert data[16..24] == BigEndian(stamp, 8);
    assert data[24..32] == BigEndian(validity, 8);
    EightBytes();
    BigEndianRoundTrip(stamp, 8);
    BigEndianRoundTrip(validity, 8);
  }

  /** The acceptance window: a minted key is accepted at exactly the instants not after
      floor(mint time) + validity, and is reported expired at all others. */
  lemma AcceptanceWindow(ed: Ed25519, privateKey: seq<Byte>, publicKey: seq<Byte>,
                         validity: nat, nonce: seq<Byte>, minted: int, now: int)
    requires Paired(ed, privateKey, publicKey)
    requires |nonce| == NONCE_SIZE && validity * SECOND < TWO63 && Representable(minted)
    ensures Validate(ed, publicKey, Minted(ed, privateKey, validity, nonce, minted), now)
            == if now <= MintedExpiry(validity, minted) then Accepted else Expired
    ensures SecondsToDuration(validity) == validity * SECOND
  {
    var message := Message(validity, nonce, minted);
    var signature := ed.sign(privateKey, message);
    Base64Url.RoundTrip(message + signature);
    MintedFields(validity, nonce, minted, signature);
    assert TimeUnix(UnixSeconds(minted)) == UnixSeconds(minted) * SECOND;
  }

  /** Counted from the mint instant, a key lives at most its validity and more than one
      second less; with validity 0 it is accepted only at a mint instant that is a whole second. */
  lemma LifeFromMint(validity: nat, minted: int)
    ensures (validity - 1) * SECOND < MintedExpiry(validity, minted) - minted <= validity * SECOND
    ensures validity == 0 ==> (minted <= MintedExpiry(validity, minted) <==> minted % SECOND == 0)
  {
  }

  // ---- All strings ----

  /** The strings that carry a given 96 bytes differ only in line breaks: without CR and LF
      the 128-character encoding is the only one. */
  lemma CanonicalSpelling(apiKey: string, data: seq<Byte>)
    requires |data| == TOTAL_SIZE
    ensures Base64Url.Decode(apiKey) == Some(data) <==> StripNewlines(apiKey) == Base64Url.Encode(data)
    ensures Base64Url.Decode(apiKey) == Some(data) && '\r' !in apiKey && '\n' !in apiKey
            ==> apiKey == Base64Url.Encode(data) && |apiKey| == 128
  {
    hide Base64Url.Decode, StripNewlines;
    Base64Url.UniqueSpelling(apiKey, data);
    StripIsIdentity(apiKey);
    assert |Base64Url.Encode(data)| == Base64Url.DigitCount(96) == 128;
  }

  lemma {:induction false} StripTwice(s: string)
    ensures StripNewlines(StripNewlines(s)) == StripNewlines(s)
  {
    StripIsIdentity(StripNewlines(s));
  }

  /** Line breaks never change a verdict. */
  lemma LineBreaksIgnored(ed: Ed25519, publicKey: seq<Byte>, apiKey: string, now: int)
    ensures Validate(ed, publicKey, apiKey, now) == Validate(ed, publicKey, StripNewlines(apiKey), now)
  {
    StripTwice(apiKey);
  }

  /** The instant after which a key of 96 bytes is expired. */
  function ExpiryInstant(data: seq<Byte>): int
    requires |data| == TOTAL_SIZE
  {
    TimeUnix(Timestamp(data)) + SecondsToDuration(Validity(data))
  }

  /** A duration made of seconds is even, so it is never the saturated maximum. */
  lemma DurationBelowMax(validity: int)
    ensures SecondsToDuration(validity) < TWO63 - 1
  {
    var half := validity * 500_000_000 + TWO63 / 2;
    var x := validity * SECOND + TWO63;
    assert x == TWO64 * (half / TWO63) + 2 * (half % TWO63);
    assert x % TWO64 == 2 * (half % TWO63);
  }

  /** Over time every string has one change of verdict at most: a key of 96 bytes reports its
      signature check up to its expiry instant and Expired ever after, whatever its stored
      fields and however they wrap; any other string has one verdict for all time. */
  lemma VerdictOverTime(ed: Ed25519, publicKey: seq<Byte>, apiKey: string, now: int)
    ensures var data := Base64Url.Decode(apiKey);
            Validate(ed, publicKey, apiKey, now) ==
            if data.None? then InvalidFormat
            else if |data.value| != TOTAL_SIZE then InvalidLength
            else if now > ExpiryInstant(data.value) then Expired
            else CheckSignature(ed, publicKey, data.value)
  {
    var data := Base64Url.Decode(apiKey);
    if data.Some? && |data.value| == TOTAL_SIZE {
      DurationBelowMax(Validity(data.value));
    }
  }

  /** Expiry is permanent, and acceptance has held at every earlier instant. */
  lemma ExpiryIsPermanent(ed: Ed25519, publicKey: seq<Byte>, apiKey: string, now: int, later: int)
    requires now <= later
    ensures Validate(ed, publicKey, apiKey, now) == Expired ==> Validate(ed, publicKey, apiKey, later) == Expired
    ensures Validate(ed, publicKey, apiKey, later) == Accepted ==> Validate(ed, publicKey, apiKey, now) == Accepted
  {
    VerdictOverTime(ed, publicKey, apiKey, now);
    VerdictOverTime(ed, publicKey, apiKey, later);
  }

  // ---- The verdict, from the bytes alone ----

  lemma LastOf(b: seq<Byte>, rest: seq<Byte>, last: Byte)
    requires b == rest + [last]
    ensures Value(b) == Value(rest) * 256 + last
  {
    assert b[..|b| - 1] == rest;
  }

  lemma ValueOfEight(b: seq<Byte>)
    requires |b| == 8
    ensures Value(b) == ((((((b[0] as int * 256 + b[1]) * 256 + b[2]) * 256 + b[3]) * 256 + b[4]) * 256 + b[5]) * 256
                         + b[6]) * 256 + b[7]
  {
    hide Value;
    forall n: nat | n < 8 ensures Value(b[..n + 1]) == Value(b[..n]) * 256 + b[n] {
      assert b[..n + 1] == b[..n] + [b[n]];
      LastOf(b[..n + 1], b[..n], b[n]);
    }
    assert b[..8] == b;
    NoValue(b[..0]);
    assert Value(b[..1]) == Value(b[..0]) * 256 + b[0];
    assert Value(b[..2]) == Value(b[..1]) * 256 + b[1];
    assert Value(b[..3]) == Value(b[..2]) * 256 + b[2];
    assert Value(b[..4]) == Value(b[..3]) * 256 + b[3];
    assert Value(b[..5]) == Value(b[..4]) * 256 + b[4];
    assert Value(b[..6]) == Value(b[..5]) * 256 + b[5];
    assert Value(b[..7]) == Value(b[..6]) * 256 + b[6];
    assert Value(b[..8]) == Value(b[..7]) * 256 + b[7];
  }

  lemma NoValue(b: seq<Byte>)
    requires b == []
    ensures Value(b) == 0
  {
  }

  /** The int64 that an unsigned field stands for. */
  function Signed(u: int): int { if u < 0x8000_0000_0000_0000 then u else u - 0x1_0000_0000_0000_0000 }

  lemma ValueBelow(b: seq<Byte>)
    requires |b| == 8
    ensures Value(b) < 0x1_0000_0000_0000_0000 && Wrap64(Value(b)) == Signed(Value(b))
  {
    ValueOfEight(b);
  }

  lemma Congruent(x: int)
    ensures -0x8000_0000_0000_0000 <= Wrap64(x) < 0x8000_0000_0000_0000
    ensures (Wrap64(x) - x) % 0x1_0000_0000_0000_0000 == 0
  {
    var q := (x + TWO63) / TWO64;
    assert x + TWO63 == q * TWO64 + (x + TWO63) % TWO64;
    assert Wrap64(x) - x == -q * TWO64;
  }

  /** The expiry instant from the bytes: mint second and validity are the big-endian int64s in
      bytes 16 to 23 and 24 to 31; the mint second wraps where Go's time does, and the validity
      in nanoseconds where an int64 does. If neither wraps it is their sum in seconds. */
  lemma ExpiryFromBytes(data: seq<Byte>) returns (second: int, life: int)
    requires |data| == 96
    ensures var minted, validity := Signed(Value(data[16..24])), Signed(Value(data[24..32]));
            && ExpiryInstant(data) == second * 1_000_000_000 + life
            && -0x8000_0000_0000_0000 <= second + 62135596800 < 0x8000_0000_0000_0000
            && (second - minted) % 0x1_0000_0000_0000_0000 == 0
            && -0x8000_0000_0000_0000 <= life < 0x8000_0000_0000_0000
            && (life - validity * 1_000_000_000) % 0x1_0000_0000_0000_0000 == 0
            && (minted + 62135596800 < 0x8000_0000_0000_0000 ==> second == minted)
            && (-0x8000_0000_0000_0000 <= validity * 1_000_000_000 < 0x8000_0000_0000_0000
                ==> life == validity * 1_000_000_000)
  {
    var minted, validity := Signed(Value(data[16..24])), Signed(Value(data[24..32]));
    StoredFields(data);
    hide Value, Timestamp, Validity;
    second, life := Wrap64(minted + 62135596800) - 62135596800, Wrap64(validity * 1_000_000_000);
    assert ExpiryInstant(data) == second * 1_000_000_000 + life;
    assert -0x8000_0000_0000_0000 <= minted;
    hide Wrap64, Signed, ExpiryInstant;
    Congruent(minted + 62135596800);
    Congruent(validity * 1_000_000_000);
    assert second - minted == Wrap64(minted + 62135596800) - (minted + 62135596800);
  }

  lemma StoredFields(data: seq<Byte>)
    requires |data| == 96
    ensures Timestamp(data) == Signed(Value(data[16..24])) && Validity(data) == Signed(Value(data[24..32]))
    ensures -0x8000_0000_0000_0000 <= Signed(Value(data[16..24])) < 0x8000_0000_0000_0000
  {
    hide Value;
    ValueBelow(data[16..24]);
    ValueBelow(data[24..32]);
  }

  /** The verdict on every string, under every public key, at every instant. */
  lemma VerdictIff(ed: Ed25519, publicKey: seq<Byte>, apiKey: string, now: int)
    ensures var verdict, decoded := Validate(ed, publicKey, apiKey, now), Base64Url.Decode(apiKey);
            && (verdict == InvalidFormat
                <==> (exists c <- apiKey :: c != '\r' && c != '\n' && c !in Base64Url.ALPHABET)
                     || |StripNewlines(apiKey)| % 4 == 1)
            && (verdict == InvalidLength <==> decoded.Some? && |decoded.value| != 96)
            && (verdict == Expired <==> decoded.Some? && |decoded.value| == 96 && now > ExpiryInstant(decoded.value))
            && (verdict == Panic
                <==> decoded.Some? && |decoded.value| == 96 && now <= ExpiryInstant(decoded.value) && |publicKey| != 32)
            && (verdict == InvalidSignature
                <==> decoded.Some? && |decoded.value| == 96 && now <= ExpiryInstant(decoded.value) && |publicKey| == 32
                     && !ed.verify(publicKey, decoded.value[..32], decoded.value[32..]))
            && (verdict == Accepted
                <==> decoded.Some? && |decoded.value| == 96 && now <= ExpiryInstant(decoded.value) && |publicKey| == 32
                     && ed.verify(publicKey, decoded.value[..32], decoded.value[32..]))
  {
    hide Base64Url.Decode, Base64Url.ALPHABET, StripNewlines, ExpiryInstant, Sub, TimeUnix;
    VerdictOverTime(ed, publicKey, apiKey, now);
    Base64Url.DecodesIff(apiKey);
  }

  /** A key whose signed fields or signature were changed to something that does not verify is
      never accepted, in any spelling and at any instant. */
  lemma ForgedNeverAccepted(ed: Ed25519, publicKey: seq<Byte>, message: seq<Byte>, signature: seq<Byte>,
                            apiKey: string, now: int)
    requires |message| == 32 && |signature| == 64 && !ed.verify(publicKey, message, signature)
    requires Base64Url.Decode(apiKey) == Some(message + signature)
    ensures var verdict := Validate(ed, publicKey, apiKey, now);
            if now > ExpiryInstant(message + signature) then verdict == Expired
            else if |publicKey| != 32 then verdict == Panic else verdict == InvalidSignature
  {
    hide Base64Url.Decode, ExpiryInstant, Validate;
    var data := message + signature;
    assert data[..32] == message && data[32..] == signature;
    VerdictIff(ed, publicKey, apiKey, now);
  }

  /** The bytes of a minted key: nonce, mint second, validity in seconds, and the signature of
      these 32 bytes. */
  lemma MintedBytes(ed: Ed25519, privateKey: seq<Byte>, validity: nat, nonce: seq<Byte>, minted: int)
    requires |nonce| == 16 && validity < 0x8000_0000_0000_0000 && Representable(minted)
    requires forall m :: |ed.sign(privateKey, m)| == 64
    ensures var decoded := Base64Url.Decode(Minted(ed, privateKey, validity, nonce, minted));
            && decoded.Some? && |decoded.value| == 96
            && decoded.value[..16] == nonce
            && Signed(Value(decoded.value[16..24])) == minted / 1_000_000_000
            && Value(decoded.value[24..32]) == validity
            && decoded.value[32..] == ed.sign(privateKey, decoded.value[..32])
  {
    var message := Message(validity, nonce, minted);
    var stamp := ToUint64(UnixSeconds(minted));
    var data := message + ed.sign(privateKey, message);
    Base64Url.RoundTrip(data);
    EightBytes();
    BigEndianRoundTrip(stamp, 8);
    BigEndianRoundTrip(validity, 8);
    hide Base64Url.Decode, Base64Url.Encode, Value, BigEndian;
    assert data[..16] == nonce && data[16..24] == BigEndian(stamp, 8) && data[24..32] == BigEndian(validity, 8);
    assert data[..32] == message && data[32..] == ed.sign(privateKey, message);
    ValueBelow(data[16..24]);
  }

  // ---- Public keys ----

  function PubKey(publicKey: seq<Byte>): string { Base64Url.Encode(publicKey) }

  function NewValidator(publicKey: string): Option<seq<Byte>> { Base64Url.Decode(publicKey) }

  /** A validator made from a signer's published key accepts the signer's keys in their window. */
  lemma SignerToValidator(ed: Ed25519, privateKey: seq<Byte>, publicKey: seq<Byte>,
                          validity: nat, nonce: seq<Byte>, minted: int, now: int)
    requires Paired(ed, privateKey, publicKey)
    requires |nonce| == NONCE_SIZE && validity * SECOND < TWO63 && Representable(minted)
    ensures var v := NewValidator(PubKey(publicKey));
            && v.Some?
            && (Validate(ed, v.value, Minted(ed, privateKey, validity, nonce, minted), now) == Accepted
                <==> now <= MintedExpiry(validity, minted))
  {
    Base64Url.RoundTrip(publicKey);
    AcceptanceWindow(ed, privateKey, publicKey, validity, nonce, minted, now);
  }
}
