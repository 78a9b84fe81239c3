# Verified model of the attestation shim

The shim terminates TLS in front of an enclave. This project models the parts of it whose
correctness spans several functions or whole runs, and proves what they promise.

* **Names as a channel** (`Base32.dfy`, `Dcode.dfy`, `NameTexts.dfy`, `Publication.dfy`,
  `PublishedNames.dfy`, `LeafFilter.dfy`, `ClientReading.dfy`). Keys and attestations are published
  as certificate names `NN<chunk>.<domain>`. The model has the encoder's loop, the in-place sort and
  reassembly of the decoder, the assembly of the certificate's name list under its budget of 100,
  the client's leaf filter, and what the client decodes from main's list. gzip and the document's
  JSON are a pair of functions (`Dcode.DocLib`) with a round-trip hypothesis (`Dcode.Faithful`).
* **Rate limiting under interleaving** (`RateLimiter.dfy`, `Gate.dfy`, `LimiterRuns.dfy`). Token
  buckets behind a get-or-create map, the decisions made before the limiter, and a step machine
  in which requests of many goroutines interleave: one step decides, one locked step finds or
  makes the bucket, one step takes a token. A request reads the clock before it takes the
  bucket's lock, so clock readings may reach a bucket in any order. Validator answers are attached
  to requests. Times are reals.
* **Streaming padder** (`Json.dfy`, `JsonReader.dfy`, `EventStream.dfy`, `StreamPadder.dfy`,
  `PaddedChunk.dfy`, `StreamEvents.dfy`, `ScanLimits.dfy`). The line transducer over server-sent
  events, a JSON printer with Go's escaping, and the client's reading of a stream by section 9.2.6
  of the WHATWG HTML standard. The JSON library is three functions (`StreamPadder.JsonLib`): the exact reading of a text, which
  texts Unmarshal accepts, and the text it prints for the float nearest to a number. The hypotheses
  (`StreamPadder.ReadsWell`) are a round trip on values whose numbers follow the grammar of section
  6 of RFC 8259 and that nest to at most 10000 levels, and that printing a float is idempotent;
  `JsonReader.dfy` shows that a library can meet them.
* **Offline API keys** (`Base64Url.dfy`, `OfflineKey.dfy`). The 96-byte layout, base64url, int64
  nanosecond arithmetic with its wrap-around and saturation, and the expiry test. Ed25519 is a
  pair of functions with the hypothesis that a fresh signature verifies.
* **Certificate acquisition** (`CertCache.dfy`, `ChallengeRelay.dfy`). The two-file disk cache with
  failing and torn writes, lost answers and restarts, and the two-phase HTTP-01 relay watched by
  a protocol monitor. PEM and key pairing are functions with stated hypotheses.

The repository's README says that every upstream request is verified against a configured public
key. The code asks a validator only when a control plane and authentication are configured, and
only on the endpoints that need it; the model follows the code.

`Text.dfy` holds shared vocabulary. Where the code updates state step by step the model is a method
or a class proved against a function; the theorems are lemmas about those functions.

Findings, each a theorem below:

* The encoder runs for ever on a 60-character domain and panics on a longer one.
* Lists of more than 100 names never decode, but always with an error.
* A reader that decodes key and attestation names together, as the client does, never gets the
  attestation's bytes: it gets an error or more bytes than the attestation has.
* The padder changes numbers that are not printed as they were written: 9007199254740993 becomes
  9007199254740992.
* The client sees as many lines in the rewritten stream as in the original if and only if CR CR
  stands before no line end and no padded line holds a CR. Both kinds of exception change events:
  the first can lose one, the second changes its data.
* Requests whose clock readings reach a bucket out of order can exceed burst + limit * length, by
  at most limit times the total backward movement of the readings.
* A certificate write that gets as far as creating the file, in a call that then fails, can leave a
  cache that no retry recovers.

## Model

| member | source | states |
|---|---|---|
| Base32.EncodeDigits | dcode/dcode.go:40-41 | n bytes become exactly ceil(8n/5) digits |
| Base32.QuantumIsBitGroup | dcode/dcode.go:40-41 | the digits of a quantum are the 40-bit group of its bytes, as section 6 of RFC 4648 defines them |
| Base32.QuantumRoundTrip | dcode/dcode.go:87-88 | a quantum of one to five bytes survives encoding and decoding |
| Base32.DecodedBits | dcode/dcode.go:87-88 | any digits of a quantum, canonical or not, decode to the whole bytes of their bit group |
| Base32.EncodedPart | dcode/dcode.go:40-41 | the i-th five bytes give the i-th eight digits |
| Base32.DecodedPart | dcode/dcode.go:87-88 | the i-th eight digits give the i-th five bytes |
| Base32.AlphabetText | dcode/dcode.go:40-41 | digit d is the d-th character of the standard alphabet |
| Base32.DecodesIff | dcode/dcode.go:87-91 | a string decodes if and only if every character but CR and LF is one of the 32 of the alphabet |
| Base32.DecodedSize | dcode/dcode.go:87-88 | how many bytes a digit text yields, with the lengths 1, 3 and 6 of a last quantum yielding none |
| Base32.LowerTextChars | dcode/dcode.go:40-42 | the published text is lower-case letters and digits 2 to 7 and has no dot |
| Base32.RoundTrip | dcode/dcode.go:81-88 | lower-casing, upper-casing and decoding give every byte sequence back |
| Dcode.Pad2 | dcode/dcode.go:52-52 | an index prints as at least two characters without a dot, and below 100 as its two decimal digits |
| Dcode.Encode | dcode/dcode.go:38-56 | the loop publishes chunk j of the text as name j, for every content that leaves the loop finite |
| Dcode.LoopFinishesIff | dcode/dcode.go:45-53 | the loop ends if and only if there is nothing to encode or the domain has at most 59 characters |
| Dcode.LoopStuck | dcode/dcode.go:45-50 | at 60 characters every turn stays at index 0; above, the first turn panics |
| Dcode.EncodeSize | dcode/dcode.go:45-53 | exactly ceil(ceil(8n/5)/(60-length of the domain)) names, pairwise distinct and at most 63 characters while there are at most 100 |
| Dcode.NamesAscend | dcode/dcode.go:52-52 | up to 100 names, the two-character prefixes are in strictly ascending order |
| Dcode.SortedUnique | dcode/dcode.go:74-76 | sorting by prefix leaves one possible result for strictly ascending names, though the sort is not stable |
| Dcode.SortByPrefix | dcode/dcode.go:74-76 | the argument is reordered in place and ends sorted by its first two characters |
| Dcode.Gather | dcode/dcode.go:79-84 | first labels without their two-character prefixes, joined in order |
| Dcode.Decode | dcode/dcode.go:72-105 | the argument is sorted in place, and the result is what the sorted names decode to, with the error of the step that failed |
| Dcode.EncodeAtt | dcode/dcode.go:59-69 | fails exactly when packing fails, and otherwise publishes the packed bytes |
| Dcode.RoundTrip | dcode/dcode.go:38-91 | with at most 100 names, every sorted reordering of the names decodes to the content |
| Dcode.BeyondRangeFails | dcode/dcode.go:74-91 | with more than 100 names no reordering decodes, sorted or not |
| Dcode.DecodesIff | dcode/dcode.go:38-91 | decoding returns the content if there are at most 100 names and an error otherwise, in any arrival order |
| NameTexts.EncodedNameAt | dcode/dcode.go:45-53 | name j carries the j-th stretch of 60 minus the domain's length characters of the text, behind its index |
| NameTexts.DecimalIs | dcode/dcode.go:52-52 | an index prints in decimal |
| NameTexts.ReassemblesIff | dcode/dcode.go:78-91 | names fail to decode if and only if a first label holds, past two characters, something that is no letter, no digit from 2 to 7 and no line break |
| NameTexts.CaseIgnored | dcode/dcode.go:88-88 | letter case never changes what names decode to |
| NameTexts.OutcomeIff | dcode/dcode.go:87-105 | each error of decoding has its exact cause: a foreign character, no gzip, no document |
| Dcode.DocumentRoundTrip | dcode/dcode.go:59-105 | documents survive publication in any order up to 100 names, and fail with a base32 error beyond |
| Publication.BuildEncoded | main.go:141-179 | the encoded names collected under the budget, or the fatal exit that main takes |
| Publication.SelectDomains | main.go:181-199 | for an accepted configuration, which plain names lead and whether the encoded names follow |
| Publication.BuildDomains | main.go:92-199 | the whole certificate name list, or the fatal exit |
| PublishedNames.DefaultDomains | main.go:129-169 | without an own domain the names live under hpke, att and hatt of tinfoil.sh |
| PublishedNames.FatalIff | main.go:92-178 | main exits exactly on a key of another length, an attestation that cannot be packed, or a hash whose names exceed 100 with the key's and the plain ones |
| PublishedNames.CertificateNamesAre | main.go:128-199 | the list, name by name: plain names, then by the configuration and the counts the names of the key, of the attestation or of the hash, each under its own domain |
| PublishedNames.KeyFromCertificate | main.go:141-199 | the names right below hpke and the site give back the key whenever the switch keeps them |
| PublishedNames.AttestationFromCertificate | main.go:155-199 | the names right below att and the site give back the packed attestation exactly when it is asked for, fits and is kept |
| PublishedNames.HashFromCertificate | main.go:167-199 | the names right below hatt and the site give back the hash exactly when it is asked for and kept |
| Publication.HpkeNames | main.go:141-147 | a 32-byte key takes at most 52 names |
| Publication.BudgetAndWildcard | main.go:149-199 | in every branch at most 100 names, base domain first, wildcard present exactly when configured |
| Publication.UnderCertificate | main.go:141-199 | the names directly under a tag domain are exactly that tag's published names |
| Publication.PublicationRoundTrip | main.go:141-199 | names of one tag, in any order, give back exactly the bytes published under it; an unpublished tag has no names |
| Publication.AttestationRoundTrip | main.go:155-166 | a full attestation that passed the budget test always decodes to itself |
| ClientReading.EncodedSurviveIff | clientutil/main.go:44-66 | of main's certificate the filter keeps every encoded name if and only if the base domain is below none and, with a wildcard, is none |
| ClientReading.WidthCovers | clientutil/main.go:60-68 | a list of names carries at least the text of the names it covers, in whatever order |
| ClientReading.MixedTagsNeverDecode | clientutil/main.go:60-68 | decoding key and attestation names together, in any order and with any further one-line names, gives an error or more bytes than the attestation has |
| ClientReading.ClientNeverReadsAttestation | clientutil/main.go:44-68 | for main's own list, whatever order the filter and the sort leave, the client never gets the attestation's bytes |
| LeafFilter.Leaves | clientutil/main.go:44-66 | the filter returns each name that no other name extends, once, in open order |
| LeafFilter.Covered | clientutil/main.go:50-58 | the nested loops mark exactly the names that another name extends |
| LeafFilter.BelowIff | clientutil/main.go:52-53 | a name extends a domain exactly when it is that domain behind something and a dot |
| LeafFilter.KeptIff | clientutil/main.go:44-66 | a name is kept exactly when no name is that name behind something and a dot |
| LeafFilter.RemovedHasKeptDescendant | clientutil/main.go:50-66 | every removed name has a kept name below it |
| LeafFilter.KeepsSingleTag | clientutil/main.go:50-66 | from one tag's names and any ancestors of the tag domain the filter keeps exactly the tag's names |
| LeafFilter.ClientRoundTrip | clientutil/main.go:44-68 | the client reads a singly tagged document back, whatever the map order and the arrival order |
| RateLimiter.TokenBucket.Allow | api.go:203-203 | one token is spent if one is there after the refill, and the bucket is unchanged otherwise |
| RateLimiter.KeyedLimiter.Limit | limiter.go:27-38 | a key's bucket is returned, made fresh on first use only, and every other bucket is untouched |
| RateLimiter.KeyedLimiter.Pass | api.go:202-203 | the verdict and the new state of the key's bucket, all others unchanged |
| RateLimiter.TakePays | api.go:203-203 | a passing request is paid for by what the bucket held, what dripped in, and the clock's step back, if any |
| RateLimiter.WindowBound | limiter.go:27-38 | for every sequence of clock readings at one bucket, in any order, at most burst + limit * (length + total backward movement) requests pass in a window |
| RateLimiter.WindowBoundInOrder | limiter.go:27-38 | with readings in order, at most burst + limit * length |
| RateLimiter.BucketIsTightest | limiter.go:27-38 | what a bucket holds is exactly what the bound leaves of the tightest stretch of passed requests |
| RateLimiter.PassesIffRoom | api.go:203-203 | for every order of readings, a request passes if and only if every stretch of passed requests that ends with it has at most burst + limit * (forward movement of the clock over it) |
| RateLimiter.StretchesAreWindows | api.go:203-203 | with readings in order, room in every stretch is room in every window |
| RateLimiter.BackwardClockBreaksBound | limiter.go:27-38 | the excess is real: with a clock that steps back, three requests pass at one instant through a burst of two |
| Gate.PatternMeaning | api.go:30-36 | a pattern matches exactly the paths it denotes: itself, or every continuation before its trailing star |
| Gate.PathAllowed | api.go:39-46 | true exactly when some pattern matches |
| Gate.PassesIffAdmissible | api.go:86-218 | a request passes the gate if and only if origin, path, key and validation are as required; all others are answered at once |
| Gate.AnswersIff | api.go:86-225 | CorsForbidden, Preflight, Local, NotFound and EhbpRejected, each if and only if its check fails and all earlier ones hold |
| Gate.ProxiedIff | api.go:174-207 | KeyRequired, KeyRefused with the validator's status and message, ServerError, and passing on, each if and only if |
| Gate.LimitedIff | api.go:197-210 | Upstream and RateLimited, each if and only if, and which bucket a request changes |
| Gate.BearerIsOptional | api.go:175-175 | a key with the scheme reaches the bare key's bucket; without it too, unless the key itself starts with the scheme |
| Gate.Handle | api.go:86-225 | reply and bucket contents of one request, through every branch of the handlers |
| LimiterRuns.StepKeepsBuckets | limiter.go:27-38 | no step of any goroutine gives a key a second bucket, shares one, or replaces one |
| LimiterRuns.RunKeepsBuckets | limiter.go:27-38 | in every interleaving each key keeps one bucket for ever and keys never share |
| LimiterRuns.RunLikePrivate | api.go:197-207 | in every interleaving a key's verdicts and bucket are those of a private bucket that saw only its own requests |
| LimiterRuns.RunWindowBound | api.go:197-207 | in every window of every interleaving, at most burst + limit * (length + backward movement of the key's readings) requests of a key pass |
| LimiterRuns.NextPassesIffRoom | api.go:202-207 | in every interleaving the next request of a key passes if and only if every stretch that ends with it has room, and with readings in order if and only if every window that ends with it has |
| LimiterRuns.KeyIsolation | api.go:202-203 | a key's verdicts equal those of the run in which only its own requests occur |
| LimiterRuns.AnsweredAreInvisible | api.go:86-218 | deleting every request answered before the limiter changes no bucket and no other outcome |
| LimiterRuns.UpstreamIsAdmissible | api.go:86-218 | in every run each request that reached upstream was admissible and was counted against its own key |
| LimiterRuns.UninterruptedIsServe | api.go:174-210 | a request whose steps are not interleaved gets the reply and has the effect of the sequential handler |
| Json.PutSorted | openai_proxy.go:54-57 | a map update keeps the keys of an object in printing order |
| Json.LookupPut | openai_proxy.go:54-54 | a map update changes one key and nothing else |
| Json.PutPut | openai_proxy.go:54-54 | the later update wins, and writing the present value changes nothing |
| Json.RemovePut | openai_proxy.go:54-54 | deleting a key that an update introduced restores the object |
| Json.PrintTame | openai_proxy.go:57-62 | printing emits no control character, line separator or HTML-special character at any depth |
| Json.StringRoundTrip | openai_proxy.go:57-57 | every string is recovered from its escaped form |
| Json.CanonUnchangedIff | openai_proxy.go:20-23 | replacing number texts changes a value if and only if some number in it changes |
| JsonReader.ValueReadsBack | openai_proxy.go:57-62 | a printed value reads back as itself, with any text after it that does not continue a number |
| StreamPadder.Padding | openai_proxy.go:44-51 | the padding is the first 4 + draw characters of the character set |
| PaddedChunk.PaddingLengths | openai_proxy.go:44-51 | every length from 4 to 36 comes from exactly one draw, so equally likely draws give equally likely lengths |
| StreamPadder.AddPadding | openai_proxy.go:19-63 | the returned text and error of one chunk, through every early return |
| StreamPadder.DeltaLens | openai_proxy.go:26-41 | choices[0].delta can be replaced and put back without any other change |
| StreamPadder.PaddingIsOnlyChange | openai_proxy.go:53-54 | the padded object differs from the original in key p of choices[0].delta only; deleting a p that was absent restores it |
| StreamPadder.NumbersUnchangedIff | openai_proxy.go:20-57 | unmarshalling and printing change the padded object if and only if a number that padding lets survive is not printed as it was written |
| StreamPadder.ChunkMeaning | openai_proxy.go:19-63 | on texts: an object with a delta reads back padded with its numbers as the library prints them, and as the padded exact reading if and only if all surviving numbers were written so; every other text is identical; a padded text is one line |
| PaddedChunk.DeltaIff | openai_proxy.go:26-41 | the program finds a delta exactly when choices is an array whose first element is an object with an object delta |
| PaddedChunk.FailsIff | openai_proxy.go:20-62 | an error is reported exactly when Unmarshal refuses the text, or a delta is there and the random source fails |
| PaddedChunk.PaddedText | openai_proxy.go:19-63 | the text, read exactly, has the first 4 + draw characters under p of choices[0].delta, and every other field and choice as it was but for how its numbers print |
| PaddedChunk.SmallestChunk | openai_proxy.go:19-63 | one chunk in full |
| StreamPadder.LargeIntegerChanges | openai_proxy.go:20-57 | 9007199254740993 at the top of a padded object comes out as 9007199254740992 |
| StreamEvents.RewriteMeaning | openai_proxy.go:131-142 | exactly the data lines that carry a delta are padded, all other lines are copied |
| StreamPadder.PadLine | openai_proxy.go:131-142 | what one line writes to the pipe |
| StreamPadder.PadStream | openai_proxy.go:124-145 | what the goroutine writes is every scanned line rewritten and ended by a line feed |
| StreamEvents.FittingPrefixMeaning | openai_proxy.go:128-130 | the scanner sees the text before the first line that does not fit its buffer, and nothing after it |
| ScanLimits.ScannedWholeIff | openai_proxy.go:128-129 | a body is scanned whole if and only if every line with its end takes at most 65536 bytes |
| ScanLimits.ScanStopsAt | openai_proxy.go:128-129 | the first longer line ends the scan for good |
| StreamEvents.ScanSplits | openai_proxy.go:128-130 | for every body, the client's lines are the scanned lines split further at the CRs inside them, but for an unended last piece |
| StreamEvents.LinesKeptIff | openai_proxy.go:128-143 | the client never sees more lines in the rewritten stream, and it sees as many, one for one up to padding, if and only if CR CR stands before no line end and no padded line holds a CR |
| StreamEvents.InterpretRewritten | openai_proxy.go:129-143 | rewritten lines are interpreted as the same events up to padding |
| StreamEvents.EventsPreserved | openai_proxy.go:128-143 | under that condition the client sees exactly the events of the body up to its first oversized line, in order and up to padding; of a body whose lines fit, all |
| StreamEvents.DoubleCRLosesEvent | openai_proxy.go:128-143 | CR CR LF after any data line costs the client the event |
| StreamEvents.CRInPaddedLineChangesEvent | openai_proxy.go:128-143 | a CR inside the JSON of a padded line changes the data of the event |
| Base64Url.QuantumIsBitGroup | key/offline/sign.go:60-60 | the digits of a quantum are the 24-bit group of its bytes, as section 4 of RFC 4648 defines them |
| Base64Url.RoundTrip | key/offline/sign.go:60-60 | every byte sequence survives encoding and decoding |
| Base64Url.AlphabetText | key/offline/sign.go:60-60 | digit d is the d-th character of the URL alphabet |
| Base64Url.DecodesIff | key/offline/verify.go:27-30 | a string decodes if and only if its characters, line breaks apart, are of the alphabet and do not leave one over; and to how many bytes |
| Base64Url.DecodedBits | key/offline/verify.go:27-30 | any digits of a quantum, canonical or not, decode to the whole bytes of their bit group |
| Base64Url.EncodedPart | key/offline/sign.go:60-60 | the i-th three bytes give the i-th four digits |
| Base64Url.DecodedPart | key/offline/verify.go:27-30 | the i-th four digits give the i-th three bytes |
| Base64Url.UniqueSpelling | key/offline/verify.go:27-33 | for whole quanta, a string decodes to given bytes if and only if, line breaks removed, it is their encoding |
| OfflineKey.PutUint64 | key/offline/sign.go:43-47 | the eight big-endian bytes of a 64-bit value |
| OfflineKey.BigEndianRoundTrip | key/offline/verify.go:38-39 | a big-endian field of sufficient width reads back as its value |
| OfflineKey.NewAPIKey | key/offline/sign.go:37-61 | the minted key is the encoding of nonce, floor of the mint time, validity and signature |
| OfflineKey.MintedFields | key/offline/offline.go:8-13 | the layout has 96 bytes and its slices are the minted fields, for every representable clock |
| OfflineKey.MintedBytes | key/offline/sign.go:37-61 | the bytes of a minted key by position: nonce, mint second, validity, and the signature of these 32 bytes |
| OfflineKey.ExpiryFromBytes | key/offline/verify.go:38-43 | the expiry instant of any 96 bytes, from bytes 16 to 31, with both wrap-arounds |
| OfflineKey.VerdictIff | key/offline/verify.go:26-50 | for every string, public key and instant, each verdict if and only if: accepted exactly with 96 bytes, not expired, a key of 32 bytes and a signature that verifies |
| OfflineKey.ForgedNeverAccepted | key/offline/verify.go:46-48 | fields or a signature changed to what does not verify are never accepted, in any spelling, at any instant |
| OfflineKey.AcceptanceWindow | key/offline/verify.go:26-50 | a minted key is accepted at exactly the instants not after floor(mint time) + validity, and its validity never wraps |
| OfflineKey.LifeFromMint | key/offline/sign.go:43-47 | the life counted from the mint instant is at most the validity and more than one second less |
| OfflineKey.CanonicalSpelling | key/offline/verify.go:27-33 | without CR and LF the 128-character encoding is the only string for its 96 bytes |
| OfflineKey.LineBreaksIgnored | key/offline/verify.go:27-30 | line breaks in a key never change the verdict |
| OfflineKey.VerdictOverTime | key/offline/verify.go:26-50 | every string changes its verdict at most once, at its expiry instant, however its fields wrap |
| OfflineKey.ExpiryIsPermanent | key/offline/verify.go:41-43 | an expired key stays expired, and an accepted one was accepted before |
| OfflineKey.SignerToValidator | key/offline/verify.go:14-23 | a validator made from the published public key accepts the signer's keys in exactly their window |
| CertCache.WriteFile | tls/certproxy.go:120-125 | a failing write leaves the file as it was or a prefix of the data |
| CertCache.Manager.Certificate | tls/certproxy.go:80-134 | result, issuer contact and both files after one call, through every failure |
| CertCache.ResultIff | tls/certproxy.go:80-134 | each failure of a call if and only if its step fails and all earlier ones worked |
| CertCache.ObtainedIff | tls/certproxy.go:80-134 | a certificate is returned exactly from a matching cache, or new with both files written, and is then the pair on disk |
| CertCache.EffectsIff | tls/certproxy.go:84-125 | which calls contact the issuer, and what they do to the two files |
| CertCache.Manager.Retry | main.go:236-244 | the loop ends at the first success, and the files are those of the attempts made |
| CertCache.CachedForEver | tls/certproxy.go:84-92 | once cert.pem exists, up to the first call whose stat fails, no call contacts the issuer or touches the files, and all return the same |
| CertCache.OneCertificate | tls/certproxy.go:80-134 | in every run, what a successful call returned every later call returns without contacting the issuer, up to the first later call whose stat fails |
| CertCache.AlwaysCertifies | tls/certproxy.go:97-134 | if only managers of one key wrote the directory, every returned certificate certifies that key, through failing and torn writes |
| CertCache.CachedCertifiesIff | tls/certproxy.go:84-92 | a manager that finds a loadable cache gets a certificate for its own key exactly when the cached key has the same public key |
| CertCache.RetryCanSucceedIff | tls/certproxy.go:84-94 | some later call can succeed if and only if cert.pem is absent or its leaf certifies the key in key.pem |
| CertCache.FailureIsStuckIff | tls/certproxy.go:115-125 | from every directory without cert.pem, exactly which failed calls leave a cache that no later call recovers |
| CertCache.StatFailureReplaces | tls/certproxy.go:85-94 | a stat that fails otherwise lets a call replace a working pair |
| CertCache.ContactsAreRegistered | tls/ca.go:120-186 | in every run of ACME managers, an issuer is contacted without an account only after a stat that reported neither presence nor absence |
| CertCache.RegistersIff | tls/ca.go:119-131 | a manager registers exactly when stat reports that cert.pem is absent |
| CertCache.UsesIff | tls/ca.go:140-186 | a call by a manager contacts the issuer exactly when it does not use the cache and can make a request, and leaves the files of that call |
| CertCache.NoLateRegistration | tls/ca.go:119-131 | once cert.pem exists no manager of any run registers |
| ChallengeRelay.ConformingIsSafe | tls/certproxy.go:190-262 | phase 2 is sent at most once, and is outstanding only while every challenge of the order is answered with its own key authorization |
| ChallengeRelay.ReadyOnce | tls/certproxy.go:226-241 | phase 2 carries the non-empty order id that phase 1 returned before it |
| ChallengeRelay.EndingIff | tls/certproxy.go:139-263 | each ending of an attempt if and only if its step fails and all earlier ones worked |
| ChallengeRelay.Relay.Register | tls/certproxy.go:193-204 | exactly the paths of the tokens are served, each with its own key authorization, and a repeated token panics |
| ChallengeRelay.Relay.Open | tls/certproxy.go:192-223 | the server is opened exactly when there are challenges and nothing went wrong |
| ChallengeRelay.Relay.Ready | tls/certproxy.go:225-262 | the report, its reply and the outcome of phase 2 |
| ChallengeRelay.Relay.Obtain | tls/certproxy.go:139-263 | every exit leaves the server closed, all effects conform to the protocol, and the outcome is that of the first failure |

## Left out

- gzip, JSON parsing, X.509, PEM, ECDSA, Ed25519 and SHA-256: functions with stated hypotheses, because they are libraries whose code is not part of the repository.
- Dcode.Decode: requires first labels of at least two characters, because the code panics on shorter ones; letters are ASCII, as certificate names are.
- Dcode.EncodeSize: claims no distinctness above 100 names, because three-digit prefixes can collide with a two-digit prefix and a chunk that starts with a digit.
- Publication.PublicationRoundTrip: requires a base domain that is not, and does not sit directly under, the tag domain, because such a name would be read as one of the tag's.
- ClientReading.ClientNeverReadsAttestation: is about bytes, because nothing is known of a decompressor that could map other bytes to the same document; when the filter lets a wildcard through, its one-character label makes Decode panic instead.
- RateLimiter.TokenBucket.Allow: tokens and times are reals, because floating-point rounding is not the point; an infinite limit is not reachable from the configuration.
- Gate.Handle: EHBP rejection and validator answers are given with the request, headers and bodies of replies are not modelled, and the request multiplexer is a list of local paths.
- StreamPadder.AddPadding: objects are values, so the in-place update of the shared delta map is a functional update; a Go map is its fields in key order; which number texts are out of range and what a float prints as are parameters.
- StreamEvents.EventsPreserved: requires that the body keeps its lines, because events can differ otherwise (StreamEvents.DoubleCRLosesEvent, StreamEvents.CRInPaddedLineChangesEvent); reconnection times, read errors and pipe errors are not modelled.
- Json.StringRoundTrip: surrogate pairs in \u escapes are not modelled, because the printer never writes them.
- The request side of the streaming transport (openai_proxy.go:78-117): plumbing around the line loop.
- OfflineKey.AcceptanceWindow: validities are whole seconds, because for others the conversion through a float can round up a second.
- CertCache.OneCertificate: calls follow one another, in one process or several; two processes that overlap inside one call can each obtain a certificate.
- CertCache.ContactsAreRegistered: the client library, its challenge providers and the account are not modelled beyond whether registration happened.
- ChallengeRelay.Relay.Obtain: tokens are non-empty base64url text as section 8.1 of RFC 8555 demands, because other texts are patterns to the multiplexer; timeouts are failures.
- Attestation requests, metrics, ACPI, online validation, key server, key generator, self-signed certificates: hardware, system or network calls, or only easy properties.
