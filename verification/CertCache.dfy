/** The on-disk certificate cache that both certificate managers share, with writes that
    may fail or tear and calls that may be cut short. */
module CertCache {
  import opened Text

  /** Parsing of PEM blocks and pairing of keys, which are unseen libraries. Private and
      public keys are named by numbers. */
  datatype Pem = Pem(
    encodeKey: nat -> Option<seq<Byte>>,
    parseKey: seq<Byte> -> Option<nat>,
    parseLeaf: seq<Byte> -> Option<nat>,
    publicOf: nat -> nat)

  /** An encoded key reads back, and no torn copy of it reads back as another key. */
  ghost predicate KeysReadBack(lib: Pem) {
    forall k: nat, n: nat :: lib.encodeKey(k).Some? && n <= |lib.encodeKey(k).value| ==>
      var read := lib.parseKey(lib.encodeKey(k).value[..n]);
      (read == None && n < |lib.encodeKey(k).value|) || read == Some(k)
  }

  /** A loaded certificate: its chain and the private key it was paired with. */
  datatype Loaded = Loaded(chain: seq<Byte>, key: nat)

  /** tls.X509KeyPair: it succeeds only when the leaf certifies the key. */
  function KeyPair(lib: Pem, chain: seq<Byte>, keyPem: seq<Byte>): Option<Loaded> {
    var leaf, key := lib.parseLeaf(chain), lib.parseKey(keyPem);
    if leaf.Some? && key.Some? && leaf.value == lib.publicOf(key.value) then Some(Loaded(chain, key.value)) else None
  }

  predicate Certifies(lib: Pem, cert: Loaded, key: nat) {
    lib.parseLeaf(cert.chain) == Some(lib.publicOf(key))
  }

  // ---- The directory ----

  /** cert.pem and key.pem */
  datatype Files = Files(cert: Option<seq<Byte>>, key: Option<seq<Byte>>)

  const EMPTY := Files(None, None)

  /** How os.WriteFile ends: complete, or broken before the file was touched, or broken after
      it was truncated and some bytes were written. */
  datatype Write = Complete | Broken(left: Option<nat>)

  function WriteFile(before: Option<seq<Byte>>, data: seq<Byte>, w: Write): (file: Option<seq<Byte>>)
    ensures w.Complete? ==> file == Some(data)
    ensures file == before || (file.Some? && file.value <= data)
  {
    match w
    case Complete => Some(data)
    case Broken(None) => before
    case Broken(Some(n)) => Some(data[..if n <= |data| then n else |data|])
  }

  // ---- One call ----

  /** What the world does to one call: whether stat reports something other than presence or
      absence, what the issuer replies, how the writes end, and whether the process dies after them. */
  datatype World = World(
    statFails: bool,
    requestFails: bool,
    issued: Option<seq<Byte>>,
    certWrite: Write,
    keyWrite: Write,
    dies: bool)

  datatype Failure = BadCache | BadRequest | NotIssued | BadKey | CertNotWritten | KeyNotWritten | Died | Mismatch
  datatype Result = Obtained(cert: Loaded) | Failed(why: Failure)

  function FromCache(lib: Pem, files: Files): Result {
    if files.cert.None? || files.key.None? then Failed(BadCache)
    else
      var pair := KeyPair(lib, files.cert.value, files.key.value);
      if pair.Some? then Obtained(pair.value) else Failed(BadCache)
  }

  datatype Call = Call(files: Files, result: Result, contacted: bool)

  /** One call of Certificate by a manager with this private key. */
  function Attempt(lib: Pem, key: nat, files: Files, w: World): Call {
    if files.cert.Some? && !w.statFails then Call(files, FromCache(lib, files), false)
    else if w.requestFails then Call(files, Failed(BadRequest), false)
    else if w.issued.None? then Call(files, Failed(NotIssued), true)
    else if lib.encodeKey(key).None? then Call(files, Failed(BadKey), true)
    else
      var keyPem := lib.encodeKey(key).value;
      var f1 := files.(cert := WriteFile(files.cert, w.issued.value, w.certWrite));
      if !w.certWrite.Complete? then Call(f1, Failed(CertNotWritten), true) else
      var f2 := f1.(key := WriteFile(f1.key, keyPem, w.keyWrite));
      if !w.keyWrite.Complete? then Call(f2, Failed(KeyNotWritten), true)
      else if w.dies then Call(f2, Failed(Died), true)
      else
        var pair := KeyPair(lib, w.issued.value, keyPem);
        Call(f2, if pair.Some? then Obtained(pair.value) else Failed(Mismatch), true)
  }

  predicate Cached(files: Files, w: World) { files.cert.Some? && !w.statFails }

  /** The issuer replied with a certificate and the private key could be encoded. */
  predicate Replied(lib: Pem, key: nat, files: Files, w: World) {
    !Cached(files, w) && !w.requestFails && w.issued.Some? && lib.encodeKey(key).Some?
  }

  /** Every result of a call has its exact cause: one step fails and all earlier ones worked. */
  lemma ResultIff(lib: Pem, key: nat, files: Files, w: World)
    ensures var r := Attempt(lib, key, files, w).result;
            && (r == Failed(BadCache) <==> Cached(files, w) && !Matching(lib, files.cert.value, files.key))
            && (r == Failed(BadRequest) <==> !Cached(files, w) && w.requestFails)
            && (r == Failed(NotIssued) <==> !Cached(files, w) && !w.requestFails && w.issued.None?)
            && (r == Failed(BadKey)
                <==> !Cached(files, w) && !w.requestFails && w.issued.Some? && lib.encodeKey(key).None?)
            && (r == Failed(CertNotWritten) <==> Replied(lib, key, files, w) && !w.certWrite.Complete?)
            && (r == Failed(KeyNotWritten)
                <==> Replied(lib, key, files, w) && w.certWrite.Complete? && !w.keyWrite.Complete?)
            && (r == Failed(Died)
                <==> Replied(lib, key, files, w) && w.certWrite.Complete? && w.keyWrite.Complete? && w.dies)
            && (r == Failed(Mismatch)
                <==> Replied(lib, key, files, w) && w.certWrite.Complete? && w.keyWrite.Complete? && !w.dies
                     && !Matching(lib, w.issued.value, lib.encodeKey(key)))
  {
  }

  /** A certificate is returned either from a cache whose two files match, or new with both files
      written in full; what is returned is then the pair on disk. */
  lemma ObtainedIff(lib: Pem, key: nat, files: Files, w: World)
    ensures var c := Attempt(lib, key, files, w);
            c.result.Obtained?
            <==> if Cached(files, w) then Matching(lib, files.cert.value, files.key)
                 else Replied(lib, key, files, w) && w.certWrite.Complete? && w.keyWrite.Complete? && !w.dies
                      && Matching(lib, w.issued.value, lib.encodeKey(key))
    ensures var c := Attempt(lib, key, files, w);
            c.result.Obtained? ==>
              && c.files.cert == Some(c.result.cert.chain) && c.files.key.Some?
              && lib.parseKey(c.files.key.value) == Some(c.result.cert.key)
              && (!Cached(files, w) ==> c.files == Files(w.issued, lib.encodeKey(key)))
  {
  }

  /** The issuer is contacted exactly by calls that do not use the cache and can make a request,
      and only those whose issuer replied touch the files, cert.pem before key.pem. */
  lemma EffectsIff(lib: Pem, key: nat, files: Files, w: World)
    ensures var c := Attempt(lib, key, files, w);
            && (c.contacted <==> !Cached(files, w) && !w.requestFails)
            && (!Replied(lib, key, files, w) ==> c.files == files)
            && (Replied(lib, key, files, w) ==>
                  && c.files.cert == WriteFile(files.cert, w.issued.value, w.certWrite)
                  && c.files.key == KeyLeft(lib, key, files.key, w))
  {
  }

  /** Without a certificate all calls failed; with one, the last call alone obtained it. */
  predicate FirstSuccess(calls: seq<Call>, cert: Option<Loaded>) {
    && (forall i :: 0 <= i < |calls| - 1 ==> calls[i].result.Failed?)
    && (if cert.None? then calls == [] || calls[|calls| - 1].result.Failed?
        else calls != [] && calls[|calls| - 1].result == Obtained(cert.value))
  }

  class Directory {
    var cert: Option<seq<Byte>>
    var key: Option<seq<Byte>>

    constructor ()
      ensures State() == EMPTY
    {
      cert, key := None, None;
    }

    function State(): Files
      reads this
    {
      Files(cert, key)
    }
  }

  class Manager {
    const lib: Pem
    const privateKey: nat
    const cacheDir: Directory

    constructor (lib: Pem, privateKey: nat, cacheDir: Directory)
      ensures this.lib == lib && this.privateKey == privateKey && this.cacheDir == cacheDir
    {
      this.lib, this.privateKey, this.cacheDir := lib, privateKey, cacheDir;
    }

    /** The call as the program runs it, writing one file after the other. */
    method Certificate(w: World) returns (r: Result, contacted: bool)
      modifies cacheDir
      ensures Call(cacheDir.State(), r, contacted)
              == Attempt(lib, privateKey, old(cacheDir.State()), w)
    {
      contacted := false;
      if cacheDir.cert.Some? && !w.statFails {
        return FromCache(lib, cacheDir.State()), contacted;
      }
      if w.requestFails { return Failed(BadRequest), contacted; }
      contacted := true;
      if w.issued.None? { return Failed(NotIssued), contacted; }
      var keyBytes := lib.encodeKey(privateKey);
      if keyBytes.None? { return Failed(BadKey), contacted; }
      cacheDir.cert := WriteFile(cacheDir.cert, w.issued.value, w.certWrite);
      if !w.certWrite.Complete? { return Failed(CertNotWritten), contacted; }
      cacheDir.key := WriteFile(cacheDir.key, keyBytes.value, w.keyWrite);
      if !w.keyWrite.Complete? { return Failed(KeyNotWritten), contacted; }
      if w.dies { return Failed(Died), contacted; }
      var pair := KeyPair(lib, w.issued.value, keyBytes.value);
      if pair.None? { return Failed(Mismatch), contacted; }
      return Obtained(pair.value), contacted;
    }

    /** The retry loop of main, over the worlds of its attempts. */
    method Retry(worlds: seq<World>) returns (cert: Option<Loaded>, attempts: nat)
      modifies cacheDir
      ensures attempts <= |worlds|
      ensures var calls := Calls(lib, old(cacheDir.State()), OneManager(privateKey, worlds[..attempts]));
              && cacheDir.State() == FilesAfter(old(cacheDir.State()), calls)
              && (cert.None? ==> attempts == |worlds|)
              && FirstSuccess(calls, cert)
    {
      cert, attempts := None, 0;
      ghost var start := cacheDir.State();
      assert worlds[..0] == [];
      while attempts < |worlds| && cert.None?
        invariant attempts <= |worlds|
        invariant var calls := Calls(lib, start, OneManager(privateKey, worlds[..attempts]));
                  && cacheDir.State() == FilesAfter(start, calls)
                  && FirstSuccess(calls, cert)
        decreases |worlds| - attempts, cert.None?
      {
        ghost var before := OneManager(privateKey, worlds[..attempts]);
        var w := worlds[attempts];
        OneMoreCall(lib, start, before, (privateKey, w));
        var r, contacted := Certificate(w);
        attempts := attempts + 1;
        assert OneManager(privateKey, worlds[..attempts]) == before + [(privateKey, w)];
        ghost var calls := Calls(lib, start, before + [(privateKey, w)]);
        assert calls[..attempts - 1] == Calls(lib, start, before);
        if r.Obtained? { cert := Some(r.cert); }
      }
    }
  }

  // ---- Whole runs ----

  /** Calls one after another, each by a manager with some private key, in any process. */
  function Calls(lib: Pem, files: Files, run: seq<(nat, World)>): (calls: seq<Call>)
    ensures |calls| == |run|
    decreases |run|
  {
    if run == [] then []
    else
      var c := Attempt(lib, run[0].0, files, run[0].1);
      [c] + Calls(lib, c.files, run[1..])
  }

  function FilesAfter(files: Files, calls: seq<Call>): Files {
    if calls == [] then files else calls[|calls| - 1].files
  }

  function OneManager(key: nat, worlds: seq<World>): (run: seq<(nat, World)>)
    ensures |run| == |worlds|
  {
    seq(|worlds|, i requires 0 <= i < |worlds| => (key, worlds[i]))
  }

  lemma {:induction false} OneMoreCall(lib: Pem, files: Files, run: seq<(nat, World)>, last: (nat, World))
    ensures var calls := Calls(lib, files, run);
            Calls(lib, files, run + [last]) == calls + [Attempt(lib, last.0, FilesAfter(files, calls), last.1)]
    decreases |run|
  {
    hide Attempt;
    if run == [] {
      assert ([last])[1..] == [];
    } else {
      var c := Attempt(lib, run[0].0, files, run[0].1);
      assert (run + [last])[1..] == run[1..] + [last];
      OneMoreCall(lib, c.files, run[1..], last);
    }
  }

  /** The stat of every one of these calls reports presence or absence. */
  predicate StatWorks(run: seq<(nat, World)>) {
    forall i :: 0 <= i < |run| ==> !run[i].1.statFails
  }

  /** Once cert.pem exists nothing moves until a stat fails: no call of any process contacts the
      issuer or touches the files, and all calls return the same. */
  lemma {:induction false} CachedForEver(lib: Pem, files: Files, run: seq<(nat, World)>, j: nat)
    requires files.cert.Some? && j < |run| && StatWorks(run[..j + 1])
    ensures Calls(lib, files, run)[j] == Call(files, FromCache(lib, files), false)
    decreases j
  {
    assert run[..j + 1][0] == run[0];
    if j > 0 {
      assert run[..j + 1][1..] == run[1..][..j];
      CachedForEver(lib, files, run[1..], j - 1);
    }
  }

  /** What a successful call returns is what the files it leaves hold. */
  lemma ObtainedIsCached(lib: Pem, key: nat, files: Files, w: World)
    requires KeysReadBack(lib)
    ensures var c := Attempt(lib, key, files, w);
            c.result.Obtained? ==> c.files.cert.Some? && FromCache(lib, c.files) == c.result
  {
    if lib.encodeKey(key).Some? {
      var keyPem := lib.encodeKey(key).value;
      assert keyPem[..|keyPem|] == keyPem;
    }
  }

  /** In every run, what a successful call returned every later call returns, without contacting
      the issuer, up to the first call after it whose stat fails. */
  lemma {:induction false} OneCertificate(lib: Pem, files: Files, run: seq<(nat, World)>, i: nat, j: nat)
    requires KeysReadBack(lib) && i < j < |run|
    ensures var calls := Calls(lib, files, run);
            calls[i].result.Obtained? && StatWorks(run[i + 1..j + 1]) ==>
              !calls[j].contacted && calls[j].result == calls[i].result
    decreases i
  {
    hide Attempt, KeysReadBack, StatWorks;
    var calls := Calls(lib, files, run);
    var c := Attempt(lib, run[0].0, files, run[0].1);
    assert calls[0] == c && calls[1..] == Calls(lib, c.files, run[1..]);
    assert calls[j] == calls[1..][j - 1];
    if i == 0 {
      ObtainedIsCached(lib, run[0].0, files, run[0].1);
      if c.result.Obtained? && StatWorks(run[1..j + 1]) {
        assert run[1..][..j] == run[1..j + 1];
        CachedForEver(lib, c.files, run[1..], j - 1);
      }
    } else {
      OneCertificate(lib, c.files, run[1..], i - 1, j - 1);
      assert calls[i] == calls[1..][i - 1] && run[1..][i..j] == run[i + 1..j + 1];
    }
  }

  /** Only this key was ever written to the directory, perhaps torn. */
  predicate OnlyKey(lib: Pem, files: Files, key: nat) {
    files.key.Some? ==> lib.encodeKey(key).Some? && files.key.value <= lib.encodeKey(key).value
  }

  lemma CacheCertifies(lib: Pem, files: Files, key: nat)
    requires KeysReadBack(lib) && OnlyKey(lib, files, key)
    ensures FromCache(lib, files).Obtained? ==>
              FromCache(lib, files).cert.key == key && Certifies(lib, FromCache(lib, files).cert, key)
  {
    if files.key.Some? {
      var full, torn := lib.encodeKey(key).value, files.key.value;
      assert torn == full[..|torn|];
    }
  }

  /** If only managers of one key ever wrote the directory, then every certificate they return
      certifies that key, whatever writes failed or tore and whatever stat reported. */
  lemma {:induction false} AlwaysCertifies(lib: Pem, key: nat, files: Files, run: seq<(nat, World)>)
    requires KeysReadBack(lib) && OnlyKey(lib, files, key)
    requires forall i :: 0 <= i < |run| ==> run[i].0 == key
    ensures forall c <- Calls(lib, files, run) :: c.result.Obtained? ==>
              c.result.cert.key == key && Certifies(lib, c.result.cert, key)
    decreases |run|
  {
    if run != [] {
      var c := Attempt(lib, key, files, run[0].1);
      CacheCertifies(lib, files, key);
      if lib.encodeKey(key).Some? {
        var keyPem := lib.encodeKey(key).value;
        assert keyPem[..|keyPem|] == keyPem;
      }
      AlwaysCertifies(lib, key, c.files, run[1..]);
    }
  }

  /** The hypothesis on the directory is needed: from a cache that loads, a manager gets a
      certificate for its own key exactly when the cached key has the same public key; a
      process that made a new key gets the old one's certificate. */
  lemma CachedCertifiesIff(lib: Pem, key: nat, files: Files, w: World)
    requires FromCache(lib, files).Obtained? && !w.statFails
    ensures var c := Attempt(lib, key, files, w);
            && c.result.Obtained?
            && (Certifies(lib, c.result.cert, key) <==> lib.publicOf(c.result.cert.key) == lib.publicOf(key))
  {
  }

  // ---- Can a retry succeed? ----

  /** The issuer is able to certify this key. */
  ghost predicate Certifiable(lib: Pem, key: nat) {
    lib.encodeKey(key).Some? && exists chain :: lib.parseLeaf(chain) == Some(lib.publicOf(key))
  }

  /** The two files hold a certificate and a key that belong together. */
  predicate Matching(lib: Pem, cert: seq<Byte>, key: Option<seq<Byte>>) {
    && key.Some? && lib.parseLeaf(cert).Some? && lib.parseKey(key.value).Some?
    && lib.parseLeaf(cert).value == lib.publicOf(lib.parseKey(key.value).value)
  }

  /** After any call, some later call can succeed if and only if cert.pem is absent or the two
      files match. A present certificate without its key is never repaired. */
  lemma RetryCanSucceedIff(lib: Pem, key: nat, files: Files)
    requires KeysReadBack(lib) && Certifiable(lib, key)
    ensures (exists w: World :: !w.statFails && Attempt(lib, key, files, w).result.Obtained?)
            <==> files.cert.None? || Matching(lib, files.cert.value, files.key)
  {
    var chain :| lib.parseLeaf(chain) == Some(lib.publicOf(key));
    var w := World(false, false, Some(chain), Complete, Complete, false);
    var keyPem := lib.encodeKey(key).value;
    assert keyPem[..|keyPem|] == keyPem;
    if files.cert.None? || Matching(lib, files.cert.value, files.key) {
      assert Attempt(lib, key, files, w).result.Obtained?;
    }
  }

  /** What a call that found no cert.pem leaves as key.pem. */
  function KeyLeft(lib: Pem, key: nat, before: Option<seq<Byte>>, w: World): Option<seq<Byte>>
    requires lib.encodeKey(key).Some?
  {
    if w.certWrite.Complete? then WriteFile(before, lib.encodeKey(key).value, w.keyWrite) else before
  }

  /** From every directory without cert.pem, whatever key.pem was left over: a failed call
      leaves a directory that no later call recovers exactly when the issuer replied, the
      write of cert.pem got as far as creating the file, and what it wrote does not match the
      key.pem that is then there - the leftover one if the write of cert.pem failed, and what
      the second write made of it if not. */
  lemma FailureIsStuckIff(lib: Pem, key: nat, files: Files, w: World)
    requires KeysReadBack(lib) && Certifiable(lib, key) && files.cert.None?
    requires Attempt(lib, key, files, w).result.Failed?
    ensures var left := Attempt(lib, key, files, w).files;
            (forall v: World :: !v.statFails ==> Attempt(lib, key, left, v).result.Failed?)
            <==> !w.requestFails && w.issued.Some? && w.certWrite != Broken(None)
                 && !Matching(lib, WriteFile(None, w.issued.value, w.certWrite).value, KeyLeft(lib, key, files.key, w))
  {
    var left := Attempt(lib, key, files, w).files;
    RetryCanSucceedIff(lib, key, left);
    hide Matching, KeysReadBack;
    assert (forall v: World :: !v.statFails ==> Attempt(lib, key, left, v).result.Failed?)
      <==> !(exists v: World :: !v.statFails && Attempt(lib, key, left, v).result.Obtained?);
  }

  predicate ReplacesPair(lib: Pem, files: Files, c: Call) {
    c.contacted && c.result.Obtained? && c.result != FromCache(lib, files) && c.result == FromCache(lib, c.files)
  }

  /** Without a working stat the promises end: a call may contact the issuer although cert.pem
      exists, and replace a working pair. */
  lemma StatFailureReplaces(lib: Pem, files: Files, key: nat, chain: seq<Byte>)
    requires KeysReadBack(lib) && FromCache(lib, files).Obtained?
    requires lib.encodeKey(key).Some? && lib.parseLeaf(chain) == Some(lib.publicOf(key))
    requires chain != files.cert.value
    ensures exists w: World :: w.statFails && ReplacesPair(lib, files, Attempt(lib, key, files, w))
  {
    var keyPem := lib.encodeKey(key).value;
    assert keyPem[..|keyPem|] == keyPem;
    var w := World(true, false, Some(chain), Complete, Complete, false);
    assert Attempt(lib, key, files, w).result == Obtained(Loaded(chain, key));
    assert ReplacesPair(lib, files, Attempt(lib, key, files, w));
  }

  // ---- Registration ----

  /** The ACME manager registers an account when it is made, but only if cert.pem is absent;
      a registration that fails makes no manager. */
  datatype Event =
    | New(key: nat, statFails: bool, registrationFails: bool)
    | Use(manager: nat, world: World)

  /** A manager, whether it registered, and whether it was made although stat reported neither
      presence nor absence. */
  datatype Maker = Maker(key: nat, registered: bool, blind: bool)

  /** A contact with the issuer, and whether it came about because stat failed in the call. */
  datatype Contact = Contact(maker: Maker, statFailed: bool)

  datatype Acme = Acme(files: Files, managers: seq<Maker>, contacts: seq<Contact>)

  function AcmeStep(lib: Pem, s: Acme, e: Event): Acme {
    match e
    case New(key, statFails, registrationFails) =>
      if s.files.cert.None? && !statFails then
        if registrationFails then s else s.(managers := s.managers + [Maker(key, true, false)])
      else s.(managers := s.managers + [Maker(key, false, statFails)])
    case Use(m, w) =>
      if m >= |s.managers| then s else
      var c := Attempt(lib, s.managers[m].key, s.files, w);
      s.(files := c.files,
         contacts := if c.contacted then s.contacts + [Contact(s.managers[m], w.statFails)] else s.contacts)
  }

  function AcmeRun(lib: Pem, s: Acme, events: seq<Event>): Acme
    decreases |events|
  {
    if events == [] then s else AcmeRun(lib, AcmeStep(lib, s, events[0]), events[1..])
  }

  /** A manager registers exactly when stat reports that cert.pem is absent; a failing
      registration makes no manager. */
  lemma RegistersIff(lib: Pem, s: Acme, e: Event)
    requires e.New?
    ensures var s' := AcmeStep(lib, s, e);
            && s'.files == s.files && s'.contacts == s.contacts
            && if s.files.cert.None? && !e.statFails && e.registrationFails then s'.managers == s.managers
               else
                 && |s'.managers| == |s.managers| + 1 && s'.managers[..|s.managers|] == s.managers
                 && s'.managers[|s.managers|].key == e.key
                 && (s'.managers[|s.managers|].registered <==> s.files.cert.None? && !e.statFails)
  {
  }

  lemma UsesIff(lib: Pem, s: Acme, e: Event)
    requires e.Use?
    ensures var s' := AcmeStep(lib, s, e);
            if e.manager >= |s.managers| then s' == s
            else
              var m, w := s.managers[e.manager], e.world;
              && s'.managers == s.managers && s'.files == Attempt(lib, m.key, s.files, w).files
              && s'.contacts
                 == s.contacts + (if Cached(s.files, w) || w.requestFails then [] else [Contact(m, w.statFails)])
  {
    if e.manager < |s.managers| {
      EffectsIff(lib, s.managers[e.manager].key, s.files, e.world);
      assert s.contacts + [] == s.contacts;
    }
  }

  /** Once cert.pem exists no manager registers any more, whatever the stats report. */
  lemma {:induction false} NoLateRegistration(lib: Pem, s: Acme, events: seq<Event>)
    requires s.files.cert.Some?
    ensures var s' := AcmeRun(lib, s, events);
            && s'.files.cert.Some? && |s'.managers| >= |s.managers| && s'.managers[..|s.managers|] == s.managers
            && forall i :: |s.managers| <= i < |s'.managers| ==> !s'.managers[i].registered
    decreases |events|
  {
    if events == [] {
      assert s.managers[..|s.managers|] == s.managers;
    } else {
      var next := AcmeStep(lib, s, events[0]);
      var last := AcmeRun(lib, next, events[1..]);
      NoLateStep(lib, s, events[0]);
      hide AcmeStep;
      NoLateRegistration(lib, next, events[1..]);
      assert last.managers[..|s.managers|] == next.managers[..|s.managers|];
      forall i | |s.managers| <= i < |last.managers| ensures !last.managers[i].registered {
        if i < |next.managers| { assert last.managers[i] == next.managers[i]; }
      }
    }
  }

  lemma NoLateStep(lib: Pem, s: Acme, e: Event)
    requires s.files.cert.Some?
    ensures var s' := AcmeStep(lib, s, e);
            && s'.files.cert.Some? && |s'.managers| >= |s.managers| && s'.managers[..|s.managers|] == s.managers
            && forall i :: |s.managers| <= i < |s'.managers| ==> !s'.managers[i].registered
  {
  }

  /** While cert.pem is absent every manager registered or was made blind; and every contact was
      made by a registered manager, by one made blind, or in a call whose stat failed. */
  ghost predicate Accounted(s: Acme) {
    && (s.files.cert.None? ==> forall m <- s.managers :: m.registered || m.blind)
    && (forall c <- s.contacts :: c.maker.registered || c.maker.blind || c.statFailed)
  }

  /** In every run of every number of managers, an issuer is contacted without an account only
      after a stat that reported neither presence nor absence. */
  lemma {:induction false} ContactsAreRegistered(lib: Pem, s: Acme, events: seq<Event>)
    requires Accounted(s)
    ensures Accounted(AcmeRun(lib, s, events))
    decreases |events|
  {
    if events != [] {
      AcmeStepAccounted(lib, s, events[0]);
      ContactsAreRegistered(lib, AcmeStep(lib, s, events[0]), events[1..]);
    }
  }

  lemma AcmeStepAccounted(lib: Pem, s: Acme, e: Event)
    requires Accounted(s)
    ensures Accounted(AcmeStep(lib, s, e))
  {
    if e.Use? && e.manager < |s.managers| {
      assert s.managers[e.manager] in s.managers;
    }
  }
}
