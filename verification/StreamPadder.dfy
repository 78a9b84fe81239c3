/** The streaming proxy's line transducer: it rewrites the JSON of data lines and copies
    everything else. */
module StreamPadder {
  import opened Text
  import opened Json
  import opened EventStream
  import JsonReader

  // ---- One chunk ----

  const CHARSET := "abcdefghijklmnopqrstuvwxyz0123456789"
  const MIN_LENGTH := 4

  /** The nesting that encoding/json accepts. */
  const MAX_DEPTH := 10000

  /** An object that the library can hold and print. */
  predicate IsDocument(fields: seq<Field>) { WellFormedFields(fields, MAX_DEPTH - 1) }

  /** json.Unmarshal into a map is an unseen library. read is the exact reading of a text as an
      object, None if it is not one: number texts as written, the last of equal keys, no fields
      for null. The library keeps numbers as floats: accepts fails for texts with a number out
      of range, and canon gives the text that the library prints for the float nearest to a
      number, or the number itself when there is none. */
  datatype JsonLib = JsonLib(
    read: string -> Option<seq<Field>>,
    accepts: string -> bool,
    canon: string -> string)

  ghost predicate ReadsWell(lib: JsonLib) {
    && (forall s :: lib.read(s).Some? ==> IsDocument(lib.read(s).value))
    && (forall f :: IsDocument(f) ==> lib.read(Print(Object(f))) == Some(f))
    && (forall t :: IsNumber(t) ==> IsNumber(lib.canon(t)))
    && (forall t :: lib.canon(lib.canon(t)) == lib.canon(t))
  }

  /** What the program holds after json.Unmarshal: the object with its numbers as floats. */
  function Unmarshal(lib: JsonLib, data: string): Option<seq<Field>> {
    if lib.accepts(data) && lib.read(data).Some?
    then Some(CanonFields(lib.read(data).value, lib.canon)) else None
  }

  /** The hypotheses can be met: the reader of printed JSON meets them, with a canon that changes
      one number. */
  lemma SomeLibraryReadsWell()
    ensures ReadsWell(JsonLib(s => JsonReader.ReadObject(s, MAX_DEPTH - 1), s => true, t => RoundLarge(t)))
  {
    hide IsNumber, WellFormedFields, JsonReader.ReadObject, Print, RoundLarge;
    RoundingIsSafe();
    forall f | IsDocument(f) ensures JsonReader.ReadObject(Print(Object(f)), MAX_DEPTH - 1) == Some(f) {
      JsonReader.ObjectReadsBack(f, MAX_DEPTH - 1);
    }
  }

  const LARGE := "9007199254740993"
  const ROUNDED := "9007199254740992"

  lemma RoundingIsSafe()
    ensures forall t :: IsNumber(t) ==> IsNumber(RoundLarge(t))
    ensures forall t :: RoundLarge(RoundLarge(t)) == RoundLarge(t)
  {
    hide IsNumber;
    assert forall k :: 0 <= k < 16 ==> IsDigit(ROUNDED[k]);
    DigitsAreNumber(ROUNDED);
    assert ROUNDED[15] != LARGE[15];
  }

  /** 2^53 + 1 has no float of its own. */
  function RoundLarge(t: string): string { if t == LARGE then ROUNDED else t }

  /** choices[0] of an object, when choices is a non-empty array that starts with an object. */
  function FirstChoice(root: seq<Field>): Option<seq<Field>> {
    var choices := Lookup(root, "choices");
    if choices.Some? && choices.value.Array? && choices.value.items != [] && choices.value.items[0].Object?
    then Some(choices.value.items[0].fields) else None
  }

  /** choices[0].delta, when it is an object. */
  function Delta(root: seq<Field>): Option<seq<Field>> {
    var choice := FirstChoice(root);
    if choice.None? then None else
    var delta := Lookup(choice.value, "delta");
    if delta.Some? && delta.value.Object? then Some(delta.value.fields) else None
  }

  /** The same object with another choices[0].delta. */
  function WithDelta(root: seq<Field>, delta: seq<Field>): seq<Field>
    requires FirstChoice(root).Some?
  {
    var items := Lookup(root, "choices").value.items;
    var choice := Put(FirstChoice(root).value, "delta", Object(delta));
    Put(root, "choices", Array([Object(choice)] + items[1..]))
  }

  /** A draw of the random source is a number from 0 to 32; None is a failing source. */
  predicate IsDraw(draw: Option<nat>) { draw.Some? ==> draw.value <= |CHARSET| - MIN_LENGTH }

  function Padding(draw: nat): (padding: string)
    requires draw <= |CHARSET| - MIN_LENGTH
    ensures |padding| == 4 + draw <= 36
    ensures padding <= CHARSET
  {
    CHARSET[..MIN_LENGTH + draw]
  }

  function Padded(root: seq<Field>, draw: nat): seq<Field>
    requires Delta(root).Some? && draw <= |CHARSET| - MIN_LENGTH
  {
    WithDelta(root, Put(Delta(root).value, "p", String(Padding(draw))))
  }

  /** addPaddingToStreamChunk: the new text, and whether it reports an error. */
  method AddPadding(lib: JsonLib, data: string, draw: Option<nat>) returns (text: string, failed: bool)
    requires IsDraw(draw)
    ensures (text, failed) == Chunk(lib, data, draw)
  {
    var rawJSON := Unmarshal(lib, data);
    if rawJSON.None? { return data, true; }
    var choices := Lookup(rawJSON.value, "choices");
    if choices.None? || !choices.value.Array? || |choices.value.items| == 0 { return data, false; }
    var firstChoice := choices.value.items[0];
    if !firstChoice.Object? { return data, false; }
    var delta := Lookup(firstChoice.fields, "delta");
    if delta.None? || !delta.value.Object? { return data, false; }
    if draw.None? { return data, true; }
    var padding := CHARSET[..MIN_LENGTH + draw.value];
    var newDelta := Put(delta.value.fields, "p", String(padding));
    var newChoice := Put(firstChoice.fields, "delta", Object(newDelta));
    var newRoot := Put(rawJSON.value, "choices", Array([Object(newChoice)] + choices.value.items[1..]));
    return Print(Object(newRoot)), false;
  }

  function Chunk(lib: JsonLib, data: string, draw: Option<nat>): (string, bool)
    requires IsDraw(draw)
  {
    var root := Unmarshal(lib, data);
    if root.None? then (data, true)
    else if Delta(root.value).None? then (data, false)
    else if draw.None? then (data, true)
    else (Print(Object(Padded(root.value, draw.value))), false)
  }

  // ---- Padding is the only change ----

  lemma FieldOfSorted(f: seq<Field>, key: string, depth: nat)
    requires WellFormedFields(f, depth)
    ensures Lookup(f, key).Some? ==> WellFormed(Lookup(f, key).value, depth)
  {
    if f != [] && f[0].key != key { FieldOfSorted(f[1..], key, depth); }
  }

  lemma PutWellFormed(f: seq<Field>, key: string, value: Json, depth: nat)
    requires WellFormedFields(f, depth) && WellFormed(value, depth)
    ensures WellFormedFields(Put(f, key, value), depth)
  {
    PutSorted(f, key, value);
    PutKeys(f, key, value);
  }

  /** The delta lies three levels down. */
  lemma PathWellFormed(root: seq<Field>, depth: nat)
    requires WellFormedFields(root, depth) && Delta(root).Some?
    ensures depth >= 3
    ensures WellFormedFields(FirstChoice(root).value, depth - 2) && WellFormedFields(Delta(root).value, depth - 3)
    ensures forall x <- Lookup(root, "choices").value.items :: WellFormed(x, depth - 1)
  {
    hide WellFormedFields, Lookup;
    FieldOfSorted(root, "choices", depth);
    var choices := Lookup(root, "choices").value;
    assert WellFormed(choices, depth) && choices.items[0] in choices.items;
    FieldOfSorted(FirstChoice(root).value, "delta", depth - 2);
  }

  lemma WithDeltaWellFormed(root: seq<Field>, delta: seq<Field>, depth: nat)
    requires WellFormedFields(root, depth) && Delta(root).Some? && depth >= 3 && WellFormedFields(delta, depth - 3)
    ensures WellFormedFields(WithDelta(root, delta), depth)
  {
    hide WellFormedFields, Put, Lookup;
    PathWellFormed(root, depth);
    PutWellFormed(FirstChoice(root).value, "delta", Object(delta), depth - 2);
    var items := Lookup(root, "choices").value.items;
    var choice := Put(FirstChoice(root).value, "delta", Object(delta));
    var newItems := [Object(choice)] + items[1..];
    forall x <- newItems ensures WellFormed(x, depth - 1) {
      assert x == Object(choice) || x in items;
    }
    PutWellFormed(root, "choices", Array(newItems), depth);
  }

  /** Replacing the delta is a lens: what was put is found, the last one put counts, and
      putting back what was there changes nothing. */
  lemma DeltaLens(root: seq<Field>, depth: nat, d: seq<Field>, e: seq<Field>)
    requires WellFormedFields(root, depth) && Delta(root).Some?
    ensures FirstChoice(WithDelta(root, d)).Some? && Delta(WithDelta(root, d)) == Some(d)
    ensures WithDelta(WithDelta(root, d), e) == WithDelta(root, e)
    ensures WithDelta(root, Delta(root).value) == root
  {
    PathWellFormed(root, depth);
    var items, first := Lookup(root, "choices").value.items, FirstChoice(root).value;
    assert Sorted(root) && Sorted(first);
    hide WellFormedFields, Sorted, Put;
    var choice := Put(first, "delta", Object(d));
    var newItems := [Object(choice)] + items[1..];
    LookupPut(root, "choices", Array(newItems), "choices");
    LookupPut(first, "delta", Object(d), "delta");
    PutPut(first, "delta", Object(d), Object(e));
    PutPut(root, "choices", Array(newItems), Array([Object(Put(first, "delta", Object(e)))] + items[1..]));
    assert newItems[1..] == items[1..];
    PutPut(first, "delta", Object(Delta(root).value), Null);
    assert [Object(first)] + items[1..] == items;
    PutPut(root, "choices", Array(items), Null);
  }

  /** Padding is the only change. The rewritten object has the delta of the original with
      the one key p set to the padding; putting the original delta back restores the whole
      object, and where p was absent so does deleting p. */
  lemma PaddingIsOnlyChange(root: seq<Field>, depth: nat, draw: nat, key: string)
    requires WellFormedFields(root, depth) && Delta(root).Some? && draw <= |CHARSET| - MIN_LENGTH
    ensures var padded := Padded(root, draw);
            && WellFormedFields(padded, depth) && Delta(padded).Some?
            && Lookup(Delta(padded).value, key)
               == (if key == "p" then Some(String(Padding(draw))) else Lookup(Delta(root).value, key))
            && WithDelta(padded, Delta(root).value) == root
            && (Lookup(Delta(root).value, "p").None? ==> WithDelta(padded, Remove(Delta(padded).value, "p")) == root)
  {
    var delta := Delta(root).value;
    var newDelta := Put(delta, "p", String(Padding(draw)));
    PathWellFormed(root, depth);
    PutWellFormed(delta, "p", String(Padding(draw)), depth - 3);
    WithDeltaWellFormed(root, newDelta, depth);
    DeltaLens(root, depth, newDelta, delta);
    LookupPut(delta, "p", String(Padding(draw)), key);
    if Lookup(delta, "p").None? { RemovePut(delta, "p", String(Padding(draw))); }
  }

  // ---- Numbers ----

  lemma DigitsAreNumber(t: string)
    requires AllDigits(t) && t[0] != '0'
    ensures IsNumber(t)
  {
    assert t[0] != '-';
    assert TrimPrefix(t, "-") == t && t[|t|..] == "";
  }

  /** Replacing number texts and taking the path to the delta commute. */
  lemma CanonPath(root: seq<Field>, canon: string -> string)
    ensures FirstChoice(CanonFields(root, canon))
            == if FirstChoice(root).None? then None else Some(CanonFields(FirstChoice(root).value, canon))
    ensures Delta(CanonFields(root, canon))
            == if Delta(root).None? then None else Some(CanonFields(Delta(root).value, canon))
  {
    CanonLookup(root, "choices", canon);
    if FirstChoice(root).Some? { CanonLookup(FirstChoice(root).value, "delta", canon); }
  }

  lemma CanonWithDelta(root: seq<Field>, delta: seq<Field>, canon: string -> string)
    requires FirstChoice(root).Some?
    ensures FirstChoice(CanonFields(root, canon)).Some?
    ensures CanonFields(WithDelta(root, delta), canon) == WithDelta(CanonFields(root, canon), CanonFields(delta, canon))
  {
    hide CanonFields, Put;
    CanonPath(root, canon);
    CanonLookup(root, "choices", canon);
    var items := Lookup(root, "choices").value.items;
    var choice := Put(FirstChoice(root).value, "delta", Object(delta));
    CanonPut(FirstChoice(root).value, "delta", Object(delta), canon);
    CanonPut(root, "choices", Array([Object(choice)] + items[1..]), canon);
    assert CanonItems([Object(choice)] + items[1..], canon)
        == [Object(CanonFields(choice, canon))] + CanonItems(items, canon)[1..];
  }

  lemma CanonPadded(root: seq<Field>, draw: nat, canon: string -> string)
    requires Delta(root).Some? && draw <= |CHARSET| - MIN_LENGTH
    ensures Delta(CanonFields(root, canon)).Some?
    ensures Padded(CanonFields(root, canon), draw) == CanonFields(Padded(root, draw), canon)
  {
    hide CanonFields, Put, WithDelta;
    CanonPath(root, canon);
    CanonPut(Delta(root).value, "p", String(Padding(draw)), canon);
    CanonWithDelta(root, Put(Delta(root).value, "p", String(Padding(draw))), canon);
  }

  /** The numbers that padding lets survive: all but those under the key p of the delta. */
  function Survivors(root: seq<Field>): seq<Field>
    requires Delta(root).Some?
  {
    WithDelta(root, Remove(Delta(root).value, "p"))
  }

  lemma CanonicalWithDelta(root: seq<Field>, depth: nat, d: seq<Field>, e: seq<Field>, canon: string -> string)
    requires WellFormedFields(root, depth) && Delta(root).Some?
    requires AllCanonicalFields(d, canon) <==> AllCanonicalFields(e, canon)
    ensures AllCanonicalFields(WithDelta(root, d), canon) <==> AllCanonicalFields(WithDelta(root, e), canon)
  {
    hide AllCanonicalFields, Put, Remove;
    PathWellFormed(root, depth);
    var items, first := Lookup(root, "choices").value.items, FirstChoice(root).value;
    ListCanonical(Object(Put(first, "delta", Object(d))), items[1..], canon);
    ListCanonical(Object(Put(first, "delta", Object(e))), items[1..], canon);
    PutCanonical(first, "delta", Object(d), canon);
    PutCanonical(first, "delta", Object(e), canon);
    PutCanonical(root, "choices", Array([Object(Put(first, "delta", Object(d)))] + items[1..]), canon);
    PutCanonical(root, "choices", Array([Object(Put(first, "delta", Object(e)))] + items[1..]), canon);
  }

  lemma ListCanonical(v: Json, items: seq<Json>, canon: string -> string)
    ensures AllCanonical(Array([v] + items), canon)
            <==> AllCanonical(v, canon) && forall x <- items :: AllCanonical(x, canon)
  {
    hide AllCanonicalFields;
    assert forall x :: x in [v] + items <==> x == v || x in items;
  }

  /** The library changes the padded object exactly when a surviving number is not canonical. */
  lemma NumbersUnchangedIff(root: seq<Field>, depth: nat, draw: nat, canon: string -> string)
    requires WellFormedFields(root, depth) && Delta(root).Some? && draw <= |CHARSET| - MIN_LENGTH
    ensures CanonFields(Padded(root, draw), canon) == Padded(root, draw)
            <==> AllCanonicalFields(Survivors(root), canon)
  {
    hide AllCanonicalFields, WithDelta, Put, Remove;
    var delta := Delta(root).value;
    PathWellFormed(root, depth);
    PutCanonical(delta, "p", String(Padding(draw)), canon);
    CanonicalWithDelta(root, depth, Put(delta, "p", String(Padding(draw))), Remove(delta, "p"), canon);
    CanonFieldsUnchangedIff(Padded(root, draw), canon);
  }

  // ---- What a chunk becomes ----

  /** The text a chunk becomes: itself, or the print of its padded object. */
  ghost predicate PadsTo(lib: JsonLib, data: string, text: string) {
    || text == data
    || exists draw: nat :: draw <= |CHARSET| - MIN_LENGTH && IsPadded(lib, data, draw, text)
  }

  /** The object that the text is read as is the one that was read from the data, with its
      numbers as the library prints them and with padding. */
  ghost predicate IsPadded(lib: JsonLib, data: string, draw: nat, text: string)
    requires draw <= |CHARSET| - MIN_LENGTH
  {
    && Unmarshal(lib, data).Some? && Delta(lib.read(data).value).Some?
    && lib.read(text) == Some(CanonFields(Padded(lib.read(data).value, draw), lib.canon))
  }

  /** The data of a chunk that is meant to be padded. */
  predicate HasDelta(lib: JsonLib, data: string) {
    lib.accepts(data) && lib.read(data).Some? && Delta(lib.read(data).value).Some?
  }

  /** The chunk theorem, on texts. A chunk that is no object, has no delta object, or for which
      the random source fails comes out identical. Every other chunk comes out on one line, and
      its exact reading is the padded exact reading with the numbers as the library prints
      them. It is the padded exact reading itself if and only if all surviving numbers were
      written that way. */
  lemma ChunkMeaning(lib: JsonLib, data: string, draw: Option<nat>)
    requires ReadsWell(lib) && IsDraw(draw)
    ensures var (text, failed) := Chunk(lib, data, draw);
            && PadsTo(lib, data, text)
            && if HasDelta(lib, data) && draw.Some?
               then
                 var root := lib.read(data).value;
                 && !failed && OneLine(text) && IsPadded(lib, data, draw.value, text)
                 && (lib.read(text) == Some(Padded(root, draw.value))
                     <==> AllCanonicalFields(Survivors(root), lib.canon))
               else text == data
  {
    hide Padded, Print, Survivors, AllCanonicalFields, CanonFields, Delta;
    if Unmarshal(lib, data).Some? { CanonPath(lib.read(data).value, lib.canon); }
    if HasDelta(lib, data) && draw.Some? {
      var root := lib.read(data).value;
      CanonPadded(root, draw.value, lib.canon);
      PaddedIsDocument(lib, root, draw.value);
      NumbersUnchangedIff(root, MAX_DEPTH - 1, draw.value, lib.canon);
      assert IsPadded(lib, data, draw.value, Chunk(lib, data, draw).0);
    }
  }

  lemma PaddedIsDocument(lib: JsonLib, root: seq<Field>, draw: nat)
    requires ReadsWell(lib) && IsDocument(root) && Delta(root).Some? && draw <= |CHARSET| - MIN_LENGTH
    ensures var out := CanonFields(Padded(root, draw), lib.canon);
            lib.read(Print(Object(out))) == Some(out) && OneLine(Print(Object(out)))
  {
    hide Padded, Print, CanonFields, Delta, WellFormedFields;
    PaddingIsOnlyChange(root, MAX_DEPTH - 1, draw, "p");
    CanonFieldsWellFormed(Padded(root, draw), lib.canon, MAX_DEPTH - 1);
    var out := CanonFields(Padded(root, draw), lib.canon);
    assert WellFormed(Object(out), MAX_DEPTH);
    PrintTame(Object(out), MAX_DEPTH);
  }

  /** What happens to a number at the top of a padded object. */
  lemma NumberRewritten(lib: JsonLib, data: string, draw: nat, key: string)
    requires ReadsWell(lib) && draw <= |CHARSET| - MIN_LENGTH && HasDelta(lib, data) && key != "choices"
    ensures var number, text := Lookup(lib.read(data).value, key), Chunk(lib, data, Some(draw)).0;
            number.Some? && number.value.Number?
            ==> lib.read(text).Some?
                && Lookup(lib.read(text).value, key) == Some(Number(lib.canon(number.value.text)))
  {
    var root := lib.read(data).value;
    ChunkMeaning(lib, data, Some(draw));
    CanonLookup(Padded(root, draw), key, lib.canon);
    hide ReadsWell, CanonFields, Put, Chunk;
    var choice := Put(FirstChoice(root).value, "delta", Object(Put(Delta(root).value, "p", String(Padding(draw)))));
    LookupPut(root, "choices", Array([Object(choice)] + Lookup(root, "choices").value.items[1..]), key);
  }

  /** The object {"choices":[{"delta":{}}],"n":9007199254740993}. */
  function LargeRoot(): seq<Field> {
    [Field("choices", Array([Object([Field("delta", Object([]))])])), Field("n", Number(LARGE))]
  }

  lemma LargeLooks()
    ensures Delta(LargeRoot()) == Some([]) && Lookup(LargeRoot(), "n") == Some(Number(LARGE))
  {
    var choice, n := [Field("delta", Object([]))], [Field("n", Number(LARGE))];
    assert LargeRoot()[0].key == "choices" && choice[0].key == "delta" && n[0].key == "n";
    assert LargeRoot()[1..] == n && Lookup(LargeRoot(), "n") == Lookup(n, "n");
    assert Lookup(LargeRoot(), "choices") == Some(Array([Object(choice)]));
    assert Lookup(choice, "delta") == Some(Object([]));
    assert FirstChoice(LargeRoot()) == Some(choice);
  }

  /** Padding changes an integer that no float holds: 2^53 + 1 comes out as 2^53. */
  lemma LargeIntegerChanges(lib: JsonLib, data: string, draw: nat)
    requires ReadsWell(lib) && draw <= |CHARSET| - MIN_LENGTH
    requires lib.accepts(data) && lib.read(data) == Some(LargeRoot()) && lib.canon(LARGE) == ROUNDED
    ensures var (text, failed) := Chunk(lib, data, Some(draw));
            && !failed && lib.read(text).Some?
            && Lookup(lib.read(data).value, "n") == Some(Number(LARGE))
            && Lookup(lib.read(text).value, "n") == Some(Number(ROUNDED))
  {
    hide LargeRoot, Delta, Lookup, Chunk;
    LargeLooks();
    ChunkMeaning(lib, data, Some(draw));
    NumberRewritten(lib, data, draw, "n");
  }

  // ---- The line loop ----

  const MAX_TOKEN := 65536

  function Utf8Length(s: string): nat {
    if s == "" then 0
    else (if s[0] < '\U{80}' then 1 else if s[0] < '\U{800}' then 2 else if s[0] < '\U{10000}' then 3 else 4)
         + Utf8Length(s[1..])
  }

  /** The bytes at the front of the text that the scanner must hold to find its next line. */
  function TokenLength(body: string): nat {
    var i := IndexOf(body, '\n');
    if i < |body| then Utf8Length(body[..i + 1]) else Utf8Length(body) + 1
  }

  /** bufio.Scanner with ScanLines: it stops for good at the first line that does not fit
      its buffer, and yields a last line without a terminator. */
  function Scan(body: string): seq<string>
    decreases |body|
  {
    if body == "" || TokenLength(body) > MAX_TOKEN then []
    else
      var i := IndexOf(body, '\n');
      if i < |body| then [DropCR(body[..i])] + Scan(body[i + 1..]) else [DropCR(body)]
  }

  function Rewrite(lib: JsonLib, line: string, draw: Option<nat>): string
    requires IsDraw(draw)
  {
    if HasPrefix(line, "data: ") && line != "data: [DONE]" then
      var (modified, failed) := Chunk(lib, TrimPrefix(line, "data: "), draw);
      if failed then line else "data: " + modified
    else line
  }

  /** The draws of one stream, one per line. */
  ghost predicate AreDraws(draws: nat -> Option<nat>) { forall n :: IsDraw(draws(n)) }

  ghost function RewriteAll(lib: JsonLib, lines: seq<string>, draws: nat -> Option<nat>, from: nat): (out: seq<string>)
    requires AreDraws(draws)
    ensures |out| == |lines|
  {
    if lines == [] then []
    else [Rewrite(lib, lines[0], draws(from))] + RewriteAll(lib, lines[1..], draws, from + 1)
  }

  /** What the goroutine writes for one line. */
  method PadLine(lib: JsonLib, line: string, draw: Option<nat>) returns (written: string)
    requires IsDraw(draw)
    ensures written == Rewrite(lib, line, draw) + "\n"
  {
    if HasPrefix(line, "data: ") && line != "data: [DONE]" {
      var data := TrimPrefix(line, "data: ");
      var modifiedData, failed := AddPadding(lib, data, draw);
      if failed { return line + "\n"; }
      return "data: " + modifiedData + "\n";
    }
    return line + "\n";
  }

  lemma ScanStep(lib: JsonLib, rest: string, draws: nat -> Option<nat>, n: nat)
    requires AreDraws(draws) && rest != "" && TokenLength(rest) <= MAX_TOKEN
    ensures var i := IndexOf(rest, '\n');
            var next := if i < |rest| then rest[i + 1..] else "";
            Joined(RewriteAll(lib, Scan(rest), draws, n))
            == Rewrite(lib, DropCR(rest[..i]), draws(n)) + "\n" + Joined(RewriteAll(lib, Scan(next), draws, n + 1))
  {
    hide TokenLength, Rewrite, DropCR;
    var i := IndexOf(rest, '\n');
    var next := if i < |rest| then rest[i + 1..] else "";
    assert i == |rest| ==> rest[..i] == rest;
    assert Scan(rest) == [DropCR(rest[..i])] + Scan(next);
    var out := RewriteAll(lib, Scan(rest), draws, n);
    assert out[1..] == RewriteAll(lib, Scan(next), draws, n + 1);
  }

  /** The goroutine of RoundTrip. written is what has gone into the pipe. */
  method PadStream(lib: JsonLib, body: string, draws: nat -> Option<nat>) returns (written: string)
    requires AreDraws(draws)
    ensures written == Joined(RewriteAll(lib, Scan(body), draws, 0))
  {
    hide TokenLength, Rewrite, DropCR, Joined, RewriteAll, Scan;
    written := "";
    var rest, n := body, 0;
    while rest != "" && TokenLength(rest) <= MAX_TOKEN
      invariant Joined(RewriteAll(lib, Scan(body), draws, 0)) == written + Joined(RewriteAll(lib, Scan(rest), draws, n))
      decreases |rest|
    {
      ScanStep(lib, rest, draws, n);
      var i := IndexOf(rest, '\n');
      var line := DropCR(rest[..i]);
      var out := PadLine(lib, line, draws(n));
      rest := if i < |rest| then rest[i + 1..] else "";
      n := n + 1;
      assert written + (out + Joined(RewriteAll(lib, Scan(rest), draws, n)))
          == (written + out) + Joined(RewriteAll(lib, Scan(rest), draws, n));
      written := written + out;
    }
    ScanEnd(lib, rest, draws, n);
  }

  lemma ScanEnd(lib: JsonLib, rest: string, draws: nat -> Option<nat>, n: nat)
    requires AreDraws(draws) && (rest == "" || TokenLength(rest) > MAX_TOKEN)
    ensures Joined(RewriteAll(lib, Scan(rest), draws, n)) == ""
  {
  }
}
