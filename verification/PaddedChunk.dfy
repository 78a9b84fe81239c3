/** What a padded chunk looks like, field by field, and how long its padding is. */
module PaddedChunk {
  import opened Text
  import opened Json
  import opened StreamPadder

  /** The object has a non-empty array choices, whose first element is an object with an object
      delta. */
  predicate DeltaAt(root: seq<Field>, first: seq<Field>, rest: seq<Json>, delta: seq<Field>) {
    && Lookup(root, "choices") == Some(Array([Object(first)] + rest))
    && Lookup(first, "delta") == Some(Object(delta))
  }

  /** That is what the program looks for. */
  lemma DeltaIff(root: seq<Field>, delta: seq<Field>)
    ensures Delta(root) == Some(delta) <==> exists first, rest :: DeltaAt(root, first, rest, delta)
  {
    hide Lookup;
    if Delta(root) == Some(delta) {
      var items := Lookup(root, "choices").value.items;
      assert items == [Object(items[0].fields)] + items[1..];
      assert DeltaAt(root, items[0].fields, items[1..], delta);
    }
    forall first, rest | DeltaAt(root, first, rest, delta) ensures Delta(root) == Some(delta) {
      DeltaFound(root, first, rest, delta);
    }
  }

  lemma DeltaFound(root: seq<Field>, first: seq<Field>, rest: seq<Json>, delta: seq<Field>)
    requires DeltaAt(root, first, rest, delta)
    ensures FirstChoice(root) == Some(first) && Delta(root) == Some(delta)
    ensures Lookup(root, "choices").value.items[1..] == rest
  {
    hide Lookup;
    assert ([Object(first)] + rest)[0] == Object(first) && ([Object(first)] + rest)[1..] == rest;
  }

  /** A chunk is reported as failed exactly when Unmarshal refuses it, or it has a delta and the
      random source fails. */
  lemma FailsIff(lib: JsonLib, data: string, draw: Option<nat>)
    requires IsDraw(draw)
    ensures Chunk(lib, data, draw).1
            <==> !lib.accepts(data) || lib.read(data).None? || (Delta(lib.read(data).value).Some? && draw.None?)
  {
    hide Delta, Padded, Print, CanonFields;
    if lib.read(data).Some? { CanonPath(lib.read(data).value, lib.canon); }
  }

  // ---- The padding ----

  /** Equally likely draws give equally likely lengths: every length from 4 to 36 comes from
      exactly one draw. */
  lemma PaddingLengths(length: nat, draw: nat)
    requires 4 <= length <= 36 && draw <= 32
    ensures |CHARSET| - MIN_LENGTH == 32
    ensures |Padding(draw)| == length <==> draw == length - 4
    ensures Padding(draw) == "abcdefghijklmnopqrstuvwxyz0123456789"[..4 + draw]
  {
  }

  function CanonOf(v: Option<Json>, canon: string -> string): Option<Json> {
    if v.None? then None else Some(Canon(v.value, canon))
  }

  lemma DeltaPut(root: seq<Field>, first: seq<Field>, rest: seq<Json>, delta: seq<Field>, newDelta: seq<Field>)
    requires Sorted(root) && Sorted(first) && DeltaAt(root, first, rest, delta)
    ensures FirstChoice(root).Some?
    ensures DeltaAt(WithDelta(root, newDelta), Put(first, "delta", Object(newDelta)), rest, newDelta)
    ensures forall key :: key != "delta" ==> Lookup(Put(first, "delta", Object(newDelta)), key) == Lookup(first, key)
    ensures forall key :: key != "choices" ==> Lookup(WithDelta(root, newDelta), key) == Lookup(root, key)
  {
    hide Lookup, Put, Sorted;
    DeltaFound(root, first, rest, delta);
    var newFirst := Put(first, "delta", Object(newDelta));
    forall key ensures Lookup(newFirst, key) == if key == "delta" then Some(Object(newDelta)) else Lookup(first, key) {
      LookupPut(first, "delta", Object(newDelta), key);
    }
    var choices := Array([Object(newFirst)] + rest);
    assert WithDelta(root, newDelta) == Put(root, "choices", choices);
    forall key ensures Lookup(WithDelta(root, newDelta), key) == if key == "choices" then Some(choices) else Lookup(root, key) {
      LookupPut(root, "choices", choices, key);
    }
  }

  /** Replacing number texts keeps the path to the delta. */
  lemma CanonDeltaAt(root: seq<Field>, first: seq<Field>, rest: seq<Json>, delta: seq<Field>, canon: string -> string)
    requires DeltaAt(root, first, rest, delta)
    ensures DeltaAt(CanonFields(root, canon), CanonFields(first, canon), CanonItems(rest, canon), CanonFields(delta, canon))
  {
    hide Lookup, CanonFields;
    CanonLookup(root, "choices", canon);
    CanonLookup(first, "delta", canon);
    assert CanonItems([Object(first)] + rest, canon) == [Object(CanonFields(first, canon))] + CanonItems(rest, canon);
  }

  /** The padded chunk, read exactly: choices[0].delta has under p the first 4 + draw characters
      of the character set, and every other field of the delta, of choices[0] and of the object,
      and every other choice, is as it was but for how its numbers print. */
  lemma PaddedText(lib: JsonLib, data: string, draw: nat, first: seq<Field>, rest: seq<Json>, delta: seq<Field>)
    returns (newFirst: seq<Field>, newDelta: seq<Field>)
    requires ReadsWell(lib) && draw <= 32 && lib.accepts(data) && lib.read(data).Some?
    requires DeltaAt(lib.read(data).value, first, rest, delta)
    ensures var (text, failed) := Chunk(lib, data, Some(draw));
            && !failed && OneLine(text) && lib.read(text).Some?
            && DeltaAt(lib.read(text).value, newFirst, CanonItems(rest, lib.canon), newDelta)
            && (forall key :: Lookup(newDelta, key)
                  == if key == "p" then Some(String("abcdefghijklmnopqrstuvwxyz0123456789"[..4 + draw]))
                     else CanonOf(Lookup(delta, key), lib.canon))
            && (forall key :: key != "delta" ==> Lookup(newFirst, key) == CanonOf(Lookup(first, key), lib.canon))
            && (forall key :: key != "choices" ==>
                  Lookup(lib.read(text).value, key) == CanonOf(Lookup(lib.read(data).value, key), lib.canon))
  {
    hide Lookup, Put, CanonFields, WithDelta, Print, ReadsWell, Chunk, WellFormedFields;
    var root := lib.read(data).value;
    PaddingLengths(4, draw);
    var p := String(Padding(draw));
    var before := Put(delta, "p", p);
    DeltaFound(root, first, rest, delta);
    SortedOnPath(lib, data, first, rest, delta);
    ChunkMeaning(lib, data, Some(draw));
    DeltaPut(root, first, rest, delta, before);
    var out := Padded(root, draw);
    assert out == WithDelta(root, before);
    CanonDeltaAt(out, Put(first, "delta", Object(before)), rest, before, lib.canon);
    newFirst, newDelta := CanonFields(Put(first, "delta", Object(before)), lib.canon), CanonFields(before, lib.canon);
    forall key
      ensures Lookup(newDelta, key) == if key == "p" then Some(p) else CanonOf(Lookup(delta, key), lib.canon)
    {
      CanonLookup(before, key, lib.canon);
      LookupPut(delta, "p", p, key);
    }
    forall key | key != "delta" ensures Lookup(newFirst, key) == CanonOf(Lookup(first, key), lib.canon) {
      CanonLookup(Put(first, "delta", Object(before)), key, lib.canon);
    }
    forall key | key != "choices"
      ensures Lookup(CanonFields(out, lib.canon), key) == CanonOf(Lookup(root, key), lib.canon)
    {
      CanonLookup(out, key, lib.canon);
    }
  }

  lemma SortedOnPath(lib: JsonLib, data: string, first: seq<Field>, rest: seq<Json>, delta: seq<Field>)
    requires ReadsWell(lib) && lib.read(data).Some? && DeltaAt(lib.read(data).value, first, rest, delta)
    ensures Sorted(lib.read(data).value) && Sorted(first) && Sorted(delta)
  {
    DeltaFound(lib.read(data).value, first, rest, delta);
    PathWellFormed(lib.read(data).value, MAX_DEPTH - 1);
  }

  // ---- One chunk in full ----

  lemma {:induction false} PlainEscape(s: string)
    requires forall c <- s :: 'a' <= c <= 'z' || '0' <= c <= '9'
    ensures Escape(s) == s
  {
    if s != "" {
      assert s[0] in s && forall c <- s[1..] :: c in s;
      PlainEscape(s[1..]);
      PlainChar(s[0]);
      hide EscapeChar;
      assert s == [s[0]] + s[1..];
    }
  }

  lemma PlainChar(c: char)
    requires 'a' <= c <= 'z' || '0' <= c <= '9'
    ensures EscapeChar(c) == [c]
  {
  }

  lemma OneFieldPrints(key: string, v: Json)
    requires forall c <- key :: 'a' <= c <= 'z' || '0' <= c <= '9'
    ensures Print(Object([Field(key, v)])) == "{" + ("\"" + key + "\"" + ":" + Print(v)) + "}"
  {
    PlainEscape(key);
    hide Escape;
    assert [Field(key, v)][1..] == [];
    assert PrintFields([Field(key, v)]) == Quote(key) + ":" + Print(v);
  }

  lemma OneItemPrints(v: Json)
    ensures Print(Array([v])) == "[" + Print(v) + "]"
  {
    assert [v][1..] == [];
    assert PrintItems([v]) == Print(v);
  }

  lemma PlainPadding(draw: nat)
    requires draw <= 32
    ensures Print(String(Padding(draw))) == "\"" + Padding(draw) + "\""
  {
    var p := Padding(draw);
    forall c | c in p ensures 'a' <= c <= 'z' || '0' <= c <= '9' {
      var k :| 0 <= k < |p| && p[k] == c;
      PlainAt(k);
    }
    PlainEscape(p);
  }

  lemma PlainAt(k: nat)
    requires k < 36
    ensures 'a' <= CHARSET[k] <= 'z' || '0' <= CHARSET[k] <= '9'
  {
    match k {
      case 0 => case 1 => case 2 => case 3 => case 4 => case 5 => case 6 => case 7 => case 8 =>
      case 9 => case 10 => case 11 => case 12 => case 13 => case 14 => case 15 => case 16 => case 17 =>
      case 18 => case 19 => case 20 => case 21 => case 22 => case 23 => case 24 => case 25 => case 26 =>
      case 27 => case 28 => case 29 => case 30 => case 31 => case 32 => case 33 => case 34 => case _ =>
    }
  }

  /** The chunk {"choices":[{"delta":{}}]}. */
  function SmallestRoot(): seq<Field> { [Field("choices", Array([Object([Field("delta", Object([]))])]))] }

  lemma SmallestPadded(draw: nat)
    requires draw <= 32
    ensures Delta(SmallestRoot()) == Some([])
    ensures Padded(SmallestRoot(), draw)
            == [Field("choices", Array([Object([Field("delta", Object([Field("p", String(Padding(draw)))]))])]))]
  {
    hide Padding;
    var choice := [Field("delta", Object([]))];
    assert SmallestRoot()[0].key == "choices" && choice[0].key == "delta";
    assert Lookup(SmallestRoot(), "choices") == Some(Array([Object(choice)]));
    assert Lookup(choice, "delta") == Some(Object([]));
    LessIsOrder("choices", "choices", "choices");
    LessIsOrder("delta", "delta", "delta");
    var newDelta := [Field("p", String(Padding(draw)))];
    assert Put([], "p", String(Padding(draw))) == newDelta;
    assert Put(choice, "delta", Object(newDelta)) == [Field("delta", Object(newDelta))];
    assert [Object(choice)][1..] == [];
    assert [Object([Field("delta", Object(newDelta))])] + [] == [Object([Field("delta", Object(newDelta))])];
  }

  /** In full: this chunk comes out as {"choices":[{"delta":{"p":"..."}}]}. */
  lemma SmallestChunk(lib: JsonLib, data: string, draw: nat)
    requires draw <= 32 && lib.accepts(data) && lib.read(data) == Some(SmallestRoot())
    ensures Chunk(lib, data, Some(draw))
            == ("{" + ("\"" + "choices" + "\"" + ":"
                  + ("[" + ("{" + ("\"" + "delta" + "\"" + ":"
                    + ("{" + ("\"" + "p" + "\"" + ":" + ("\"" + Padding(draw) + "\"")) + "}")) + "}") + "]")) + "}", false)
  {
    hide Padding, Padded, Print, Delta;
    SmallestPadded(draw);
    NoNumbers(lib.canon);
    PlainPadding(draw);
    OneFieldPrints("p", String(Padding(draw)));
    var padded := Object([Field("p", String(Padding(draw)))]);
    OneFieldPrints("delta", padded);
    OneItemPrints(Object([Field("delta", padded)]));
    OneFieldPrints("choices", Array([Object([Field("delta", padded)])]));
  }

  lemma NoNumbers(canon: string -> string)
    ensures CanonFields(SmallestRoot(), canon) == SmallestRoot()
  {
    assert AllCanonicalFields([], canon);
    assert AllCanonical(Object([Field("delta", Object([]))]), canon);
    CanonFieldsUnchangedIff(SmallestRoot(), canon);
  }
}
