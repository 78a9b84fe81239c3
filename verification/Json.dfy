/** JSON values and how Go's encoding/json prints them. An object is its fields in key order,
    which is how a Go map is printed; a number is its text. */
module Json {
  import opened Text

  datatype Json =
    | Null
    | Bool(b: bool)
    | Number(text: string)
    | String(s: string)
    | Array(items: seq<Json>)
    | Object(fields: seq<Field>)

  datatype Field = Field(key: string, value: Json)

  // ---- Key order ----

  predicate Less(a: string, b: string) {
    if b == "" then false
    else if a == "" then true
    else a[0] < b[0] || (a[0] == b[0] && Less(a[1..], b[1..]))
  }

  lemma {:induction false} LessIsOrder(a: string, b: string, c: string)
    ensures !Less(a, a)
    ensures a != b ==> Less(a, b) || Less(b, a)
    ensures Less(a, b) && Less(b, c) ==> Less(a, c)
    ensures !(Less(a, b) && Less(b, a))
    decreases |a|
  {
    if a != "" && b != "" && c != "" {
      LessIsOrder(a[1..], b[1..], c[1..]);
      assert a == [a[0]] + a[1..] && b == [b[0]] + b[1..];
    } else if a != "" && b != "" {
      LessIsOrder(a[1..], b[1..], a[1..]);
      assert a == [a[0]] + a[1..] && b == [b[0]] + b[1..];
    } else if a != "" {
      LessIsOrder(a[1..], a[1..], a[1..]);
    }
  }

  /** Keys strictly ascend, so there are no duplicates. */
  predicate Sorted(f: seq<Field>) {
    forall i, j :: 0 <= i < j < |f| ==> Less(f[i].key, f[j].key)
  }

  // ---- Reading and updating an object ----

  function Lookup(f: seq<Field>, key: string): Option<Json> {
    if f == [] then None
    else if f[0].key == key then Some(f[0].value)
    else Lookup(f[1..], key)
  }

  /** m[key] = value */
  function Put(f: seq<Field>, key: string, value: Json): seq<Field> {
    if f == [] || Less(key, f[0].key) then [Field(key, value)] + f
    else if f[0].key == key then [Field(key, value)] + f[1..]
    else [f[0]] + Put(f[1..], key, value)
  }

  /** delete(m, key) */
  function Remove(f: seq<Field>, key: string): seq<Field> {
    if f == [] then [] else if f[0].key == key then f[1..] else [f[0]] + Remove(f[1..], key)
  }

  lemma {:induction false} NotBelowFirst(f: seq<Field>, key: string)
    requires Sorted(f) && (f == [] || Less(key, f[0].key))
    ensures Lookup(f, key) == None
  {
    if f != [] {
      LessIsOrder(key, key, key);
      if |f| > 1 {
        assert Less(f[0].key, f[1].key);
        LessIsOrder(key, f[0].key, f[1].key);
      }
      NotBelowFirst(f[1..], key);
    }
  }

  /** A key reads as a value exactly when the object has that field. */
  lemma {:induction false} LookupIff(f: seq<Field>, key: string, value: Json)
    requires Sorted(f)
    ensures Lookup(f, key) == Some(value) <==> Field(key, value) in f
  {
    if f != [] {
      LookupIff(f[1..], key, value);
      LessIsOrder(key, key, key);
      if Field(key, value) in f[1..] {
        var i :| 1 <= i < |f| && f[i] == Field(key, value);
        assert Less(f[0].key, f[i].key);
      }
    }
  }

  lemma {:induction false} PutKeys(f: seq<Field>, key: string, value: Json)
    ensures forall x <- Put(f, key, value) :: x in f || x == Field(key, value)
  {
    if f != [] { PutKeys(f[1..], key, value); }
  }

  lemma {:induction false} PutSorted(f: seq<Field>, key: string, value: Json)
    requires Sorted(f)
    ensures Sorted(Put(f, key, value))
  {
    if f != [] {
      var g := Put(f, key, value);
      if Less(key, f[0].key) {
        forall j | 1 <= j < |g| ensures Less(key, g[j].key) {
          assert g[j] == f[j - 1];
          LessIsOrder(key, f[0].key, f[j - 1].key);
        }
      } else if f[0].key != key {
        PutSorted(f[1..], key, value);
        PutKeys(f[1..], key, value);
        LessIsOrder(key, f[0].key, key);
        forall j | 1 <= j < |g| ensures Less(f[0].key, g[j].key) {
          assert g[j] in Put(f[1..], key, value);
        }
      }
    }
  }

  /** A map update changes one key and nothing else. */
  lemma {:induction false} LookupPut(f: seq<Field>, key: string, value: Json, other: string)
    requires Sorted(f)
    ensures Lookup(Put(f, key, value), other) == if other == key then Some(value) else Lookup(f, other)
  {
    if f != [] && f[0].key != key && !Less(key, f[0].key) {
      LookupPut(f[1..], key, value, other);
    }
  }

  /** The later of two updates wins, and an update with the present value changes nothing. */
  lemma {:induction false} PutPut(f: seq<Field>, key: string, v: Json, w: Json)
    requires Sorted(f)
    ensures Put(Put(f, key, v), key, w) == Put(f, key, w)
    ensures Lookup(f, key).Some? ==> Put(f, key, Lookup(f, key).value) == f
  {
    LessIsOrder(key, key, key);
    if f != [] {
      if Less(key, f[0].key) {
        NotBelowFirst(f, key);
      } else if f[0].key == key {
        assert f == [f[0]] + f[1..];
      } else {
        PutPut(f[1..], key, v, w);
        var g := Put(f, key, v);
        assert g[0] == f[0] && g[1..] == Put(f[1..], key, v);
      }
    }
  }

  /** Deleting a key that an update introduced restores the object. */
  lemma {:induction false} RemovePut(f: seq<Field>, key: string, value: Json)
    requires Sorted(f) && Lookup(f, key).None?
    ensures Remove(Put(f, key, value), key) == f
  {
    if f != [] && !Less(key, f[0].key) {
      RemovePut(f[1..], key, value);
      var g := Put(f, key, value);
      assert g[0] == f[0] && g[1..] == Put(f[1..], key, value);
    }
  }

  // ---- Printing ----

  function HexDigit(d: nat): char
    requires d < 16
  {
    if d < 10 then '0' + d as char else 'a' + (d - 10) as char
  }

  /** \u00xy and the two line separators; the characters <, > and & are escaped for HTML. */
  function EscapeChar(c: char): string {
    if c == '\"' then "\\\""
    else if c == '\\' then "\\\\"
    else if c == 8 as char then "\\b"
    else if c == 12 as char then "\\f"
    else if c == '\n' then "\\n"
    else if c == '\r' then "\\r"
    else if c == '\t' then "\\t"
    else if c < ' ' || c == '<' || c == '>' || c == '&'
      then "\\u00" + [HexDigit(c as int / 16), HexDigit(c as int % 16)]
    else if c == '\U{2028}' then "\\u2028"
    else if c == '\U{2029}' then "\\u2029"
    else [c]
  }

  function Escape(s: string): string {
    if s == "" then "" else EscapeChar(s[0]) + Escape(s[1..])
  }

  function Quote(s: string): string { "\"" + Escape(s) + "\"" }

  function Print(v: Json): string
    decreases v, 0
  {
    match v
    case Null => "null"
    case Bool(b) => if b then "true" else "false"
    case Number(text) => text
    case String(s) => Quote(s)
    case Array(items) => "[" + PrintItems(items) + "]"
    case Object(fields) => "{" + PrintFields(fields) + "}"
  }

  function PrintItems(items: seq<Json>): string {
    if items == [] then ""
    else Print(items[0]) + (if |items| > 1 then "," else "") + PrintItems(items[1..])
  }

  function PrintFields(fields: seq<Field>): string {
    if fields == [] then ""
    else
      Quote(fields[0].key) + ":" + Print(fields[0].value)
      + (if |fields| > 1 then "," else "") + PrintFields(fields[1..])
  }

  // ---- Well-formed values ----

  predicate IsDigit(c: char) { '0' <= c <= '9' }

  predicate IsNumberChar(c: char) {
    IsDigit(c) || c == '-' || c == '+' || c == '.' || c == 'e' || c == 'E'
  }

  /** Length of the run of digits that starts the text. */
  function DigitRun(s: string): (n: nat)
    ensures n <= |s|
    ensures forall k :: 0 <= k < n ==> IsDigit(s[k])
    ensures n < |s| ==> !IsDigit(s[n])
  {
    if s != "" && IsDigit(s[0]) then 1 + DigitRun(s[1..]) else 0
  }

  /** The grammar of section 6 of RFC 8259: sign, whole part without leading zero, fraction,
      exponent. */
  predicate IsNumber(t: string) {
    var u := TrimPrefix(t, "-");
    var n := DigitRun(u);
    n > 0 && (u[0] == '0' ==> n == 1) && IsFraction(u[n..])
  }

  predicate IsFraction(u: string) {
    if u == "" || u[0] != '.' then IsExponent(u)
    else
      var n := DigitRun(u[1..]);
      n > 0 && IsExponent(u[1 + n..])
  }

  predicate IsExponent(u: string) {
    u == "" || ((u[0] == 'e' || u[0] == 'E') &&
      AllDigits(if |u| > 1 && (u[1] == '+' || u[1] == '-') then u[2..] else u[1..]))
  }

  predicate AllDigits(s: string) { s != "" && DigitRun(s) == |s| }

  lemma NumberChars(t: string)
    requires IsNumber(t)
    ensures t != "" && forall c <- t :: IsNumberChar(c)
  {
    var u := TrimPrefix(t, "-");
    var n := DigitRun(u);
    FractionChars(u[n..]);
    forall i | 0 <= i < |u| ensures IsNumberChar(u[i]) {
      if i >= n { assert u[i] == u[n..][i - n]; }
    }
    assert t == u || t == "-" + u;
  }

  lemma FractionChars(u: string)
    requires IsFraction(u)
    ensures forall c <- u :: IsNumberChar(c)
  {
    if u == "" || u[0] != '.' {
      ExponentChars(u);
    } else {
      var n := DigitRun(u[1..]);
      ExponentChars(u[1 + n..]);
      forall i | 0 <= i < |u| ensures IsNumberChar(u[i]) {
        if 1 <= i <= n {
          assert u[i] == u[1..][i - 1];
        } else if i > n {
          assert u[i] == u[1 + n..][i - 1 - n];
        }
      }
    }
  }

  lemma ExponentChars(u: string)
    requires IsExponent(u)
    ensures forall c <- u :: IsNumberChar(c)
  {
    if u != "" {
      var from := if |u| > 1 && (u[1] == '+' || u[1] == '-') then 2 else 1;
      forall i | from <= i < |u| ensures IsNumberChar(u[i]) {
        assert u[i] == u[from..][i - from];
      }
    }
  }

  /** Numbers follow the grammar, keys are in order, and arrays and objects nest to at most the
      given depth. */
  predicate WellFormed(v: Json, depth: nat)
    decreases v, 0
  {
    match v
    case Number(text) => IsNumber(text)
    case Array(items) => depth > 0 && forall x <- items :: WellFormed(x, depth - 1)
    case Object(fields) => depth > 0 && WellFormedFields(fields, depth - 1)
    case _ => true
  }

  predicate WellFormedFields(fields: seq<Field>, depth: nat) {
    Sorted(fields) && forall x <- fields :: WellFormed(x.value, depth)
  }

  /** No control character, line separator or character that HTML treats specially. */
  predicate Tame(s: string) {
    forall c <- s :: c >= ' ' && c != '<' && c != '>' && c != '&' && c != '\U{2028}' && c != '\U{2029}'
  }

  lemma EscapeTame(s: string)
    ensures Tame(Escape(s))
  {
    if s != "" {
      EscapeTame(s[1..]);
      assert Tame(EscapeChar(s[0]));
    }
  }

  /** Printing never emits a raw line break or any other untame character, whatever strings
      the value holds. */
  lemma {:induction false} PrintTame(v: Json, depth: nat)
    requires WellFormed(v, depth)
    ensures Tame(Print(v))
    decreases v, 0
  {
    hide IsNumber, Escape;
    match v {
      case Null =>
      case Bool(b) =>
      case Number(text) => NumberChars(text);
      case String(s) => EscapeTame(s);
      case Array(items) => PrintItemsTame(items, depth - 1);
      case Object(fields) => PrintFieldsTame(fields, depth - 1);
    }
  }

  lemma {:induction false} PrintItemsTame(items: seq<Json>, depth: nat)
    requires forall x <- items :: WellFormed(x, depth)
    ensures Tame(PrintItems(items))
    decreases items
  {
    if items != [] {
      PrintTame(items[0], depth);
      PrintItemsTame(items[1..], depth);
    }
  }

  lemma {:induction false} PrintFieldsTame(fields: seq<Field>, depth: nat)
    requires forall x <- fields :: WellFormed(x.value, depth)
    ensures Tame(PrintFields(fields))
    decreases fields
  {
    hide WellFormed, Escape, IsNumber, Print;
    if fields != [] {
      EscapeTame(fields[0].key);
      PrintTame(fields[0].value, depth);
      PrintFieldsTame(fields[1..], depth);
    }
  }

  // ---- Reading a printed string back (section 7 of RFC 8259) ----

  function HexValue(c: char): Option<nat> {
    if '0' <= c <= '9' then Some((c - '0') as int)
    else if 'a' <= c <= 'f' then Some((c - 'a') as int + 10)
    else if 'A' <= c <= 'F' then Some((c - 'A') as int + 10)
    else None
  }

  /** The character that a \uXXXX escape stands for; surrogate halves are not modelled. */
  function HexChar(h: string): Option<char>
    requires |h| == 4
  {
    var a, b, c, d := HexValue(h[0]), HexValue(h[1]), HexValue(h[2]), HexValue(h[3]);
    if a.None? || b.None? || c.None? || d.None? then None
    else
      var n := a.value * 4096 + b.value * 256 + c.value * 16 + d.value;
      if 0xD800 <= n < 0xE000 || n >= 0x1_0000 then None else Some(n as char)
  }

  function SimpleEscape(c: char): Option<char> {
    if c == '\"' || c == '\\' || c == '/' then Some(c)
    else if c == 'b' then Some(8 as char)
    else if c == 'f' then Some(12 as char)
    else if c == 'n' then Some('\n')
    else if c == 'r' then Some('\r')
    else if c == 't' then Some('\t')
    else None
  }

  /** The string that stands between two quotation marks. */
  function Unescape(s: string): Option<string> {
    if s == "" then Some("")
    else if s[0] == '\"' || s[0] < ' ' then None
    else if s[0] != '\\' then Prepend(s[0], Unescape(s[1..]))
    else if |s| >= 6 && s[1] == 'u' then
      var c := HexChar(s[2..6]);
      if c.None? then None else Prepend(c.value, Unescape(s[6..]))
    else if |s| >= 2 then
      var c := SimpleEscape(s[1]);
      if c.None? then None else Prepend(c.value, Unescape(s[2..]))
    else None
  }

  function Prepend(c: char, rest: Option<string>): Option<string> {
    if rest.None? then None else Some([c] + rest.value)
  }

  lemma UnescapeOne(c: char, rest: string)
    ensures Unescape(EscapeChar(c) + rest) == Prepend(c, Unescape(rest))
  {
    var e := EscapeChar(c);
    var s := e + rest;
    if |e| == 6 {
      assert s[2..6] == e[2..6] && s[6..] == rest;
      HexCharOfEscape(c);
    } else if |e| == 2 {
      assert s[0] == '\\' && s[1] == e[1] && s[2..] == rest;
    } else {
      assert s[0] == c && s[1..] == rest;
    }
  }

  lemma HexCharOfEscape(c: char)
    requires |EscapeChar(c)| == 6
    ensures EscapeChar(c)[0] == '\\' && EscapeChar(c)[1] == 'u' && HexChar(EscapeChar(c)[2..6]) == Some(c)
  {
    var h := EscapeChar(c)[2..6];
    if c < ' ' || c == '<' || c == '>' || c == '&' {
      assert h == ['0', '0', HexDigit(c as int / 16), HexDigit(c as int % 16)];
      assert HexValue(h[2]) == Some(c as int / 16) && HexValue(h[3]) == Some(c as int % 16);
    } else {
      assert c == '\U{2028}' || c == '\U{2029}';
      assert h == ['2', '0', '2', if c == '\U{2028}' then '8' else '9'];
    }
  }

  /** Every string survives printing. */
  lemma {:induction false} StringRoundTrip(s: string)
    ensures Unescape(Escape(s)) == Some(s)
  {
    if s != "" {
      StringRoundTrip(s[1..]);
      UnescapeOne(s[0], Escape(s[1..]));
      assert s == [s[0]] + s[1..];
    }
  }

  // ---- Replacing the texts of numbers ----

  /** The value with every number text replaced. */
  function Canon(v: Json, canon: string -> string): Json
    decreases v, 0
  {
    match v
    case Number(text) => Number(canon(text))
    case Array(items) => Array(CanonItems(items, canon))
    case Object(fields) => Object(CanonFields(fields, canon))
    case _ => v
  }

  function CanonItems(items: seq<Json>, canon: string -> string): (r: seq<Json>)
    ensures |r| == |items| && forall i :: 0 <= i < |r| ==> r[i] == Canon(items[i], canon)
    decreases items
  {
    if items == [] then [] else [Canon(items[0], canon)] + CanonItems(items[1..], canon)
  }

  function CanonFields(fields: seq<Field>, canon: string -> string): (r: seq<Field>)
    ensures |r| == |fields|
    ensures forall i :: 0 <= i < |r| ==> r[i] == Field(fields[i].key, Canon(fields[i].value, canon))
    decreases fields
  {
    if fields == [] then []
    else [Field(fields[0].key, Canon(fields[0].value, canon))] + CanonFields(fields[1..], canon)
  }

  /** No number changes under the replacement. */
  predicate AllCanonical(v: Json, canon: string -> string)
    decreases v, 0
  {
    match v
    case Number(text) => canon(text) == text
    case Array(items) => forall x <- items :: AllCanonical(x, canon)
    case Object(fields) => AllCanonicalFields(fields, canon)
    case _ => true
  }

  predicate AllCanonicalFields(fields: seq<Field>, canon: string -> string) {
    forall x <- fields :: AllCanonical(x.value, canon)
  }

  lemma {:induction false} CanonUnchangedIff(v: Json, canon: string -> string)
    ensures Canon(v, canon) == v <==> AllCanonical(v, canon)
    decreases v, 0
  {
    match v {
      case Array(items) =>
        forall x <- items ensures Canon(x, canon) == x <==> AllCanonical(x, canon) { CanonUnchangedIff(x, canon); }
      case Object(fields) =>
        CanonFieldsUnchangedIff(fields, canon);
      case _ =>
    }
  }

  lemma {:induction false} CanonFieldsUnchangedIff(fields: seq<Field>, canon: string -> string)
    ensures CanonFields(fields, canon) == fields <==> AllCanonicalFields(fields, canon)
  {
    forall x <- fields ensures Canon(x.value, canon) == x.value <==> AllCanonical(x.value, canon) {
      CanonUnchangedIff(x.value, canon);
    }
    if CanonFields(fields, canon) == fields {
      forall x <- fields ensures AllCanonical(x.value, canon) {
        var i :| 0 <= i < |fields| && fields[i] == x;
        assert CanonFields(fields, canon)[i] == fields[i];
      }
    } else if AllCanonicalFields(fields, canon) {
      forall i | 0 <= i < |fields| ensures CanonFields(fields, canon)[i] == fields[i] {
        assert fields[i] in fields;
      }
    }
  }

  /** Replacement keeps a value well formed, if it gives numbers for numbers. */
  lemma {:induction false} CanonWellFormed(v: Json, canon: string -> string, depth: nat)
    requires WellFormed(v, depth) && forall t :: IsNumber(t) ==> IsNumber(canon(t))
    ensures WellFormed(Canon(v, canon), depth)
    decreases v, 0
  {
    match v {
      case Array(items) =>
        forall x <- items ensures WellFormed(Canon(x, canon), depth - 1) { CanonWellFormed(x, canon, depth - 1); }
      case Object(fields) =>
        CanonFieldsWellFormed(fields, canon, depth - 1);
      case _ =>
    }
  }

  lemma {:induction false} CanonFieldsWellFormed(fields: seq<Field>, canon: string -> string, depth: nat)
    requires WellFormedFields(fields, depth) && forall t :: IsNumber(t) ==> IsNumber(canon(t))
    ensures WellFormedFields(CanonFields(fields, canon), depth)
  {
    forall x <- fields ensures WellFormed(Canon(x.value, canon), depth) {
      CanonWellFormed(x.value, canon, depth);
    }
  }

  /** Replacement commutes with reading and updating an object. */
  lemma {:induction false} CanonLookup(f: seq<Field>, key: string, canon: string -> string)
    ensures Lookup(CanonFields(f, canon), key)
            == if Lookup(f, key).None? then None else Some(Canon(Lookup(f, key).value, canon))
  {
    if f != [] { CanonLookup(f[1..], key, canon); }
  }

  lemma {:induction false} CanonPut(f: seq<Field>, key: string, value: Json, canon: string -> string)
    ensures CanonFields(Put(f, key, value), canon) == Put(CanonFields(f, canon), key, Canon(value, canon))
  {
    if f != [] && !Less(key, f[0].key) {
      CanonPut(f[1..], key, value, canon);
    }
  }

  /** The numbers of an updated object are those of the new value and of the other fields. */
  lemma {:induction false} PutCanonical(f: seq<Field>, key: string, value: Json, canon: string -> string)
    requires Sorted(f)
    ensures AllCanonicalFields(Put(f, key, value), canon)
            <==> AllCanonical(value, canon) && AllCanonicalFields(Remove(f, key), canon)
  {
    PutParts(f, key, value);
  }

  lemma {:induction false} PutParts(f: seq<Field>, key: string, value: Json)
    requires Sorted(f)
    ensures forall x :: x in Put(f, key, value) <==> x == Field(key, value) || x in Remove(f, key)
  {
    if f != [] {
      if Less(key, f[0].key) {
        RemoveAbsent(f, key);
      } else if f[0].key != key {
        PutParts(f[1..], key, value);
      }
    }
  }

  lemma {:induction false} RemoveAbsent(f: seq<Field>, key: string)
    requires Sorted(f) && (f == [] || Less(key, f[0].key))
    ensures Remove(f, key) == f
  {
    if f != [] {
      LessIsOrder(key, key, key);
      if |f| > 1 { LessIsOrder(key, f[0].key, f[1].key); }
      RemoveAbsent(f[1..], key);
    }
  }
}
