/** A reader for printed JSON: values without white space. It shows that printing loses nothing,
    so that what the stream padder assumes of the JSON library can be met. */
module JsonReader {
  import opened Text
  import opened Json

  type Read<T> = Option<(T, string)>

  function Starts(s: string, c: char): bool { s != "" && s[0] == c }

  /** Length of the run of number characters that starts the text. */
  function NumberRun(s: string): (n: nat)
    ensures n <= |s|
  {
    if s != "" && IsNumberChar(s[0]) then 1 + NumberRun(s[1..]) else 0
  }

  /** Position of the closing quotation mark of a string whose opening one is gone. */
  function StringEnd(s: string): (n: nat)
    ensures n <= |s|
  {
    if s == "" || s[0] == '\"' then 0
    else if s[0] == '\\' && |s| >= 2 then 2 + StringEnd(s[2..])
    else 1 + StringEnd(s[1..])
  }

  function ReadString(s: string): (r: Read<string>)
    ensures r.Some? ==> |r.value.1| < |s|
  {
    var n := StringEnd(s);
    if n == |s| then None
    else
      var text := Unescape(s[..n]);
      if text.None? then None else Some((text.value, s[n + 1..]))
  }

  function ReadWord(s: string, word: string, v: Json): (r: Read<Json>)
    requires word != ""
    ensures r.Some? ==> |r.value.1| < |s|
  {
    if HasPrefix(s, word) then Some((v, s[|word|..])) else None
  }

  function Wrapped<T>(r: Read<T>, wrap: T -> Json): Read<Json> {
    if r.None? then None else Some((wrap(r.value.0), r.value.1))
  }

  function ReadValue(s: string): (r: Read<Json>)
    ensures r.Some? ==> |r.value.1| < |s|
    decreases |s|, 0
  {
    if s == "" then None
    else if s[0] == 'n' then ReadWord(s, "null", Null)
    else if s[0] == 't' then ReadWord(s, "true", Bool(true))
    else if s[0] == 'f' then ReadWord(s, "false", Bool(false))
    else if s[0] == '\"' then Wrapped(ReadString(s[1..]), x => String(x))
    else if s[0] == '[' then Wrapped(ReadItems(s[1..]), x => Array(x))
    else if s[0] == '{' then Wrapped(ReadFields(s[1..]), x => Object(x))
    else
      var n := NumberRun(s);
      if n > 0 && IsNumber(s[..n]) then Some((Number(s[..n]), s[n..])) else None
  }

  /** An element is followed by a comma or by the end of its list. */
  predicate Separates(s: string, close: char) { Starts(s, ',') || Starts(s, close) }

  /** Skip the comma that separates two elements. */
  function AfterComma(s: string): (r: string)
    ensures |r| <= |s|
  {
    if Starts(s, ',') then s[1..] else s
  }

  function ReadItems(s: string): (r: Read<seq<Json>>)
    ensures r.Some? ==> |r.value.1| < |s|
    decreases |s|, 1
  {
    if Starts(s, ']') then Some(([], s[1..]))
    else
      var v := ReadValue(s);
      if v.None? || !Separates(v.value.1, ']') then None else
      var more := ReadItems(AfterComma(v.value.1));
      if more.None? then None else Some(([v.value.0] + more.value.0, more.value.1))
  }

  function ReadFields(s: string): (r: Read<seq<Field>>)
    ensures r.Some? ==> |r.value.1| < |s|
    decreases |s|, 1
  {
    if Starts(s, '}') then Some(([], s[1..]))
    else if !Starts(s, '\"') then None
    else
      var key := ReadString(s[1..]);
      if key.None? || !Starts(key.value.1, ':') then None else
      var v := ReadValue(key.value.1[1..]);
      if v.None? || !Separates(v.value.1, '}') then None else
      var more := ReadFields(AfterComma(v.value.1));
      if more.None? then None else Some(([Field(key.value.0, v.value.0)] + more.value.0, more.value.1))
  }

  // ---- Reading back a string ----

  lemma {:induction false} EscapeEnds(s: string, rest: string)
    ensures StringEnd(Escape(s) + ("\"" + rest)) == |Escape(s)|
  {
    if s == "" {
      assert Escape(s) + ("\"" + rest) == "\"" + rest;
    } else {
      EscapeEnds(s[1..], rest);
      var tail := Escape(s[1..]) + ("\"" + rest);
      assert Escape(s) + ("\"" + rest) == EscapeChar(s[0]) + tail;
      SkipEscape(s[0], tail);
    }
  }

  lemma SkipEscape(c: char, tail: string)
    ensures StringEnd(EscapeChar(c) + tail) == |EscapeChar(c)| + StringEnd(tail)
  {
    var e := EscapeChar(c);
    var s := e + tail;
    if |e| == 1 {
      assert s[1..] == tail;
    } else if |e| == 2 {
      assert s[0] == '\\' && s[2..] == tail;
    } else {
      HexCharOfEscape(c);
      var s2 := e[2..] + tail;
      assert s[2..] == s2;
      assert forall k <- e[2..] :: k != '\"' && k != '\\' by { HexText(c); }
      SkipPlain(e[2..], tail);
    }
  }

  lemma HexText(c: char)
    requires |EscapeChar(c)| == 6
    ensures forall k <- EscapeChar(c)[2..] :: k != '\"' && k != '\\'
  {
  }

  lemma {:induction false} SkipPlain(p: string, tail: string)
    requires forall k <- p :: k != '\"' && k != '\\'
    ensures StringEnd(p + tail) == |p| + StringEnd(tail)
  {
    if p == "" {
      assert p + tail == tail;
    } else {
      assert forall k <- p[1..] :: k in p;
      SkipPlain(p[1..], tail);
      assert (p + tail)[1..] == p[1..] + tail;
      assert p[0] in p;
    }
  }

  lemma StringReadsBack(s: string, rest: string)
    ensures ReadString(Escape(s) + ("\"" + rest)) == Some((s, rest))
  {
    var e := Escape(s);
    var text := e + ("\"" + rest);
    EscapeEnds(s, rest);
    StringRoundTrip(s);
    assert text[..|e|] == e && text[|e| + 1..] == rest;
  }

  // ---- Reading back a value ----

  /** A text that cannot continue a number. */
  predicate Delimits(rest: string) { rest == "" || !IsNumberChar(rest[0]) }

  lemma {:induction false} NumberReadsBack(text: string, rest: string)
    requires forall c <- text :: IsNumberChar(c)
    requires Delimits(rest)
    ensures NumberRun(text + rest) == |text|
  {
    if text == "" {
      assert text + rest == rest;
    } else {
      NumberReadsBack(text[1..], rest);
      assert (text + rest)[1..] == text[1..] + rest;
      assert text[0] in text;
    }
  }

  /** Printed values start with a character that tells their kind. */
  lemma FirstChar(v: Json, depth: nat)
    requires WellFormed(v, depth)
    ensures Print(v) != "" && Print(v)[0] != ']' && Print(v)[0] != '}'
  {
    if v.Number? {
      NumberChars(v.text);
      assert v.text[0] in v.text;
    }
  }

  lemma WordReadsBack(word: string, v: Json, rest: string)
    requires word != ""
    ensures ReadWord(word + rest, word, v) == Some((v, rest))
  {
    assert (word + rest)[..|word|] == word && (word + rest)[|word|..] == rest;
  }

  lemma NumberValueReadsBack(n: string, rest: string)
    requires IsNumber(n) && Delimits(rest)
    ensures ReadValue(n + rest) == Some((Number(n), rest))
  {
    hide ReadItems, ReadFields, ReadString, ReadWord, NumberRun, IsNumber;
    var text := n + rest;
    NumberChars(n);
    NumberReadsBack(n, rest);
    assert n[0] in n && text[0] == n[0];
    assert text[..|n|] == n && text[|n|..] == rest;
  }

  /** A value that starts with a bracket, brace or quotation mark is read by what reads its inside. */
  lemma Dispatch(c: char, inside: string)
    requires c == '\"' || c == '[' || c == '{'
    ensures ReadValue([c] + inside)
            == if c == '\"' then Wrapped(ReadString(inside), x => String(x))
               else if c == '[' then Wrapped(ReadItems(inside), x => Array(x))
               else Wrapped(ReadFields(inside), x => Object(x))
  {
    hide ReadItems, ReadFields, ReadString, ReadWord, NumberRun, IsNumber;
    assert ([c] + inside)[0] == c && ([c] + inside)[1..] == inside;
  }

  lemma ScalarReadsBack(v: Json, depth: nat, rest: string)
    requires WellFormed(v, depth) && Delimits(rest) && !v.Array? && !v.Object? && !v.String?
    ensures ReadValue(Print(v) + rest) == Some((v, rest))
  {
    hide ReadItems, ReadFields, ReadString, NumberRun, IsNumber;
    if v.Number? {
      NumberValueReadsBack(v.text, rest);
    } else {
      WordReadsBack(Print(v), v, rest);
      assert (Print(v) + rest)[0] == Print(v)[0] == if v.Null? then 'n' else if v.b then 't' else 'f';
    }
  }

  /** What follows an element: a comma, or the end of the list. */
  function Separated(more: bool, tail: string): string { (if more then "," else "") + tail }

  lemma SeparatorSkipped(more: bool, tail: string, close: char)
    requires close == ']' || close == '}'
    requires tail != "" && (more || tail[0] == close)
    ensures var after := Separated(more, tail);
            Delimits(after) && Separates(after, close) && AfterComma(after) == tail
  {
    if more { assert Separated(more, tail)[1..] == tail; } else { assert Separated(more, tail) == tail; }
  }

  lemma ReadItemsStep(s: string, v: Json, mid: string, more: seq<Json>, rest: string)
    requires s != "" && s[0] != ']' && ReadValue(s) == Some((v, mid)) && Separates(mid, ']')
    requires ReadItems(AfterComma(mid)) == Some((more, rest))
    ensures ReadItems(s) == Some(([v] + more, rest))
  {
    hide ReadValue, AfterComma;
  }

  lemma ReadFieldsStep(s: string, key: string, value: string, v: Json, mid: string, more: seq<Field>, rest: string)
    requires ReadString(s) == Some((key, ":" + value)) && ReadValue(value) == Some((v, mid)) && Separates(mid, '}')
    requires ReadFields(AfterComma(mid)) == Some((more, rest))
    ensures ReadFields("\"" + s) == Some(([Field(key, v)] + more, rest))
  {
    hide ReadValue, ReadString, AfterComma;
    assert ("\"" + s)[0] == '\"' && ("\"" + s)[1..] == s;
    assert (":" + value)[0] == ':' && (":" + value)[1..] == value;
  }

  lemma PrintItemsStep(items: seq<Json>, end: string)
    requires items != []
    ensures PrintItems(items) + end == Print(items[0]) + Separated(|items| > 1, PrintItems(items[1..]) + end)
  {
    hide Print;
  }

  lemma Assoc(a: string, b: string, c: string)
    ensures (a + b) + c == a + (b + c)
  {
  }

  lemma PrintFieldsStep(fields: seq<Field>, end: string)
    requires fields != []
    ensures PrintFields(fields) + end
            == "\"" + (Escape(fields[0].key) + ("\"" + (":"
               + (Print(fields[0].value) + Separated(|fields| > 1, PrintFields(fields[1..]) + end)))))
  {
    var e, p, t := Escape(fields[0].key), Print(fields[0].value), PrintFields(fields[1..]);
    var sep := if |fields| > 1 then "," else "";
    assert PrintFields(fields) == "\"" + e + "\"" + ":" + p + sep + t;
    hide Print, PrintFields, Escape;
    Assoc("\"" + e + "\"" + ":" + p + sep, t, end);
    Assoc("\"" + e + "\"" + ":" + p, sep, t + end);
    Assoc("\"" + e + "\"" + ":", p, sep + (t + end));
    var value := p + (sep + (t + end));
    Assoc("\"" + e + "\"", ":", value);
    Assoc("\"" + e, "\"", ":" + value);
    Assoc("\"", e, "\"" + (":" + value));
  }

  lemma PrintShape(v: Json, rest: string)
    ensures v.String? ==> Print(v) + rest == ['\"'] + (Escape(v.s) + ("\"" + rest))
    ensures v.Array? ==> Print(v) + rest == ['['] + (PrintItems(v.items) + ("]" + rest))
    ensures v.Object? ==> Print(v) + rest == ['{'] + (PrintFields(v.fields) + ("}" + rest))
  {
    hide Escape, PrintItems, PrintFields;
  }

  /** Printing is lossless: a printed value reads back as itself, with whatever follows it. */
  lemma {:induction false} ValueReadsBack(v: Json, depth: nat, rest: string)
    requires WellFormed(v, depth) && Delimits(rest)
    ensures ReadValue(Print(v) + rest) == Some((v, rest))
    decreases v, 1
  {
    PrintShape(v, rest);
    match v {
      case String(s) =>
        StringReadsBack(s, rest);
        hide ReadValue, ReadString, Print;
        Dispatch('\"', Escape(s) + ("\"" + rest));
      case Array(items) =>
        ItemsReadBack(items, depth - 1, rest);
        hide ReadValue, ReadItems, Print;
        Dispatch('[', PrintItems(items) + ("]" + rest));
      case Object(fields) =>
        FieldsReadBack(fields, depth - 1, rest);
        hide ReadValue, ReadFields, Print;
        Dispatch('{', PrintFields(fields) + ("}" + rest));
      case _ =>
        ScalarReadsBack(v, depth, rest);
    }
  }

  lemma {:induction false} ItemsReadBack(items: seq<Json>, depth: nat, rest: string)
    requires forall x <- items :: WellFormed(x, depth)
    ensures ReadItems(PrintItems(items) + ("]" + rest)) == Some((items, rest))
    decreases items, 0
  {
    if items == [] {
      assert PrintItems(items) + ("]" + rest) == "]" + rest && ("]" + rest)[1..] == rest;
    } else {
      hide ReadItems, ReadValue, WellFormed, Print, PrintItems, Separated, AfterComma, Delimits;
      var tail := PrintItems(items[1..]) + ("]" + rest);
      var after := Separated(|items| > 1, tail);
      ListTail(items, rest);
      SeparatorSkipped(|items| > 1, tail, ']');
      FirstChar(items[0], depth);
      ValueReadsBack(items[0], depth, after);
      ItemsReadBack(items[1..], depth, rest);
      PrintItemsStep(items, "]" + rest);
      assert (Print(items[0]) + after)[0] == Print(items[0])[0];
      ReadItemsStep(Print(items[0]) + after, items[0], after, items[1..], rest);
      assert [items[0]] + items[1..] == items;
    }
  }

  lemma ListTail(items: seq<Json>, rest: string)
    requires items != []
    ensures var tail := PrintItems(items[1..]) + ("]" + rest); tail != "" && (|items| > 1 || tail[0] == ']')
  {
    if |items| == 1 { assert PrintItems(items[1..]) + ("]" + rest) == "]" + rest; }
  }

  lemma ObjectTail(fields: seq<Field>, rest: string)
    requires fields != []
    ensures var tail := PrintFields(fields[1..]) + ("}" + rest); tail != "" && (|fields| > 1 || tail[0] == '}')
  {
    if |fields| == 1 { assert PrintFields(fields[1..]) + ("}" + rest) == "}" + rest; }
  }

  lemma NoFieldsReadBack(rest: string)
    ensures ReadFields(PrintFields([]) + ("}" + rest)) == Some(([], rest))
  {
    assert PrintFields([]) + ("}" + rest) == "}" + rest && ("}" + rest)[1..] == rest;
  }

  lemma {:induction false} FieldsReadBack(fields: seq<Field>, depth: nat, rest: string)
    requires forall x <- fields :: WellFormed(x.value, depth)
    ensures ReadFields(PrintFields(fields) + ("}" + rest)) == Some((fields, rest))
    decreases fields, 0
  {
    hide *;
    if fields == [] {
      NoFieldsReadBack(rest);
    } else {
      var f := fields[0];
      var tail := PrintFields(fields[1..]) + ("}" + rest);
      var after := Separated(|fields| > 1, tail);
      var value := Print(f.value) + after;
      ObjectTail(fields, rest);
      SeparatorSkipped(|fields| > 1, tail, '}');
      StringReadsBack(f.key, ":" + value);
      ValueReadsBack(f.value, depth, after);
      FieldsReadBack(fields[1..], depth, rest);
      PrintFieldsStep(fields, "}" + rest);
      ReadFieldsStep(Escape(f.key) + ("\"" + (":" + value)), f.key, value, f.value, after, fields[1..], rest);
      assert [Field(f.key, f.value)] + fields[1..] == fields;
    }
  }

  /** The fields of a printed object, whose values nest to at most the given depth. */
  function ReadObject(s: string, depth: nat): (r: Option<seq<Field>>)
    ensures r.Some? ==> WellFormedFields(r.value, depth)
  {
    var r := ReadValue(s);
    if r.Some? && r.value.1 == "" && r.value.0.Object? && WellFormedFields(r.value.0.fields, depth)
    then Some(r.value.0.fields) else None
  }

  lemma ObjectReadsBack(fields: seq<Field>, depth: nat)
    requires WellFormedFields(fields, depth)
    ensures ReadObject(Print(Object(fields)), depth) == Some(fields)
  {
    hide ReadValue, Print, WellFormedFields;
    assert WellFormed(Object(fields), depth + 1);
    ValueReadsBack(Object(fields), depth + 1, "");
    assert Print(Object(fields)) + "" == Print(Object(fields));
  }
}
