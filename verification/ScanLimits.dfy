/** How long a line may be: the scanner's limit of 65536 bytes, with the line's end. */
module ScanLimits {
  import opened Text
  import opened EventStream
  import opened StreamPadder
  import opened StreamEvents

  // ---- Bytes ----

  lemma {:induction false} Utf8Concat(a: string, b: string)
    ensures Utf8Length(a + b) == Utf8Length(a) + Utf8Length(b)
  {
    if a == "" {
      assert a + b == b;
    } else {
      Utf8Concat(a[1..], b);
      assert (a + b)[0] == a[0] && (a + b)[1..] == a[1..] + b;
    }
  }

  /** The length of one character in UTF-8, section 3 of RFC 3629. */
  lemma Utf8OfChar(c: char)
    ensures Utf8Length([c])
            == if c as int <= 0x7F then 1 else if c as int <= 0x7FF then 2 else if c as int <= 0xFFFF then 3 else 4
  {
    assert [c][1..] == "";
  }

  // ---- Lines ----

  /** The text as its ended lines and what follows them. */
  lemma {:induction false} Decompose(body: string) returns (lines: seq<string>, tail: string)
    ensures body == Joined(lines) + tail
    ensures '\n' !in tail && forall l <- lines :: '\n' !in l
    decreases |body|
  {
    var i := IndexOf(body, '\n');
    NotBeforeIndex(body, '\n');
    if i == |body| {
      lines, tail := [], body;
      assert body[..i] == body && "" + body == body;
    } else {
      var more, last := Decompose(body[i + 1..]);
      lines, tail := [body[..i]] + more, last;
      assert lines[1..] == more;
      SplitLine(body, i, Joined(more), last);
    }
  }

  predicate LineFits(line: string) { Utf8Length(line) + 1 <= 65536 }

  function Dropped(lines: seq<string>): seq<string> {
    if lines == [] then [] else [DropCR(lines[0])] + Dropped(lines[1..])
  }

  lemma OneMoreLine(line: string, rest: string)
    requires '\n' !in line
    ensures Fits(line + "\n" + rest) <==> LineFits(line) && Fits(rest)
    ensures LineFits(line) ==> Scan(line + "\n" + rest) == [DropCR(line)] + Scan(rest)
    ensures !LineFits(line) ==> Scan(line + "\n" + rest) == []
  {
    hide Utf8Length, DropCR;
    FirstLineKept(line, rest);
    Utf8Concat(line, "\n");
    Utf8OfChar('\n');
    if LineFits(line) { FirstScanned(line, rest); }
  }

  lemma LastPart(tail: string)
    requires '\n' !in tail
    ensures Fits(tail) <==> tail == "" || LineFits(tail)
    ensures Fits(tail) ==> Scan(tail) == if tail == "" then [] else [DropCR(tail)]
  {
    hide Utf8Length, DropCR;
    assert IndexOf(tail, '\n') == |tail|;
  }

  /** A body is scanned whole if and only if every line, with its end, takes at most 65536 bytes,
      and the text after the last line end less than that. */
  lemma {:induction false} ScannedWholeIff(lines: seq<string>, tail: string)
    requires '\n' !in tail && forall l <- lines :: '\n' !in l
    ensures Fits(Joined(lines) + tail)
            <==> (forall l <- lines :: Utf8Length(l) + 1 <= 65536) && (tail == "" || Utf8Length(tail) + 1 <= 65536)
    ensures Fits(Joined(lines) + tail) ==>
              Scan(Joined(lines) + tail) == Dropped(lines) + (if tail == "" then [] else [DropCR(tail)])
    decreases |lines|
  {
    hide Fits, Scan, Utf8Length, DropCR;
    LastPart(tail);
    if lines == [] {
      assert "" + tail == tail;
    } else {
      var line, rest := lines[0], Joined(lines[1..]) + tail;
      ScannedWholeIff(lines[1..], tail);
      OneMoreLine(line, rest);
      assert Joined(lines) + tail == line + "\n" + rest;
      assert forall l :: l in lines <==> l == line || l in lines[1..];
    }
  }

  /** The first line that is too long ends the scan for good. */
  lemma {:induction false} ScanStopsAt(lines: seq<string>, long: string, rest: string)
    requires '\n' !in long && !LineFits(long) && forall l <- lines :: '\n' !in l && LineFits(l)
    ensures Scan(Joined(lines) + (long + "\n" + rest)) == Dropped(lines)
    decreases |lines|
  {
    hide Fits, Scan, Utf8Length, DropCR, LineFits;
    OneMoreLine(long, rest);
    if lines == [] {
      assert "" + (long + "\n" + rest) == long + "\n" + rest;
    } else {
      ScanStopsAt(lines[1..], long, rest);
      OneMoreLine(lines[0], Joined(lines[1..]) + (long + "\n" + rest));
      assert Joined(lines) + (long + "\n" + rest) == lines[0] + "\n" + (Joined(lines[1..]) + (long + "\n" + rest));
    }
  }
}
