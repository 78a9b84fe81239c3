/** Server-sent events, section 9.2.6 of the WHATWG HTML standard: what a client sees in a
    stream. Reconnection times are not events and are not modelled. */
module EventStream {
  import opened Text

  /** An event; data is kept as the list of lines that the client joins with line feeds. */
  datatype Event = Event(kind: string, data: seq<string>, lastId: string)

  /** The buffers between two dispatches. */
  datatype Buffers = Buffers(data: seq<string>, kind: string, lastId: string)

  const EMPTY := Buffers([], "", "")

  // ---- Lines ----

  predicate IsBreak(c: char) { c == '\r' || c == '\n' }

  /** Length of the line that starts the text, or of the whole text if no line ends in it. */
  function LineLength(s: string): (n: nat)
    ensures n <= |s|
    ensures forall k :: 0 <= k < n ==> !IsBreak(s[k])
    ensures n < |s| ==> IsBreak(s[n])
  {
    if s == "" || IsBreak(s[0]) then 0 else 1 + LineLength(s[1..])
  }

  function BreakLength(s: string, n: nat): nat
    requires n < |s|
  {
    if s[n] == '\r' && n + 1 < |s| && s[n + 1] == '\n' then 2 else 1
  }

  /** The ended lines of a stream: CRLF, LF and CR each end one. */
  function Lines(s: string): seq<string>
    decreases |s|
  {
    var n := LineLength(s);
    if n == |s| then [] else [s[..n]] + Lines(s[n + BreakLength(s, n)..])
  }

  /** One byte order mark at the very start is dropped. */
  function DropMark(lines: seq<string>): seq<string> {
    if lines != [] && lines[0] != "" && lines[0][0] == '\U{FEFF}' then [lines[0][1..]] + lines[1..] else lines
  }

  // ---- Interpretation ----

  function FieldName(line: string): string { line[..IndexOf(line, ':')] }

  function FieldValue(line: string): string {
    var i := IndexOf(line, ':');
    if i == |line| then ""
    else if i + 1 < |line| && line[i + 1] == ' ' then line[i + 2..]
    else line[i + 1..]
  }

  function Process(b: Buffers, line: string): Buffers {
    var name, value := FieldName(line), FieldValue(line);
    if name == "event" then b.(kind := value)
    else if name == "data" then b.(data := b.data + [value])
    else if name == "id" && '\0' !in value then b.(lastId := value)
    else b
  }

  function Dispatched(b: Buffers): seq<Event> {
    if b.data == [] then [] else [Event(if b.kind == "" then "message" else b.kind, b.data, b.lastId)]
  }

  /** An empty line dispatches, a line with an empty name is a comment, and whatever is
      pending at the end is discarded. */
  function Interpret(b: Buffers, lines: seq<string>): seq<Event>
    decreases |lines|
  {
    if lines == [] then []
    else if lines[0] == "" then Dispatched(b) + Interpret(Buffers([], "", b.lastId), lines[1..])
    else Interpret(Process(b, lines[0]), lines[1..])
  }

  function Events(stream: string): seq<Event> {
    Interpret(EMPTY, DropMark(Lines(stream)))
  }

  // ---- Reading back what was written line by line ----

  function Joined(lines: seq<string>): string {
    if lines == [] then "" else lines[0] + "\n" + Joined(lines[1..])
  }

  /** The pieces of a text between its CRs: one more than it has CRs. */
  function Pieces(x: string): (r: seq<string>)
    ensures |r| >= 1
    ensures |r| == 1 <==> '\r' !in x
    decreases |x|
  {
    var i := IndexOf(x, '\r');
    if i == |x| then [x] else [x[..i]] + Pieces(x[i + 1..])
  }

  /** The text after the last CR. */
  function LastPiece(x: string): (r: string)
    ensures r == "" <==> x == "" || EndsInCR(x)
    decreases |x|
  {
    var i := IndexOf(x, '\r');
    if i == |x| then x else LastPiece(x[i + 1..])
  }

  lemma PiecesAt(x: string, i: nat)
    requires i < |x| && x[i] == '\r' && '\r' !in x[..i]
    ensures Pieces(x) == [x[..i]] + Pieces(x[i + 1..])
    ensures LastPiece(x) == LastPiece(x[i + 1..])
  {
    assert forall k :: 0 <= k < i ==> x[k] == x[..i][k];
    assert IndexOf(x, '\r') == i;
  }

  lemma LinesAt(s: string, i: nat)
    requires i < |s| && IsBreak(s[i]) && forall c <- s[..i] :: !IsBreak(c)
    ensures Lines(s) == [s[..i]] + Lines(s[i + BreakLength(s, i)..])
  {
    assert forall k :: 0 <= k < i ==> s[k] == s[..i][k];
    assert LineLength(s) == i;
  }

  lemma NoLines(s: string)
    requires OneLine(s)
    ensures Lines(s) == []
  {
    assert LineLength(s) == |s|;
  }

  lemma DropLast(x: string)
    requires EndsInCR(x)
    ensures DropCR(x) == x[..|x| - 1]
  {
  }

  lemma OnePiece(x: string)
    requires '\r' !in x
    ensures Pieces(x) == [x] && LastPiece(x) == x && DropCR(x) == x
  {
  }

  lemma DropCRLater(x: string, i: nat)
    requires i + 1 < |x|
    ensures i < |DropCR(x)| && DropCR(x)[..i] == x[..i] && DropCR(x)[i] == x[i]
    ensures DropCR(x)[i + 1..] == DropCR(x[i + 1..])
    ensures EndsInCR(x) == EndsInCR(x[i + 1..])
  {
  }

  /** A line that ends in a CR and the line before that CR differ by an empty piece. */
  lemma {:induction false} LastCRAddsPiece(x: string)
    requires EndsInCR(x)
    ensures Pieces(x) == Pieces(DropCR(x)) + [""]
    decreases |x|
  {
    hide Pieces, LastPiece, DropCR;
    var i := IndexOf(x, '\r');
    var d, after := DropCR(x), x[i + 1..];
    PiecesAt(x, i);
    if i + 1 == |x| {
      DropLast(x);
      OnePiece(d);
      OnePiece(after);
    } else {
      LastCRAddsPiece(after);
      DropCRLater(x, i);
      PiecesAt(d, i);
    }
  }

  /** The client splits a line that ends with LF or CRLF further at the CRs inside it. */
  lemma {:induction false} EndedLine(line: string, rest: string)
    requires '\n' !in line
    ensures Lines(line + "\n" + rest) == Pieces(DropCR(line)) + Lines(rest)
    decreases |line|
  {
    hide Pieces, LastPiece, DropCR, Lines, LineLength;
    var s, i := line + "\n" + rest, IndexOf(line, '\r');
    assert s[..i] == line[..i];
    LinesAt(s, i);
    if i + 1 >= |line| {
      assert s[i + BreakLength(s, i)..] == rest;
      WholePiece(line, i);
    } else {
      var after := line[i + 1..];
      assert s[i + 1] == line[i + 1];
      assert s[i + BreakLength(s, i)..] == after + "\n" + rest;
      EndedLine(after, rest);
      DropCRLater(line, i);
      PiecesAt(DropCR(line), i);
    }
  }

  lemma WholePiece(line: string, i: nat)
    requires i == IndexOf(line, '\r') && i + 1 >= |line|
    ensures Pieces(DropCR(line)) == [line[..i]]
  {
    hide Pieces;
    if i < |line| { DropLast(line); } else { OnePiece(line); }
    assert DropCR(line) == line[..i];
    OnePiece(line[..i]);
  }

  /** In text without a line feed only the CRs end lines. */
  lemma {:induction false} UnendedLine(t: string)
    requires '\n' !in t && t != ""
    ensures Pieces(DropCR(t)) == Lines(t) + (if EndsInCR(t) then [] else [LastPiece(t)])
    decreases |t|
  {
    hide Pieces, LastPiece, DropCR, Lines, LineLength;
    var i := IndexOf(t, '\r');
    if i == |t| {
      NoLines(t);
      WholePiece(t, i);
      OnePiece(t);
    } else {
      LinesAt(t, i);
      PiecesAt(t, i);
      if i + 1 == |t| {
        NoLines(t[i + 1..]);
        WholePiece(t, i);
      } else {
        UnendedLine(t[i + 1..]);
        DropCRLater(t, i);
        PiecesAt(DropCR(t), i);
      }
    }
  }

  function AllPieces(lines: seq<string>): seq<string> {
    if lines == [] then [] else Pieces(lines[0]) + AllPieces(lines[1..])
  }

  /** What a client makes of lines that are written one by one with a line feed after each. */
  function WrittenPieces(lines: seq<string>): seq<string> {
    if lines == [] then [] else Pieces(DropCR(lines[0])) + WrittenPieces(lines[1..])
  }

  lemma {:induction false} LinesOfJoined(lines: seq<string>)
    requires forall l <- lines :: '\n' !in l
    ensures Lines(Joined(lines)) == WrittenPieces(lines)
  {
    if lines != [] {
      LinesOfJoined(lines[1..]);
      EndedLine(lines[0], Joined(lines[1..]));
    }
  }

  /** An ended line that is not empty, at the end of a stream, is never seen. */
  lemma {:induction false} LastLineUnseen(b: Buffers, lines: seq<string>, last: string)
    requires last != ""
    ensures Interpret(b, lines + [last]) == Interpret(b, lines)
    decreases |lines|
  {
    if lines == [] {
      assert ([last])[1..] == [];
    } else {
      assert (lines + [last])[1..] == lines[1..] + [last];
      if lines[0] == "" {
        LastLineUnseen(Buffers([], "", b.lastId), lines[1..], last);
      } else {
        LastLineUnseen(Process(b, lines[0]), lines[1..], last);
      }
    }
  }
}
