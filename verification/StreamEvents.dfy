/** What the streaming proxy does to the events of a stream: which lines reach the client, and
    when it still sees the same events. */
module StreamEvents {
  import opened Text
  import opened Json
  import opened EventStream
  import opened StreamPadder

  // ---- The lines that are scanned ----

  /** Every line fits the scanner's buffer. */
  predicate Fits(body: string)
    decreases |body|
  {
    body == "" || (TokenLength(body) <= MAX_TOKEN &&
      var i := IndexOf(body, '\n');
      i < |body| ==> Fits(body[i + 1..]))
  }

  /** The text before the first line that does not fit. */
  function FittingPrefix(body: string): string
    decreases |body|
  {
    if body == "" || TokenLength(body) > MAX_TOKEN then ""
    else
      var i := IndexOf(body, '\n');
      if i < |body| then body[..i] + "\n" + FittingPrefix(body[i + 1..]) else body
  }

  lemma IndexAt(s: string, c: char, i: nat)
    requires i < |s| && s[i] == c && c !in s[..i]
    ensures IndexOf(s, c) == i
  {
    assert forall k :: 0 <= k < i ==> s[k] == s[..i][k];
  }

  lemma FirstLineKept(line: string, rest: string)
    requires '\n' !in line
    ensures var s := line + "\n" + rest;
            && IndexOf(s, '\n') == |line| && s[..|line|] == line && s[|line| + 1..] == rest
            && TokenLength(s) == Utf8Length(line + "\n")
  {
    var s := line + "\n" + rest;
    assert s[..|line|] == line && s[..|line| + 1] == line + "\n";
    IndexAt(s, '\n', |line|);
  }

  lemma NotBeforeIndex(s: string, c: char)
    ensures c !in s[..IndexOf(s, c)]
  {
  }

  lemma FirstScanned(line: string, rest: string)
    requires '\n' !in line && Utf8Length(line + "\n") <= MAX_TOKEN
    ensures var s := line + "\n" + rest;
            && Scan(s) == [DropCR(line)] + Scan(rest) && Fits(s) == Fits(rest)
            && FittingPrefix(s) == line + "\n" + FittingPrefix(rest)
  {
    hide TokenLength, Utf8Length, DropCR;
    FirstLineKept(line, rest);
  }

  /** The text from the first line on that does not fit. */
  function Unscanned(body: string): string
    decreases |body|
  {
    var i := IndexOf(body, '\n');
    if body != "" && TokenLength(body) > MAX_TOKEN then body
    else if i < |body| then Unscanned(body[i + 1..]) else ""
  }

  lemma {:induction false} UnscannedMeaning(body: string)
    ensures Unscanned(body) == "" || TokenLength(Unscanned(body)) > MAX_TOKEN
    ensures Unscanned(body) == "" <==> Fits(body)
    decreases |body|
  {
    hide TokenLength;
    var i := IndexOf(body, '\n');
    if i < |body| && TokenLength(body) <= MAX_TOKEN { UnscannedMeaning(body[i + 1..]); }
  }

  lemma PrefixStep(body: string)
    requires body != "" && TokenLength(body) <= MAX_TOKEN && IndexOf(body, '\n') < |body|
    ensures var i := IndexOf(body, '\n'); FittingPrefix(body) == body[..i] + "\n" + FittingPrefix(body[i + 1..])
  {
    hide TokenLength, IndexOf;
  }

  lemma UnscannedStep(body: string)
    requires body != "" && TokenLength(body) <= MAX_TOKEN && IndexOf(body, '\n') < |body|
    ensures Unscanned(body) == Unscanned(body[IndexOf(body, '\n') + 1..])
  {
    hide TokenLength, IndexOf;
  }

  lemma NoPrefixStep(body: string)
    requires body == "" || TokenLength(body) > MAX_TOKEN || IndexOf(body, '\n') == |body|
    ensures body == FittingPrefix(body) + Unscanned(body)
  {
    hide TokenLength, IndexOf;
  }

  lemma SplitLine(body: string, i: nat, p: string, u: string)
    requires i < |body| && body[i] == '\n' && body[i + 1..] == p + u
    ensures body == (body[..i] + "\n" + p) + u
  {
    assert body == body[..i] + [body[i]] + body[i + 1..];
  }

  lemma {:induction false} PrefixAndRest(body: string)
    ensures body == FittingPrefix(body) + Unscanned(body)
    decreases |body|
  {
    hide *;
    var i := IndexOf(body, '\n');
    if body != "" && TokenLength(body) <= MAX_TOKEN && i < |body| {
      var rest := body[i + 1..];
      PrefixStep(body);
      UnscannedStep(body);
      PrefixAndRest(rest);
      SplitLine(body, i, FittingPrefix(rest), Unscanned(rest));
    } else {
      NoPrefixStep(body);
    }
  }

  lemma {:induction false} PrefixScanned(body: string)
    ensures Fits(FittingPrefix(body)) && Scan(FittingPrefix(body)) == Scan(body)
    decreases |body|
  {
    hide TokenLength, Utf8Length, DropCR;
    var i := IndexOf(body, '\n');
    if body != "" && TokenLength(body) <= MAX_TOKEN && i < |body| {
      hide Scan, Fits, FittingPrefix;
      var line, rest := body[..i], body[i + 1..];
      assert body == line + "\n" + rest;
      NotBeforeIndex(body, '\n');
      FirstLineKept(line, rest);
      PrefixScanned(rest);
      FirstScanned(line, rest);
      FirstScanned(line, FittingPrefix(rest));
    }
  }

  /** The scanner sees the text before the first line that does not fit, and nothing else. */
  lemma FittingPrefixMeaning(body: string)
    ensures var p, u := FittingPrefix(body), Unscanned(body);
            && body == p + u && Fits(p) && Scan(body) == Scan(p)
            && (u == "" || TokenLength(u) > MAX_TOKEN)
            && (Fits(body) <==> u == "")
  {
    UnscannedMeaning(body);
    PrefixAndRest(body);
    PrefixScanned(body);
  }

  /** The text after the last line end. */
  function Tail(body: string): (t: string)
    decreases |body|
  {
    var i := IndexOf(body, '\n');
    if i < |body| then Tail(body[i + 1..]) else body
  }

  /** The start of a line that the client has seen no end of. */
  function Unended(body: string): seq<string> {
    if Tail(body) == "" || EndsInCR(Tail(body)) then [] else [LastPiece(Tail(body))]
  }

  lemma UnendedLater(line: string, rest: string)
    requires '\n' !in line
    ensures Unended(line + "\n" + rest) == Unended(rest)
  {
    hide EndsInCR, LastPiece;
    FirstLineKept(line, rest);
  }

  lemma FirstPieces(line: string, lines: seq<string>)
    ensures AllPieces([line] + lines) == Pieces(line) + AllPieces(lines)
  {
    hide Pieces;
    assert ([line] + lines)[1..] == lines;
  }

  lemma NothingSplit()
    ensures AllPieces([]) == []
  {
  }

  lemma LastSplits(body: string)
    requires body != "" && TokenLength(body) <= MAX_TOKEN && IndexOf(body, '\n') == |body|
    ensures AllPieces(Scan(body)) == Lines(FittingPrefix(body)) + Unended(FittingPrefix(body))
  {
    hide TokenLength, DropCR, Lines, Pieces, LastPiece, EndsInCR, AllPieces, IndexOf;
    assert FittingPrefix(body) == body && Scan(body) == [DropCR(body)] && Tail(body) == body;
    hide Scan, FittingPrefix, Tail;
    FirstPieces(DropCR(body), []);
    NothingSplit();
    assert [DropCR(body)] + [] == [DropCR(body)];
    UnendedLine(body);
  }

  /** The client's lines are the scanned lines, split further at the CRs inside them. */
  lemma {:induction false} ScanSplits(body: string)
    ensures var p := FittingPrefix(body); AllPieces(Scan(body)) == Lines(p) + Unended(p)
    decreases |body|
  {
    hide TokenLength, Utf8Length, DropCR, Lines, Pieces, LastPiece, EndsInCR, AllPieces;
    var i := IndexOf(body, '\n');
    if body == "" || TokenLength(body) > MAX_TOKEN {
      NoLines("");
      NothingSplit();
    } else if i < |body| {
      hide Scan, FittingPrefix, Tail, Unended;
      var line, rest := body[..i], body[i + 1..];
      assert body == line + "\n" + rest;
      NotBeforeIndex(body, '\n');
      ScanSplits(rest);
      FirstLineKept(line, rest);
      FirstScanned(line, rest);
      UnendedLater(line, FittingPrefix(rest));
      EndedLine(line, FittingPrefix(rest));
      FirstPieces(DropCR(line), Scan(rest));
    } else {
      LastSplits(body);
    }
  }

  lemma {:induction false} ScannedHasNoLF(body: string)
    ensures forall l <- Scan(body) :: '\n' !in l
    decreases |body|
  {
    hide TokenLength;
    if body != "" && TokenLength(body) <= MAX_TOKEN {
      var i := IndexOf(body, '\n');
      NotBeforeIndex(body, '\n');
      if i < |body| { ScannedHasNoLF(body[i + 1..]); }
    }
  }

  /** Two CRs directly before a line feed or the end of the text; i is the second. */
  predicate DoubleCRAt(s: string, i: int) {
    0 < i < |s| && s[i - 1] == '\r' && s[i] == '\r' && (i + 1 == |s| || s[i + 1] == '\n')
  }

  predicate NoDoubleCR(body: string) { forall i :: 0 <= i < |body| ==> !DoubleCRAt(body, i) }

  lemma TwoCRs(line: string)
    ensures EndsInCR(DropCR(line)) <==> |line| >= 2 && line[|line| - 2] == '\r' && line[|line| - 1] == '\r'
  {
  }

  lemma DoubleCRInLine(line: string, rest: string)
    requires '\n' !in line
    ensures NoDoubleCR(line + "\n" + rest) <==> !EndsInCR(DropCR(line)) && NoDoubleCR(rest)
  {
    hide DropCR, EndsInCR;
    var s, n := line + "\n" + rest, |line|;
    assert s[..n] == line && s[n] == '\n' && s[n + 1..] == rest;
    TwoCRs(line);
    forall i | 0 <= i < n ensures DoubleCRAt(s, i) <==> i == n - 1 && EndsInCR(DropCR(line)) {
      assert s[i] == line[i] && (i > 0 ==> s[i - 1] == line[i - 1]) && (i + 1 < n ==> s[i + 1] == line[i + 1]);
    }
    forall i | 0 <= i < |rest| ensures DoubleCRAt(rest, i) <==> DoubleCRAt(s, n + 1 + i) { DoubleCRShift(s, n + 1, i); }
    if EndsInCR(DropCR(line)) { assert DoubleCRAt(s, n - 1); }
    if !EndsInCR(DropCR(line)) && NoDoubleCR(rest) {
      forall i | 0 <= i < |s| ensures !DoubleCRAt(s, i) {
        if i > n { assert !DoubleCRAt(rest, i - n - 1) && i == n + 1 + (i - n - 1); }
      }
    }
  }

  lemma DoubleCRShift(s: string, from: nat, i: nat)
    requires 0 < from && from + i < |s| && s[from - 1] == '\n'
    ensures DoubleCRAt(s[from..], i) <==> DoubleCRAt(s, from + i)
  {
  }

  lemma DoubleCRAtEnd(t: string)
    requires '\n' !in t
    ensures NoDoubleCR(t) <==> !EndsInCR(DropCR(t))
  {
    TwoCRs(t);
    if EndsInCR(DropCR(t)) { assert DoubleCRAt(t, |t| - 1); }
  }

  /** A scanned line ends in a CR exactly where the text has CR CR before a line end. */
  lemma {:induction false} DoubleCRScanned(body: string)
    ensures NoDoubleCR(FittingPrefix(body)) <==> forall l <- Scan(body) :: !EndsInCR(l)
    decreases |body|
  {
    hide TokenLength, NoDoubleCR, DropCR, EndsInCR;
    if body == "" || TokenLength(body) > MAX_TOKEN {
      DoubleCRAtEnd("");
      NothingDropped();
    } else {
      var i := IndexOf(body, '\n');
      NotBeforeIndex(body, '\n');
      if i < |body| {
        DoubleCRScanned(body[i + 1..]);
        DoubleCRInLine(body[..i], FittingPrefix(body[i + 1..]));
        assert forall l :: l in Scan(body) <==> l == DropCR(body[..i]) || l in Scan(body[i + 1..]);
      } else {
        assert body[..i] == body;
        DoubleCRAtEnd(body);
        assert forall l :: l in Scan(body) <==> l == DropCR(body);
      }
    }
  }

  lemma NothingDropped()
    ensures !EndsInCR(DropCR(""))
  {
  }

  // ---- One line ----

  /** What may happen to a line of the stream. */
  ghost predicate RewritesTo(lib: JsonLib, line: string, out: string) {
    || out == line
    || (HasPrefix(line, "data: ") && HasPrefix(out, "data: ") && PadsTo(lib, line[6..], out[6..]))
  }

  /** The lines that are padded: data lines that hold an object with a delta, if a draw came. */
  predicate IsPaddedLine(lib: JsonLib, line: string, draw: Option<nat>) {
    HasPrefix(line, "data: ") && line != "data: [DONE]" && HasDelta(lib, line[6..]) && draw.Some?
  }

  lemma RewriteMeaning(lib: JsonLib, line: string, draw: Option<nat>)
    requires ReadsWell(lib) && IsDraw(draw)
    ensures RewritesTo(lib, line, Rewrite(lib, line, draw))
    ensures var out := Rewrite(lib, line, draw);
            if IsPaddedLine(lib, line, draw)
            then HasPrefix(out, "data: ") && OneLine(out) && IsPadded(lib, line[6..], draw.value, out[6..])
            else out == line
  {
    hide ReadsWell, Chunk, HasDelta, PadsTo, IsPadded;
    if HasPrefix(line, "data: ") {
      ChunkMeaning(lib, line[6..], draw);
      var out := "data: " + Chunk(lib, line[6..], draw).0;
      assert out[6..] == Chunk(lib, line[6..], draw).0;
      assert line == "data: " + line[6..];
    }
  }

  ghost predicate AllRewriteTo(lib: JsonLib, lines: seq<string>, out: seq<string>) {
    |lines| == |out| && forall i :: 0 <= i < |lines| ==> RewritesTo(lib, lines[i], out[i])
  }

  lemma AllRewriteConcat(lib: JsonLib, a: seq<string>, x: seq<string>, b: seq<string>, y: seq<string>)
    requires AllRewriteTo(lib, a, x) && AllRewriteTo(lib, b, y)
    ensures AllRewriteTo(lib, a + b, x + y)
  {
  }

  /** The client sees the scanned line as it was, or padded as one line. */
  predicate KeepsLine(lib: JsonLib, line: string, draw: Option<nat>) {
    !EndsInCR(line) && (IsPaddedLine(lib, line, draw) ==> '\r' !in line)
  }

  /** Rewriting a line never gives the client more lines, and gives it as many exactly when the
      line is kept. */
  lemma LineKeptIff(lib: JsonLib, line: string, draw: Option<nat>)
    requires ReadsWell(lib) && IsDraw(draw) && '\n' !in line
    ensures var out := Rewrite(lib, line, draw);
            && '\n' !in out
            && |Pieces(DropCR(out))| <= |Pieces(line)|
            && (|Pieces(DropCR(out))| == |Pieces(line)| <==> KeepsLine(lib, line, draw))
            && (KeepsLine(lib, line, draw) ==> AllRewriteTo(lib, Pieces(line), Pieces(DropCR(out))))
  {
    hide ReadsWell, Pieces, DropCR, EndsInCR, Rewrite, RewritesTo, IsPaddedLine;
    var out := Rewrite(lib, line, draw);
    RewriteMeaning(lib, line, draw);
    if IsPaddedLine(lib, line, draw) {
      OneLineIsOnePiece(out);
      if '\r' !in line { OneLineIsOnePiece(line); }
    } else if EndsInCR(line) {
      LastCRAddsPiece(line);
    } else {
      NoCRToDrop(line);
      forall i | 0 <= i < |Pieces(line)| ensures RewritesTo(lib, Pieces(line)[i], Pieces(line)[i]) {
        CopyRewrites(lib, Pieces(line)[i]);
      }
    }
  }

  lemma OneLineIsOnePiece(line: string)
    requires '\r' !in line
    ensures Pieces(line) == [line] && DropCR(line) == line && !EndsInCR(line)
    ensures OneLine(line) <==> '\n' !in line
  {
    OnePiece(line);
  }

  lemma NoCRToDrop(line: string)
    requires !EndsInCR(line)
    ensures DropCR(line) == line
  {
  }

  lemma CopyRewrites(lib: JsonLib, line: string)
    ensures RewritesTo(lib, line, line)
  {
  }

  // ---- All lines ----

  predicate AllKept(lib: JsonLib, lines: seq<string>, draws: nat -> Option<nat>, from: nat) {
    forall i :: 0 <= i < |lines| ==> KeepsLine(lib, lines[i], draws(from + i))
  }

  lemma AllKeptStep(lib: JsonLib, lines: seq<string>, draws: nat -> Option<nat>, from: nat)
    requires lines != []
    ensures AllKept(lib, lines, draws, from)
            <==> KeepsLine(lib, lines[0], draws(from)) && AllKept(lib, lines[1..], draws, from + 1)
  {
    hide KeepsLine;
    if KeepsLine(lib, lines[0], draws(from)) && AllKept(lib, lines[1..], draws, from + 1) {
      forall i | 0 <= i < |lines| ensures KeepsLine(lib, lines[i], draws(from + i)) {
        if i > 0 { assert lines[i] == lines[1..][i - 1] && draws(from + 1 + (i - 1)) == draws(from + i); }
      }
    }
    if AllKept(lib, lines, draws, from) {
      forall i | 0 <= i < |lines[1..]| ensures KeepsLine(lib, lines[1..][i], draws(from + 1 + i)) {
        assert lines[1..][i] == lines[i + 1] && draws(from + (i + 1)) == draws(from + 1 + i);
      }
    }
  }

  lemma {:induction false} AllLinesKeptIff(lib: JsonLib, lines: seq<string>, draws: nat -> Option<nat>, from: nat)
    requires ReadsWell(lib) && AreDraws(draws) && forall l <- lines :: '\n' !in l
    ensures var out := RewriteAll(lib, lines, draws, from);
            && (forall l <- out :: '\n' !in l)
            && |WrittenPieces(out)| <= |AllPieces(lines)|
            && (|WrittenPieces(out)| == |AllPieces(lines)| <==> AllKept(lib, lines, draws, from))
            && (AllKept(lib, lines, draws, from) ==> AllRewriteTo(lib, AllPieces(lines), WrittenPieces(out)))
  {
    hide ReadsWell, Pieces, DropCR, Rewrite, RewritesTo, KeepsLine, AllKept;
    if lines == [] {
      NothingKept(lib, draws, from);
    } else {
      LineKeptIff(lib, lines[0], draws(from));
      AllLinesKeptIff(lib, lines[1..], draws, from + 1);
      AllKeptStep(lib, lines, draws, from);
      var first, out := Rewrite(lib, lines[0], draws(from)), RewriteAll(lib, lines[1..], draws, from + 1);
      assert RewriteAll(lib, lines, draws, from) == [first] + out && ([first] + out)[1..] == out;
      if AllKept(lib, lines, draws, from) {
        AllRewriteConcat(lib, Pieces(lines[0]), Pieces(DropCR(first)), AllPieces(lines[1..]), WrittenPieces(out));
      }
    }
  }

  lemma NothingKept(lib: JsonLib, draws: nat -> Option<nat>, from: nat)
    ensures AllKept(lib, [], draws, from)
  {
  }

  /** What the goroutine writes for a body (StreamPadder.PadStream). */
  ghost function Written(lib: JsonLib, body: string, draws: nat -> Option<nat>): string
    requires AreDraws(draws)
  {
    Joined(RewriteAll(lib, Scan(body), draws, 0))
  }

  /** The condition under which the client sees the same lines: CR CR never stands before a line
      end, and no padded line holds a CR. */
  predicate KeepsLines(lib: JsonLib, body: string, draws: nat -> Option<nat>) {
    && NoDoubleCR(FittingPrefix(body))
    && forall i :: 0 <= i < |Scan(body)| && IsPaddedLine(lib, Scan(body)[i], draws(i)) ==> '\r' !in Scan(body)[i]
  }

  lemma KeepsLinesIsAllKept(lib: JsonLib, body: string, draws: nat -> Option<nat>)
    ensures KeepsLines(lib, body, draws) <==> AllKept(lib, Scan(body), draws, 0)
  {
    hide Scan, FittingPrefix, NoDoubleCR, EndsInCR, IsPaddedLine;
    DoubleCRScanned(body);
    var lines := Scan(body);
    if AllKept(lib, lines, draws, 0) {
      forall i | 0 <= i < |lines|
        ensures !EndsInCR(lines[i]) && (IsPaddedLine(lib, lines[i], draws(i)) ==> '\r' !in lines[i])
      {
        assert KeepsLine(lib, lines[i], draws(0 + i));
      }
    }
  }

  /** The line theorem. The client never sees more lines in the rewritten stream than there are
      up to the first oversized line, counting an unended last line. It sees as many if and only
      if the body keeps its lines, and then they correspond one to one, each differing at most
      by padding. */
  lemma LinesKeptIff(lib: JsonLib, body: string, draws: nat -> Option<nat>)
    requires ReadsWell(lib) && AreDraws(draws)
    ensures var seen, written := Lines(FittingPrefix(body)) + Unended(FittingPrefix(body)), Lines(Written(lib, body, draws));
            && |written| <= |seen|
            && (|written| == |seen| <==> KeepsLines(lib, body, draws))
            && (AllRewriteTo(lib, seen, written) <==> KeepsLines(lib, body, draws))
  {
    hide ReadsWell, Scan, FittingPrefix, Unended, RewriteAll, Lines, AllKept, KeepsLines, RewritesTo, Joined,
         AllPieces, WrittenPieces;
    ScanSplits(body);
    ScannedHasNoLF(body);
    AllLinesKeptIff(lib, Scan(body), draws, 0);
    LinesOfJoined(RewriteAll(lib, Scan(body), draws, 0));
    KeepsLinesIsAllKept(lib, body, draws);
  }

  // ---- Events ----

  /** Data lines of two events correspond one to one. */
  ghost predicate SameData(lib: JsonLib, a: seq<string>, b: seq<string>) {
    |a| == |b| && forall i :: 0 <= i < |a| ==> PadsTo(lib, a[i], b[i])
  }

  /** The same event up to padding of its data lines. */
  ghost predicate SameEvent(lib: JsonLib, e: Event, f: Event) {
    e.kind == f.kind && e.lastId == f.lastId && SameData(lib, e.data, f.data)
  }

  ghost predicate SameEvents(lib: JsonLib, es: seq<Event>, fs: seq<Event>) {
    |es| == |fs| && forall i :: 0 <= i < |es| ==> SameEvent(lib, es[i], fs[i])
  }

  lemma DataField(line: string)
    requires HasPrefix(line, "data: ")
    ensures FieldName(line) == "data" && FieldValue(line) == line[6..]
  {
    assert line[..6] == "data: ";
    assert line[0] == 'd' && line[1] == 'a' && line[2] == 't' && line[3] == 'a' && line[4] == ':' && line[5] == ' ';
    assert IndexOf(line, ':') == 4;
    assert line[..4] == "data";
  }

  ghost predicate SameBuffers(lib: JsonLib, b: Buffers, c: Buffers) {
    b.kind == c.kind && b.lastId == c.lastId && SameData(lib, b.data, c.data)
  }

  lemma ProcessRewritten(lib: JsonLib, b: Buffers, c: Buffers, line: string, out: string)
    requires SameBuffers(lib, b, c) && RewritesTo(lib, line, out)
    ensures SameBuffers(lib, Process(b, line), Process(c, out))
  {
    if out == line {
      assert PadsTo(lib, FieldValue(line), FieldValue(line));
    } else {
      DataField(line);
      DataField(out);
    }
  }

  /** Interpreting rewritten lines gives the same events. */
  lemma {:induction false} InterpretRewritten(lib: JsonLib, b: Buffers, c: Buffers, lines: seq<string>, out: seq<string>)
    requires SameBuffers(lib, b, c) && AllRewriteTo(lib, lines, out)
    ensures SameEvents(lib, Interpret(b, lines), Interpret(c, out))
    decreases |lines|
  {
    if lines != [] {
      assert RewritesTo(lib, lines[0], out[0]);
      assert AllRewriteTo(lib, lines[1..], out[1..]);
      assert out[0] == "" <==> lines[0] == "";
      if lines[0] == "" {
        assert SameEvents(lib, Dispatched(b), Dispatched(c));
        InterpretRewritten(lib, Buffers([], "", b.lastId), Buffers([], "", c.lastId), lines[1..], out[1..]);
      } else {
        ProcessRewritten(lib, b, c, lines[0], out[0]);
        InterpretRewritten(lib, Process(b, lines[0]), Process(c, out[0]), lines[1..], out[1..]);
      }
    }
  }

  lemma DropMarkRewritten(lib: JsonLib, lines: seq<string>, out: seq<string>)
    requires AllRewriteTo(lib, lines, out)
    ensures AllRewriteTo(lib, DropMark(lines), DropMark(out))
  {
    if lines != [] {
      assert RewritesTo(lib, lines[0], out[0]);
      if out[0] != lines[0] { assert lines[0][0] == 'd' && out[0][0] == 'd'; }
    }
  }

  lemma TailUnseen(lines: seq<string>, tail: string)
    requires tail != ""
    ensures Interpret(EMPTY, DropMark(lines + [tail])) == Interpret(EMPTY, DropMark(lines))
  {
    if lines == [] {
      var seen := DropMark([tail])[0];
      assert [] + [tail] == [tail] && DropMark([tail]) == [seen] == [] + [seen];
      if seen == "" {
        assert Interpret(EMPTY, [""]) == Dispatched(EMPTY) + Interpret(EMPTY, [""][1..]);
      } else {
        LastLineUnseen(EMPTY, [], seen);
      }
    } else {
      assert DropMark(lines + [tail]) == DropMark(lines) + [tail];
      LastLineUnseen(EMPTY, DropMark(lines), tail);
    }
  }

  lemma UnendedUnseen(p: string)
    ensures Interpret(EMPTY, DropMark(Lines(p) + Unended(p))) == Events(p)
  {
    hide Lines, Interpret, DropMark, Tail, LastPiece;
    if Unended(p) == [] {
      assert Lines(p) + [] == Lines(p);
    } else {
      TailUnseen(Lines(p), LastPiece(Tail(p)));
    }
  }

  /** The stream theorem. For every body that keeps its lines, the client sees in the rewritten
      stream exactly the events of the body up to its first oversized line, in order, each
      differing only by padding of data lines; for a body whose lines fit that is every event.
      A last line without a terminator adds none. */
  lemma EventsPreserved(lib: JsonLib, body: string, draws: nat -> Option<nat>)
    requires ReadsWell(lib) && AreDraws(draws) && KeepsLines(lib, body, draws)
    ensures SameEvents(lib, Events(FittingPrefix(body)), Events(Written(lib, body, draws)))
    ensures Fits(body) ==> SameEvents(lib, Events(body), Events(Written(lib, body, draws)))
  {
    hide ReadsWell, Lines, Interpret, DropMark, SameEvents, AllRewriteTo, KeepsLines, FittingPrefix, Fits, Written,
         Unended, Scan;
    var p := FittingPrefix(body);
    var seen, written := Lines(p) + Unended(p), Lines(Written(lib, body, draws));
    LinesKeptIff(lib, body, draws);
    DropMarkRewritten(lib, seen, written);
    InterpretRewritten(lib, EMPTY, EMPTY, DropMark(seen), DropMark(written));
    UnendedUnseen(p);
    FittingPrefixMeaning(body);
    assert Fits(body) ==> p == body by { assert p + "" == p; }
  }

  // ---- Bodies that lose events or data ----

  lemma TightDataField(value: string)
    requires value == "" || value[0] != ' '
    ensures var line := "data:" + value; FieldName(line) == "data" && FieldValue(line) == value
    ensures !HasPrefix("data:" + value, "data: ")
  {
    var line := "data:" + value;
    assert line[..5] == "data:" && line[0] == 'd' && line[1] == 'a' && line[2] == 't' && line[3] == 'a' && line[4] == ':';
    assert line[5..] == value && "data: "[5] == ' ';
    assert IndexOf(line, ':') == 4 && line[..4] == "data";
  }

  /** A lone data line is one event if an empty line follows, and none if not. */
  lemma OneDataEvent(line: string)
    requires line != "" && line[0] != '\U{FEFF}' && FieldName(line) == "data"
    ensures Interpret(EMPTY, DropMark([line])) == []
    ensures Interpret(EMPTY, DropMark([line, ""])) == [Event("message", [FieldValue(line)], "")]
  {
    hide FieldName, FieldValue;
    assert [line, ""][1..] == [""] && [line][1..] == [] && [""][1..] == [];
    var b := Buffers([FieldValue(line)], "", "");
    assert [] + [FieldValue(line)] == [FieldValue(line)];
    assert Process(EMPTY, line) == b && Interpret(b, [""]) == Dispatched(b) + Interpret(EMPTY, []);
    assert Dispatched(b) + [] == Dispatched(b);
  }

  lemma TwoCRPieces(x: string)
    requires '\r' !in x
    ensures Pieces(x + "\r") == [x, ""] && Pieces(DropCR(x + "\r")) == [x] && DropCR(x + "\r" + "\r") == x + "\r"
  {
    hide Pieces;
    var y := x + "\r";
    assert y[..|x|] == x && y[|x| + 1..] == "" && (y + "\r")[..|y|] == y;
    PiecesAt(y, |x|);
    OnePiece(x);
    OnePiece("");
    assert [x] + [""] == [x, ""];
  }

  lemma TightDataText(value: string)
    requires OneLine(value)
    ensures var x := "data:" + value; OneLine(x) && x != "" && x[0] == 'd'
  {
    assert forall c <- "data:" :: c != '\r' && c != '\n';
  }

  lemma SeenAsEvent(x: string)
    requires OneLine(x) && x != "" && x[0] != '\U{FEFF}' && FieldName(x) == "data"
    ensures Events(x + "\r" + "\r" + "\n") == [Event("message", [FieldValue(x)], "")]
    ensures Events(x + "\r" + "\n") == []
  {
    hide Lines, Interpret, DropMark, Pieces, DropCR, FieldName, FieldValue;
    TwoCRPieces(x);
    OnceEnded(x + "\r" + "\r");
    OnceEnded(x + "\r");
    OneDataEvent(x);
  }

  /** First losing family: CR CR LF after a data line costs the client the event, because the
      scanner takes it for one line end and the client for two. */
  lemma DoubleCRLosesEvent(lib: JsonLib, value: string, draws: nat -> Option<nat>)
    requires AreDraws(draws) && OneLine(value) && (value == "" || value[0] != ' ')
    ensures var body := "data:" + value + "\r" + "\r" + "\n";
            Fits(body) ==> |Events(body)| == 1 && Events(Written(lib, body, draws)) == []
  {
    var x := "data:" + value;
    var y := x + "\r";
    TightDataText(value);
    if Fits(y + "\r" + "\n") {
      hide *;
      FitsFirst(y + "\r");
      TightDataField(value);
      SeenAsEvent(x);
      TwoCRPieces(x);
      OnceScanned(y + "\r");
      TightCopied(lib, value + "\r", draws(0));
      assert "data:" + (value + "\r") == y;
      OneWritten(lib, y + "\r" + "\n", y, draws);
    }
  }

  lemma FitsFirst(line: string)
    requires '\n' !in line && Fits(line + "\n")
    ensures Utf8Length(line + "\n") <= MAX_TOKEN
  {
    hide Utf8Length, TokenLength;
    assert line + "\n" + "" == line + "\n";
    FirstLineKept(line, "");
  }

  lemma OnceScanned(line: string)
    requires '\n' !in line && Utf8Length(line + "\n") <= MAX_TOKEN
    ensures Scan(line + "\n") == [DropCR(line)]
  {
    hide DropCR;
    assert line + "\n" + "" == line + "\n" && Scan("") == [];
    hide Scan;
    FirstScanned(line, "");
  }

  lemma OnceEnded(line: string)
    requires '\n' !in line
    ensures Lines(line + "\n") == Pieces(DropCR(line))
  {
    hide Lines, Pieces, DropCR;
    assert line + "\n" + "" == line + "\n";
    EndedLine(line, "");
    NoLines("");
  }

  lemma TightCopied(lib: JsonLib, value: string, draw: Option<nat>)
    requires IsDraw(draw) && value != "" && value[0] != ' '
    ensures Rewrite(lib, "data:" + value, draw) == "data:" + value
  {
    TightDataField(value);
  }

  /** What is written for a body of one line. */
  lemma OneWritten(lib: JsonLib, body: string, line: string, draws: nat -> Option<nat>)
    requires AreDraws(draws) && Scan(body) == [line]
    ensures Written(lib, body, draws) == Rewrite(lib, line, draws(0)) + "\n"
  {
    hide Rewrite, Scan;
    var first := Rewrite(lib, line, draws(0));
    assert RewriteAll(lib, [line][1..], draws, 1) == [];
    assert RewriteAll(lib, [line], draws, 0) == [first] && [first][1..] == [];
    assert Joined([first]) == first + "\n" + "";
  }

  /** What is written for a body of one line and an empty line. */
  lemma TwoWritten(lib: JsonLib, body: string, line: string, draws: nat -> Option<nat>)
    requires AreDraws(draws) && Scan(body) == [line, ""]
    ensures Written(lib, body, draws) == Rewrite(lib, line, draws(0)) + "\n" + ("" + "\n")
  {
    hide Scan;
    assert Rewrite(lib, "", draws(1)) == "";
    hide Rewrite;
    var first := Rewrite(lib, line, draws(0));
    assert [line, ""][1..] == [""] && RewriteAll(lib, [""][1..], draws, 2) == [];
    assert RewriteAll(lib, [""], draws, 1) == [""];
    assert [first, ""][1..] == [""] && [""][1..] == [];
    assert Joined([""]) == "" + "\n" + "";
  }

  /** A field that the client ignores. */
  predicate Ignored(line: string) {
    FieldName(line) != "data" && FieldName(line) != "event" && FieldName(line) != "id"
  }

  lemma IgnoredDataEvent(line: string, ignored: string)
    requires line != "" && line[0] != '\U{FEFF}' && FieldName(line) == "data"
    requires ignored != "" && Ignored(ignored)
    ensures Interpret(EMPTY, DropMark([line, ignored, ""])) == [Event("message", [FieldValue(line)], "")]
  {
    hide FieldName, FieldValue;
    var lines := [line, ignored, ""];
    var b := Buffers([FieldValue(line)], "", "");
    assert lines[1..] == [ignored, ""] && [ignored, ""][1..] == [""] && [""][1..] == [];
    assert [] + [FieldValue(line)] == [FieldValue(line)];
    assert Process(EMPTY, line) == b && Process(b, ignored) == b;
    assert Interpret(b, [""]) == Dispatched(b) + Interpret(EMPTY, []);
    assert Interpret(b, [ignored, ""]) == Interpret(b, [""]);
    assert Dispatched(b) + [] == Dispatched(b);
  }

  /** The lines of a text with one CR inside, followed by an empty line. */
  lemma SplitByCR(left: string, right: string)
    requires OneLine(left) && OneLine(right) && right != ""
    ensures Lines(left + "\r" + right + "\n" + "\n") == [left, right, ""]
  {
    hide Lines, Pieces, DropCR;
    var line := left + "\r" + right;
    assert line[..|left|] == left && line[|left| + 1..] == right;
    EndedLine(line, "\n");
    OnceEnded("");
    assert "" + "\n" == "\n";
    PiecesAt(line, |left|);
    OnePiece(right);
    OnePiece("");
    NoCRToDrop(line);
    assert [left] + [right] + [""] == [left, right, ""];
  }

  lemma ThenEmpty(line: string)
    requires OneLine(line)
    ensures Lines(line + "\n" + "\n") == [line, ""]
  {
    hide Lines, Pieces, DropCR;
    EndedLine(line, "\n");
    OnceEnded("");
    assert "" + "\n" == "\n";
    OnePiece(line);
    OnePiece("");
    assert [line] + [""] == [line, ""];
  }

  lemma ScanThenEmpty(line: string)
    requires '\n' !in line && Fits(line + "\n" + "\n")
    ensures Scan(line + "\n" + "\n") == [DropCR(line), ""]
  {
    hide DropCR, Scan, Utf8Length;
    FirstLineKept(line, "\n");
    assert Utf8Length(line + "\n") <= MAX_TOKEN && Fits("\n");
    FirstScanned(line, "\n");
    assert "" + "\n" == "\n";
    FitsFirst("");
    OnceScanned("");
    NothingToDrop();
  }

  lemma NothingToDrop()
    ensures DropCR("") == ""
  {
  }

  lemma SpacedData(left: string, right: string)
    requires OneLine(left) && OneLine(right) && right != ""
    ensures var first, line := "data: " + left, "data: " + left + "\r" + right;
            && HasPrefix(first, "data: ") && first[6..] == left && OneLine(first)
            && HasPrefix(line, "data: ") && line[6..] == left + "\r" + right && '\n' !in line && !EndsInCR(line)
            && line != "data: [DONE]"
  {
    assert forall c <- "data: " :: c != '\r' && c != '\n';
    var line := "data: " + left + "\r" + right;
    assert line[6 + |left|] == '\r';
    assert line[|line| - 1] == right[|right| - 1] && right[|right| - 1] in right;
    assert forall c <- "data: [DONE]" :: c != '\r';
    assert '\r' in line;
  }

  /** Second losing family: a CR inside the JSON of a padded line. The client takes what stands
      before the CR for the data of the event, and ignores the rest; in the rewritten stream it
      gets the whole padded object. */
  lemma CRInPaddedLineChangesEvent(lib: JsonLib, left: string, right: string, draws: nat -> Option<nat>)
    requires ReadsWell(lib) && AreDraws(draws) && draws(0).Some?
    requires OneLine(left) && OneLine(right) && right != "" && Ignored(right)
    requires HasDelta(lib, left + "\r" + right) && lib.read(left).None?
    ensures var body := "data: " + left + "\r" + right + "\n" + "\n";
            Fits(body) ==>
            && Events(body) == [Event("message", [left], "")]
            && !SameEvents(lib, Events(body), Events(Written(lib, body, draws)))
  {
    var first, line := "data: " + left, "data: " + left + "\r" + right;
    var body := line + "\n" + "\n";
    if Fits(body) {
      hide ReadsWell, HasDelta, IsPadded, Ignored, Lines, Interpret, DropMark, Scan, DropCR, Rewrite, Written, Fits, FieldName,
           FieldValue;
      SpacedData(left, right);
      SplitByCR(first, right);
      DataField(first);
      IgnoredDataEvent(first, right);
      ScanThenEmpty(line);
      NoCRToDrop(line);
      TwoWritten(lib, body, line, draws);
      RewriteMeaning(lib, line, draws(0));
      var out := Rewrite(lib, line, draws(0));
      assert out + "\n" + ("" + "\n") == out + "\n" + "\n";
      ThenEmpty(out);
      DataField(out);
      OneDataEvent(out);
      OnlyPadsIfRead(lib, left, line[6..], draws(0).value, out[6..]);
      assert Events(Written(lib, body, draws)) == [Event("message", [out[6..]], "")];
      DifferentData(lib, left, out[6..]);
    }
  }

  lemma DifferentData(lib: JsonLib, a: string, b: string)
    requires !PadsTo(lib, a, b)
    ensures !SameEvents(lib, [Event("message", [a], "")], [Event("message", [b], "")])
  {
    hide PadsTo;
    var e, f := Event("message", [a], ""), Event("message", [b], "");
    assert [a][0] == a && [b][0] == b && !SameData(lib, e.data, f.data);
    assert [e][0] == e && [f][0] == f;
  }

  lemma OnlyPadsIfRead(lib: JsonLib, left: string, data: string, draw: nat, text: string)
    requires lib.read(left).None? && draw <= |CHARSET| - MIN_LENGTH && IsPadded(lib, data, draw, text)
    ensures !PadsTo(lib, left, text)
  {
  }
}
