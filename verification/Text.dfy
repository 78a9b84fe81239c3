/** Shared vocabulary: results that may be missing, bytes, and the string
    operations of the Go standard library that several components use. */
module Text {

  datatype Option<+T> = None | Some(value: T)

  type Byte = x: int | 0 <= x < 256

  predicate HasPrefix(s: string, prefix: string) {
    prefix <= s
  }

  predicate HasSuffix(s: string, suffix: string) {
    |suffix| <= |s| && s[|s| - |suffix|..] == suffix
  }

  function TrimPrefix(s: string, prefix: string): string {
    if HasPrefix(s, prefix) then s[|prefix|..] else s
  }

  /** Index of the first occurrence of c, or |s| when there is none. */
  function IndexOf(s: string, c: char): (i: nat)
    ensures i <= |s|
    ensures forall k :: 0 <= k < i ==> s[k] != c
    ensures i < |s| ==> s[i] == c
  {
    if s == "" || s[0] == c then 0 else 1 + IndexOf(s[1..], c)
  }

  /** strings.Split(s, ".")[0] */
  function FirstLabel(s: string): string {
    s[..IndexOf(s, '.')]
  }

  /** The text after the first dot, if there is a dot. */
  function AfterFirstDot(s: string): Option<string> {
    var i := IndexOf(s, '.');
    if i < |s| then Some(s[i + 1..]) else None
  }

  lemma SplitAtDot(first: string, rest: string)
    requires '.' !in first
    ensures FirstLabel(first + ("." + rest)) == first
    ensures AfterFirstDot(first + ("." + rest)) == Some(rest)
  {
    var s := first + ("." + rest);
    var i := IndexOf(s, '.');
    assert s[|first|] == '.';
    assert forall k :: 0 <= k < |first| ==> s[k] == first[k];
    assert s[|first| + 1..] == rest;
  }

  /** An element, or zero past the end. */
  function At(b: seq<int>, i: nat): int { if i < |b| then b[i] else 0 }

  /** n elements, or as many as there are. */
  function Part<T>(s: seq<T>, from: nat, n: nat): seq<T>
    requires from <= |s|
  {
    if from + n <= |s| then s[from..from + n] else s[from..]
  }

  lemma PartOfFirst<T>(first: seq<T>, rest: seq<T>)
    ensures Part(first + rest, 0, |first|) == first
  {
  }

  lemma PartOfShort<T>(s: seq<T>, n: nat)
    requires |s| <= n
    ensures Part(s, 0, n) == s
  {
  }

  lemma PartOfRest<T>(first: seq<T>, rest: seq<T>, from: nat, n: nat)
    requires from <= |rest|
    ensures Part(first + rest, |first| + from, n) == Part(rest, from, n)
  {
  }

  /** Digits written as characters. */
  function Spelled<D>(digits: seq<D>, spell: D -> char): (s: string)
    ensures |s| == |digits| && forall i :: 0 <= i < |s| ==> s[i] == spell(digits[i])
  {
    seq(|digits|, i requires 0 <= i < |digits| => spell(digits[i]))
  }

  /** Every character stands for a digit. */
  predicate AllRead<D>(s: string, read: char -> Option<D>) {
    forall i :: 0 <= i < |s| ==> read(s[i]).Some?
  }

  /** Characters read as digits. */
  function ReadAll<D>(s: string, read: char -> Option<D>): (digits: seq<D>)
    requires AllRead(s, read)
    ensures |digits| == |s| && forall i :: 0 <= i < |s| ==> digits[i] == read(s[i]).value
  {
    seq(|s|, i requires 0 <= i < |s| => read(s[i]).value)
  }

  predicate OneLine(s: string) { '\r' !in s && '\n' !in s }

  predicate EndsInCR(s: string) { s != "" && s[|s| - 1] == '\r' }

  /** dropCR of bufio: a line without the CR of its CRLF. */
  function DropCR(line: string): string {
    if EndsInCR(line) then line[..|line| - 1] else line
  }

  /** encoding/base32 and encoding/base64 both ignore CR and LF. */
  function StripNewlines(s: string): (t: string)
    ensures '\r' !in t && '\n' !in t
  {
    if s == "" then ""
    else if s[0] == '\r' || s[0] == '\n' then StripNewlines(s[1..])
    else [s[0]] + StripNewlines(s[1..])
  }

  lemma StripIsIdentity(s: string)
    ensures StripNewlines(s) == s <==> '\r' !in s && '\n' !in s
  {
    if s != "" {
      StripIsIdentity(s[1..]);
      StripShrinks(s[1..]);
    }
  }

  lemma StripShrinks(s: string)
    ensures |StripNewlines(s)| <= |s|
  {
  }

  /** Exactly the line breaks go, and the rest keeps its order. */
  lemma {:induction false} StripKeeps(s: string, c: char)
    ensures c in StripNewlines(s) <==> c in s && c != '\r' && c != '\n'
  {
    if s != "" {
      StripKeeps(s[1..], c);
      assert s == [s[0]] + s[1..];
    }
  }

  lemma {:induction false} StripConcat(a: string, b: string)
    ensures StripNewlines(a + b) == StripNewlines(a) + StripNewlines(b)
  {
    if a == "" {
      assert a + b == b;
    } else {
      var rest := StripNewlines(a[1..]);
      StripConcat(a[1..], b);
      assert (a + b)[0] == a[0] && (a + b)[1..] == a[1..] + b;
      assert ([a[0]] + rest) + StripNewlines(b) == [a[0]] + (rest + StripNewlines(b));
    }
  }

  /** A text reads as digits if and only if every character but the line breaks does. */
  lemma AllReadIff<D>(s: string, read: char -> Option<D>)
    ensures AllRead(StripNewlines(s), read) <==> forall c <- s :: c != '\r' && c != '\n' ==> read(c).Some?
  {
    var t := StripNewlines(s);
    if AllRead(t, read) {
      forall c | c in s && c != '\r' && c != '\n' ensures read(c).Some? {
        StripKeeps(s, c);
        var i :| 0 <= i < |t| && t[i] == c;
      }
    }
    if forall c <- s :: c != '\r' && c != '\n' ==> read(c).Some? {
      forall i | 0 <= i < |t| ensures read(t[i]).Some? {
        assert t[i] in t;
        StripKeeps(s, t[i]);
      }
    }
  }
}
