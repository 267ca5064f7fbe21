/** Whitespace: trimming as `str::trim` does it, and the flattening of spacing before a label is
    looked up. */
module Texts {
  import opened Basics
  import Utf8

  predicate IsWhitespace(c: char) {
    var n := c as int;
    9 <= n <= 13 || n == 0x20 || n == 0x85 || n == 0xA0 || n == 0x1680 || 0x2000 <= n <= 0x200A
    || n == 0x2028 || n == 0x2029 || n == 0x202F || n == 0x205F || n == 0x3000
  }

  /** The twenty-five characters of the Unicode property White_Space. */
  lemma WhitespaceExactly(c: char)
    ensures IsWhitespace(c)
       <==> c as int in {9, 10, 11, 12, 13, 32, 133, 160, 5760, 8192, 8193, 8194, 8195, 8196, 8197, 8198, 8199,
                         8200, 8201, 8202, 8232, 8233, 8239, 8287, 12288}
    ensures IsGap(c) && !IsWhitespace(c) <==> c as int == 65279
  {
  }

  function TrimStart(s: string): (t: string) {
    if s != "" && IsWhitespace(s[0]) then TrimStart(s[1..]) else s
  }

  function TrimEnd(s: string): (t: string) {
    if s != "" && IsWhitespace(s[|s| - 1]) then TrimEnd(s[..|s| - 1]) else s
  }

  predicate AllWhitespace(s: string) {
    forall k :: 0 <= k < |s| ==> IsWhitespace(s[k])
  }

  lemma {:induction false} TrimStartParts(s: string) returns (a: string)
    ensures AllWhitespace(a) && s == a + TrimStart(s)
    ensures TrimStart(s) != "" ==> !IsWhitespace(TrimStart(s)[0])
  {
    hide IsWhitespace;
    a := "";
    if s != "" && IsWhitespace(s[0]) {
      a := TrimStartParts(s[1..]);
      a := [s[0]] + a;
    }
  }

  lemma {:induction false} TrimEndParts(s: string) returns (b: string)
    ensures AllWhitespace(b) && s == TrimEnd(s) + b
    ensures TrimEnd(s) != "" ==> !IsWhitespace(TrimEnd(s)[|TrimEnd(s)| - 1])
  {
    hide IsWhitespace;
    b := "";
    if s != "" && IsWhitespace(s[|s| - 1]) {
      b := TrimEndParts(s[..|s| - 1]);
      b := b + [s[|s| - 1]];
    }
  }

  lemma {:induction false} TrimStartOf(a: string, s: string)
    requires AllWhitespace(a) && s != "" && !IsWhitespace(s[0])
    ensures TrimStart(a + s) == s
  {
    if a == "" {
      assert a + s == s;
    } else {
      assert (a + s)[1..] == a[1..] + s;
      TrimStartOf(a[1..], s);
    }
  }

  lemma {:induction false} TrimEndOf(s: string, b: string)
    requires AllWhitespace(b) && s != "" && !IsWhitespace(s[|s| - 1])
    ensures TrimEnd(s + b) == s
  {
    if b == "" {
      assert s + b == s;
    } else {
      assert (s + b)[..|s + b| - 1] == s + b[..|b| - 1];
      TrimEndOf(s, b[..|b| - 1]);
    }
  }

  function Trim(s: string): (t: string) {
    TrimEnd(TrimStart(s))
  }

  /** A trimmed text is the text without the whitespace around it: nothing else is lost, and none is
      left at either end. */
  lemma TrimExactly(s: string, t: string)
    ensures Trim(s) == t
       <==> (&& (t != "" ==> !IsWhitespace(t[0]) && !IsWhitespace(t[|t| - 1]))
             && exists a, b :: AllWhitespace(a) && AllWhitespace(b) && s == a + (t + b))
  {
    hide TrimStart, TrimEnd, IsWhitespace, AllWhitespace;
    var a := TrimStartParts(s);
    var b := TrimEndParts(TrimStart(s));
    if Trim(s) == t {
      assert s == a + (t + b);
      TrimKeepsStart(TrimStart(s), b);
    }
    if (t != "" ==> !IsWhitespace(t[0]) && !IsWhitespace(t[|t| - 1])) && exists a, b :: AllWhitespace(a) && AllWhitespace(b) && s == a + (t + b) {
      var c, d :| AllWhitespace(c) && AllWhitespace(d) && s == c + (t + d);
      if t != "" {
        TrimStartOf(c, t + d);
        TrimEndOf(t, d);
      } else {
        SpaceConcat(c, d);
        assert s == c + d && "" + d == d;
        TrimSpace(s);
      }
    }
  }

  lemma TrimKeepsStart(s: string, b: string)
    requires s == TrimEnd(s) + b && (s != "" ==> !IsWhitespace(s[0]))
    ensures TrimEnd(s) != "" ==> !IsWhitespace(TrimEnd(s)[0])
  {
    hide IsWhitespace, TrimEnd;
    assert TrimEnd(s) != "" ==> s[0] == TrimEnd(s)[0];
  }

  lemma SpaceConcat(a: string, b: string)
    requires AllWhitespace(a) && AllWhitespace(b)
    ensures AllWhitespace(a + b)
  {
  }

  lemma {:induction false} TrimSpace(s: string)
    requires AllWhitespace(s)
    ensures Trim(s) == ""
  {
    hide IsWhitespace;
    if s != "" {
      TrimSpace(s[1..]);
    }
  }

  // ---- Length in bytes ---------------------------------------------------------------------

  function ByteLength(s: string): (n: nat) {
    if s == "" then 0 else CharBytes(s[0]) + ByteLength(s[1..])
  }

  function CharBytes(c: char): (n: nat)
    ensures 1 <= n <= 4
  {
    if c as int < 0x80 then 1 else if c as int < 0x800 then 2 else if c as int < 0x1_0000 then 3 else 4
  }

  /** A text in UTF-8. */
  function Bytes(s: string): (b: seq<Byte>) {
    if s == "" then [] else Utf8.Encode(s[0] as int) + Bytes(s[1..])
  }

  /** The length in bytes is that of the text in UTF-8, which is well formed. */
  lemma {:induction false} ByteLengthExactly(s: string)
    ensures ByteLength(s) == |Bytes(s)| && Utf8.Valid(Bytes(s))
  {
    if s != "" {
      hide Utf8.CharLength, Utf8.Encode;
      var first, rest := Utf8.Encode(s[0] as int), Bytes(s[1..]);
      ByteLengthExactly(s[1..]);
      CharBytesExactly(s[0]);
      Utf8.EncodedIsOne(s[0] as int, rest);
      assert (first + rest)[|first|..] == rest;
    }
  }

  lemma CharBytesExactly(c: char)
    ensures CharBytes(c) == |Utf8.Encode(c as int)|
  {
  }

  // ---- Normalised spacing ------------------------------------------------------------------

  /** The spaces a text lifted out of a PDF holds. */
  predicate IsGap(c: char) {
    IsWhitespace(c) || c == '\U{FEFF}'
  }

  /** The runs of characters between the gaps. */
  function Words(s: string): (words: seq<string>) {
    if s == "" then []
    else
      var front, n := Words(s[..|s| - 1]), |s| - 1;
      if IsGap(s[n]) then front
      else if n > 0 && !IsGap(s[n - 1]) && front != [] then front[..|front| - 1] + [front[|front| - 1] + [s[n]]]
      else front + [[s[n]]]
  }

  function Unwords(words: seq<string>): (s: string) {
    if words == [] then ""
    else if |words| == 1 then words[0]
    else Unwords(words[..|words| - 1]) + " " + words[|words| - 1]
  }

  predicate IsWord(w: string) {
    w != "" && forall k :: 0 <= k < |w| ==> !IsGap(w[k])
  }

  ghost predicate AreWords(words: seq<string>) {
    forall k :: 0 <= k < |words| ==> IsWord(words[k])
  }

  lemma WordsGrow(done: string, c: char)
    ensures Words("") == []
    ensures var words := Words(done);
            Words(done + [c]) ==
            if IsGap(c) then words
            else if done != "" && !IsGap(done[|done| - 1]) && words != [] then
              words[..|words| - 1] + [words[|words| - 1] + [c]]
            else words + [[c]]
  {
    hide IsGap;
    assert (done + [c])[..|done|] == done;
  }

  lemma {:induction false} WordsAreWords(s: string)
    ensures AreWords(Words(s))
    ensures s != "" && !IsGap(s[|s| - 1]) ==> Words(s) != []
  {
    hide IsGap, Words;
    var n := |s| - 1;
    WordsGrow(if s == "" then s else s[..n], if s == "" then ' ' else s[n]);
    if s != "" {
      WordsAreWords(s[..n]);
      assert s == s[..n] + [s[n]];
    }
  }

  lemma {:induction false} UnwordsEnds(words: seq<string>)
    requires AreWords(words)
    ensures words == [] <==> Unwords(words) == ""
    ensures words != [] ==> Unwords(words)[|Unwords(words)| - 1] != ' '
  {
    if words != [] {
      var last := words[|words| - 1];
      assert IsWord(last) && IsGap(' ');
      if |words| > 1 {
        UnwordsEnds(words[..|words| - 1]);
      }
    }
  }

  lemma UnwordsSnoc(front: seq<string>, w: string)
    ensures Unwords(front + [w]) == if front == [] then w else Unwords(front) + " " + w
  {
    assert (front + [w])[..|front|] == front;
  }

  lemma UnwordsLonger(front: seq<string>, w: string, c: char)
    ensures Unwords(front + [w + [c]]) == Unwords(front + [w]) + [c]
  {
    hide Unwords;
    UnwordsSnoc(front, w);
    UnwordsSnoc(front, w + [c]);
    assert (Unwords(front) + " ") + (w + [c]) == ((Unwords(front) + " ") + w) + [c];
  }

  function Normal(s: string): (out: string) {
    Unwords(Words(s))
  }

  /** One more character: a gap adds nothing, another character goes on with the last word or
      begins a new one. */
  lemma OneMore(done: string, c: char)
    ensures Words(done) == [] <==> Normal(done) == ""
    ensures Normal(done) != "" ==> Normal(done)[|Normal(done)| - 1] != ' '
    ensures Normal(done + [c]) ==
            if IsGap(c) then Normal(done)
            else if done != "" && IsGap(done[|done| - 1]) && Normal(done) != "" then Normal(done) + " " + [c]
            else Normal(done) + [c]
  {
    hide IsGap, Unwords, Words, AreWords;
    var words := Words(done);
    assert "" + [c] == [c];
    WordsGrow(done, c);
    WordsAreWords(done);
    UnwordsEnds(words);
    UnwordsSnoc(words, [c]);
    if words != [] {
      UnwordsLonger(words[..|words| - 1], words[|words| - 1], c);
      assert words == words[..|words| - 1] + [words[|words| - 1]];
    }
  }

  /** What the loop below has written after `done`. */
  predicate Flattened(done: string, out: string, inSpace: bool) {
    && inSpace == (done != "" && IsGap(done[|done| - 1]))
    && out == Normal(done) + if inSpace && Normal(done) != "" then " " else ""
  }

  lemma FlattenedStep(done: string, c: char, out: string, inSpace: bool)
    requires Flattened(done, out, inSpace)
    ensures Flattened(done + [c],
                      if !IsGap(c) then out + [c] else if !inSpace && out != "" then out + " " else out,
                      IsGap(c))
  {
    hide Normal, IsGap;
    OneMore(done, c);
  }

  method NormaliseSpacing(line: string) returns (out: string)
    ensures out == Normal(line)
  {
    hide Normal, IsGap;
    out := "";
    var inSpace := false;
    var i := 0;
    NormalOfEmpty();
    while i < |line|
      invariant 0 <= i <= |line|
      invariant Flattened(line[..i], out, inSpace)
    {
      hide Flattened;
      assert line[..i + 1] == line[..i] + [line[i]];
      FlattenedStep(line[..i], line[i], out, inSpace);
      if IsGap(line[i]) {
        if !inSpace && out != "" {
          out := out + " ";
        }
        inSpace := true;
      } else {
        out := out + [line[i]];
        inSpace := false;
      }
      i := i + 1;
    }
    assert line[..i] == line;
    OneMore(line, ' ');
    while out != "" && out[|out| - 1] == ' '
      invariant out == Normal(line) || out == Normal(line) + " "
      decreases |out|
    {
      out := out[..|out| - 1];
    }
  }

  lemma NormalOfEmpty()
    ensures Normal("") == ""
  {
  }

  lemma {:induction false} WordsOfRun(s: string, w: string)
    requires w != "" && forall k :: 0 <= k < |w| ==> !IsGap(w[k])
    requires s == "" || IsGap(s[|s| - 1])
    ensures Words(s + w) == Words(s) + [w]
  {
    hide IsGap, Words;
    var n := |w| - 1;
    assert s + w == (s + w[..n]) + [w[n]] && w == w[..n] + [w[n]];
    WordsGrow(s + w[..n], w[n]);
    if n == 0 {
      assert s + w[..0] == s;
    } else {
      WordsOfRun(s, w[..n]);
    }
  }

  lemma {:induction false} WordsOfUnwords(words: seq<string>)
    requires AreWords(words)
    ensures Words(Unwords(words)) == words
  {
    hide IsGap;
    if words != [] {
      var front, last := words[..|words| - 1], words[|words| - 1];
      assert IsWord(last) && words == front + [last];
      if front == [] {
        WordsOfRun("", last);
        assert "" + last == last;
      } else {
        WordsOfUnwords(front);
        var spaced := Unwords(front) + " ";
        SpaceIsGap();
        assert spaced[..|spaced| - 1] == Unwords(front);
        WordsOfRun(spaced, last);
      }
    }
  }

  lemma SpaceIsGap()
    ensures IsGap(' ')
  {
  }

  /** Two lines are the same once normalised exactly when they have the same words, whatever stands
      between and around them; normalising again changes nothing. */
  lemma NormalisedExactly(a: string, b: string)
    ensures Normal(a) == Normal(b) <==> Words(a) == Words(b)
    ensures Normal(Normal(a)) == Normal(a)
  {
    hide Words, Unwords;
    WordsAreWords(a);
    WordsAreWords(b);
    WordsOfUnwords(Words(a));
    WordsOfUnwords(Words(b));
  }
}
