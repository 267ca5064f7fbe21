/** The fence around untrusted document text: exactly one opening and one closing marker, whatever
    the label and the text contain. */
module Fence {
  import opened Substrings

  const OPEN: string := "<<<SKATTJAKT_DOCUMENT_DATA>>>"
  const CLOSE: string := "<<<END_SKATTJAKT_DOCUMENT_DATA>>>"
  const ESCAPED: string := "[escaped-delimiter]"

  /** The standing instruction in front of every wrapped document. Its wording does not matter, only
      that it holds no angle bracket and begins with a character that no marker has. */
  ghost predicate FramingText(framing: string) {
    framing != "" && framing[0] !in OPEN && framing[0] !in CLOSE && '<' !in framing
  }

  /** Rust's `char::is_alphanumeric` is a table of the Unicode standard; all that matters here is
      that it holds neither the marker's angle bracket nor the line feed. */
  ghost predicate AlphanumericTable(isAlphanumeric: char -> bool) {
    !isAlphanumeric('<') && !isAlphanumeric('\n')
  }

  function Kept(s: string, isAlphanumeric: char -> bool): (t: string) {
    if s == "" then ""
    else if isAlphanumeric(s[0]) || s[0] == ' ' || s[0] == '-' || s[0] == '_' || s[0] == '.' then
      [s[0]] + Kept(s[1..], isAlphanumeric)
    else Kept(s[1..], isAlphanumeric)
  }

  function SafeLabel(caption: string, isAlphanumeric: char -> bool): (t: string) {
    var kept := Kept(caption, isAlphanumeric);
    if |kept| <= 120 then kept else kept[..120]
  }

  function Fenced(text: string): (t: string) {
    Replace(Replace(text, OPEN, ESCAPED), CLOSE, ESCAPED)
  }

  /** The wrapped block, after the framing. */
  function Block(source: string, fenced: string): (body: string) {
    OPEN + ("\n" + (source + ("\n" + (fenced + ("\n" + CLOSE)))))
  }

  function SourceLine(caption: string, isAlphanumeric: char -> bool): string {
    "källa: " + SafeLabel(caption, isAlphanumeric)
  }

  function WrapDocument(framing: string, caption: string, text: string, isAlphanumeric: char -> bool): (body: string) {
    framing + ("\n" + ("" + ("\n" + Block(SourceLine(caption, isAlphanumeric), Fenced(text)))))
  }

  predicate HasIntactSingleBlock(body: string) {
    Matches(OPEN, body) == 1 && Matches(CLOSE, body) == 1
  }

  /** The markers beyond one of each. */
  function Excess(body: string): (n: nat) {
    var opens, closes := Matches(OPEN, body), Matches(CLOSE, body);
    (if opens > 0 then opens - 1 else 0) + (if closes > 0 then closes - 1 else 0)
  }

  /** The `delimiter_attempts` field `scan_wrapped` reports, a count cast to `u32`. */
  function DelimiterAttempts(body: string): (n: nat) {
    if HasIntactSingleBlock(body) then 0
    else (if Excess(body) > 1 then Excess(body) else 1) % 0x1_0000_0000
  }

  // ---- The pieces hold no marker -----------------------------------------------------------

  lemma {:induction false} KeptFree(s: string, isAlphanumeric: char -> bool, c: char)
    requires !isAlphanumeric(c) && c !in " -_."
    ensures c !in Kept(s, isAlphanumeric)
  {
    if s != "" {
      KeptFree(s[1..], isAlphanumeric, c);
    }
  }

  lemma {:induction false} KeptConcat(a: string, b: string, isAlphanumeric: char -> bool)
    ensures Kept(a + b, isAlphanumeric) == Kept(a, isAlphanumeric) + Kept(b, isAlphanumeric)
  {
    if a == "" {
      assert a + b == b;
    } else {
      assert (a + b)[1..] == a[1..] + b;
      KeptConcat(a[1..], b, isAlphanumeric);
    }
  }

  /** A label keeps its letters and digits, spaces, hyphens, underscores and full stops, in order, up
      to 120 of them, and loses every other character. */
  lemma LabelExactly(a: string, c: char, b: string, isAlphanumeric: char -> bool)
    ensures Kept(a + [c] + b, isAlphanumeric)
         == Kept(a, isAlphanumeric)
            + (if isAlphanumeric(c) || c in {' ', '-', '_', '.'} then [c] else "")
            + Kept(b, isAlphanumeric)
    ensures SafeLabel(a, isAlphanumeric) <= Kept(a, isAlphanumeric)
    ensures |SafeLabel(a, isAlphanumeric)| == if |Kept(a, isAlphanumeric)| < 120 then |Kept(a, isAlphanumeric)| else 120
  {
    KeptConcat(a + [c], b, isAlphanumeric);
    KeptConcat(a, [c], isAlphanumeric);
    assert [c][1..] == "";
  }

  lemma SourceLineFree(caption: string, isAlphanumeric: char -> bool)
    requires AlphanumericTable(isAlphanumeric)
    ensures '<' !in SourceLine(caption, isAlphanumeric) && '\n' !in SourceLine(caption, isAlphanumeric)
  {
    KeptFree(caption, isAlphanumeric, '<');
    KeptFree(caption, isAlphanumeric, '\n');
  }

  /** The alphabet the markers are written in. */
  predicate MarkerChar(c: char) {
    c == '<' || c == '>' || c == '_' || 'A' <= c <= 'Z'
  }

  lemma MarkerAlphabet()
    ensures forall k :: 0 <= k < |OPEN| ==> MarkerChar(OPEN[k])
    ensures forall k :: 0 <= k < |CLOSE| ==> MarkerChar(CLOSE[k])
    ensures forall k :: 0 <= k < |ESCAPED| ==> !MarkerChar(ESCAPED[k])
  {
  }

  lemma EscapeForeign()
    ensures Foreign(ESCAPED, OPEN) && Foreign(ESCAPED, CLOSE)
  {
    MarkerAlphabet();
    var open, close, escaped := OPEN, CLOSE, ESCAPED;
    assert escaped != "";
  }

  lemma FencedFree(text: string)
    ensures Absent(OPEN, Fenced(text)) && Absent(CLOSE, Fenced(text))
  {
    EscapeForeign();
    ReplaceRemoves(OPEN, text, ESCAPED);
    ReplaceKeepsAbsent(OPEN, Replace(text, OPEN, ESCAPED), CLOSE, ESCAPED);
    ReplaceRemoves(CLOSE, Replace(text, OPEN, ESCAPED), ESCAPED);
  }

  // ---- The fence holds ---------------------------------------------------------------------

  lemma OpenSpelling()
    ensures |OPEN| == 29 && OPEN[0] == '<' && OPEN[3] == 'S'
    ensures '\n' !in OPEN && 'I' !in OPEN
  {
  }

  lemma CloseSpelling()
    ensures |CLOSE| == 33 && CLOSE[0] == '<' && CLOSE[3] == 'E' && CLOSE[4] == 'N' && CLOSE[5] == 'D'
    ensures '\n' !in CLOSE && 'I' !in CLOSE
  {
  }

  lemma MatchesItself(m: string)
    requires m != ""
    ensures Matches(m, m) == 1
  {
    assert m[|m|..] == "";
  }

  /** Neither marker occurs in the other. */
  lemma MarkersApart(open: string, close: string)
    requires |open| == 29 && open[0] == '<' && open[3] == 'S'
    requires |close| == 33 && close[3] == 'E' && close[4] == 'N' && close[5] == 'D'
    ensures Absent(open, close) && Absent(close, open)
  {
    assert forall i :: OccursAt(open, close, i) ==>
        close[i..i + |open|][0] == close[i] && close[i..i + |open|][3] == close[i + 3];
  }

  lemma MarkerCounts()
    ensures Matches(OPEN, OPEN) == 1 && Matches(CLOSE, CLOSE) == 1
    ensures Matches(CLOSE, OPEN) == 0 && Matches(OPEN, CLOSE) == 0
  {
    OpenSpelling();
    CloseSpelling();
    MatchesItself(OPEN);
    MatchesItself(CLOSE);
    MarkersApart(OPEN, CLOSE);
    MatchesNone(OPEN, CLOSE);
    MatchesNone(CLOSE, OPEN);
  }

  lemma WrapMatches(m: string, framing: string, open: string, source: string, fenced: string, close: string)
    requires m != "" && '\n' !in m
    ensures Matches(m, framing + ("\n" + ("" + ("\n" + (open + ("\n" + (source + ("\n" + (fenced + ("\n" + close))))))))))
         == Matches(m, framing) + Matches(m, open) + Matches(m, source) + Matches(m, fenced) + Matches(m, close)
  {
    var tail := fenced + ("\n" + close);
    MatchesAcross(m, fenced, '\n', close);
    MatchesAcross(m, source, '\n', tail);
    MatchesAcross(m, open, '\n', source + ("\n" + tail));
    MatchesAcross(m, "", '\n', open + ("\n" + (source + ("\n" + tail))));
    MatchesAcross(m, framing, '\n', "" + ("\n" + (open + ("\n" + (source + ("\n" + tail))))));
  }

  lemma NoBracketNoMatch(m: string, s: string)
    requires m != "" && m[0] == '<' && '<' !in s
    ensures Matches(m, s) == 0
  {
    AbsentWithoutFirst(m, s);
    MatchesNone(m, s);
  }

  lemma WrapCount(m: string, framing: string, caption: string, text: string, isAlphanumeric: char -> bool)
    requires FramingText(framing) && AlphanumericTable(isAlphanumeric)
    requires m == OPEN || m == CLOSE
    ensures Matches(m, WrapDocument(framing, caption, text, isAlphanumeric)) == 1
  {
    hide SourceLine, Fenced, Matches;
    var source, fenced := SourceLine(caption, isAlphanumeric), Fenced(text);
    OpenSpelling();
    CloseSpelling();
    MarkerCounts();
    SourceLineFree(caption, isAlphanumeric);
    FencedFree(text);
    NoBracketNoMatch(m, framing);
    NoBracketNoMatch(m, source);
    MatchesNone(m, fenced);
    WrapMatches(m, framing, OPEN, source, fenced, CLOSE);
  }

  /** Every wrapped document holds exactly one opening and one closing marker, and the scanner of
      wrapped bodies reports nothing. */
  lemma FenceHolds(framing: string, caption: string, text: string, isAlphanumeric: char -> bool)
    requires FramingText(framing) && AlphanumericTable(isAlphanumeric)
    ensures var body := WrapDocument(framing, caption, text, isAlphanumeric);
            HasIntactSingleBlock(body) && DelimiterAttempts(body) == 0
  {
    hide WrapDocument, Matches;
    WrapCount(OPEN, framing, caption, text, isAlphanumeric);
    WrapCount(CLOSE, framing, caption, text, isAlphanumeric);
  }

  /** A prompt that puts any text in front of a wrapped document passes the gateway's check
      exactly when that text holds neither marker. */
  lemma PreambleMustBeFree(preamble: string, framing: string, caption: string, text: string, isAlphanumeric: char -> bool)
    requires FramingText(framing) && AlphanumericTable(isAlphanumeric)
    ensures HasIntactSingleBlock(preamble + WrapDocument(framing, caption, text, isAlphanumeric))
       <==> Absent(OPEN, preamble) && Absent(CLOSE, preamble)
  {
    hide WrapDocument, Matches, Absent;
    PreambleCount(OPEN, preamble, framing, caption, text, isAlphanumeric);
    PreambleCount(CLOSE, preamble, framing, caption, text, isAlphanumeric);
  }

  lemma PreambleCount(m: string, preamble: string, framing: string, caption: string, text: string, isAlphanumeric: char -> bool)
    requires FramingText(framing) && AlphanumericTable(isAlphanumeric)
    requires m == OPEN || m == CLOSE
    ensures Matches(m, preamble + WrapDocument(framing, caption, text, isAlphanumeric)) == 1 <==> Absent(m, preamble)
  {
    hide Matches, SourceLine, Fenced, Block;
    var body := WrapDocument(framing, caption, text, isAlphanumeric);
    var tail := framing[1..] + ("\n" + ("" + ("\n" + Block(SourceLine(caption, isAlphanumeric), Fenced(text)))));
    assert framing == [framing[0]] + framing[1..];
    assert body == "" + ([framing[0]] + tail);
    assert preamble + body == preamble + ([framing[0]] + tail);
    MatchesAcross(m, "", framing[0], tail);
    MatchesAcross(m, preamble, framing[0], tail);
    WrapCount(m, framing, caption, text, isAlphanumeric);
    MatchesNone(m, preamble);
    AbsentEmpty(m);
    MatchesNone(m, "");
  }

  /** The scanner's count is zero exactly for an intact block, or when the 32-bit cast loses an excess
      of a multiple of 2^32, for which no body shorter than that is long enough. */
  lemma AttemptsExactly(body: string)
    ensures DelimiterAttempts(body) == 0
       <==> HasIntactSingleBlock(body) || (Excess(body) > 0 && Excess(body) % 0x1_0000_0000 == 0)
    ensures |body| < 0x1_0000_0000 ==> (DelimiterAttempts(body) == 0 <==> HasIntactSingleBlock(body))
  {
    MatchesBounded(OPEN, body);
    MatchesBounded(CLOSE, body);
  }

  /** What is reported for a body without the one block: the markers beyond one of each kind, and at
      least one, in 32 bits. */
  lemma AttemptsCounted(body: string)
    ensures var opens, closes := Matches(OPEN, body), Matches(CLOSE, body);
            && (opens >= 1 && closes >= 1 ==> Excess(body) == opens + closes - 2)
            && (opens == 0 && closes >= 1 ==> Excess(body) == closes - 1)
            && (opens >= 1 && closes == 0 ==> Excess(body) == opens - 1)
            && (opens == 0 && closes == 0 ==> Excess(body) == 0)
            && (opens == 1 && closes == 1 ==> DelimiterAttempts(body) == 0)
            && (!(opens == 1 && closes == 1) && Excess(body) <= 1 ==> DelimiterAttempts(body) == 1)
            && (Excess(body) >= 1 ==> DelimiterAttempts(body) == Excess(body) % 0x1_0000_0000)
  {
    hide Matches;
  }

  lemma {:induction false} MatchesBounded(m: string, s: string)
    requires |m| >= 2
    ensures 2 * Matches(m, s) <= |s|
    decreases |s|
  {
    if |s| >= |m| {
      if m <= s {
        MatchesBounded(m, s[|m|..]);
      } else {
        MatchesBounded(m, s[1..]);
      }
    }
  }

  // ---- The text survives -------------------------------------------------------------------

  /** Reads the text back out of a wrapped body: after the opening marker and the source line, up
      to the closing marker. */
  function Unwrap(body: string): (text: string) {
    Between(body, OPEN, CLOSE)
  }

  function Between(body: string, open: string, close: string): (text: string)
    requires open != ""
  {
    var start := IndexOf(open, body) + |open| + 1;
    if start > |body| then ""
    else
      var block := body[start..];
      var line := IndexOf("\n", block) + 1;
      if line + 1 + |close| > |block| then "" else block[line..|block| - 1 - |close|]
  }

  lemma FencedExactly(text: string)
    ensures Fenced(text) == text <==> Absent(OPEN, text) && Absent(CLOSE, text)
  {
    hide Absent, Replace;
    FencedFree(text);
    OpenSpelling();
    CloseSpelling();
    if Absent(OPEN, text) && Absent(CLOSE, text) {
      ReplaceIdentity(text, OPEN, ESCAPED);
      ReplaceIdentity(text, CLOSE, ESCAPED);
    }
  }

  /** The document's text comes back out of the fence exactly when it held no marker; otherwise
      what comes back is the text with every marker replaced. */
  lemma TextSurvives(framing: string, caption: string, text: string, isAlphanumeric: char -> bool)
    requires FramingText(framing) && AlphanumericTable(isAlphanumeric)
    ensures var back := Unwrap(WrapDocument(framing, caption, text, isAlphanumeric));
            && back == Fenced(text)
            && (back == text <==> Absent(OPEN, text) && Absent(CLOSE, text))
  {
    hide SourceLine, Fenced, Absent, IndexOf;
    var source, fenced := SourceLine(caption, isAlphanumeric), Fenced(text);
    FencedExactly(text);
    SourceLineFree(caption, isAlphanumeric);
    OpenSpelling();
    AbsentWithoutFirst(OPEN, framing);
    IndexWrapped(OPEN, framing, source + ("\n" + (fenced + ("\n" + CLOSE))));
    AbsentWithoutFirst("\n", source);
    IndexFirst("\n", source, fenced + ("\n" + CLOSE));
    UnwrapParts(framing, OPEN, source, fenced, CLOSE);
  }

  lemma IndexWrapped(m: string, framing: string, tail: string)
    requires m != "" && '\n' !in m && Absent(m, framing)
    ensures IndexOf(m, framing + ("\n" + ("" + ("\n" + (m + ("\n" + tail)))))) == |framing| + 2
  {
    var block := m + ("\n" + tail);
    AbsentEmpty(m);
    IndexAcross(m, "", '\n', block);
    IndexAcross(m, framing, '\n', "" + ("\n" + block));
    assert m <= block;
  }

  lemma {:induction false} IndexFirst(m: string, a: string, b: string)
    requires |m| == 1 && Absent(m, a)
    ensures IndexOf(m, a + (m + b)) == |a|
    decreases |a|
  {
    var s := a + (m + b);
    if a == "" {
      assert m <= s;
    } else {
      assert a == [a[0]] + a[1..] && s[1..] == a[1..] + (m + b);
      AbsentInPart(m, [a[0]], a[1..]);
      assert !OccursAt(m, a, 0) && a[0..1] == [a[0]];
      IndexFirst(m, a[1..], b);
    }
  }

  lemma UnwrapParts(framing: string, open: string, source: string, fenced: string, close: string)
    requires open != ""
    requires var body := framing + ("\n" + ("" + ("\n" + (open + ("\n" + (source + ("\n" + (fenced + ("\n" + close)))))))));
             IndexOf(open, body) == |framing| + 2
    requires IndexOf("\n", source + ("\n" + (fenced + ("\n" + close)))) == |source|
    ensures var body := framing + ("\n" + ("" + ("\n" + (open + ("\n" + (source + ("\n" + (fenced + ("\n" + close)))))))));
            Between(body, open, close) == fenced
  {
    hide IndexOf;
    var block := source + ("\n" + (fenced + ("\n" + close)));
    var body := framing + ("\n" + ("" + ("\n" + (open + ("\n" + block)))));
    assert body[|framing| + 2 + |open| + 1..] == block;
    assert block[|source| + 1..|block| - 1 - |close|] == fenced;
  }
}
