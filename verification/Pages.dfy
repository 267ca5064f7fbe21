/** Facts read off a page of a statement: the label of a line, and the first amount on it. */
module Pages {
  import opened Basics
  import opened Amounts
  import opened Columns
  import opened Facts
  import opened Money
  import opened Substrings
  import opened Texts

  datatype Entry = Entry(text: string, kind: FactKind)

  /** The label table, the phrases that rule a line out, and how text is lowered. */
  datatype Labels = Labels(table: seq<Entry>, notAFact: seq<string>, lower: string -> string)

  datatype Scale = Kronor | Thousands

  function Multiplier(scale: Scale): (m: int) {
    match scale
    case Kronor => 1
    case Thousands => 1_000
  }

  datatype ExtractedFact = ExtractedFact(kind: FactKind, amount: int, page: nat, source: string)

  // ---- The label of a line -----------------------------------------------------------------

  predicate Contains(s: string, m: string) {
    exists i :: 0 <= i <= |s| && OccursAt(m, s, i)
  }

  predicate RuledOut(phrases: seq<string>, s: string) {
    exists k :: 0 <= k < |phrases| && Contains(s, phrases[k])
  }

  lemma ContainsExactly(s: string, phrases: seq<string>)
    ensures forall m :: Contains(s, m) <==> !Absent(m, s)
    ensures RuledOut(phrases, s) <==> exists k :: 0 <= k < |phrases| && !Absent(phrases[k], s)
  {
    forall m ensures Contains(s, m) <==> !Absent(m, s) {
      if i :| OccursAt(m, s, i) {
        assert 0 <= i <= |s|;
      }
    }
  }

  /** The last of the longest labels that `s` contains. */
  function Longest(table: seq<Entry>, s: string): (best: Option<Entry>) {
    if table == [] then None
    else
      var best, last := Longest(table[..|table| - 1], s), table[|table| - 1];
      if Contains(s, last.text) && (best.None? || ByteLength(last.text) >= ByteLength(best.value.text)) then Some(last)
      else best
  }

  function MatchLabel(l: Labels, line: string): (kind: Option<FactKind>) {
    var s := Normal(l.lower(line));
    if RuledOut(l.notAFact, s) then None
    else
      match Longest(l.table, s)
      case None => None
      case Some(entry) => Some(entry.kind)
  }

  /** The entry at `k` is on the line and no longer one is, nor a later one as long. */
  ghost predicate Wins(table: seq<Entry>, s: string, k: int) {
    && 0 <= k < |table| && Contains(s, table[k].text)
    && (forall j :: 0 <= j < |table| && Contains(s, table[j].text) ==> ByteLength(table[j].text) <= ByteLength(table[k].text))
    && (forall j :: k < j < |table| && Contains(s, table[j].text) ==> ByteLength(table[j].text) < ByteLength(table[k].text))
  }

  lemma {:induction false} LongestWins(table: seq<Entry>, s: string) returns (k: int)
    ensures k == -1 ==> Longest(table, s).None? && forall j :: 0 <= j < |table| ==> !Contains(s, table[j].text)
    ensures k != -1 ==> Wins(table, s, k) && Longest(table, s) == Some(table[k])
  {
    hide Contains, ByteLength;
    k := -1;
    if table != [] {
      var n := |table| - 1;
      k := LongestWins(table[..n], s);
      if Longest(table, s) == Some(table[n]) && Contains(s, table[n].text) && (k == -1 || ByteLength(table[n].text) >= ByteLength(table[k].text)) {
        k := n;
      }
    }
  }

  /** A line has a label exactly when no phrase rules it out and the table has an entry it contains;
      a shorter label never shadows a longer one. */
  lemma LongestLabelWins(l: Labels, line: string, kind: FactKind)
    ensures MatchLabel(l, line) == Some(kind)
       <==> (&& !RuledOut(l.notAFact, Normal(l.lower(line)))
             && exists k :: Wins(l.table, Normal(l.lower(line)), k) && l.table[k].kind == kind)
  {
    hide Contains, ByteLength, Longest, RuledOut;
    var s := Normal(l.lower(line));
    var k := LongestWins(l.table, s);
    if exists j :: Wins(l.table, s, j) {
      var j :| Wins(l.table, s, j);
      assert k != -1 && j == k;
    }
  }

  /** However the words of a line are spaced, it has the same label. */
  lemma SpacingIgnored(l: Labels, a: string, b: string)
    requires Words(l.lower(a)) == Words(l.lower(b))
    ensures MatchLabel(l, a) == MatchLabel(l, b)
  {
    NormalisedExactly(l.lower(a), l.lower(b));
  }

  // ---- The facts of a page -----------------------------------------------------------------

  /** The amount in kronor, unless it does not fit an `i64`. */
  function Priced(kind: FactKind, first: int, scale: Scale, page: nat, source: string): (f: Option<ExtractedFact>) {
    var amount := first * Multiplier(scale);
    if I64_MIN <= amount <= I64_MAX then Some(ExtractedFact(kind, amount, page, source)) else None
  }

  /** Whether the amount of line `i` is looked for on the next line. */
  predicate LooksAhead(l: Labels, lines: seq<string>, i: nat)
    requires i < |lines|
  {
    Read("", lines[i]) == [] && i + 1 < |lines| && MatchLabel(l, lines[i + 1]).None?
  }

  function FactAt(l: Labels, scale: Scale, page: nat, lines: seq<string>, i: nat): (f: Option<ExtractedFact>)
    requires i < |lines|
  {
    match MatchLabel(l, lines[i])
    case None => None
    case Some(kind) =>
      var found := Read("", lines[i]);
      if found != [] then Priced(kind, found[0], scale, page, Trim(lines[i]))
      else if LooksAhead(l, lines, i) then
        var next := Read("", lines[i + 1]);
        if next == [] then None
        else Priced(kind, next[0], scale, page, Trim(Trim(lines[i]) + " " + Trim(lines[i + 1])))
      else None
  }

  function FactsUpTo(l: Labels, scale: Scale, page: nat, lines: seq<string>, n: nat): (facts: seq<ExtractedFact>)
    requires n <= |lines|
  {
    if n == 0 then []
    else
      FactsUpTo(l, scale, page, lines, n - 1)
      + match FactAt(l, scale, page, lines, n - 1) case None => [] case Some(fact) => [fact]
  }

  method ExtractFromPage(l: Labels, page: nat, lines: seq<string>, scale: Scale) returns (facts: seq<ExtractedFact>)
    ensures facts == FactsUpTo(l, scale, page, lines, |lines|)
  {
    hide MatchLabel, Read, Trim, Multiplier;
    facts := [];
    var index := 0;
    while index < |lines|
      invariant 0 <= index <= |lines|
      invariant facts == FactsUpTo(l, scale, page, lines, index)
    {
      var line := lines[index];
      var kind := MatchLabel(l, line);
      index := index + 1;
      if kind.None? {
        continue;
      }
      var amounts := FindAmounts(line);
      var source := line;
      if amounts == [] {
        source := "";
        if index < |lines| && MatchLabel(l, lines[index]).None? {
          amounts := FindAmounts(lines[index]);
          source := Trim(line) + " " + Trim(lines[index]);
        }
      }
      if amounts == [] {
        continue;
      }
      var amount := amounts[0] * Multiplier(scale);
      if !(I64_MIN <= amount <= I64_MAX) {
        continue;
      }
      facts := facts + [ExtractedFact(kind.value, amount, page, Trim(source))];
    }
  }

  // ---- What is read ------------------------------------------------------------------------

  lemma NoDigitsNoAmounts(text: string)
    requires NoDigits(text)
    ensures Read("", text) == []
  {
    ReadSkipsText("", text, "");
    assert text + "" == text;
  }

  /** A row of columns whose first one keeps its own amount. */
  ghost predicate Readable(before: string, cols: seq<Column>) {
    && cols != []
    && (forall k :: 0 <= k < |cols| ==> ValidColumn(cols[k]))
    && Spaced(cols[1..]) && FirstStands(cols)
    && (cols[0].value < 0 || !SignBehind(before + Spaces(cols[0].gap)))
  }

  /** A labelled line gives its first column: the year under analysis, whatever columns follow. */
  lemma FirstColumnTaken(l: Labels, scale: Scale, page: nat, lines: seq<string>, i: nat, caption: string, cols: seq<Column>, kind: FactKind)
    requires i < |lines| && lines[i] == caption + Render(cols)
    requires NoDigits(caption) && Readable(caption, cols)
    requires MatchLabel(l, lines[i]) == Some(kind)
    ensures scale == Kronor ==>
              FactAt(l, scale, page, lines, i) == Some(ExtractedFact(kind, cols[0].value, page, Trim(lines[i])))
    ensures scale == Thousands ==>
              FactAt(l, scale, page, lines, i)
              == if I64_MIN <= 1_000 * cols[0].value <= I64_MAX
                 then Some(ExtractedFact(kind, 1_000 * cols[0].value, page, Trim(lines[i]))) else None
  {
    hide MatchLabel, Read, Render, Trim, FirstStands, SignBehind;
    FirstColumnExactly(caption, cols);
  }

  /** A row broken after its label gives the first column of the next line. */
  lemma BrokenRowTaken(l: Labels, scale: Scale, page: nat, lines: seq<string>, i: nat, cols: seq<Column>, kind: FactKind)
    requires i + 1 < |lines| && lines[i + 1] == Render(cols)
    requires NoDigits(lines[i]) && Readable("", cols)
    requires MatchLabel(l, lines[i]) == Some(kind) && MatchLabel(l, lines[i + 1]) == None
    ensures var source := Trim(Trim(lines[i]) + " " + Trim(lines[i + 1]));
            && (scale == Kronor ==> FactAt(l, scale, page, lines, i) == Some(ExtractedFact(kind, cols[0].value, page, source)))
            && (scale == Thousands ==>
                  FactAt(l, scale, page, lines, i)
                  == if I64_MIN <= 1_000 * cols[0].value <= I64_MAX
                     then Some(ExtractedFact(kind, 1_000 * cols[0].value, page, source)) else None)
  {
    hide MatchLabel, Read, Render, Trim, FirstStands, SignBehind, Perceived, FirstAmount, AfterFirst, Spaces, Glued;
    NoDigitsNoAmounts(lines[i]);
    FirstColumnExactly("", cols);
    assert "" + Render(cols) == Render(cols);
  }

  /** A labelled line that prints an amount of money gives that amount in whole kronor; a sign or
      parenthesis at the end of the label negates it. */
  lemma PrintedMoneyTaken(l: Labels, scale: Scale, page: nat, lines: seq<string>, i: nat, caption: string, ore: int, rest: string, kind: FactKind)
    requires i < |lines| && lines[i] == caption + (MoneyText(ore) + rest)
    requires NoDigits(caption) && I64_MIN <= ore <= I64_MAX
    requires MatchLabel(l, lines[i]) == Some(kind)
    ensures var kronor := KronorBehind(caption, ore);
            && (scale == Kronor ==> FactAt(l, scale, page, lines, i) == Some(ExtractedFact(kind, kronor, page, Trim(lines[i]))))
            && (scale == Thousands ==>
                  FactAt(l, scale, page, lines, i)
                  == if I64_MIN <= 1_000 * kronor <= I64_MAX
                     then Some(ExtractedFact(kind, 1_000 * kronor, page, Trim(lines[i]))) else None)
  {
    hide MatchLabel, Read, MoneyText, Trim;
    ReadSkipsText("", caption, MoneyText(ore) + rest);
    assert "" + caption == caption;
    ReadMoney(caption, ore, rest);
  }

  /** The line whose amount the fact of line `i` is. */
  function SourceLine(lines: seq<string>, i: nat): (k: nat)
    requires i < |lines|
  {
    if Read("", lines[i]) == [] then i + 1 else i
  }

  /** No amount is read twice, and facts come in the order of the lines they are read from. */
  lemma NoAmountTwice(l: Labels, scale: Scale, page: nat, lines: seq<string>, i: nat, j: nat)
    requires i < j < |lines|
    requires FactAt(l, scale, page, lines, i).Some? && FactAt(l, scale, page, lines, j).Some?
    ensures SourceLine(lines, i) < SourceLine(lines, j) < |lines|
    ensures Read("", lines[SourceLine(lines, i)]) != []
            && FactAt(l, scale, page, lines, i).value.amount == Multiplier(scale) * Read("", lines[SourceLine(lines, i)])[0]
  {
    hide MatchLabel, Read, Trim, Multiplier;
  }

  /** A fact comes from a labelled line and no other. */
  lemma {:induction false} FactsExactly(l: Labels, scale: Scale, page: nat, lines: seq<string>, n: nat, fact: ExtractedFact)
    requires n <= |lines|
    ensures fact in FactsUpTo(l, scale, page, lines, n)
       <==> exists i :: 0 <= i < n && FactAt(l, scale, page, lines, i) == Some(fact)
  {
    hide FactAt;
    if n > 0 {
      FactsExactly(l, scale, page, lines, n - 1, fact);
    }
  }

  /** Thousands are a thousand times the kronor, or nothing when they do not fit. */
  lemma ThousandsExactly(l: Labels, page: nat, lines: seq<string>, i: nat)
    requires i < |lines|
    ensures match FactAt(l, Kronor, page, lines, i)
            case None => FactAt(l, Thousands, page, lines, i) == None
            case Some(fact) =>
              FactAt(l, Thousands, page, lines, i)
              == if I64_MIN <= 1_000 * fact.amount <= I64_MAX then Some(fact.(amount := 1_000 * fact.amount)) else None
  {
    hide MatchLabel, Trim;
    ReadFits("", lines[i]);
    if i + 1 < |lines| {
      ReadFits("", lines[i + 1]);
    }
  }

  lemma {:induction false} ReadFits(before: string, rest: string)
    ensures forall k :: 0 <= k < |Read(before, rest)| ==> I64_MIN <= Read(before, rest)[k] <= I64_MAX
    decreases |rest|
  {
    hide TokenAt, SignBehind, SignAfter;
    if rest != [] {
      if !IsDigit(rest[0]) {
        ReadFits(before + [rest[0]], rest[1..]);
      } else {
        var n := TokenAt(rest).length;
        ReadFits(before + rest[..n], rest[n..]);
      }
    }
  }
}
