/** A line of a statement: a label and columns of amounts. When do the columns come back? */
module Columns {
  import opened Basics
  import opened Amounts
  import opened Money

  /** An amount in whole kronor, the spaces in front of it, and its grouping separator. */
  datatype Column = Column(gap: nat, value: int, separator: char)

  function Spaces(n: nat): (text: string)
    ensures |text| == n && forall k :: 0 <= k < n ==> text[k] == ' '
  {
    seq(n, _ => ' ')
  }

  function ColumnText(c: Column): (text: string) {
    SignedNumeral(c.value < 0, Magnitude(c.value), c.separator, "")
  }

  function Render(cols: seq<Column>): (text: string) {
    if cols == [] then ""
    else Spaces(cols[0].gap) + (ColumnText(cols[0]) + Render(cols[1..]))
  }

  predicate ValidColumn(c: Column) {
    I64_MIN <= c.value <= I64_MAX && IsSeparator(c.separator)
  }

  /** Columns after the first stand at least one space apart. */
  predicate Spaced(cols: seq<Column>) {
    forall k :: 0 <= k < |cols| ==> ValidColumn(cols[k]) && cols[k].gap >= 1
  }

  function Values(cols: seq<Column>): (values: seq<int>)
    ensures |values| == |cols| && forall k :: 0 <= k < |cols| ==> values[k] == cols[k].value
  {
    seq(|cols|, k requires 0 <= k < |cols| => cols[k].value)
  }

  /** A single space, no minus and a full leading group: the column looks like one more group of
      the number before it. */
  predicate Glued(c: Column) {
    c.gap == 1 && c.value >= 0 && |Decimal(c.value)| % 3 == 0
  }

  function GluedCount(cols: seq<Column>): (n: nat)
    ensures n <= |cols|
    ensures n < |cols| ==> !Glued(cols[n])
    ensures n == 0 || Glued(cols[0])
  {
    if cols != [] && Glued(cols[0]) then 1 + GluedCount(cols[1..]) else 0
  }

  function GluedDigits(cols: seq<Column>): (digits: string) {
    if cols != [] && Glued(cols[0]) then Decimal(cols[0].value) + GluedDigits(cols[1..]) else ""
  }

  /** What a reader sees on the line: each column swallows the glued columns after it. */
  function Perceived(cols: seq<Column>): (amounts: seq<int>)
    decreases |cols|
  {
    if cols == [] then []
    else
      var rest := cols[1..];
      Amount(Decimal(Magnitude(cols[0].value)) + GluedDigits(rest), false, cols[0].value < 0)
      + Perceived(rest[GluedCount(rest)..])
  }

  // ---- Rendered columns under the scanner --------------------------------------------------

  lemma RenderStart(cols: seq<Column>)
    requires Spaced(cols)
    ensures Render(cols) == "" || Render(cols)[0] == ' '
    ensures !StartsWithDigit(Render(cols)) && !SignAfter(Render(cols)) && Decimals(Render(cols)) == 0
  {
  }

  lemma {:induction false} RenderSplit(cols: seq<Column>, m: nat)
    requires m <= |cols|
    ensures Render(cols) == Render(cols[..m]) + Render(cols[m..])
  {
    if m == 0 {
      assert cols[0..] == cols && cols[..0] == [];
    } else {
      var c := cols[0];
      RenderSplit(cols[1..], m - 1);
      assert cols[1..][m - 1..] == cols[m..] && cols[..m][1..] == cols[1..][..m - 1];
      Assoc(ColumnText(c), Render(cols[1..][..m - 1]), Render(cols[m..]));
      Assoc(Spaces(c.gap), ColumnText(c) + Render(cols[1..][..m - 1]), Render(cols[m..]));
    }
  }

  /** A glued column reads as groups of the number before it. */
  lemma GluedColumn(c: Column, after: string)
    requires ValidColumn(c) && Glued(c) && !StartsWithDigit(after)
    ensures var text := Spaces(c.gap) + (ColumnText(c) + after);
            && Groups(text) == 1 + |ColumnText(c)| + Groups(after)
            && GroupDigits(text) == Decimal(c.value) + GroupDigits(after)
  {
    var digits := Decimal(c.value);
    var triples := Triples(digits[3..], c.separator);
    var more := triples + after;
    assert ColumnText(c) == digits[..3] + triples;
    GroupsOfTriples(digits[3..], c.separator, after);
    var text := Spaces(c.gap) + (ColumnText(c) + after);
    Assoc(digits[..3], triples, after);
    assert Spaces(1) == " ";
    assert text == " " + (digits[..3] + more);
    GroupTaken(' ', digits[..3], more);
    Assoc(digits[..3], digits[3..], GroupDigits(after));
    assert digits == digits[..3] + digits[3..];
  }

  lemma UngluedColumn(c: Column, after: string)
    requires ValidColumn(c) && c.gap >= 1 && !Glued(c) && !StartsWithDigit(after)
    ensures !GroupAhead(Spaces(c.gap) + (ColumnText(c) + after))
  {
    hide Decimal, Triples;
    var text := Spaces(c.gap) + (ColumnText(c) + after);
    if c.gap > 1 {
      assert text[1] == ' ';
    } else if c.value < 0 {
      assert text[1] == '-';
    } else {
      hide GroupAhead;
      var digits := Decimal(c.value);
      var lead := LeadLength(|digits|);
      var triples := Triples(digits[lead..], c.separator);
      TriplesStart(digits[lead..], c.separator, after);
      ShortGroup(digits[..lead], triples + after);
      Assoc(digits[..lead], triples, after);
      assert ColumnText(c) == digits[..lead] + triples;
      assert Spaces(1) == " ";
    }
  }

  lemma TriplesStart(digits: string, separator: char, after: string)
    requires |digits| % 3 == 0 && IsSeparator(separator) && !StartsWithDigit(after)
    ensures !StartsWithDigit(Triples(digits, separator) + after)
  {
  }

  lemma ShortGroup(group: string, more: string)
    requires AllDigits(group) && |group| < 3 && !StartsWithDigit(more)
    ensures !GroupAhead(" " + (group + more))
  {
    var s := " " + (group + more);
    assert |s| > |group| + 1 ==> s[|group| + 1] == more[0];
  }

  lemma {:induction false} GroupsOfRender(cols: seq<Column>)
    requires Spaced(cols)
    ensures Groups(Render(cols)) == |Render(cols[..GluedCount(cols)])|
    ensures GroupDigits(Render(cols)) == GluedDigits(cols)
  {
    hide Decimal, ColumnText, GroupAhead;
    if cols != [] {
      var c, rest := cols[0], cols[1..];
      RenderStart(rest);
      if Glued(c) {
        GluedColumn(c, Render(rest));
        GroupsOfRender(rest);
        var m := GluedCount(cols);
        assert cols[..m][1..] == rest[..m - 1];
        assert |Render(cols[..m])| == 1 + |ColumnText(c)| + |Render(rest[..m - 1])|;
      } else {
        UngluedColumn(c, Render(rest));
      }
    }
  }

  predicate EndsInDigit(s: string) {
    s != [] && IsDigit(s[|s| - 1])
  }

  /** Every token ends in a digit. */
  lemma {:induction false} RunEnds(s: string)
    requires StartsWithDigit(s)
    ensures IsDigit(s[Run(s) - 1])
  {
    if StartsWithDigit(s[1..]) {
      RunEnds(s[1..]);
    }
  }

  lemma {:induction false} GroupsEnd(s: string)
    requires GroupAhead(s)
    ensures IsDigit(s[Groups(s) - 1])
  {
    if GroupAhead(s[4..]) {
      GroupsEnd(s[4..]);
    }
  }

  lemma WholeEnds(s: string)
    requires StartsWithDigit(s)
    ensures IsDigit(s[WholeLength(s) - 1])
  {
    RunEnds(s);
    var after := s[Run(s)..];
    if GroupAhead(after) {
      GroupsEnd(after);
    }
  }

  lemma NoSignAcross(before: string, gap: nat)
    requires gap >= 1 && EndsInDigit(before)
    ensures !SignBehind(before + Spaces(gap))
  {
  }

  lemma TokenWithoutDecimals(front: string, tail: string)
    requires StartsWithDigit(front + tail)
    requires WholeLength(front + tail) == |front| && Decimals(tail) == 0
    ensures TokenAt(front + tail) == Token(|front|, WholeDigits(front + tail), false)
    ensures (front + tail)[..|front|] == front && (front + tail)[|front|..] == tail
  {
    assert (front + tail)[|front|..] == tail;
  }

  /** A column and the glued columns after it make one token. */
  lemma ClusterToken(c: Column, rest: seq<Column>)
    requires ValidColumn(c) && Spaced(rest)
    ensures var m := GluedCount(rest);
            var grouped := GroupedText(Decimal(Magnitude(c.value)), c.separator);
            var front := grouped + Render(rest[..m]);
            var tail := Render(rest[m..]);
            && grouped + Render(rest) == front + tail
            && StartsWithDigit(front + tail)
            && TokenAt(front + tail) == Token(|front|, Decimal(Magnitude(c.value)) + GluedDigits(rest), false)
            && EndsInDigit(front)
  {
    hide TokenAt, WholeLength, WholeDigits, Decimals, GroupedText, Decimal, Render, GluedDigits, GluedCount;
    var digits, m := Decimal(Magnitude(c.value)), GluedCount(rest);
    var grouped := GroupedText(digits, c.separator);
    RenderStart(rest);
    RenderStart(rest[m..]);
    WholeOfGrouped(digits, c.separator, Render(rest));
    GroupsOfRender(rest);
    RenderSplit(rest, m);
    Assoc(grouped, Render(rest[..m]), Render(rest[m..]));
    TokenWithoutDecimals(grouped + Render(rest[..m]), Render(rest[m..]));
    WholeEnds(grouped + Render(rest));
  }

  lemma ReadFront(before: string, negative: bool, front: string, integer: string, tail: string)
    returns (past: string)
    requires EndsInDigit(front)
    requires StartsWithDigit(front + tail) && TokenAt(front + tail) == Token(|front|, integer, false)
    requires negative || !SignBehind(before)
    requires !SignAfter(tail)
    ensures EndsInDigit(past)
    ensures Read(before, Sign(negative) + (front + tail)) == Amount(integer, false, negative) + Read(past, tail)
  {
    hide TokenAt, SignBehind, SignAfter, Read, Amount;
    ReadSkipsText(before, Sign(negative), front + tail);
    SignRead(before, negative);
    var ahead := before + Sign(negative);
    assert (front + tail)[..|front|] == front && (front + tail)[|front|..] == tail;
    past := ahead + front;
    assert past[|past| - 1] == front[|front| - 1];
    ReadToken(ahead, front + tail, past, tail);
  }

  lemma ColumnSplits(c: Column, rest: seq<Column>) returns (front: string, tail: string)
    requires ValidColumn(c) && Spaced(rest)
    ensures ColumnText(c) + Render(rest) == Sign(c.value < 0) + (front + tail)
    ensures StartsWithDigit(front + tail)
    ensures TokenAt(front + tail) == Token(|front|, Decimal(Magnitude(c.value)) + GluedDigits(rest), false)
    ensures EndsInDigit(front)
    ensures tail == Render(rest[GluedCount(rest)..]) && !SignAfter(tail)
  {
    hide TokenAt, Render, Decimal, GroupedText, GluedDigits, GluedCount;
    var grouped, m := GroupedText(Decimal(Magnitude(c.value)), c.separator), GluedCount(rest);
    front, tail := grouped + Render(rest[..m]), Render(rest[m..]);
    ClusterToken(c, rest);
    RenderStart(rest[m..]);
    assert grouped + "" == grouped;
    Assoc(Sign(c.value < 0), grouped, Render(rest));
  }

  lemma ReadColumn(before: string, c: Column, rest: seq<Column>) returns (past: string)
    requires ValidColumn(c) && Spaced(rest)
    requires c.value < 0 || !SignBehind(before + Spaces(c.gap))
    ensures EndsInDigit(past)
    ensures Read(before, Spaces(c.gap) + (ColumnText(c) + Render(rest)))
         == Amount(Decimal(Magnitude(c.value)) + GluedDigits(rest), false, c.value < 0)
            + Read(past, Render(rest[GluedCount(rest)..]))
  {
    ReadSkipsText(before, Spaces(c.gap), ColumnText(c) + Render(rest));
    var front, tail := ColumnSplits(c, rest);
    var integer := Decimal(Magnitude(c.value)) + GluedDigits(rest);
    past := ReadFront(before + Spaces(c.gap), c.value < 0, front, integer, tail);
  }

  /** The scanner on a rendered line returns exactly what the line is perceived to hold. */
  lemma {:induction false} ReadRender(before: string, cols: seq<Column>)
    requires forall k :: 0 <= k < |cols| ==> ValidColumn(cols[k])
    requires cols != [] ==> Spaced(cols[1..])
    requires cols != [] ==> cols[0].value < 0 || !SignBehind(before + Spaces(cols[0].gap))
    ensures Read(before, Render(cols)) == Perceived(cols)
    decreases |cols|
  {
    hide ColumnText, Decimal, GluedCount, GluedDigits, SignBehind, Amount, TokenAt;
    if cols != [] {
      var rest := cols[1..];
      var m := GluedCount(rest);
      var past := ReadColumn(before, cols[0], rest);
      if m < |rest| {
        NoSignAcross(past, rest[m].gap);
      }
      ReadRender(past, rest[m..]);
    }
  }

  // ---- The first column --------------------------------------------------------------------

  /** The first column keeps its own amount: it is not the least `i64`, and nothing is glued to it. */
  predicate FirstStands(cols: seq<Column>)
    requires cols != []
  {
    cols[0].value != I64_MIN && (|cols| > 1 ==> !Glued(cols[1]))
  }

  /** The amount of the first column and of what is glued to it, if it fits. */
  function FirstAmount(cols: seq<Column>): (amounts: seq<int>)
    requires cols != []
    ensures |amounts| <= 1
  {
    Amount(Decimal(Magnitude(cols[0].value)) + GluedDigits(cols[1..]), false, cols[0].value < 0)
  }

  function AfterFirst(cols: seq<Column>): (rest: seq<Column>)
    requires cols != []
  {
    cols[1..][GluedCount(cols[1..])..]
  }

  lemma {:induction false} NumberOfGrows(a: string, b: string)
    ensures NumberOf(a + b) >= NumberOf(a) + NumberOf(b)
  {
    if b == "" {
      assert a + b == a;
    } else {
      var n := |b| - 1;
      assert (a + b)[..|a + b| - 1] == a + b[..n];
      NumberOfGrows(a, b[..n]);
    }
  }

  lemma GluedIsPositive(rest: seq<Column>)
    requires rest != [] && Glued(rest[0])
    ensures NumberOf(GluedDigits(rest)) >= 1
  {
    NumberOfGrows(Decimal(rest[0].value), GluedDigits(rest[1..]));
    assert Decimal(0) == "0";
  }

  lemma FirstAmountExactly(cols: seq<Column>)
    requires cols != [] && ValidColumn(cols[0])
    ensures FirstAmount(cols) == [cols[0].value] <==> FirstStands(cols)
  {
    hide Glued, GluedCount, Decimal;
    var rest, digits := cols[1..], Decimal(Magnitude(cols[0].value));
    assert rest != [] ==> rest[0] == cols[1];
    if rest != [] && Glued(rest[0]) {
      GluedIsPositive(rest);
      NumberOfGrows(digits, GluedDigits(rest));
    } else {
      NothingGlued(rest);
      assert digits + "" == digits;
    }
  }

  /** The first amount read off a row is the first column's exactly when that column stands on its
      own, or else when it came to nothing, too large to fit, and the next amount happens to equal it. */
  lemma FirstColumnExactly(caption: string, cols: seq<Column>)
    requires NoDigits(caption) && cols != [] && forall k :: 0 <= k < |cols| ==> ValidColumn(cols[k])
    requires Spaced(cols[1..]) && (cols[0].value < 0 || !SignBehind(caption + Spaces(cols[0].gap)))
    ensures Read("", caption + Render(cols)) == FirstAmount(cols) + Perceived(AfterFirst(cols))
    ensures var amounts, next := Read("", caption + Render(cols)), Perceived(AfterFirst(cols));
            (amounts != [] && amounts[0] == cols[0].value
             <==> FirstStands(cols) || (FirstAmount(cols) == [] && next != [] && next[0] == cols[0].value))
  {
    hide Read, Render, FirstStands, Amount, SignBehind, GluedCount, GluedDigits, ValidColumn, Glued;
    ReadSkipsText("", caption, Render(cols));
    assert "" + caption == caption;
    ReadRender(caption, cols);
    FirstAmountExactly(cols);
  }

  // ---- The law of columns ------------------------------------------------------------------

  ghost predicate NoneGlued(cols: seq<Column>) {
    forall k :: 0 < k < |cols| ==> !Glued(cols[k])
  }

  ghost predicate NoneMinimal(cols: seq<Column>) {
    forall k :: 0 <= k < |cols| ==> cols[k].value != I64_MIN
  }

  /** A first column that nothing is glued to is perceived as itself. */
  lemma PerceivedFirst(cols: seq<Column>)
    requires cols != [] && ValidColumn(cols[0]) && cols[0].value != I64_MIN
    requires |cols| > 1 ==> !Glued(cols[1])
    ensures Perceived(cols) == [cols[0].value] + Perceived(cols[1..])
  {
    hide Decimal, Glued, GluedCount, GluedDigits, Amount;
    var rest, digits := cols[1..], Decimal(Magnitude(cols[0].value));
    assert rest != [] ==> rest[0] == cols[1];
    NothingGlued(rest);
    AmountOfDecimal(cols[0].value);
    assert digits + "" == digits;
  }

  lemma NothingGlued(rest: seq<Column>)
    requires rest != [] ==> !Glued(rest[0])
    ensures GluedCount(rest) == 0 && GluedDigits(rest) == "" && rest[0..] == rest
  {
  }

  lemma AmountOfDecimal(value: int)
    requires I64_MIN < value <= I64_MAX
    ensures Amount(Decimal(Magnitude(value)), false, value < 0) == [value]
  {
  }

  lemma {:induction false} PerceivedExactly(cols: seq<Column>)
    requires forall k :: 0 <= k < |cols| ==> ValidColumn(cols[k])
    requires NoneGlued(cols) && NoneMinimal(cols)
    ensures Perceived(cols) == Values(cols)
  {
    hide Glued, Perceived, ValidColumn;
    if cols == [] {
      NothingPerceived();
    } else {
      var rest := cols[1..];
      PerceivedFirst(cols);
      PerceivedExactly(rest);
      assert Values(cols) == [cols[0].value] + Values(rest);
    }
  }

  lemma NothingPerceived()
    ensures Perceived([]) == []
  {
  }

  lemma {:induction false} PerceivedFewer(cols: seq<Column>)
    requires forall k :: 0 <= k < |cols| ==> ValidColumn(cols[k])
    ensures |Perceived(cols)| <= |cols|
    ensures !NoneGlued(cols) || !NoneMinimal(cols) ==> |Perceived(cols)| < |cols|
    decreases |cols|
  {
    if cols != [] {
      var rest := cols[1..];
      var m := GluedCount(rest);
      PerceivedFewer(rest[m..]);
      if m == 0 && cols[0].value == I64_MIN {
        var digits := Decimal(Magnitude(cols[0].value));
        assert digits + "" == digits;
      } else if m == 0 {
        assert rest[0..] == rest;
        assert NoneGlued(rest) && NoneMinimal(rest) ==> NoneGlued(cols) && NoneMinimal(cols) by {
          assert forall k :: 0 < k < |cols| ==> cols[k] == rest[k - 1];
        }
      }
    }
  }

  /** Columns behind a label come back, in order and complete, exactly when no column after the
      first is glued to its predecessor and no amount is the least `i64`, whose magnitude the
      parser cannot hold. */
  lemma ColumnsReadBack(caption: string, cols: seq<Column>)
    requires NoDigits(caption)
    requires forall k :: 0 <= k < |cols| ==> ValidColumn(cols[k])
    requires cols != [] ==> Spaced(cols[1..])
    requires cols != [] ==> cols[0].value < 0 || !SignBehind(caption + Spaces(cols[0].gap))
    ensures Read("", caption + Render(cols)) == Values(cols) <==> NoneGlued(cols) && NoneMinimal(cols)
  {
    ReadSkipsText("", caption, Render(cols));
    assert "" + caption == caption;
    ReadRender(caption, cols);
    PerceivedFewer(cols);
    if NoneGlued(cols) && NoneMinimal(cols) {
      PerceivedExactly(cols);
    }
  }

  /** A trailing minus also negates the next column when at most one space separates them. */
  lemma TrailingMinusReach(a: int, b: int, separator: char, gap: nat)
    requires 0 <= a <= I64_MAX && 0 <= b <= I64_MAX && IsSeparator(separator)
    ensures var first, second := SignedNumeral(false, a, separator, ""), SignedNumeral(false, b, separator, "");
            Read("", first + (("-" + Spaces(gap)) + second)) == [-a] + [if gap >= 2 then b else -b]
  {
    var first, second := SignedNumeral(false, a, separator, ""), SignedNumeral(false, b, separator, "");
    var minus := "-" + Spaces(gap);
    assert SignAfter(minus + second);
    ReadUnsigned("", a, separator, minus + second);
    ReadSkipsText("" + first, minus, second);
    ReadLast("" + first + minus, b, separator);
    MinusBehind("" + first, gap);
  }

  lemma MinusBehind(before: string, gap: nat)
    ensures SignBehind(before + ("-" + Spaces(gap))) == (gap < 2)
  {
    var text := before + ("-" + Spaces(gap));
    if gap >= 2 {
      assert text[|text| - 1] == ' ' && text[|text| - 2] == ' ';
    } else if gap == 1 {
      assert text[|text| - 1] == ' ' && text[|text| - 2] == '-';
    } else {
      assert text[|text| - 1] == '-';
    }
  }

  lemma ReadUnsigned(before: string, k: int, separator: char, after: string)
    requires 0 <= k <= I64_MAX && IsSeparator(separator) && Ends("", after)
    ensures var text := SignedNumeral(false, k, separator, "");
            var negative := SignBehind(before) || SignAfter(after);
            Read(before, text + after) == [if negative then -k else k] + Read(before + text, after)
  {
    assert SignedNumeral(false, k, separator, "") == GroupedText(Decimal(k), separator) + "";
    ReadNumeral(before, k, separator, "", after);
  }

  lemma ReadLast(before: string, k: int, separator: char)
    requires 0 <= k <= I64_MAX && IsSeparator(separator)
    ensures Read(before, SignedNumeral(false, k, separator, "")) == [if SignBehind(before) then -k else k]
  {
    var text := SignedNumeral(false, k, separator, "");
    assert text + "" == text;
    ReadUnsigned(before, k, separator, "");
  }
}
