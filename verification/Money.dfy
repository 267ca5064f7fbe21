/** How a `Money` prints, and the law that the amount scanner reads every printed figure back. */
module Money {
  import opened Basics
  import opened Amounts

  // ---- Printing ----------------------------------------------------------------------------

  /** The leading group holds one to three digits. */
  function LeadLength(n: nat): (lead: nat)
    ensures lead <= n && (n - lead) % 3 == 0
    ensures n > 0 ==> 1 <= lead <= 3
  {
    if n == 0 then 0 else (n - 1) % 3 + 1
  }

  /** Each group of three digits, with its separator in front. */
  function Triples(digits: string, separator: char): (text: string)
    requires |digits| % 3 == 0
  {
    if digits == [] then ""
    else [separator] + digits[..3] + Triples(digits[3..], separator)
  }

  function GroupedText(digits: string, separator: char): (text: string) {
    var lead := LeadLength(|digits|);
    digits[..lead] + Triples(digits[lead..], separator)
  }

  function TwoDigits(n: nat): (text: string)
    requires n < 100
  {
    [DigitChar(n / 10), DigitChar(n % 10)]
  }

  function Magnitude(n: int): nat {
    if n < 0 then -n else n
  }

  function Sign(negative: bool): string {
    if negative then "-" else ""
  }

  /** Grouped kronor with a leading minus when negative, and the öre as given. */
  function SignedNumeral(negative: bool, kronor: nat, separator: char, ore: string): (text: string) {
    Sign(negative) + (GroupedText(Decimal(kronor), separator) + ore)
  }

  /** The printed form of an amount in öre: `-1 234 567,89 kr`, grouped by non-breaking spaces. */
  function MoneyText(ore: int): (text: string) {
    SignedNumeral(ore < 0, Magnitude(ore) / 100, NBSP, "," + TwoDigits(Magnitude(ore) % 100)) + " kr"
  }

  function MoneyRangeText(low: int, high: int): (text: string) {
    if low == high then MoneyText(low) else MoneyText(low) + [EN_DASH] + MoneyText(high)
  }

  /** `Display for Money`, digit by digit. */
  method DisplayMoney(ore: int) returns (text: string)
    ensures text == MoneyText(ore) && Printed(text, ore)
  {
    hide Decimal, GroupedText, TwoDigits, AllDigits, Printed;
    MoneyPrinted(ore);
    var kronor, rest := Magnitude(ore) / 100, Magnitude(ore) % 100;
    text := "";
    if ore < 0 {
      text := text + "-";
    }
    var digits := Decimal(kronor);
    GroupedFromStart(digits);
    for i := 0 to |digits|
      invariant text + GroupedFrom(digits, i) == Sign(ore < 0) + GroupedText(digits, NBSP)
    {
      ghost var tail := GroupedFrom(digits, i + 1);
      if i > 0 && (|digits| - i) % 3 == 0 {
        assert text + ([NBSP] + [digits[i]] + tail) == text + [NBSP] + [digits[i]] + tail;
        text := text + [NBSP];
      } else {
        assert text + ([digits[i]] + tail) == text + [digits[i]] + tail;
      }
      text := text + [digits[i]];
    }
    Assoc(Sign(ore < 0), GroupedText(digits, NBSP), "," + TwoDigits(rest));
    text := text + ("," + TwoDigits(rest)) + " kr";
  }

  /** What the printing loop still has to write from digit `i` on. */
  ghost function GroupedFrom(digits: string, i: nat): (text: string)
    requires i <= |digits|
    decreases |digits| - i
  {
    if i == |digits| then ""
    else if i > 0 && (|digits| - i) % 3 == 0 then [NBSP] + [digits[i]] + GroupedFrom(digits, i + 1)
    else [digits[i]] + GroupedFrom(digits, i + 1)
  }

  lemma {:induction false} GroupedFromTriples(digits: string, i: nat)
    requires 0 < i <= |digits| && (|digits| - i) % 3 == 0
    ensures GroupedFrom(digits, i) == Triples(digits[i..], NBSP)
    decreases |digits| - i
  {
    if i < |digits| {
      GroupedFromTriples(digits, i + 3);
      ThreeDigits(digits, i);
      assert digits[i..][3..] == digits[i + 3..] && digits[i..][..3] == digits[i..i + 3];
    }
  }

  lemma ThreeDigits(digits: string, i: nat)
    requires 0 < i && i + 3 <= |digits| && (|digits| - i) % 3 == 0
    ensures GroupedFrom(digits, i) == [NBSP] + digits[i..i + 3] + GroupedFrom(digits, i + 3)
  {
    var tail := GroupedFrom(digits, i + 3);
    assert GroupedFrom(digits, i + 2) == [digits[i + 2]] + tail;
    assert GroupedFrom(digits, i + 1) == [digits[i + 1]] + ([digits[i + 2]] + tail);
    assert GroupedFrom(digits, i) == [NBSP] + [digits[i]] + ([digits[i + 1]] + ([digits[i + 2]] + tail));
    assert digits[i..i + 3] == [digits[i], digits[i + 1], digits[i + 2]];
  }

  lemma GroupedFromStart(digits: string)
    ensures GroupedFrom(digits, 0) == GroupedText(digits, NBSP)
  {
    var lead := LeadLength(|digits|);
    if digits != [] {
      GroupedFromTriples(digits, lead);
      var tail := GroupedFrom(digits, lead);
      if lead == 1 {
        assert digits[..1] == [digits[0]];
      } else if lead == 2 {
        assert digits[..2] == [digits[0], digits[1]];
        assert GroupedFrom(digits, 1) == [digits[1]] + tail;
      } else {
        assert digits[..3] == [digits[0], digits[1], digits[2]];
        assert GroupedFrom(digits, 2) == [digits[2]] + tail;
        assert GroupedFrom(digits, 1) == [digits[1]] + GroupedFrom(digits, 2);
      }
    }
  }

  // ---- What is printed ---------------------------------------------------------------------

  /** The printed form, by position: a minus in front of exactly the negative amounts; the kronor,
      without leading zeros, their digits counted from the comma and set apart in threes by
      non-breaking spaces; a comma, two digits of öre and the unit; and all the digits together
      denote the magnitude in öre. */
  ghost predicate Printed(text: string, ore: int) {
    var comma, start := |text| - 6, if ore < 0 then 1 else 0;
    && start < comma
    && (ore < 0 <==> text[0] == '-')
    && (forall j :: start <= j < comma ==> if (comma - j) % 4 == 0 then text[j] == NBSP else IsDigit(text[j]))
    && IsDigit(text[start]) && (comma - start > 1 ==> text[start] != '0')
    && text[comma] == ',' && IsDigit(text[comma + 1]) && IsDigit(text[comma + 2]) && text[comma + 3..] == " kr"
    && NumberOf(Digits(text)) == Magnitude(ore)
  }

  lemma {:induction false} TriplesByPosition(digits: string, j: nat)
    requires AllDigits(digits) && |digits| % 3 == 0
    ensures var text := Triples(digits, NBSP);
            && |text| % 4 == 0 && |text| == |digits| / 3 * 4
            && (j < |text| ==> if (|text| - j) % 4 == 0 then text[j] == NBSP else IsDigit(text[j]))
    decreases |digits|
  {
    if digits != "" {
      TriplesByPosition(digits[3..], if j < 4 then 0 else j - 4);
    }
  }

  lemma {:induction false} DigitsOfTriples(digits: string)
    requires AllDigits(digits) && |digits| % 3 == 0
    ensures Digits(Triples(digits, NBSP)) == digits
    decreases |digits|
  {
    if digits == "" {
      PunctuationSkipped();
    } else {
      hide Digits, AllDigits;
      assert AllDigits(digits[..3]) && AllDigits(digits[3..]) by {
        DigitsSplit(digits, 3);
      }
      var head, rest := [NBSP] + digits[..3], Triples(digits[3..], NBSP);
      DigitsOfTriples(digits[3..]);
      DigitsConcat(head, rest);
      DigitsConcat([NBSP], digits[..3]);
      DigitsOfDigits(digits[..3]);
      PunctuationSkipped();
      assert digits == "" + digits[..3] + digits[3..];
    }
  }

  lemma DigitsSplit(digits: string, n: nat)
    requires AllDigits(digits) && n <= |digits|
    ensures AllDigits(digits[..n]) && AllDigits(digits[n..])
  {
  }

  lemma GroupedByPosition(digits: string)
    requires AllDigits(digits) && digits != ""
    ensures var text := GroupedText(digits, NBSP);
            && text != "" && text[0] == digits[0] && (|text| == 1 <==> |digits| == 1)
            && (forall j :: 0 <= j < |text| ==> if (|text| - j) % 4 == 0 then text[j] == NBSP else IsDigit(text[j]))
            && Digits(text) == digits
  {
    hide Triples, Digits;
    var lead := LeadLength(|digits|);
    var head, tail := digits[..lead], Triples(digits[lead..], NBSP);
    var text := GroupedText(digits, NBSP);
    TriplesByPosition(digits[lead..], 0);
    forall j | 0 <= j < |text| ensures if (|text| - j) % 4 == 0 then text[j] == NBSP else IsDigit(text[j]) {
      if j < lead {
        assert text[j] == digits[j];
        NotAFourth(lead - j, |tail|);
      } else {
        TriplesByPosition(digits[lead..], j - lead);
        assert text[j] == tail[j - lead];
      }
    }
    DigitsConcat(head, tail);
    DigitsOfDigits(head);
    DigitsOfTriples(digits[lead..]);
    assert digits == head + digits[lead..];
  }

  lemma NotAFourth(a: nat, b: nat)
    requires 0 < a < 4 && b % 4 == 0
    ensures (a + b) % 4 != 0
  {
  }

  lemma {:induction false} NoLeadingZero(n: nat)
    ensures |Decimal(n)| > 1 ==> Decimal(n)[0] != '0'
    ensures |Decimal(n)| == 1 <==> n < 10
  {
    if n >= 10 {
      NoLeadingZero(n / 10);
      assert n / 10 < 10 ==> Decimal(n / 10) == [DigitChar(n / 10)];
    }
  }

  lemma TwoMoreDigits(kronor: nat, cents: nat)
    requires cents < 100
    ensures NumberOf(Decimal(kronor) + TwoDigits(cents)) == 100 * kronor + cents
  {
    hide Decimal;
    var digits, two := Decimal(kronor), TwoDigits(cents);
    assert digits + two == (digits + [two[0]]) + [two[1]];
    assert ((digits + [two[0]]) + [two[1]])[..|digits| + 1] == digits + [two[0]];
    assert (digits + [two[0]])[..|digits|] == digits;
  }

  lemma DigitsOfMoney(ore: int)
    ensures Digits(MoneyText(ore)) == Decimal(Magnitude(ore) / 100) + TwoDigits(Magnitude(ore) % 100)
  {
    hide Digits, Decimal, GroupedText;
    var grouped, two := GroupedText(Decimal(Magnitude(ore) / 100), NBSP), TwoDigits(Magnitude(ore) % 100);
    GroupedByPosition(Decimal(Magnitude(ore) / 100));
    DigitsConcat(Sign(ore < 0) + (grouped + ("," + two)), " kr");
    DigitsConcat(Sign(ore < 0), grouped + ("," + two));
    DigitsConcat(grouped, "," + two);
    DigitsConcat(",", two);
    DigitsOfDigits(two);
    PunctuationSkipped();
    var digits := Decimal(Magnitude(ore) / 100) + two;
    assert "" + two == two && "" + digits == digits && digits + "" == digits;
  }

  lemma PunctuationSkipped()
    ensures Digits([NBSP]) == "" && Digits("-") == "" && Digits("") == "" && Digits(",") == "" && Digits(" kr") == ""
  {
    assert " kr"[1..] == "kr" && "kr"[1..] == "r";
  }

  lemma MoneyPrinted(ore: int)
    ensures Printed(MoneyText(ore), ore)
  {
    hide Digits, Decimal, GroupedText, NumberOf;
    var kronor, cents := Magnitude(ore) / 100, Magnitude(ore) % 100;
    var text, grouped, start := MoneyText(ore), GroupedText(Decimal(kronor), NBSP), if ore < 0 then 1 else 0;
    var comma := start + |grouped|;
    assert |text| == comma + 6;
    GroupedByPosition(Decimal(kronor));
    NoLeadingZero(kronor);
    DigitsOfMoney(ore);
    TwoMoreDigits(kronor, cents);
    forall j | start <= j < comma ensures text[j] == grouped[j - start] {
    }
    assert text[start] == grouped[0];
    assert text[comma..] == "," + TwoDigits(cents) + " kr";
    assert text[comma] == text[comma..][0] && text[comma + 1] == text[comma..][1] && text[comma + 2] == text[comma..][2];
    assert text[comma + 3..] == text[comma..][3..];
  }

  /** Different amounts print differently, whatever the scanner makes of them. */
  lemma PrintedApart(a: int, b: int)
    ensures MoneyText(a) == MoneyText(b) <==> a == b
  {
    hide MoneyText, Digits, NumberOf;
    MoneyPrinted(a);
    MoneyPrinted(b);
  }

  // ---- Rounding ----------------------------------------------------------------------------

  /** `n / d` rounded to the nearest integer, halves away from zero. */
  function DivRoundHalfAway(n: int, d: nat): (q: int)
    requires d > 0
  {
    if n >= 0 then (n + d / 2) / d else -((-n + d / 2) / d)
  }

  /** The quotient is nearest to `n / d`, and on a tie it is the one further from zero. */
  lemma RoundsToNearest(n: int, d: nat)
    requires d > 0
    ensures var q := DivRoundHalfAway(n, d);
            && -(d as int) <= 2 * (n - d * q) <= d
            && (2 * Magnitude(n - d * q) == d ==> Magnitude(d * q) > Magnitude(n))
  {
    var m: int := Magnitude(n) + d / 2;
    var q := m / d;
    assert m == d * q + m % d;
    assert d * -q == -(d * q);
  }

  // ---- What the scanner makes of grouped digits --------------------------------------------

  lemma {:induction false} RunStops(digits: string, after: string)
    requires AllDigits(digits) && !StartsWithDigit(after)
    ensures Run(digits + after) == |digits|
  {
    if digits == [] {
      assert digits + after == after;
    } else {
      assert (digits + after)[1..] == digits[1..] + after;
      RunStops(digits[1..], after);
    }
  }

  lemma GroupTaken(separator: char, group: string, more: string)
    requires IsSeparator(separator) && |group| == 3 && AllDigits(group) && !StartsWithDigit(more)
    ensures Groups([separator] + (group + more)) == 4 + Groups(more)
    ensures GroupDigits([separator] + (group + more)) == group + GroupDigits(more)
  {
    var s := [separator] + (group + more);
    assert s[4..] == more && s[1..4] == group;
  }

  lemma {:induction false} GroupsOfTriples(digits: string, separator: char, after: string)
    requires AllDigits(digits) && |digits| % 3 == 0
    requires IsSeparator(separator) && !StartsWithDigit(after)
    ensures var text := Triples(digits, separator);
            && Groups(text + after) == |text| + Groups(after)
            && GroupDigits(text + after) == digits + GroupDigits(after)
  {
    var text := Triples(digits, separator);
    if digits == [] {
      assert text + after == after && digits + GroupDigits(after) == GroupDigits(after);
    } else {
      GroupsOfTriples(digits[3..], separator, after);
      var triples := Triples(digits[3..], separator);
      assert !StartsWithDigit(triples + after);
      GroupTaken(separator, digits[..3], triples + after);
      Assoc([separator] + digits[..3], triples, after);
      Assoc([separator], digits[..3], triples + after);
      Assoc(digits[..3], digits[3..], GroupDigits(after));
      assert digits == digits[..3] + digits[3..];
    }
  }

  lemma Assoc(a: string, b: string, c: string)
    ensures (a + b) + c == a + (b + c)
  {
  }

  lemma WholeSplit(first: string, more: string)
    requires AllDigits(first) && !StartsWithDigit(more)
    ensures WholeLength(first + more) == |first| + Groups(more)
    ensures WholeDigits(first + more) == first + GroupDigits(more)
  {
    RunStops(first, more);
    assert (first + more)[|first|..] == more && (first + more)[..|first|] == first;
  }

  lemma WholeOfGrouped(digits: string, separator: char, after: string)
    requires AllDigits(digits) && digits != [] && IsSeparator(separator) && !StartsWithDigit(after)
    ensures var text := GroupedText(digits, separator);
            && StartsWithDigit(text + after)
            && WholeLength(text + after) == |text| + Groups(after)
            && WholeDigits(text + after) == digits + GroupDigits(after)
  {
    var lead := LeadLength(|digits|);
    var first, rest := digits[..lead], digits[lead..];
    var triples := Triples(rest, separator);
    GroupsOfTriples(rest, separator, after);
    WholeSplit(first, triples + after);
    Assoc(first, triples, after);
    Assoc(first, rest, GroupDigits(after));
    assert digits == first + rest;
  }

  /** The öre of a numeral: nothing, or a comma and digits. */
  predicate OreText(ore: string) {
    ore == "" || (|ore| >= 2 && ore[0] == ',' && AllDigits(ore[1..]))
  }

  predicate RoundsUp(ore: string) {
    |ore| >= 2 && ore[1] >= '5'
  }

  /** A numeral ends where `after` begins: no digit, no further group, no further öre. */
  predicate Ends(ore: string, after: string) {
    && !StartsWithDigit(after)
    && (ore == "" ==> !GroupAhead(after) && Decimals(after) == 0)
  }

  lemma TokenOfNumeral(kronor: nat, separator: char, ore: string, after: string)
    requires IsSeparator(separator) && OreText(ore) && Ends(ore, after)
    ensures var numeral := GroupedText(Decimal(kronor), separator) + ore;
            && StartsWithDigit(numeral + after)
            && TokenAt(numeral + after) == Token(|numeral|, Decimal(kronor), RoundsUp(ore))
  {
    var digits := Decimal(kronor);
    var grouped := GroupedText(digits, separator);
    Assoc(grouped, ore, after);
    WholeOfGrouped(digits, separator, ore + after);
    DecimalsOfOre(ore, after);
    assert (grouped + (ore + after))[|grouped|..] == ore + after;
    assert digits + "" == digits;
  }

  lemma DecimalsOfOre(ore: string, after: string)
    requires OreText(ore) && Ends(ore, after)
    ensures Decimals(ore + after) == |ore|
    ensures Groups(ore + after) == 0 && GroupDigits(ore + after) == ""
    ensures !StartsWithDigit(ore + after)
  {
    if ore == "" {
      assert ore + after == after;
    } else {
      RunStops(ore[1..], after);
      assert (ore + after)[1..] == ore[1..] + after;
    }
  }

  /** A numeral anywhere on a line is read as one amount. */
  lemma ReadNumeral(before: string, kronor: nat, separator: char, ore: string, after: string)
    requires IsSeparator(separator) && OreText(ore) && Ends(ore, after)
    ensures var numeral := GroupedText(Decimal(kronor), separator) + ore;
            Read(before, numeral + after)
            == Amount(Decimal(kronor), RoundsUp(ore), SignBehind(before) || SignAfter(after))
               + Read(before + numeral, after)
  {
    var numeral := GroupedText(Decimal(kronor), separator) + ore;
    TokenOfNumeral(kronor, separator, ore, after);
    assert (numeral + after)[|numeral|..] == after && (numeral + after)[..|numeral|] == numeral;
    ReadToken(before, numeral + after, before + numeral, after);
  }

  lemma {:induction false} ReadSkipsText(before: string, text: string, after: string)
    requires NoDigits(text)
    ensures Read(before, text + after) == Read(before + text, after)
    decreases |text|
  {
    if text == "" {
      assert text + after == after && before + text == before;
    } else {
      assert (text + after)[1..] == text[1..] + after;
      ReadSkipsText(before + [text[0]], text[1..], after);
      assert before + [text[0]] + text[1..] == before + text;
    }
  }

  lemma ReadSignedNumeral(before: string, negative: bool, kronor: nat, separator: char, ore: string, after: string)
    requires IsSeparator(separator) && OreText(ore) && Ends(ore, after)
    requires !SignAfter(after)
    ensures var text := SignedNumeral(negative, kronor, separator, ore);
            Read(before, text + after)
            == Amount(Decimal(kronor), RoundsUp(ore), negative || SignBehind(before)) + Read(before + text, after)
  {
    var sign, numeral := Sign(negative), GroupedText(Decimal(kronor), separator) + ore;
    Assoc(sign, numeral, after);
    Assoc(before, sign, numeral);
    ReadSkipsText(before, sign, numeral + after);
    ReadNumeral(before + sign, kronor, separator, ore, after);
    SignRead(before, negative);
  }

  lemma SignRead(before: string, negative: bool)
    ensures SignBehind(before + Sign(negative)) == (negative || SignBehind(before))
  {
    if !negative {
      assert before + Sign(negative) == before;
    }
  }

  /** A space, a non-breaking one, a narrow non-breaking one and a dot set groups apart, and nothing
      else does: three digits after any other character are not a group. */
  lemma SeparatorsExactly(separator: char, kronor: nat)
    ensures separator in {' ', '\U{00A0}', '\U{202F}', '.'} ==>
              Read("", GroupedText(Decimal(kronor), separator)) == Amount(Decimal(kronor), false, false)
    ensures GroupAhead([separator] + "234") <==> separator in {' ', '\U{00A0}', '\U{202F}', '.'}
  {
    hide Read, Decimal, Amount;
    if separator in {' ', '\U{00A0}', '\U{202F}', '.'} {
      var text := GroupedText(Decimal(kronor), separator) + "";
      ReadNumeral("", kronor, separator, "", "");
      assert text + "" == GroupedText(Decimal(kronor), separator);
      NothingLeft("" + text);
      assert Amount(Decimal(kronor), false, false) + [] == Amount(Decimal(kronor), false, false);
    }
  }

  lemma NothingLeft(before: string)
    ensures Read(before, "") == []
  {
  }

  /** The ways a statement marks a negative all negate one and the same amount. */
  lemma NegativeConventions(left: string, right: string, kronor: nat, separator: char, ore: string)
    requires IsSeparator(separator) && OreText(ore)
    requires (left, right) in {("-", ""), ("- ", ""), ("", "-"), ([MINUS], ""), ("", [MINUS]), ("(", ")")}
    ensures Read("", left + SignedNumeral(false, kronor, separator, ore) + right)
         == Amount(Decimal(kronor), RoundsUp(ore), true)
  {
    ReadBetween(left, kronor, separator, ore, right);
  }

  lemma ReadBetween(left: string, kronor: nat, separator: char, ore: string, right: string)
    requires IsSeparator(separator) && OreText(ore) && Ends(ore, right)
    requires NoDigits(left) && NoDigits(right)
    ensures Read("", left + SignedNumeral(false, kronor, separator, ore) + right)
         == Amount(Decimal(kronor), RoundsUp(ore), SignBehind(left) || SignAfter(right))
  {
    var numeral := GroupedText(Decimal(kronor), separator) + ore;
    assert SignedNumeral(false, kronor, separator, ore) == numeral;
    Assoc(left, numeral, right);
    ReadSkipsText("", left, numeral + right);
    assert "" + left == left && right + "" == right;
    ReadNumeral(left, kronor, separator, ore, right);
    ReadSkipsText(left + numeral, right, "");
  }

  // ---- The round trip ----------------------------------------------------------------------

  /** What a printed amount reads as: itself in whole kronor, negated when it has no minus of its own
      and the text in front of it ends in one, or in an opening parenthesis. */
  function KronorBehind(before: string, ore: int): (kronor: int) {
    if ore >= 0 && SignBehind(before) then -DivRoundHalfAway(ore, 100) else DivRoundHalfAway(ore, 100)
  }

  /** A printed amount, wherever it stands on a line, reads as that amount in whole kronor. */
  lemma ReadMoney(before: string, ore: int, after: string)
    requires I64_MIN <= ore <= I64_MAX
    ensures Read(before, MoneyText(ore) + after)
         == [KronorBehind(before, ore)] + Read(before + MoneyText(ore), after)
  {
    hide Read, Decimal, SignedNumeral, Amount, SignBehind;
    var kronor, decimals, unit := Magnitude(ore) / 100, "," + TwoDigits(Magnitude(ore) % 100), " kr";
    var text := SignedNumeral(ore < 0, kronor, NBSP, decimals);
    Assoc(text, unit, after);
    Assoc(before, text, unit);
    ReadSignedNumeral(before, ore < 0, kronor, NBSP, decimals, unit + after);
    ReadSkipsText(before + text, unit, after);
    RoundedAmount(ore, ore < 0 || SignBehind(before));
  }

  lemma RoundedAmount(ore: int, negative: bool)
    requires I64_MIN <= ore <= I64_MAX
    ensures Amount(Decimal(Magnitude(ore) / 100), RoundsUp("," + TwoDigits(Magnitude(ore) % 100)), negative)
         == [if negative then -DivRoundHalfAway(Magnitude(ore), 100) else DivRoundHalfAway(Magnitude(ore), 100)]
  {
    var tens := Magnitude(ore) % 100 / 10;
    assert DigitChar(tens) >= '5' <==> tens >= 5;
  }

  /** A printed amount alone on a line reads as exactly one value, itself in whole kronor. */
  lemma MoneyRoundTrip(ore: int)
    requires I64_MIN <= ore <= I64_MAX
    ensures Read("", MoneyText(ore)) == [DivRoundHalfAway(ore, 100)]
  {
    ReadLastMoney("", ore);
  }

  /** A printed range reads as its two bounds in order, or as one amount when they are the same. */
  lemma MoneyRangeRoundTrip(low: int, high: int)
    requires I64_MIN <= low <= high <= I64_MAX
    ensures Read("", MoneyRangeText(low, high))
         == if low == high then [DivRoundHalfAway(low, 100)] else [DivRoundHalfAway(low, 100), DivRoundHalfAway(high, 100)]
  {
    hide Read, MoneyText, DivRoundHalfAway;
    MoneyRoundTrip(low);
    var first, dash, second := MoneyText(low), [EN_DASH], MoneyText(high);
    Assoc(first, dash, second);
    ReadMoney("", low, dash + second);
    assert "" + first == first;
    ReadSkipsText(first, dash, second);
    ReadLastMoney(first + dash, high);
  }

  lemma ReadLastMoney(before: string, ore: int)
    requires I64_MIN <= ore <= I64_MAX
    ensures Read(before, MoneyText(ore)) == [KronorBehind(before, ore)]
  {
    var text := MoneyText(ore);
    assert text + "" == text;
    ReadMoney(before, ore, "");
  }
}
