/** Printed money and the scanner that reads amounts back off a line of a statement.

    `FindAmounts` follows `find_amounts` loop by loop; `Read` is what it computes, defined on the
    text already passed (`before`) and the text still ahead (`rest`), because the scanner looks
    back at most two characters and ahead without bound. */
module Amounts {
  import opened Basics

  const MINUS: char := '\U{2212}'
  const NBSP: char := '\U{00A0}'
  const NARROW_NBSP: char := '\U{202F}'
  const EN_DASH: char := '\U{2013}'

  // ---- Characters --------------------------------------------------------------------------

  predicate NoDigits(s: string) {
    forall k :: 0 <= k < |s| ==> !IsDigit(s[k])
  }

  predicate StartsWithDigit(s: string) {
    s != [] && IsDigit(s[0])
  }

  /** What may stand between two groups of three digits. */
  predicate IsSeparator(c: char) {
    c == ' ' || c == NBSP || c == NARROW_NBSP || c == '.'
  }

  /** What marks a negative when it touches the first digit. */
  predicate IsSign(c: char) {
    c == '-' || c == MINUS || c == '('
  }

  // ---- Decimal numerals --------------------------------------------------------------------

  function DigitValue(c: char): (v: nat) {
    if IsDigit(c) then (c - '0') as nat else 0
  }

  function DigitChar(v: nat): (c: char)
    requires v < 10
  {
    '0' + v as char
  }

  /** The number a run of digits denotes. */
  function NumberOf(digits: string): (n: nat) {
    if digits == [] then 0
    else NumberOf(digits[..|digits| - 1]) * 10 + DigitValue(digits[|digits| - 1])
  }

  /** Decimal notation without leading zeros. */
  function Decimal(n: nat): (digits: string)
    ensures digits != [] && AllDigits(digits)
    ensures NumberOf(digits) == n
  {
    if n < 10 then
      assert [DigitChar(n)][..0] == [];
      [DigitChar(n)]
    else
      var digits := Decimal(n / 10) + [DigitChar(n % 10)];
      assert digits[..|digits| - 1] == Decimal(n / 10);
      digits
  }

  // ---- The scanner's specification ---------------------------------------------------------

  /** How many digits `s` starts with. */
  function Run(s: string): (n: nat)
    ensures n <= |s|
  {
    if StartsWithDigit(s) then 1 + Run(s[1..]) else 0
  }

  /** A separator and exactly three digits, not four. */
  predicate GroupAhead(s: string) {
    && |s| >= 4
    && IsSeparator(s[0]) && IsDigit(s[1]) && IsDigit(s[2]) && IsDigit(s[3])
    && !(|s| > 4 && IsDigit(s[4]))
  }

  /** The length of the separated groups `s` starts with. */
  function Groups(s: string): (n: nat)
    ensures n <= |s|
  {
    if GroupAhead(s) then 4 + Groups(s[4..]) else 0
  }

  /** The digits of those groups. */
  function GroupDigits(s: string): (digits: string) {
    if GroupAhead(s) then s[1..4] + GroupDigits(s[4..]) else ""
  }

  /** The length of a decimal part: a comma and at least one digit. */
  function Decimals(s: string): (n: nat)
    ensures n <= |s|
    ensures n > 0 ==> n >= 2 && s[0] == ','
  {
    if |s| >= 2 && s[0] == ',' && IsDigit(s[1]) then 1 + Run(s[1..]) else 0
  }

  /** One number as written: how much text it takes, its whole kronor, and whether the öre round
      it up. */
  datatype Token = Token(length: nat, integer: string, roundUp: bool)

  /** The length and the digits of the integer part. */
  function WholeLength(s: string): (n: nat)
    ensures n <= |s| && (StartsWithDigit(s) ==> n > 0)
  {
    Run(s) + Groups(s[Run(s)..])
  }

  function WholeDigits(s: string): (digits: string) {
    s[..Run(s)] + GroupDigits(s[Run(s)..])
  }

  function TokenAt(s: string): (t: Token)
    requires StartsWithDigit(s)
    ensures 0 < t.length <= |s|
  {
    var whole := WholeLength(s);
    var decimals := Decimals(s[whole..]);
    Token(whole + decimals, WholeDigits(s), decimals > 0 && s[whole + 1] >= '5')
  }

  /** A sign touching the first digit, or a hyphen or parenthesis one space away from it. */
  predicate SignBehind(before: string) {
    var n := |before|;
    && n > 0
    && (IsSign(before[n - 1])
        || ((before[n - 1] == ' ' || before[n - 1] == NBSP)
            && n > 1 && (before[n - 2] == '-' || before[n - 2] == '(')))
  }

  predicate SignAfter(after: string) {
    after != [] && (after[0] == '-' || after[0] == MINUS)
  }

  /** `i64` increment and negation as a release build performs them: wrapping. */
  function WrappingIncrement(v: int): int {
    if v == I64_MAX then I64_MIN else v + 1
  }

  function WrappingNegate(v: int): int {
    if v == I64_MIN then I64_MIN else -v
  }

  /** The amount of one token, or nothing when its whole kronor do not fit an `i64`. */
  function Amount(integer: string, roundUp: bool, negative: bool): (amounts: seq<int>)
    ensures |amounts| <= 1
  {
    var whole := NumberOf(integer);
    if whole > I64_MAX then []
    else
      var value := if roundUp then WrappingIncrement(whole) else whole;
      [if negative then WrappingNegate(value) else value]
  }

  function TokenAmount(t: Token, before: string, after: string): (amounts: seq<int>)
    ensures |amounts| <= 1
  {
    Amount(t.integer, t.roundUp, SignBehind(before) || SignAfter(after))
  }

  /** Every amount in `rest`, given the text `before` it. */
  function Read(before: string, rest: string): (amounts: seq<int>)
    decreases |rest|
  {
    if rest == [] then []
    else if !IsDigit(rest[0]) then Read(before + [rest[0]], rest[1..])
    else
      var t := TokenAt(rest);
      var after := rest[t.length..];
      TokenAmount(t, before, after) + Read(before + rest[..t.length], after)
  }

  // ---- The scanner -------------------------------------------------------------------------

  method FindAmounts(line: string) returns (amounts: seq<int>)
    ensures amounts == Read("", line)
  {
    amounts := [];
    var i := 0;
    assert line[..0] == "" && line[0..] == line;
    while i < |line|
      invariant 0 <= i <= |line|
      invariant amounts + Read(line[..i], line[i..]) == Read("", line)
    {
      if !IsDigit(line[i]) {
        ReadSkips(line, i);
        i := i + 1;
        continue;
      }

      var found, j := ReadNumber(line, i);
      ReadTakes(line, i, j, amounts);
      amounts := amounts + found;
      i := if j > i + 1 then j else i + 1;
    }
  }

  /** The number whose first digit is at `i`: its amount, if it fits, and where it ends. */
  method ReadNumber(line: string, i: nat) returns (found: seq<int>, j: nat)
    requires i < |line| && IsDigit(line[i])
    ensures i < j <= |line| && j == i + TokenAt(line[i..]).length
    ensures found == TokenAmount(TokenAt(line[i..]), line[..i], line[j..])
  {
    var leading, start := LookBack(line, i);
    var integer, whole := ReadInteger(line, i);
    var roundUp;
    roundUp, j := ReadDecimals(line, whole);
    TokenParts(line, i, whole, j);

    var negative := leading;
    if j < |line| {
      if line[j] == '-' || line[j] == MINUS || (line[j] == ')' && line[start] == '(') {
        negative := true;
      }
    }

    found := [];
    var value: int := NumberOf(integer);
    if value <= I64_MAX {
      if roundUp {
        value := WrappingIncrement(value);
      }
      found := [if negative then WrappingNegate(value) else value];
    }
  }

  lemma ReadSkips(line: string, i: nat)
    requires i < |line| && !IsDigit(line[i])
    ensures Read(line[..i], line[i..]) == Read(line[..i + 1], line[i + 1..])
  {
    assert line[..i] + [line[i]] == line[..i + 1] && line[i..][1..] == line[i + 1..];
  }

  /** One token of the line, whose integer part ends at `whole` and which ends at `j`. */
  lemma TokenParts(line: string, i: nat, whole: nat, j: nat)
    requires i < |line| && IsDigit(line[i])
    requires whole == i + WholeLength(line[i..]) && j == whole + Decimals(line[whole..])
    ensures TokenAt(line[i..]) == Token(j - i, WholeDigits(line[i..]), j > whole && line[whole + 1] >= '5')
  {
    SplitTwice(line, i, whole);
  }

  lemma ReadTakes(line: string, i: nat, j: nat, amounts: seq<int>)
    requires i < |line| && IsDigit(line[i])
    requires j == i + TokenAt(line[i..]).length
    ensures var found := TokenAmount(TokenAt(line[i..]), line[..i], line[j..]);
            amounts + Read(line[..i], line[i..]) == (amounts + found) + Read(line[..j], line[j..])
  {
    SplitTwice(line, i, j);
    ReadToken(line[..i], line[i..], line[..j], line[j..]);
  }

  lemma ReadToken(before: string, rest: string, past: string, after: string)
    requires StartsWithDigit(rest)
    requires after == rest[TokenAt(rest).length..] && past == before + rest[..TokenAt(rest).length]
    ensures Read(before, rest)
         == TokenAmount(TokenAt(rest), before, after) + Read(past, after)
  {
  }

  lemma SplitTwice(line: string, i: nat, j: nat)
    requires i <= j <= |line|
    ensures line[i..][j - i..] == line[j..]
    ensures line[..i] + line[i..][..j - i] == line[..j]
  {
  }

  /** The walk back from the first digit over an explicit sign or an opening parenthesis. */
  method LookBack(line: string, i: nat) returns (negative: bool, start: nat)
    requires i < |line| && IsDigit(line[i])
    ensures negative == SignBehind(line[..i])
    ensures start <= i
    ensures line[start] == '(' ==> negative
  {
    negative, start := false, i;
    var back := i;
    while back > 0
      invariant back <= i && start == i && !negative
      invariant back == i || (back == i - 1 && back > 0 && (line[back] == ' ' || line[back] == NBSP)
                              && (line[back - 1] == '-' || line[back - 1] == '('))
    {
      var prev := line[back - 1];
      if IsSign(prev) {
        negative, start := true, back - 1;
        break;
      } else if prev == ' ' || prev == NBSP {
        back := back - 1;
        if back == 0 || (line[back - 1] != '-' && line[back - 1] != '(') {
          break;
        }
      } else {
        break;
      }
    }
  }

  /** The integer part: a run of digits, then separated groups of exactly three. */
  method ReadInteger(line: string, i: nat) returns (integer: string, j: nat)
    requires i < |line| && IsDigit(line[i])
    ensures i < j <= |line| && j == i + WholeLength(line[i..])
    ensures integer == WholeDigits(line[i..])
  {
    hide Run, Groups, GroupDigits, GroupAhead;
    integer, j := ReadRun(line, i);
    assert line[i..][j - i..] == line[j..];
    while true
      invariant i < j <= |line|
      invariant j + Groups(line[j..]) == i + WholeLength(line[i..])
      invariant integer + GroupDigits(line[j..]) == WholeDigits(line[i..])
      decreases |line| - j
    {
      var group, more := NextGroup(line, j);
      if !more {
        break;
      }
      assert integer + (group + GroupDigits(line[j + 4..])) == (integer + group) + GroupDigits(line[j + 4..]);
      integer := integer + group;
      j := j + 4;
    }
  }

  method ReadRun(line: string, i: nat) returns (integer: string, j: nat)
    requires i < |line| && IsDigit(line[i])
    ensures i < j <= |line| && j - i == Run(line[i..])
    ensures integer == line[i..][..j - i]
  {
    integer, j := "", i;
    while j < |line| && IsDigit(line[j])
      invariant i <= j <= |line|
      invariant j - i + Run(line[j..]) == Run(line[i..])
      invariant integer == line[i..j]
    {
      assert line[j..][1..] == line[j + 1..];
      integer := integer + [line[j]];
      j := j + 1;
    }
  }

  /** The group after a separator at `j`, when there is one. */
  method NextGroup(line: string, j: nat) returns (group: string, more: bool)
    requires j <= |line|
    ensures more == GroupAhead(line[j..])
    ensures more ==> j + 4 <= |line|
    ensures more ==> GroupDigits(line[j..]) == group + GroupDigits(line[j + 4..])
    ensures more ==> Groups(line[j..]) == 4 + Groups(line[j + 4..])
    ensures !more ==> GroupDigits(line[j..]) == "" && Groups(line[j..]) == 0
  {
    if !(j < |line| && IsSeparator(line[j])) {
      return "", false;
    }
    group := line[j + 1..if j + 4 < |line| then j + 4 else |line|];
    var followedByDigit := j + 4 < |line| && IsDigit(line[j + 4]);
    more := |group| == 3 && IsDigit(group[0]) && IsDigit(group[1]) && IsDigit(group[2]) && !followedByDigit;
    if more {
      assert line[j..][4..] == line[j + 4..] && line[j..][1..4] == group;
    }
  }

  /** Öre after a comma; only their first digit matters. */
  method ReadDecimals(line: string, whole: nat) returns (roundUp: bool, j: nat)
    requires whole <= |line|
    ensures j == whole + Decimals(line[whole..]) && j <= |line|
    ensures roundUp == (j > whole && line[whole + 1] >= '5')
  {
    roundUp, j := false, whole;
    if j + 1 < |line| && line[j] == ',' && IsDigit(line[j + 1]) {
      roundUp := line[j + 1] >= '5';
      var digits;
      assert line[whole..][1..] == line[whole + 1..];
      digits, j := ReadRun(line, j + 1);
    }
  }
}
