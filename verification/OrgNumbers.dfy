/** Swedish organisation numbers: the checksum of ISO/IEC 7812-1, Annex B, and the parser. */
module OrgNumbers {
  import opened Basics

  function Value(c: char): (d: nat)
    requires IsDigit(c)
    ensures d < 10
  {
    c as int - '0' as int
  }

  /** The digit sum of a digit, or of its double. */
  function Weight(d: nat, doubled: bool): (w: nat)
    requires d < 10
    ensures w < 10
  {
    var v := if doubled then 2 * d else d;
    v / 10 + v % 10
  }

  /** The weighted sum with the leftmost digit doubled. */
  function Sum(s: string): (n: nat)
    requires AllDigits(s)
  {
    if s == "" then 0 else Sum(s[..|s| - 1]) + Weight(Value(s[|s| - 1]), |s| % 2 == 1)
  }

  predicate Valid(s: string) {
    AllDigits(s) && Sum(s) % 10 == 0
  }

  lemma DoubledWeight(d: nat)
    requires d < 10
    ensures Weight(d, true) == if 2 * d > 9 then 2 * d - 9 else 2 * d
    ensures Weight(d, false) == d
  {
  }

  method LuhnIsValid(digits: string) returns (ok: bool)
    ensures ok <==> Valid(digits)
  {
    hide Weight;
    var sum, i := 0, 0;
    while i < |digits|
      invariant 0 <= i <= |digits|
      invariant AllDigits(digits[..i]) && sum == Sum(digits[..i])
    {
      if !IsDigit(digits[i]) {
        return false;
      }
      var d := Value(digits[i]);
      DoubledWeight(d);
      var v := if i % 2 == 0 then d * 2 else d;
      sum := sum + if v > 9 then v - 9 else v;
      assert digits[..i + 1][..i] == digits[..i];
      i := i + 1;
    }
    assert digits[..i] == digits;
    return sum % 10 == 0;
  }

  // ---- The checksum ------------------------------------------------------------------------

  /** The sum as the standard has it: every second digit counted from the right is doubled. */
  function SumFromRight(s: string, doubled: bool): (n: nat)
    requires AllDigits(s)
  {
    if s == "" then 0
    else Weight(Value(s[|s| - 1]), doubled) + SumFromRight(s[..|s| - 1], !doubled)
  }

  /** Doubling the leftmost digit is the standard's rule exactly on the even lengths. */
  lemma {:induction false} StandardOnEvenLengths(s: string, doubled: bool)
    requires AllDigits(s) && doubled == (|s| % 2 == 1)
    ensures Sum(s) == SumFromRight(s, doubled)
  {
    if s != "" {
      StandardOnEvenLengths(s[..|s| - 1], !doubled);
    }
  }

  lemma {:induction false} SumAfterChange(s: string, i: nat, c: char)
    requires AllDigits(s) && i < |s| && IsDigit(c)
    ensures AllDigits(s[i := c])
    ensures Sum(s[i := c]) == Sum(s) - Weight(Value(s[i]), i % 2 == 0) + Weight(Value(c), i % 2 == 0)
  {
    hide Weight;
    var t, last := s[i := c], |s| - 1;
    if i == last {
      assert t[..last] == s[..last];
    } else {
      SumAfterChange(s[..last], i, c);
      assert t[..last] == s[..last][i := c];
    }
  }

  lemma WeightInjective(a: nat, b: nat, doubled: bool)
    requires a < 10 && b < 10 && Weight(a, doubled) == Weight(b, doubled)
    ensures a == b
  {
  }

  /** Doubling moves a digit by a different amount modulo ten for every digit, except for 0 and 9. */
  lemma ShiftCollides(a: nat, b: nat)
    requires a < 10 && b < 10
    ensures (Weight(a, true) + b - Weight(b, true) - a) % 10 == 0 <==> a == b || {a, b} == {0, 9}
  {
    hide Weight;
    DoubledWeight(a);
    DoubledWeight(b);
  }

  /** A number with one digit changed is never valid along with the original. */
  lemma SingleChangeDetected(s: string, i: nat, c: char)
    requires Valid(s) && i < |s| && IsDigit(c) && c != s[i]
    ensures !Valid(s[i := c])
  {
    hide Weight, Sum;
    SumAfterChange(s, i, c);
    if Weight(Value(c), i % 2 == 0) == Weight(Value(s[i]), i % 2 == 0) {
      WeightInjective(Value(c), Value(s[i]), i % 2 == 0);
    }
  }

  function Swapped(s: string, i: nat): (t: string)
    requires i + 1 < |s|
  {
    s[i := s[i + 1]][i + 1 := s[i]]
  }

  /** Two neighbours exchanged go unnoticed exactly when they are equal or are 0 and 9. */
  lemma SwapDetectedExactly(s: string, i: nat)
    requires Valid(s) && i + 1 < |s|
    ensures Valid(Swapped(s, i)) <==> s[i] == s[i + 1] || {s[i], s[i + 1]} == {'0', '9'}
  {
    hide Sum, Weight;
    SumAfterChange(s, i, s[i + 1]);
    SumAfterChange(s[i := s[i + 1]], i + 1, s[i]);
    var a, b := Value(s[i]), Value(s[i + 1]);
    DoubledWeight(a);
    DoubledWeight(b);
    if i % 2 == 0 {
      SwapArithmetic(Sum(s), Sum(Swapped(s, i)), b, a);
    } else {
      SwapArithmetic(Sum(s), Sum(Swapped(s, i)), a, b);
    }
    DigitPair(s[i], s[i + 1]);
  }

  lemma SwapArithmetic(before: nat, after: nat, a: nat, b: nat)
    requires before % 10 == 0 && a < 10 && b < 10
    requires after == before + Weight(a, true) + b - Weight(b, true) - a
    ensures after % 10 == 0 <==> a == b || {a, b} == {0, 9}
  {
    hide Weight;
    ShiftCollides(a, b);
  }

  lemma DigitPair(x: char, y: char)
    requires IsDigit(x) && IsDigit(y)
    ensures Value(x) == Value(y) <==> x == y
    ensures {Value(x), Value(y)} == {0, 9} <==> {x, y} == {'0', '9'}
  {
    assert {Value(x), Value(y)} == {0, 9} ==> Value(x) in {0, 9} && Value(y) in {0, 9} && 0 in {Value(x), Value(y)} && 9 in {Value(x), Value(y)};
    assert {x, y} == {'0', '9'} ==> x in {'0', '9'} && y in {'0', '9'} && '0' in {x, y} && '9' in {x, y};
  }

  function CheckDigit(s: string): (c: char)
    requires AllDigits(s)
    ensures IsDigit(c)
  {
    ((10 - Sum(s) % 10) % 10 + '0' as int) as char
  }

  /** An odd number of digits is completed by exactly one check digit. */
  lemma OneCheckDigit(s: string, c: char)
    requires AllDigits(s) && |s| % 2 == 1 && IsDigit(c)
    ensures Valid(s + [c]) <==> c == CheckDigit(s)
  {
    hide Weight;
    assert (s + [c])[..|s|] == s;
    DoubledWeight(Value(c));
  }

  // ---- Parsing and printing ----------------------------------------------------------------

  datatype ParseError = WrongLength(digits: nat) | Checksum

  datatype Parsed = Ok(number: string) | Err(error: ParseError)

  function Checked(ten: string): (r: Parsed) {
    if Valid(ten) then Ok(ten) else Err(Checksum)
  }

  function Read(digits: string): (r: Parsed) {
    if |digits| == 10 then Checked(digits)
    else if |digits| == 12 && "16" <= digits then Checked(digits[2..])
    else Err(WrongLength(|digits|))
  }

  method Parse(input: string) returns (r: Parsed)
    ensures r == Read(Digits(input))
  {
    var digits := Digits(input);
    var ten := digits;
    if |digits| == 10 {
    } else if |digits| == 12 && "16" <= digits {
      ten := digits[2..];
    } else {
      return Err(WrongLength(|digits|));
    }
    var valid := LuhnIsValid(ten);
    if !valid {
      return Err(Checksum);
    }
    return Ok(ten);
  }

  function Formatted(number: string): (s: string)
    requires |number| == 10
  {
    number[..6] + "-" + number[6..]
  }

  lemma DashSkipped()
    ensures Digits("-") == ""
  {
  }

  lemma DigitsOfFormatted(number: string)
    requires AllDigits(number) && |number| == 10
    ensures Digits(Formatted(number)) == number
  {
    hide Digits;
    DigitsConcat(number[..6] + "-", number[6..]);
    DigitsConcat(number[..6], "-");
    DashSkipped();
    DigitsOfDigits(number[..6]);
    DigitsOfDigits(number[6..]);
    assert number[..6] + "" == number[..6] && number == number[..6] + number[6..];
  }

  /** A printed number reads back, with or without the century prefix, exactly when its checksum is
      right; whatever is read is valid and reads back from its own printed form. */
  lemma ReadsBack(number: string)
    requires AllDigits(number) && |number| == 10
    ensures Read(Digits(Formatted(number))) == if Valid(number) then Ok(number) else Err(Checksum)
    ensures Read(Digits("16" + Formatted(number))) == Read(Digits(Formatted(number)))
  {
    hide Digits, Valid, Formatted;
    DigitsOfFormatted(number);
    DigitsConcat("16", Formatted(number));
    DigitsOfDigits("16");
    assert ("16" + number)[2..] == number;
  }

  lemma ReadIsCanonical(input: string)
    requires Read(Digits(input)).Ok?
    ensures var number := Read(Digits(input)).number;
            && |number| == 10 && Valid(number) && Read(Digits(Formatted(number))) == Ok(number)
            && (Digits(input) == number || Digits(input) == "16" + number)
  {
    hide Digits, Sum;
    ReadsBack(Read(Digits(input)).number);
  }

  /** One digit mistyped in a printed number is always refused, and so are two neighbours exchanged
      unless they are equal or are 0 and 9. */
  lemma TyposRefused(number: string, i: nat, c: char)
    requires |number| == 10 && Valid(number) && i < 10 && IsDigit(c) && c != number[i]
    ensures Read(Digits(Formatted(number[i := c]))) == Err(Checksum)
    ensures i < 9 ==> (Read(Digits(Formatted(Swapped(number, i)))) == Err(Checksum)
                       <==> number[i] != number[i + 1] && {number[i], number[i + 1]} != {'0', '9'})
  {
    hide Digits, Sum, Formatted, Read;
    SingleChangeDetected(number, i, c);
    ReadsBack(number[i := c]);
    if i < 9 {
      SwapDetectedExactly(number, i);
      ReadsBack(Swapped(number, i));
    }
  }
}
