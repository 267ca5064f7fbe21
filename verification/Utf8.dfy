/** Well-formed UTF-8 (section 4 of RFC 3629) and cutting it at a byte budget. */
module Utf8 {
  import opened Basics

  predicate IsTail(b: Byte) {
    0x80 <= b <= 0xBF
  }

  /** The length of the well-formed character `s` starts with, or zero. */
  function CharLength(s: seq<Byte>): (n: nat)
    ensures n <= |s| && n <= 4
  {
    if s == [] then 0
    else if s[0] <= 0x7F then 1
    else if |s| >= 2 && 0xC2 <= s[0] <= 0xDF && IsTail(s[1]) then 2
    else if |s| >= 3 && IsTail(s[1]) && IsTail(s[2])
         && ((s[0] == 0xE0 && s[1] >= 0xA0) || 0xE1 <= s[0] <= 0xEC || (s[0] == 0xED && s[1] <= 0x9F) || 0xEE <= s[0] <= 0xEF)
      then 3
    else if |s| >= 4 && IsTail(s[1]) && IsTail(s[2]) && IsTail(s[3])
         && ((s[0] == 0xF0 && s[1] >= 0x90) || 0xF1 <= s[0] <= 0xF3 || (s[0] == 0xF4 && s[1] <= 0x8F))
      then 4
    else 0
  }

  // ---- The characters there are ------------------------------------------------------------

  /** The scalar values: all code points but the surrogates. */
  predicate IsScalar(n: nat) {
    n < 0xD800 || 0xE000 <= n < 0x11_0000
  }

  /** The encoding of a scalar value (section 3 of RFC 3629). */
  function Encode(n: nat): (b: seq<Byte>)
    requires IsScalar(n)
  {
    if n < 0x80 then [n]
    else if n < 0x800 then [0xC0 + n / 0x40, 0x80 + n % 0x40]
    else if n < 0x1_0000 then [0xE0 + n / 0x1000, 0x80 + n / 0x40 % 0x40, 0x80 + n % 0x40]
    else [0xF0 + n / 0x4_0000, 0x80 + n / 0x1000 % 0x40, 0x80 + n / 0x40 % 0x40, 0x80 + n % 0x40]
  }

  /** A byte that continues a character is one whose two highest bits are 10. */
  lemma TailExactly(b: Byte)
    ensures IsTail(b) <==> b / 0x40 == 2
  {
  }

  lemma Sixty(q: nat, r: nat)
    requires r < 0x40
    ensures (q * 0x40 + r) / 0x40 == q && (q * 0x40 + r) % 0x40 == r
  {
  }

  lemma DivideAgain(n: nat)
    ensures n / 0x1000 == n / 0x40 / 0x40 && n / 0x4_0000 == n / 0x1000 / 0x40
  {
  }

  lemma Recombine(a: nat, b: nat, c: nat, d: nat)
    requires b < 0x40 && c < 0x40 && d < 0x40
    ensures var n := ((a * 0x40 + b) * 0x40 + c) * 0x40 + d;
            && n / 0x4_0000 == a && n / 0x1000 % 0x40 == b && n / 0x40 % 0x40 == c && n % 0x40 == d
            && n / 0x1000 == a * 0x40 + b && n / 0x40 == (a * 0x40 + b) * 0x40 + c
  {
    Sixty((a * 0x40 + b) * 0x40 + c, d);
    Sixty(a * 0x40 + b, c);
    Sixty(a, b);
    DivideAgain(((a * 0x40 + b) * 0x40 + c) * 0x40 + d);
  }

  /** Every scalar value is recognised as one character, whatever follows. */
  lemma EncodedIsOne(n: nat, rest: seq<Byte>)
    requires IsScalar(n)
    ensures CharLength(Encode(n) + rest) == |Encode(n)|
  {
    var s, e := Encode(n) + rest, Encode(n);
    assert forall k :: 0 <= k < |e| ==> s[k] == e[k];
    DivideAgain(n);
    LeadByte(n);
  }

  lemma LeadByte(n: nat)
    requires IsScalar(n)
    ensures 0x80 <= n < 0x800 ==> 2 <= n / 0x40 < 0x20
    ensures 0x800 <= n < 0x1_0000 ==>
              n / 0x1000 < 0x10 && (n / 0x1000 == 0 ==> n / 0x40 % 0x40 >= 0x20) && (n / 0x1000 == 0xD ==> n / 0x40 % 0x40 < 0x20)
    ensures n >= 0x1_0000 ==>
              n / 0x4_0000 <= 4 && (n / 0x4_0000 == 0 ==> n / 0x1000 % 0x40 >= 0x10) && (n / 0x4_0000 == 4 ==> n / 0x1000 % 0x40 < 0x10)
  {
  }

  lemma ThreeBytes(b0: int, b1: int, b2: int) returns (n: nat)
    requires 0xE0 <= b0 <= 0xEF && 0x80 <= b1 <= 0xBF && 0x80 <= b2 <= 0xBF
    requires (b0 == 0xE0 ==> b1 >= 0xA0) && (b0 == 0xED ==> b1 <= 0x9F)
    ensures IsScalar(n) && Encode(n) == [b0, b1, b2]
  {
    n := ((b0 - 0xE0) * 0x40 + (b1 - 0x80)) * 0x40 + (b2 - 0x80);
    Recombine(0, b0 - 0xE0, b1 - 0x80, b2 - 0x80);
  }

  lemma FourBytes(b0: int, b1: int, b2: int, b3: int) returns (n: nat)
    requires 0xF0 <= b0 <= 0xF4 && 0x80 <= b1 <= 0xBF && 0x80 <= b2 <= 0xBF && 0x80 <= b3 <= 0xBF
    requires (b0 == 0xF0 ==> b1 >= 0x90) && (b0 == 0xF4 ==> b1 <= 0x8F)
    ensures IsScalar(n) && Encode(n) == [b0, b1, b2, b3]
  {
    n := (((b0 - 0xF0) * 0x40 + (b1 - 0x80)) * 0x40 + (b2 - 0x80)) * 0x40 + (b3 - 0x80);
    Recombine(b0 - 0xF0, b1 - 0x80, b2 - 0x80, b3 - 0x80);
  }

  /** The characters recognised at the start of a text are exactly the encodings of scalar values. */
  lemma CharIsEncoded(s: seq<Byte>) returns (n: nat)
    requires CharLength(s) > 0
    ensures IsScalar(n) && Encode(n) == s[..CharLength(s)]
  {
    var length := CharLength(s);
    var b0: int := s[0];
    if length == 1 {
      n := b0;
    } else if length == 2 {
      var b1: int := s[1];
      n := (b0 - 0xC0) * 0x40 + (b1 - 0x80);
      Recombine(0, 0, b0 - 0xC0, b1 - 0x80);
    } else if length == 3 {
      n := ThreeBytes(s[0], s[1], s[2]);
    } else {
      n := FourBytes(s[0], s[1], s[2], s[3]);
    }
  }

  predicate Valid(s: seq<Byte>) {
    s == [] || (CharLength(s) > 0 && Valid(s[CharLength(s)..]))
  }

  /** A place a text may be cut without splitting a character. */
  predicate IsBoundary(s: seq<Byte>, k: nat)
    requires k <= |s|
  {
    k == 0 || k == |s| || !IsTail(s[k])
  }

  /** A prefix of well-formed text is well formed exactly when it ends at a boundary. */
  lemma {:induction false} PrefixValidExactly(s: seq<Byte>, k: nat)
    requires Valid(s) && k <= |s|
    ensures Valid(s[..k]) <==> IsBoundary(s, k)
    decreases |s|
  {
    if 0 < k < |s| {
      var n := CharLength(s);
      if k < n {
        assert CharLength(s[..k]) == 0;
      } else {
        assert s[..k][..n] == s[..n];
        assert CharLength(s[..k]) == n;
        assert s[..k][n..] == s[n..][..k - n];
        PrefixValidExactly(s[n..], k - n);
        if k == n && k < |s| {
          assert s[n..][0] == s[k];
        }
      }
    } else if k == |s| {
      assert s[..k] == s;
    }
  }

  /** A boundary lies at most three bytes below any place in well-formed text. */
  lemma {:induction false} BoundaryNearby(s: seq<Byte>, k: nat)
    requires Valid(s) && k < |s|
    ensures exists b: nat :: b <= k <= b + 3 && IsBoundary(s, b)
    decreases |s|
  {
    var n := CharLength(s);
    if k < n {
      assert IsBoundary(s, 0);
    } else {
      BoundaryNearby(s[n..], k - n);
      var b: nat :| b <= k - n <= b + 3 && IsBoundary(s[n..], b);
      if b == 0 {
        assert !IsTail(s[n..][0]) && s[n..][0] == s[n];
      }
      assert IsBoundary(s, b + n);
    }
  }

  /** The part of an upload that is read: at most `budget` bytes, cut before a split character. */
  method ReadWithin(bytes: seq<Byte>, budget: nat) returns (read: seq<Byte>)
    ensures |bytes| <= budget ==> read == bytes
    ensures |bytes| > budget ==>
              && |read| <= budget && read == bytes[..|read|] && IsBoundary(bytes, |read|)
              && forall b: nat :: |read| < b <= budget ==> !IsBoundary(bytes, b)
    ensures Valid(bytes) ==> Valid(read)
    ensures Valid(bytes) && |bytes| > budget ==> |read| + 3 >= budget
  {
    if |bytes| <= budget {
      return bytes;
    }
    var end := budget;
    while end > 0 && IsTail(bytes[end])
      invariant 0 <= end <= budget
      invariant forall b: nat :: end < b <= budget ==> !IsBoundary(bytes, b)
    {
      end := end - 1;
    }
    read := bytes[..end];
    if Valid(bytes) {
      PrefixValidExactly(bytes, end);
      BoundaryNearby(bytes, budget);
    }
  }
}
