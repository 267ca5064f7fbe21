/** Substring search as Rust's `str` methods perform it: `matches` and `replace` walk from left to
    right and never look inside a match again. */
module Substrings {

  predicate OccursAt(m: string, s: string, i: int) {
    0 <= i && i + |m| <= |s| && s[i..i + |m|] == m
  }

  ghost predicate Absent(m: string, s: string) {
    forall i :: !OccursAt(m, s, i)
  }

  /** `s.matches(m).count()` */
  function Matches(m: string, s: string): (n: nat)
    requires m != ""
  {
    if |s| < |m| then 0
    else if m <= s then 1 + Matches(m, s[|m|..])
    else Matches(m, s[1..])
  }

  /** `s.replace(m, r)` */
  function Replace(s: string, m: string, r: string): (t: string)
    requires m != ""
  {
    if |s| < |m| then s
    else if m <= s then r + Replace(s[|m|..], m, r)
    else [s[0]] + Replace(s[1..], m, r)
  }

  /** `s.find(m)`, with the length of `s` when there is no match. */
  function IndexOf(m: string, s: string): (i: nat)
    requires m != ""
    ensures i <= |s|
  {
    if |s| < |m| then |s|
    else if m <= s then 0
    else 1 + IndexOf(m, s[1..])
  }

  /** `i` is the first place where `m` occurs. */
  ghost predicate FirstAt(m: string, s: string, i: int) {
    OccursAt(m, s, i) && forall j :: 0 <= j < i ==> !OccursAt(m, s, j)
  }

  lemma OccursInTail(m: string, s: string, j: nat)
    requires s != ""
    ensures OccursAt(m, s[1..], j) <==> OccursAt(m, s, j + 1)
    ensures m <= s <==> OccursAt(m, s, 0)
  {
    if j + 1 + |m| <= |s| {
      assert s[1..][j..j + |m|] == s[j + 1..j + 1 + |m|];
    }
    assert |m| <= |s| ==> s[0..|m|] == s[..|m|];
  }

  lemma FirstFurther(m: string, s: string, i: int)
    requires m != "" && FirstAt(m, s, i) && i > 0
    ensures s != "" && !(m <= s) && FirstAt(m, s[1..], i - 1) && i + |m| <= |s|
    ensures s[1..][i - 1 + |m|..] == s[i + |m|..] && s[..i] == [s[0]] + s[1..][..i - 1]
  {
    forall j: nat | j < i ensures OccursAt(m, s[1..], j) <==> OccursAt(m, s, j + 1) {
      OccursInTail(m, s, j);
    }
    OccursInTail(m, s, 0);
  }

  /** How the three searches go on: past a match at the front, or past one character. */
  lemma OneSearchStep(s: string, m: string, r: string)
    requires m != "" && |s| >= |m|
    ensures m <= s ==>
              Replace(s, m, r) == r + Replace(s[|m|..], m, r) && Matches(m, s) == 1 + Matches(m, s[|m|..]) && IndexOf(m, s) == 0
    ensures !(m <= s) ==>
              Replace(s, m, r) == [s[0]] + Replace(s[1..], m, r) && Matches(m, s) == Matches(m, s[1..]) && IndexOf(m, s) == 1 + IndexOf(m, s[1..])
  {
  }

  /** Everything up to the first match is kept, the match is replaced, and the search goes on behind
      it. The count and the first index go by the same matches. */
  lemma {:induction false} FirstMatch(s: string, m: string, r: string, i: int)
    requires m != "" && FirstAt(m, s, i)
    ensures i + |m| <= |s|
    ensures Replace(s, m, r) == s[..i] + (r + Replace(s[i + |m|..], m, r))
    ensures Matches(m, s) == 1 + Matches(m, s[i + |m|..])
    ensures IndexOf(m, s) == i
  {
    hide Replace, Matches, IndexOf;
    OneSearchStep(s, m, r);
    if i == 0 {
      OccursInTail(m, s, 0);
      assert s[..0] + (r + Replace(s[|m|..], m, r)) == r + Replace(s[|m|..], m, r);
    } else {
      hide FirstAt, OccursAt;
      FirstFurther(m, s, i);
      var rest, tail := s[1..], r + Replace(s[i + |m|..], m, r);
      FirstMatch(rest, m, r, i - 1);
      assert ([s[0]] + rest[..i - 1]) + tail == [s[0]] + (rest[..i - 1] + tail);
    }
  }

  // ---- Occurrences -------------------------------------------------------------------------

  lemma OccursInWhole(m: string, a: string, b: string, i: int)
    ensures OccursAt(m, a, i) ==> OccursAt(m, a + b, i)
    ensures OccursAt(m, b, i) ==> OccursAt(m, a + b, |a| + i)
  {
    if OccursAt(m, a, i) {
      assert (a + b)[i..i + |m|] == a[i..i + |m|];
    }
    if OccursAt(m, b, i) {
      assert (a + b)[|a| + i..|a| + i + |m|] == b[i..i + |m|];
    }
  }

  lemma AbsentInPart(m: string, a: string, b: string)
    requires Absent(m, a + b)
    ensures Absent(m, a) && Absent(m, b)
  {
    forall i ensures !OccursAt(m, a, i) && !OccursAt(m, b, i) {
      OccursInWhole(m, a, b, i);
    }
  }

  /** No occurrence spans a character that the marker does not contain. */
  lemma OccursInOneSide(m: string, a: string, c: char, b: string, i: int)
    requires m != "" && c !in m
    ensures OccursAt(m, a + [c] + b, i) ==> OccursAt(m, a, i) || OccursAt(m, b, i - |a| - 1)
  {
    var s := a + [c] + b;
    if OccursAt(m, s, i) {
      assert forall k :: i <= k < i + |m| ==> s[k] == m[k - i];
      assert s[|a|] == c;
      if i < |a| {
        assert a[i..i + |m|] == s[i..i + |m|];
      } else {
        assert b[i - |a| - 1..i - |a| - 1 + |m|] == s[i..i + |m|];
      }
    }
  }

  lemma AbsentAcross(m: string, a: string, c: char, b: string)
    requires m != "" && c !in m
    requires Absent(m, a) && Absent(m, b)
    ensures Absent(m, a + [c] + b)
  {
    forall i ensures !OccursAt(m, a + [c] + b, i) {
      OccursInOneSide(m, a, c, b, i);
    }
  }

  predicate Foreign(r: string, m: string) {
    r != "" && forall k :: 0 <= k < |r| ==> r[k] !in m
  }

  lemma {:induction false} AbsentAround(m: string, a: string, r: string, b: string)
    requires m != "" && Foreign(r, m)
    requires Absent(m, a) && Absent(m, b)
    ensures Absent(m, a + (r + b))
    decreases |r|
  {
    hide Absent, OccursAt;
    if |r| == 1 {
      AbsentAcross(m, a, r[0], b);
      assert a + [r[0]] + b == a + (r + b);
    } else {
      AbsentEmpty(m);
      AbsentAround(m, "", r[1..], b);
      assert "" + (r[1..] + b) == r[1..] + b;
      AbsentAcross(m, a, r[0], r[1..] + b);
      assert a + [r[0]] + (r[1..] + b) == a + (r + b);
    }
  }

  lemma AbsentWithoutFirst(m: string, s: string)
    requires m != "" && m[0] !in s
    ensures Absent(m, s)
  {
    assert forall i :: OccursAt(m, s, i) ==> s[i] == s[i..i + |m|][0];
  }

  // ---- Counting ----------------------------------------------------------------------------

  lemma {:induction false} MatchesAcross(m: string, a: string, c: char, b: string)
    requires m != "" && c !in m
    ensures Matches(m, a + ([c] + b)) == Matches(m, a) + Matches(m, b)
    decreases |a|
  {
    var s := a + ([c] + b);
    assert s[|a|] == c;
    assert a <= s;
    if m <= s {
      assert forall k :: 0 <= k < |m| ==> s[k] == m[k];
      assert m == s[..|m|] == a[..|m|];
      assert s[|m|..] == a[|m|..] + ([c] + b);
      MatchesAcross(m, a[|m|..], c, b);
    } else if a == "" {
      assert s[1..] == b;
    } else {
      assert s[1..] == a[1..] + ([c] + b);
      MatchesAcross(m, a[1..], c, b);
      ShortHasNone(m, a[1..]);
    }
  }

  lemma ShortHasNone(m: string, s: string)
    requires m != ""
    ensures |s| < |m| ==> Matches(m, s) == 0
  {
  }

  /** The count is zero exactly when the marker does not occur at all. */
  lemma {:induction false} MatchesNone(m: string, s: string)
    requires m != ""
    ensures Matches(m, s) == 0 <==> Absent(m, s)
    decreases |s|
  {
    if |s| < |m| {
    } else if m <= s {
      assert OccursAt(m, s, 0);
    } else {
      MatchesNone(m, s[1..]);
      assert s == [s[0]] + s[1..];
      forall i ensures OccursAt(m, s, i) <==> OccursAt(m, s[1..], i - 1) {
        if i > 0 && i + |m| <= |s| {
          assert s[1..][i - 1..i - 1 + |m|] == s[i..i + |m|];
        }
      }
      assert forall i :: OccursAt(m, s[1..], i) ==> OccursAt(m, s, i + 1);
    }
  }

  lemma PrefixAt(m: string, s: string, k: nat)
    requires k < |m| && k < |s|
    ensures m <= s ==> s[k] == m[k]
  {
  }

  lemma {:induction false} IndexAcross(m: string, a: string, c: char, b: string)
    requires m != "" && c !in m && Absent(m, a)
    ensures IndexOf(m, a + ([c] + b)) == |a| + 1 + IndexOf(m, b)
    decreases |a|
  {
    var s := a + ([c] + b);
    assert s[|a|] == c && !OccursAt(m, a, 0);
    if |a| < |m| {
      PrefixAt(m, s, |a|);
    } else {
      assert s[..|m|] == a[0..|m|];
    }
    if a == "" {
      assert s[1..] == b;
    } else {
      assert a == [a[0]] + a[1..];
      AbsentInPart(m, [a[0]], a[1..]);
      IndexAcross(m, a[1..], c, b);
      assert s[1..] == a[1..] + ([c] + b);
    }
  }

  // ---- Replacing ---------------------------------------------------------------------------

  lemma {:induction false} ReplaceRemoves(m: string, t: string, r: string)
    requires m != "" && Foreign(r, m)
    ensures Absent(m, Replace(t, m, r))
  {
    assert "" + t == t && "" + Replace(t, m, r) == Replace(t, m, r);
    ReplaceRemovesFrom(m, "", t, r);
  }

  /** `p` has been scanned: no occurrence starts in it. */
  lemma {:induction false} ReplaceRemovesFrom(m: string, p: string, t: string, r: string)
    requires m != "" && Foreign(r, m)
    requires forall i :: 0 <= i < |p| ==> !OccursAt(m, p + t, i)
    ensures Absent(m, p + Replace(t, m, r))
    decreases |t|
  {
    if |t| < |m| {
    } else if m <= t {
      var rest := t[|m|..];
      ScannedIsFree(m, p, t);
      ReplaceRemovesFrom(m, "", rest, r);
      assert "" + Replace(rest, m, r) == Replace(rest, m, r);
      AbsentAround(m, p, r, Replace(rest, m, r));
    } else {
      ScanOne(m, p, t);
      ReplaceRemovesFrom(m, p + [t[0]], t[1..], r);
      assert p + [t[0]] + Replace(t[1..], m, r) == p + ([t[0]] + Replace(t[1..], m, r));
    }
  }

  lemma ScannedIsFree(m: string, p: string, t: string)
    requires m != ""
    requires forall i :: 0 <= i < |p| ==> !OccursAt(m, p + t, i)
    ensures Absent(m, p)
  {
    forall i ensures !OccursAt(m, p, i) {
      OccursInWhole(m, p, t, i);
    }
  }

  lemma ScanOne(m: string, p: string, t: string)
    requires m != "" && t != "" && !(m <= t)
    requires forall i :: 0 <= i < |p| ==> !OccursAt(m, p + t, i)
    ensures forall i :: 0 <= i < |p + [t[0]]| ==> !OccursAt(m, (p + [t[0]]) + t[1..], i)
  {
    assert (p + [t[0]]) + t[1..] == p + t;
    assert |t| >= |m| ==> (p + t)[|p|..|p| + |m|] == t[..|m|];
  }

  lemma {:induction false} ReplaceKeepsAbsent(m: string, t: string, other: string, r: string)
    requires m != "" && other != "" && Foreign(r, m)
    requires Absent(m, t)
    ensures Absent(m, Replace(t, other, r))
  {
    assert "" + t == t && "" + Replace(t, other, r) == Replace(t, other, r);
    ReplaceKeepsAbsentFrom(m, "", t, other, r);
  }

  lemma {:induction false} ReplaceKeepsAbsentFrom(m: string, p: string, t: string, other: string, r: string)
    requires m != "" && other != "" && Foreign(r, m)
    requires Absent(m, p + t)
    ensures Absent(m, p + Replace(t, other, r))
    decreases |t|
  {
    hide Absent, OccursAt;
    if |t| < |other| {
    } else if other <= t {
      var rest := t[|other|..];
      assert t == t[..|other|] + rest;
      AbsentInPart(m, p, t);
      AbsentInPart(m, t[..|other|], rest);
      assert "" + rest == rest && "" + Replace(rest, other, r) == Replace(rest, other, r);
      ReplaceKeepsAbsentFrom(m, "", rest, other, r);
      AbsentAround(m, p, r, Replace(rest, other, r));
    } else {
      assert p + [t[0]] + t[1..] == p + t;
      ReplaceKeepsAbsentFrom(m, p + [t[0]], t[1..], other, r);
      assert p + [t[0]] + Replace(t[1..], other, r) == p + ([t[0]] + Replace(t[1..], other, r));
    }
  }

  lemma AbsentEmpty(m: string)
    requires m != ""
    ensures Absent(m, "")
  {
  }

  lemma {:induction false} ReplaceIdentity(t: string, m: string, r: string)
    requires m != "" && Absent(m, t)
    ensures Replace(t, m, r) == t
    decreases |t|
  {
    if |t| >= |m| {
      assert !OccursAt(m, t, 0) && t[0..|m|] == t[..|m|];
      assert t == [t[0]] + t[1..];
      AbsentInPart(m, [t[0]], t[1..]);
      ReplaceIdentity(t[1..], m, r);
    }
  }
}
