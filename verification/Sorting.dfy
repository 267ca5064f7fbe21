/** Strings in their lexicographic order, and sorting them. */
module Sorting {

  predicate LessEq(a: string, b: string) {
    if a == "" then true
    else if b == "" then false
    else if a[0] == b[0] then LessEq(a[1..], b[1..])
    else a[0] < b[0]
  }

  lemma {:induction false} Total(a: string, b: string)
    ensures LessEq(a, b) || LessEq(b, a)
  {
    if a != "" && b != "" && a[0] == b[0] {
      Total(a[1..], b[1..]);
    }
  }

  lemma {:induction false} Antisymmetric(a: string, b: string)
    requires LessEq(a, b) && LessEq(b, a)
    ensures a == b
  {
    if a != "" && b != "" {
      Antisymmetric(a[1..], b[1..]);
      assert a == [a[0]] + a[1..] && b == [b[0]] + b[1..];
    }
  }

  lemma {:induction false} Transitive(a: string, b: string, c: string)
    requires LessEq(a, b) && LessEq(b, c)
    ensures LessEq(a, c)
  {
    if a != "" && a[0] == b[0] && b[0] == c[0] {
      Transitive(a[1..], b[1..], c[1..]);
    }
  }

  /** Cutting both strings to the same length keeps their order. */
  lemma {:induction false} PrefixKeepsOrder(a: string, b: string, n: nat)
    requires LessEq(a, b) && n <= |a| && n <= |b|
    ensures LessEq(a[..n], b[..n])
  {
    if n > 0 && a[0] == b[0] {
      PrefixKeepsOrder(a[1..], b[1..], n - 1);
      assert a[..n][1..] == a[1..][..n - 1] && b[..n][1..] == b[1..][..n - 1];
    }
  }

  function Insert(x: string, sorted: seq<string>): (r: seq<string>)
    ensures multiset(r) == multiset{x} + multiset(sorted)
  {
    if sorted == [] || LessEq(x, sorted[0]) then
      assert sorted == [] ==> [x] + sorted == [x];
      [x] + sorted
    else
      assert sorted == [sorted[0]] + sorted[1..];
      [sorted[0]] + Insert(x, sorted[1..])
  }

  function Sorted(s: seq<string>): (r: seq<string>)
    ensures multiset(r) == multiset(s) && |r| == |s|
  {
    if s == [] then []
    else
      var r := Insert(s[0], Sorted(s[1..]));
      assert s == [s[0]] + s[1..];
      assert |multiset(r)| == |multiset(s)|;
      r
  }

  predicate IsSorted(s: seq<string>) {
    |s| <= 1 || (LessEq(s[0], s[1]) && IsSorted(s[1..]))
  }

  lemma {:induction false} InsertSorts(x: string, s: seq<string>)
    requires IsSorted(s)
    ensures IsSorted(Insert(x, s))
  {
    if s != [] && !LessEq(x, s[0]) {
      Total(x, s[0]);
      InsertSorts(x, s[1..]);
    }
  }

  lemma {:induction false} SortedIsSorted(s: seq<string>)
    ensures IsSorted(Sorted(s))
  {
    if s != [] {
      SortedIsSorted(s[1..]);
      InsertSorts(s[0], Sorted(s[1..]));
    }
  }

  lemma {:induction false} FirstIsLeast(s: seq<string>, x: string)
    requires IsSorted(s) && x in s
    ensures LessEq(s[0], x)
  {
    if x == s[0] {
      Total(x, x);
    } else {
      assert x in s[1..];
      FirstIsLeast(s[1..], x);
      Transitive(s[0], s[1], x);
    }
  }

  lemma TakeFirst(s: seq<string>)
    requires s != []
    ensures s == [s[0]] + s[1..] && multiset(s[1..]) == multiset(s) - multiset{s[0]}
  {
    assert s == [s[0]] + s[1..];
  }

  /** Only one arrangement of the same strings is sorted. */
  lemma {:induction false} SortedIsUnique(a: seq<string>, b: seq<string>)
    requires IsSorted(a) && IsSorted(b) && multiset(a) == multiset(b)
    ensures a == b
  {
    hide LessEq;
    assert |multiset(a)| == |multiset(b)|;
    if a != [] {
      assert a[0] in multiset(b) && b[0] in multiset(a);
      FirstIsLeast(a, b[0]);
      FirstIsLeast(b, a[0]);
      Antisymmetric(a[0], b[0]);
      TakeFirst(a);
      TakeFirst(b);
      SortedIsUnique(a[1..], b[1..]);
    }
  }
}
