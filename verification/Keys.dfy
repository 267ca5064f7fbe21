/** The idempotency keys of jobs: the parser, and the two derivations from the work itself. */
module Keys {
  import opened Jobs
  import opened Sorting
  import opened Texts

  const LIMIT: nat := 200

  predicate IsHex(c: char) {
    '0' <= c <= '9' || 'a' <= c <= 'f'
  }

  predicate IsSimple(u: string) {
    |u| == 32 && forall k :: 0 <= k < |u| ==> IsHex(u[k])
  }

  /** An identifier in its simple form. */
  type Uuid = u: string | IsSimple(u) witness seq(32, k => '0')

  function KindText(kind: JobKind): (text: string)
    ensures 8 <= |text| <= 10
  {
    match kind
    case Analysis => "analysis"
    case Extraction => "extraction"
    case Retention => "retention"
    case Simulation => "simulation"
  }

  lemma HexExactly(c: char)
    ensures IsHex(c) <==> c in "0123456789abcdef"
  {
  }

  // ---- The parser --------------------------------------------------------------------------

  datatype KeyError = Length | Charset

  datatype Parsed = Ok(key: string) | Err(error: KeyError)

  predicate IsKeyChar(c: char) {
    '0' <= c <= '9' || 'a' <= c <= 'z' || 'A' <= c <= 'Z' || c == '-' || c == '_' || c == ':'
  }

  /** The ASCII letters and digits, the hyphen, the underscore and the colon, by code. */
  lemma KeyCharsExactly(c: char)
    ensures var n := c as int;
            IsKeyChar(c) <==> 48 <= n <= 57 || 65 <= n <= 90 || 97 <= n <= 122 || n in {45, 58, 95}
  {
  }

  predicate AllKeyChars(s: string) {
    forall k :: 0 <= k < |s| ==> IsKeyChar(s[k])
  }

  function Parse(value: string): (r: Parsed) {
    var trimmed := Trim(value);
    if ByteLength(trimmed) < 8 || ByteLength(trimmed) > LIMIT then Err(Length)
    else if !AllKeyChars(trimmed) then Err(Charset)
    else Ok(trimmed)
  }

  lemma {:induction false} KeyCharsAreBytes(s: string)
    requires AllKeyChars(s)
    ensures ByteLength(s) == |s|
  {
    if s != "" {
      KeyCharsAreBytes(s[1..]);
    }
  }

  /** The parser accepts exactly a text of 8 to 200 allowed characters, with any whitespace around
      it, and returns that text. */
  lemma ParseExactly(value: string, key: string)
    ensures Parse(value) == Ok(key)
       <==> (8 <= |key| <= LIMIT && AllKeyChars(key)
             && exists a, b :: AllWhitespace(a) && AllWhitespace(b) && value == a + (key + b))
  {
    hide TrimStart, TrimEnd, ByteLength, IsWhitespace, AllWhitespace;
    if Parse(value) == Ok(key) {
      KeyCharsAreBytes(key);
      var a := TrimStartParts(value);
      var b := TrimEndParts(TrimStart(value));
      assert value == a + (key + b);
    }
    if 8 <= |key| <= LIMIT && AllKeyChars(key) && exists a, b :: AllWhitespace(a) && AllWhitespace(b) && value == a + (key + b) {
      var a, b :| AllWhitespace(a) && AllWhitespace(b) && value == a + (key + b);
      KeyCharIsNoSpace(key[0]);
      KeyCharIsNoSpace(key[|key| - 1]);
      TrimStartOf(a, key + b);
      TrimEndOf(key, b);
      KeyCharsAreBytes(key);
    }
  }

  lemma KeyCharIsNoSpace(c: char)
    requires IsKeyChar(c)
    ensures !IsWhitespace(c)
  {
  }

  lemma ParsesItself(key: string)
    requires AllKeyChars(key)
    ensures Parse(key) == if 8 <= |key| <= LIMIT then Ok(key) else Err(Length)
  {
    hide TrimStart, TrimEnd, ByteLength, IsWhitespace;
    if key != "" {
      KeyCharIsNoSpace(key[0]);
      KeyCharIsNoSpace(key[|key| - 1]);
      TrimsItself(key);
    } else {
      TrimsItself(key);
    }
    KeyCharsAreBytes(key);
  }

  lemma TrimsItself(key: string)
    requires key != "" ==> !IsWhitespace(key[0]) && !IsWhitespace(key[|key| - 1])
    ensures Trim(key) == key
  {
  }

  // ---- The derivations ---------------------------------------------------------------------

  predicate Wide(parts: seq<string>) {
    forall k :: 0 <= k < |parts| ==> IsSimple(parts[k])
  }

  function Heads(parts: seq<string>): (heads: seq<string>)
    requires Wide(parts)
    ensures |heads| == |parts|
  {
    seq(|parts|, k requires 0 <= k < |parts| => parts[k][..8])
  }

  function Join(parts: seq<string>): (s: string) {
    if parts == [] then "" else if |parts| == 1 then parts[0] else parts[0] + "-" + Join(parts[1..])
  }

  lemma {:induction false} InsertWide(x: string, s: seq<string>)
    requires IsSimple(x) && Wide(s)
    ensures Wide(Insert(x, s))
  {
    hide IsSimple, LessEq;
    if s != [] && !LessEq(x, s[0]) {
      InsertWide(x, s[1..]);
    }
  }

  lemma {:induction false} SortedWide(s: seq<string>)
    requires Wide(s)
    ensures Wide(Sorted(s))
  {
    hide IsSimple;
    if s != [] {
      SortedWide(s[1..]);
      InsertWide(s[0], Sorted(s[1..]));
    }
  }

  function Documents(parts: seq<Uuid>): (docs: string) {
    SortKeepsWidth(parts);
    Join(Heads(Sorted(parts)))
  }

  lemma SortKeepsWidth(parts: seq<Uuid>)
    ensures Wide(parts) && Wide(Sorted(parts))
  {
    SortedWide(parts);
  }

  function Base(kind: JobKind, scope: Uuid): (s: string) {
    "auto:" + (KindText(kind) + (":" + (scope + ":")))
  }

  function Derived(kind: JobKind, scope: Uuid, parts: seq<Uuid>): (key: string) {
    Base(kind, scope) + Documents(parts)
  }

  function OrderHead(kind: JobKind, scope: Uuid, order: Uuid): (head: string)
    ensures |head| < LIMIT
  {
    Base(kind, scope) + ("o" + order)
  }

  function DerivedForOrder(kind: JobKind, scope: Uuid, parts: seq<Uuid>, order: Uuid): (key: string) {
    var head, docs := OrderHead(kind, scope, order), Documents(parts);
    var room := LIMIT - |head| - 1;
    head + (":" + if |docs| > room then docs[..room] else docs)
  }

  // ---- What a key determines ---------------------------------------------------------------

  lemma KindOfText(a: JobKind, b: JobKind)
    requires KindText(a)[0] == KindText(b)[0]
    ensures a == b
  {
  }

  lemma BaseParts(kind: JobKind, scope: Uuid)
    ensures var base, n := Base(kind, scope), |KindText(kind)|;
            |base| == 39 + n && base[5] == KindText(kind)[0] && base[6 + n..38 + n] == scope
  {
    hide KindText;
  }

  lemma BaseDetermines(kind1: JobKind, scope1: Uuid, rest1: string, kind2: JobKind, scope2: Uuid, rest2: string)
    requires Base(kind1, scope1) + rest1 == Base(kind2, scope2) + rest2
    ensures kind1 == kind2 && scope1 == scope2 && rest1 == rest2
  {
    hide KindText, Base;
    BaseParts(kind1, scope1);
    BaseParts(kind2, scope2);
    var a, b := Base(kind1, scope1), Base(kind2, scope2);
    assert (a + rest1)[5] == a[5] && (b + rest2)[5] == b[5];
    KindOfText(kind1, kind2);
    assert a == (a + rest1)[..|a|] && b == (b + rest2)[..|b|];
    assert rest1 == (a + rest1)[|a|..] && rest2 == (b + rest2)[|b|..];
  }

  ghost predicate HeadWidths(parts: seq<string>) {
    forall k :: 0 <= k < |parts| ==> |parts[k]| == 8
  }

  lemma {:induction false} JoinLength(parts: seq<string>)
    requires HeadWidths(parts)
    ensures |Join(parts)| == if parts == [] then 0 else 9 * |parts| - 1
  {
    if |parts| > 1 {
      JoinLength(parts[1..]);
    }
  }

  lemma {:induction false} JoinInjective(a: seq<string>, b: seq<string>)
    requires HeadWidths(a) && HeadWidths(b) && Join(a) == Join(b)
    ensures a == b
  {
    JoinLength(a);
    JoinLength(b);
    if |a| > 1 {
      assert a[0] == Join(a)[..8] && b[0] == Join(b)[..8];
      assert Join(a[1..]) == Join(a)[9..] && Join(b[1..]) == Join(b)[9..];
      JoinInjective(a[1..], b[1..]);
      assert a == [a[0]] + a[1..] && b == [b[0]] + b[1..];
    }
  }

  lemma {:induction false} JoinChars(parts: seq<string>)
    requires forall p :: p in parts ==> AllKeyChars(p)
    ensures AllKeyChars(Join(parts))
  {
    if parts != [] {
      assert AllKeyChars(parts[0]);
      JoinChars(parts[1..]);
    }
  }

  lemma HeadsAre(parts: seq<string>)
    requires Wide(parts)
    ensures HeadWidths(Heads(parts)) && forall p :: p in Heads(parts) ==> AllKeyChars(p)
  {
  }

  lemma DocumentsText(parts: seq<Uuid>)
    ensures |Documents(parts)| == if parts == [] then 0 else 9 * |parts| - 1
    ensures AllKeyChars(Documents(parts))
  {
    hide IsSimple, AllKeyChars, Sorted, Join;
    SortKeepsWidth(parts);
    HeadsAre(Sorted(parts));
    JoinLength(Heads(Sorted(parts)));
    JoinChars(Heads(Sorted(parts)));
  }

  lemma HeadsOfCons(x: string, s: seq<string>)
    requires IsSimple(x) && Wide(s)
    ensures Wide([x] + s) && multiset(Heads([x] + s)) == multiset{x[..8]} + multiset(Heads(s))
  {
    hide IsHex;
    assert Heads([x] + s) == [x[..8]] + Heads(s);
  }

  lemma SwapSum(a: multiset<string>, b: multiset<string>, m: multiset<string>)
    ensures a + (b + m) == b + (a + m)
  {
  }

  lemma {:induction false} HeadsOfInsert(x: string, s: seq<string>)
    requires IsSimple(x) && Wide(s)
    ensures Wide(Insert(x, s))
    ensures multiset(Heads(Insert(x, s))) == multiset{x[..8]} + multiset(Heads(s))
  {
    hide LessEq, IsHex, Heads;
    InsertWide(x, s);
    if s == [] || LessEq(x, s[0]) {
      HeadsOfCons(x, s);
    } else {
      HeadsOfInsert(x, s[1..]);
      HeadsOfCons(s[0], Insert(x, s[1..]));
      HeadsOfCons(s[0], s[1..]);
      assert s == [s[0]] + s[1..];
      SwapSum(multiset{s[0][..8]}, multiset{x[..8]}, multiset(Heads(s[1..])));
    }
  }

  lemma {:induction false} HeadsOfSorted(s: seq<string>)
    requires Wide(s)
    ensures Wide(Sorted(s))
    ensures multiset(Heads(Sorted(s))) == multiset(Heads(s))
  {
    hide Insert, IsSimple, Heads;
    SortedWide(s);
    if s != [] {
      HeadsOfSorted(s[1..]);
      HeadsOfInsert(s[0], Sorted(s[1..]));
      HeadsOfCons(s[0], s[1..]);
      assert s == [s[0]] + s[1..];
    }
  }

  lemma {:induction false} HeadsStaySorted(s: seq<string>)
    requires IsSorted(s) && Wide(s)
    ensures IsSorted(Heads(s))
  {
    if |s| > 1 {
      PrefixKeepsOrder(s[0], s[1], 8);
      HeadsStaySorted(s[1..]);
      assert Heads(s)[1..] == Heads(s[1..]);
    }
  }

  lemma SameHeadsSameDocuments(a: seq<Uuid>, b: seq<Uuid>)
    ensures Wide(a) && Wide(b)
    ensures Documents(a) == Documents(b) <==> multiset(Heads(a)) == multiset(Heads(b))
  {
    hide Heads, Join, IsSorted, Sorted, IsSimple;
    SortKeepsWidth(a);
    SortKeepsWidth(b);
    HeadsOfSorted(a);
    HeadsOfSorted(b);
    SortedIsSorted(a);
    SortedIsSorted(b);
    HeadsStaySorted(Sorted(a));
    HeadsStaySorted(Sorted(b));
    HeadsAre(Sorted(a));
    HeadsAre(Sorted(b));
    if multiset(Heads(a)) == multiset(Heads(b)) {
      SortedIsUnique(Heads(Sorted(a)), Heads(Sorted(b)));
    }
    if Documents(a) == Documents(b) {
      JoinInjective(Heads(Sorted(a)), Heads(Sorted(b)));
    }
  }

  /** Two derived keys are the same exactly when kind and scope are and the documents' first eight
      characters agree as multisets. */
  lemma DerivedExactly(kind1: JobKind, scope1: Uuid, parts1: seq<Uuid>, kind2: JobKind, scope2: Uuid, parts2: seq<Uuid>)
    ensures Derived(kind1, scope1, parts1) == Derived(kind2, scope2, parts2)
       <==> kind1 == kind2 && scope1 == scope2 && multiset(Heads(parts1)) == multiset(Heads(parts2))
  {
    hide Base, Documents, Heads;
    SameHeadsSameDocuments(parts1, parts2);
    if Derived(kind1, scope1, parts1) == Derived(kind2, scope2, parts2) {
      BaseDetermines(kind1, scope1, Documents(parts1), kind2, scope2, Documents(parts2));
    }
  }

  /** Neither key depends on the order in which the documents were named. */
  lemma OrderOfDocumentsIgnored(kind: JobKind, scope: Uuid, a: seq<Uuid>, b: seq<Uuid>, order: Uuid)
    requires multiset(a) == multiset(b)
    ensures Derived(kind, scope, a) == Derived(kind, scope, b)
    ensures DerivedForOrder(kind, scope, a, order) == DerivedForOrder(kind, scope, b, order)
  {
    hide Base, OrderHead, IsSorted;
    SortedIsSorted(a);
    SortedIsSorted(b);
    SortedIsUnique(Sorted(a), Sorted(b));
  }

  /** A paid key is for one kind, scope and order. */
  lemma OrderKeyDetermines(kind1: JobKind, scope1: Uuid, parts1: seq<Uuid>, order1: Uuid,
                           kind2: JobKind, scope2: Uuid, parts2: seq<Uuid>, order2: Uuid)
    ensures DerivedForOrder(kind1, scope1, parts1, order1) == DerivedForOrder(kind2, scope2, parts2, order2)
        ==> kind1 == kind2 && scope1 == scope2 && order1 == order2
  {
    hide Base, Documents, DerivedForOrder;
    var rest1 := OrderKeyParts(kind1, scope1, parts1, order1);
    var rest2 := OrderKeyParts(kind2, scope2, parts2, order2);
    if DerivedForOrder(kind1, scope1, parts1, order1) == DerivedForOrder(kind2, scope2, parts2, order2) {
      BaseDetermines(kind1, scope1, "o" + (order1 + rest1), kind2, scope2, "o" + (order2 + rest2));
      assert order1 == ("o" + (order1 + rest1))[1..33] && order2 == ("o" + (order2 + rest2))[1..33];
    }
  }

  lemma OrderKeyParts(kind: JobKind, scope: Uuid, parts: seq<Uuid>, order: Uuid) returns (rest: string)
    ensures DerivedForOrder(kind, scope, parts, order) == Base(kind, scope) + ("o" + (order + rest))
  {
    hide Base, Documents;
    var docs := Documents(parts);
    var room := LIMIT - |OrderHead(kind, scope, order)| - 1;
    rest := ":" + if |docs| > room then docs[..room] else docs;
    assert (Base(kind, scope) + ("o" + order)) + rest == Base(kind, scope) + ("o" + (order + rest));
  }

  /** A paid key is never the key of an unpaid request. */
  lemma PaidIsNeverUnpaid(kind1: JobKind, scope1: Uuid, parts1: seq<Uuid>,
                          kind2: JobKind, scope2: Uuid, parts2: seq<Uuid>, order: Uuid)
    ensures Derived(kind1, scope1, parts1) != DerivedForOrder(kind2, scope2, parts2, order)
  {
    hide Base, Documents;
    var rest := OrderKeyParts(kind2, scope2, parts2, order);
    if Derived(kind1, scope1, parts1) == DerivedForOrder(kind2, scope2, parts2, order) {
      BaseDetermines(kind1, scope1, Documents(parts1), kind2, scope2, "o" + (order + rest));
      DocumentsStart(parts1);
      assert false;
    }
  }

  lemma DocumentsStart(parts: seq<Uuid>)
    ensures Documents(parts) != "" ==> IsHex(Documents(parts)[0])
  {
    hide Sorted, IsHex;
    SortKeepsWidth(parts);
    if parts != [] {
      var first := Sorted(parts)[0];
      assert first in Sorted(parts) && Heads(Sorted(parts))[0] == first[..8];
      assert Documents(parts)[0] == first[0];
    }
  }

  /** The part of a paid key in front of its documents has up to 82 characters. */
  lemma OrderHeadLength(kind: JobKind, scope: Uuid, order: Uuid)
    ensures |OrderHead(kind, scope, order)| == 72 + |KindText(kind)| <= 82
    ensures |OrderHead(kind, scope, order)| == 82 <==> kind in {Extraction, Simulation}
  {
    hide Base;
    BaseParts(kind, scope);
  }

  // ---- Whether the parser accepts them -----------------------------------------------------

  lemma BaseText(kind: JobKind, scope: Uuid)
    ensures AllKeyChars(Base(kind, scope))
  {
  }

  lemma KeyCharsConcat(a: string, b: string)
    requires AllKeyChars(a) && AllKeyChars(b)
    ensures AllKeyChars(a + b)
  {
  }

  /** A paid key is always accepted as it is, however many documents there are. */
  lemma OrderKeyAccepted(kind: JobKind, scope: Uuid, parts: seq<Uuid>, order: Uuid)
    ensures Parse(DerivedForOrder(kind, scope, parts, order)) == Ok(DerivedForOrder(kind, scope, parts, order))
  {
    hide Base, Documents, Parse, AllKeyChars, KindText;
    var head, docs := OrderHead(kind, scope, order), Documents(parts);
    var room := LIMIT - |head| - 1;
    var kept := if |docs| > room then docs[..room] else docs;
    BaseParts(kind, scope);
    BaseText(kind, scope);
    OrderText(order);
    DocumentsText(parts);
    KeyCharsConcat(Base(kind, scope), "o" + order);
    assert kept == docs[..|kept|];
    KeptText(docs, |kept|);
    KeyCharsConcat(head, ":" + kept);
    ParsesItself(head + (":" + kept));
  }

  lemma OrderText(order: Uuid)
    ensures AllKeyChars("o" + order)
  {
  }

  lemma KeptText(docs: string, n: nat)
    requires AllKeyChars(docs) && n <= |docs|
    ensures AllKeyChars(":" + docs[..n])
  {
  }

  /** How many documents fit an unpaid key. */
  function MostDocuments(kind: JobKind): (n: nat) {
    if kind.Analysis? || kind.Retention? then 17 else 16
  }

  /** An unpaid key is not cut: the parser accepts it exactly for so many documents, and otherwise
      refuses its length. */
  lemma DerivedAccepted(kind: JobKind, scope: Uuid, parts: seq<Uuid>)
    ensures var key := Derived(kind, scope, parts);
            Parse(key) == if |parts| <= MostDocuments(kind) then Ok(key) else Err(Length)
  {
    hide Base, Documents, Parse, AllKeyChars;
    BaseParts(kind, scope);
    BaseText(kind, scope);
    DocumentsText(parts);
    KeyCharsConcat(Base(kind, scope), Documents(parts));
    ParsesItself(Derived(kind, scope, parts));
  }
}
