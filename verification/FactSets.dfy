/** A period's facts and the index that picks the canonical reading of each quantity. */
module FactSets {
  import opened Basics
  import opened Facts

  /** One extracted quantity; the confidence is the extraction's own, between zero and one. */
  datatype Fact = Fact(kind: FactKind, value: int, confidence: real, page: Option<nat>)

  datatype Contradiction = Contradiction(kind: FactKind, a: int, b: int, aPage: Option<nat>, bPage: Option<nat>)

  /** The earliest reading among those of highest confidence. */
  ghost predicate IsBest(facts: seq<Fact>, kind: FactKind, i: int) {
    && 0 <= i < |facts| && facts[i].kind == kind
    && forall j :: 0 <= j < |facts| && facts[j].kind == kind ==>
         facts[j].confidence <= facts[i].confidence && (j < i ==> facts[j].confidence < facts[i].confidence)
  }

  predicate HasReading(facts: seq<Fact>, kind: FactKind) {
    exists i :: 0 <= i < |facts| && facts[i].kind == kind
  }

  lemma BestIsUnique(facts: seq<Fact>, kind: FactKind, i: int, j: int)
    requires IsBest(facts, kind, i) && IsBest(facts, kind, j)
    ensures i == j
  {
  }

  // ---- Readings in order -------------------------------------------------------------------

  /** The readings of one kind, in the order they were inserted. */
  function Readings(facts: seq<Fact>, kind: FactKind): (r: seq<Fact>) {
    if facts == [] then []
    else
      var rest := Readings(facts[..|facts| - 1], kind);
      if facts[|facts| - 1].kind == kind then rest + [facts[|facts| - 1]] else rest
  }

  /** The readings of one confidence, in order. */
  ghost function OfConfidence(s: seq<Fact>, c: real): (r: seq<Fact>) {
    if s == [] then []
    else if s[0].confidence == c then [s[0]] + OfConfidence(s[1..], c)
    else OfConfidence(s[1..], c)
  }

  ghost predicate ByConfidence(s: seq<Fact>) {
    forall i, j :: 0 <= i < j < |s| ==> s[i].confidence >= s[j].confidence
  }

  /** Highest confidence first, and equal confidences in their old order. */
  ghost predicate IsStableSort(t: seq<Fact>, s: seq<Fact>) {
    ByConfidence(t) && forall c :: OfConfidence(t, c) == OfConfidence(s, c)
  }

  function Place(x: Fact, s: seq<Fact>): (t: seq<Fact>) {
    if s == [] || s[0].confidence <= x.confidence then [x] + s
    else [s[0]] + Place(x, s[1..])
  }

  /** A stable sort by descending confidence. */
  function Sorted(s: seq<Fact>): (t: seq<Fact>) {
    if s == [] then [] else Place(s[0], Sorted(s[1..]))
  }

  lemma {:induction false} PlaceKeepsOrder(x: Fact, s: seq<Fact>, c: real)
    requires ByConfidence(s)
    ensures ByConfidence(Place(x, s))
    ensures |Place(x, s)| == |s| + 1
    ensures forall k :: 0 <= k < |Place(x, s)| ==> Place(x, s)[k] == x || Place(x, s)[k] in s
    ensures OfConfidence(Place(x, s), c) == OfConfidence([x] + s, c)
  {
    assert ([x] + s)[1..] == s;
    if s == [] || s[0].confidence <= x.confidence {
    } else {
      var rest := Place(x, s[1..]);
      PlaceKeepsOrder(x, s[1..], c);
      assert ([s[0]] + rest)[1..] == rest;
      assert ([x] + s[1..])[1..] == s[1..];
    }
  }

  lemma {:induction false} SortedIsStable(s: seq<Fact>)
    ensures IsStableSort(Sorted(s), s)
  {
    if s != [] {
      SortedIsStable(s[1..]);
      var rest := Sorted(s[1..]);
      PlaceKeepsOrder(s[0], rest, 0.0);
      forall c ensures OfConfidence(Sorted(s), c) == OfConfidence(s, c) {
        PlaceKeepsOrder(s[0], rest, c);
        assert ([s[0]] + rest)[1..] == rest;
      }
    }
  }

  ghost predicate IsFirstOf(s: seq<Fact>, c: real, k: int) {
    0 <= k < |s| && s[k].confidence == c && [s[k]] <= OfConfidence(s, c)
  }

  lemma {:induction false} ConfidenceOccurs(s: seq<Fact>, c: real)
    ensures OfConfidence(s, c) != [] ==> exists k :: 0 <= k < |s| && IsFirstOf(s, c, k)
    ensures (exists k :: 0 <= k < |s| && s[k].confidence == c) ==> OfConfidence(s, c) != []
  {
    if s != [] && s[0].confidence == c {
      assert IsFirstOf(s, c, 0);
    } else if s != [] {
      ConfidenceOccurs(s[1..], c);
      if OfConfidence(s, c) != [] {
        var k :| 0 <= k < |s[1..]| && IsFirstOf(s[1..], c, k);
        assert IsFirstOf(s, c, k + 1);
      }
      if k :| 0 <= k < |s| && s[k].confidence == c {
        assert s[1..][k - 1] == s[k];
      }
    }
  }

  /** Being a stable sort pins the result down. */
  lemma {:induction false} StableSortIsUnique(t: seq<Fact>, u: seq<Fact>, s: seq<Fact>)
    requires IsStableSort(t, s) && IsStableSort(u, s)
    ensures t == u
  {
    assert forall c :: OfConfidence(t, c) == OfConfidence(s, c) == OfConfidence(u, c);
    SameLevels(t, u);
  }

  lemma {:induction false} SameLevels(t: seq<Fact>, u: seq<Fact>)
    requires ByConfidence(t) && ByConfidence(u)
    requires forall c :: OfConfidence(t, c) == OfConfidence(u, c)
    ensures t == u
  {
    if t != [] || u != [] {
      HeadDominates(t, u);
      HeadDominates(u, t);
      var c := t[0].confidence;
      assert OfConfidence(t, c)[0] == t[0] && OfConfidence(u, c)[0] == u[0];
      forall d ensures OfConfidence(t[1..], d) == OfConfidence(u[1..], d) {
        assert OfConfidence(t, d) == OfConfidence(u, d);
        if d == c {
          assert OfConfidence(t, d)[1..] == OfConfidence(t[1..], d);
          assert OfConfidence(u, d)[1..] == OfConfidence(u[1..], d);
        }
      }
      SameLevels(t[1..], u[1..]);
    }
  }

  lemma HeadDominates(t: seq<Fact>, u: seq<Fact>)
    requires t != [] ==> OfConfidence(t, t[0].confidence) == OfConfidence(u, t[0].confidence)
    requires ByConfidence(u)
    ensures t != [] ==> u != [] && u[0].confidence >= t[0].confidence
  {
    if t != [] {
      ConfidenceOccurs(u, t[0].confidence);
      assert OfConfidence(t, t[0].confidence) != [];
    }
  }

  lemma {:induction false} OfConfidenceAppend(s: seq<Fact>, x: Fact, c: real)
    ensures OfConfidence(s + [x], c) == OfConfidence(s, c) + (if x.confidence == c then [x] else [])
  {
    if s == [] {
      assert [x][1..] == [];
    } else {
      assert (s + [x])[1..] == s[1..] + [x];
      OfConfidenceAppend(s[1..], x, c);
    }
  }

  /** The best reading leads the readings of its confidence, and none is more confident. */
  lemma {:induction false} BestLeads(facts: seq<Fact>, kind: FactKind, i: int)
    requires IsBest(facts, kind, i)
    ensures [facts[i]] <= OfConfidence(Readings(facts, kind), facts[i].confidence)
    ensures forall k :: 0 <= k < |Readings(facts, kind)| ==> Readings(facts, kind)[k].confidence <= facts[i].confidence
  {
    var last, front := facts[|facts| - 1], facts[..|facts| - 1];
    var c := facts[i].confidence;
    if last.kind == kind {
      OfConfidenceAppend(Readings(front, kind), last, c);
    }
    if i < |front| {
      assert front[i] == facts[i];
      BestLeads(front, kind, i);
    } else {
      NoneAbove(front, kind, c);
    }
  }

  lemma {:induction false} NoneAbove(facts: seq<Fact>, kind: FactKind, c: real)
    requires forall j :: 0 <= j < |facts| && facts[j].kind == kind ==> facts[j].confidence < c
    ensures OfConfidence(Readings(facts, kind), c) == []
    ensures forall k :: 0 <= k < |Readings(facts, kind)| ==> Readings(facts, kind)[k].confidence < c
  {
    if facts != [] {
      var last, front := facts[|facts| - 1], facts[..|facts| - 1];
      assert forall j :: 0 <= j < |front| ==> front[j] == facts[j];
      NoneAbove(front, kind, c);
      if last.kind == kind {
        OfConfidenceAppend(Readings(front, kind), last, c);
      }
    }
  }

  /** The canonical reading comes first among all readings of its kind. */
  lemma CanonicalFirst(facts: seq<Fact>, kind: FactKind, i: int, sorted: seq<Fact>)
    requires IsBest(facts, kind, i)
    requires IsStableSort(sorted, Readings(facts, kind))
    ensures sorted != [] && sorted[0] == facts[i]
  {
    var r, c := Readings(facts, kind), facts[i].confidence;
    BestLeads(facts, kind, i);
    assert OfConfidence(sorted, c) == OfConfidence(r, c);
    ConfidenceOccurs(sorted, c);
    var top := sorted[0].confidence;
    assert OfConfidence(sorted, top) == OfConfidence(r, top);
    assert OfConfidence(sorted, top)[0] == sorted[0];
    ConfidenceOccurs(r, top);
    assert top <= c;
    assert c <= top;
  }

  lemma {:induction false} ReadingsMembers(facts: seq<Fact>, kind: FactKind)
    ensures forall r :: r in Readings(facts, kind) <==> r in facts && r.kind == kind
  {
    if facts != [] {
      var last, front := facts[|facts| - 1], facts[..|facts| - 1];
      assert facts == front + [last];
      ReadingsMembers(front, kind);
    }
  }

  lemma ReadingsOccur(facts: seq<Fact>, kind: FactKind)
    ensures Readings(facts, kind) != [] <==> HasReading(facts, kind)
    ensures forall r :: r in Readings(facts, kind) <==> r in facts && r.kind == kind
  {
    hide Readings;
    ReadingsMembers(facts, kind);
    if Readings(facts, kind) != [] {
      assert Readings(facts, kind)[0] in facts;
    }
    if HasReading(facts, kind) {
      var i :| 0 <= i < |facts| && facts[i].kind == kind;
      assert facts[i] in Readings(facts, kind);
    }
  }

  // ---- Disagreements -----------------------------------------------------------------------

  /** The readings that differ from the first, each paired with it. */
  function Disagreements(first: Fact, others: seq<Fact>): (r: seq<Contradiction>) {
    if others == [] then []
    else
      var front, last := others[..|others| - 1], others[|others| - 1];
      Disagreements(first, front)
      + if last.value != first.value then [Contradiction(first.kind, first.value, last.value, first.page, last.page)] else []
  }

  function KindDisagreements(readings: seq<Fact>): (r: seq<Contradiction>) {
    if |readings| < 2 then [] else Disagreements(readings[0], readings[1..])
  }

  ghost predicate AllAgree(facts: seq<Fact>) {
    forall i, j :: 0 <= i < |facts| && 0 <= j < |facts| && facts[i].kind == facts[j].kind ==> facts[i].value == facts[j].value
  }

  lemma {:induction false} DisagreementsExactly(first: Fact, others: seq<Fact>)
    ensures Disagreements(first, others) == [] <==> forall k :: 0 <= k < |others| ==> others[k].value == first.value
  {
    if others != [] {
      var front := others[..|others| - 1];
      assert forall k :: 0 <= k < |front| ==> front[k] == others[k];
      DisagreementsExactly(first, front);
    }
  }

  lemma KindAgrees(readings: seq<Fact>)
    ensures KindDisagreements(readings) == []
       <==> forall i, j :: 0 <= i < |readings| && 0 <= j < |readings| ==> readings[i].value == readings[j].value
  {
    if |readings| >= 2 {
      DisagreementsExactly(readings[0], readings[1..]);
      assert forall k :: 0 < k < |readings| ==> readings[k] == readings[1..][k - 1];
    }
  }

  ghost predicate KindAgreesIn(facts: seq<Fact>, kind: FactKind) {
    forall i, j :: 0 <= i < |facts| && 0 <= j < |facts| && facts[i].kind == facts[j].kind == kind
                   ==> facts[i].value == facts[j].value
  }

  lemma KindExactly(facts: seq<Fact>, kind: FactKind)
    ensures KindDisagreements(Readings(facts, kind)) == [] <==> KindAgreesIn(facts, kind)
  {
    hide KindDisagreements, Readings;
    var readings := Readings(facts, kind);
    ReadingsOccur(facts, kind);
    KindAgrees(readings);
    if KindDisagreements(readings) == [] {
      forall i, j | 0 <= i < |facts| && 0 <= j < |facts| && facts[i].kind == facts[j].kind == kind
        ensures facts[i].value == facts[j].value
      {
        assert facts[i] in readings && facts[j] in readings;
      }
    }
    if KindAgreesIn(facts, kind) {
      forall i, j | 0 <= i < |readings| && 0 <= j < |readings| ensures readings[i].value == readings[j].value {
        assert readings[i] in facts && readings[j] in facts;
      }
    }
  }

  /** Comparing every reading with the first of its kind finds a contradiction exactly when two
      readings of one kind differ. */
  lemma ContradictionsExactly(facts: seq<Fact>)
    ensures (forall kind :: KindDisagreements(Readings(facts, kind)) == []) <==> AllAgree(facts)
  {
    forall kind ensures KindDisagreements(Readings(facts, kind)) == [] <==> KindAgreesIn(facts, kind) {
      KindExactly(facts, kind);
    }
    if forall kind :: KindDisagreements(Readings(facts, kind)) == [] {
      forall i, j | 0 <= i < |facts| && 0 <= j < |facts| && facts[i].kind == facts[j].kind
        ensures facts[i].value == facts[j].value
      {
        assert KindDisagreements(Readings(facts, facts[i].kind)) == [];
        assert KindAgreesIn(facts, facts[i].kind);
      }
    } else {
      var kind :| KindDisagreements(Readings(facts, kind)) != [];
      KindExactly(facts, kind);
      var i, j :| 0 <= i < |facts| && 0 <= j < |facts| && facts[i].kind == facts[j].kind == kind
                  && facts[i].value != facts[j].value;
    }
  }

  /** One reading more: a contradiction is added exactly when its kind was read before with another
      value first, and it is between that first reading and the new one. */
  lemma ContradictionsGrow(facts: seq<Fact>, x: Fact, kind: FactKind)
    ensures KindDisagreements(Readings([], kind)) == []
    ensures var before := Readings(facts, kind);
            KindDisagreements(Readings(facts + [x], kind))
            == KindDisagreements(before)
               + if x.kind == kind && before != [] && x.value != before[0].value
                 then [Contradiction(kind, before[0].value, x.value, before[0].page, x.page)] else []
    ensures Readings(facts, kind) != [] ==>
              exists i :: 0 <= i < |facts| && facts[i] == Readings(facts, kind)[0] && facts[i].kind == kind
                && forall j :: 0 <= j < i ==> facts[j].kind != kind
  {
    hide Readings, Disagreements;
    var before := Readings(facts, kind);
    ReadingsSnoc(facts, x, kind);
    FirstIsEarliest(facts, kind);
    assert before + [] == before && [] + [x] == [x];
    assert KindDisagreements(before) + [] == KindDisagreements(before);
    if x.kind == kind && before != [] {
      assert (before + [x])[1..] == before[1..] + [x] && (before + [x])[0] == before[0];
      DisagreementsSnoc(before[0], before[1..], x);
      assert |before| == 1 ==> before[1..] == [];
    }
  }

  lemma {:induction false} FirstIsEarliest(facts: seq<Fact>, kind: FactKind)
    ensures Readings(facts, kind) == [] ==> forall i :: 0 <= i < |facts| ==> facts[i].kind != kind
    ensures Readings(facts, kind) != [] ==>
              exists i :: 0 <= i < |facts| && facts[i] == Readings(facts, kind)[0] && facts[i].kind == kind
                && forall j :: 0 <= j < i ==> facts[j].kind != kind
  {
    if facts != [] {
      var front, last := facts[..|facts| - 1], |facts| - 1;
      assert forall i :: 0 <= i < |front| ==> front[i] == facts[i];
      FirstIsEarliest(front, kind);
      if Readings(front, kind) != [] {
        var i :| 0 <= i < |front| && front[i] == Readings(front, kind)[0] && front[i].kind == kind
          && forall j :: 0 <= j < i ==> front[j].kind != kind;
        assert facts[i] == Readings(facts, kind)[0];
      } else if facts[last].kind == kind {
        assert facts[last] == Readings(facts, kind)[0];
      }
    }
  }

  lemma {:induction false} PairedWithFirst(first: Fact, others: seq<Fact>)
    ensures forall c :: c in Disagreements(first, others) ==>
              c.kind == first.kind && c.a == first.value && c.aPage == first.page && c.b != first.value
  {
    if others != [] {
      PairedWithFirst(first, others[..|others| - 1]);
    }
  }

  /** The contradictions of a disputed kind are stated against its canonical reading exactly when the
      reading inserted first has the canonical value and page. */
  lemma CanonicalPairing(facts: seq<Fact>, kind: FactKind, i: int)
    requires IsBest(facts, kind, i) && KindDisagreements(Readings(facts, kind)) != []
    ensures (forall c :: c in KindDisagreements(Readings(facts, kind)) ==> c.a == facts[i].value && c.aPage == facts[i].page)
       <==> (&& Readings(facts, kind)[0].value == facts[i].value
             && Readings(facts, kind)[0].page == facts[i].page)
  {
    hide Readings, Disagreements;
    var readings := Readings(facts, kind);
    PairedWithFirst(readings[0], readings[1..]);
    assert KindDisagreements(readings)[0] in KindDisagreements(readings);
  }

  /** Revenue read as 1, then more surely as 2, then as 1 again: the canonical reading is the second,
      and the one contradiction is stated against the first. */
  lemma PairedWithWeaker()
    ensures var facts := [Fact(Revenue, 1, 0.5, None), Fact(Revenue, 2, 0.9, None), Fact(Revenue, 1, 0.6, None)];
            && IsBest(facts, Revenue, 1)
            && KindDisagreements(Readings(facts, Revenue)) == [Contradiction(Revenue, 1, 2, None, None)]
  {
    hide Readings, Disagreements;
    var x, y, z := Fact(Revenue, 1, 0.5, None), Fact(Revenue, 2, 0.9, None), Fact(Revenue, 1, 0.6, None);
    ReadingsSnoc([], x, Revenue);
    ReadingsSnoc([x], y, Revenue);
    ReadingsSnoc([x, y], z, Revenue);
    DisagreementsSnoc(x, [], y);
    DisagreementsSnoc(x, [y], z);
    assert [] + [x] == [x] && [x] + [y] == [x, y] && [x, y] + [z] == [x, y, z];
    assert [] + [y] == [y] && [y] + [z] == [y, z] && [x, y, z][1..] == [y, z];
  }

  lemma ReadingsSnoc(front: seq<Fact>, last: Fact, kind: FactKind)
    ensures Readings([], kind) == []
    ensures Readings(front + [last], kind) == Readings(front, kind) + if last.kind == kind then [last] else []
  {
    assert (front + [last])[..|front|] == front;
  }

  lemma DisagreementsSnoc(first: Fact, front: seq<Fact>, last: Fact)
    ensures Disagreements(first, []) == []
    ensures Disagreements(first, front + [last]) == Disagreements(first, front)
         + if last.value != first.value then [Contradiction(first.kind, first.value, last.value, first.page, last.page)] else []
  {
    assert (front + [last])[..|front|] == front;
  }

  /** The contradictions of one kind, in order. */
  ghost function OfKind(out: seq<Contradiction>, kind: FactKind): (r: seq<Contradiction>) {
    if out == [] then []
    else
      OfKind(out[..|out| - 1], kind) + if out[|out| - 1].kind == kind then [out[|out| - 1]] else []
  }

  lemma {:induction false} OfKindAppend(a: seq<Contradiction>, b: seq<Contradiction>, kind: FactKind)
    ensures OfKind(a + b, kind) == OfKind(a, kind) + OfKind(b, kind)
  {
    if b == [] {
      assert a + b == a;
    } else {
      assert (a + b)[..|a + b| - 1] == a + b[..|b| - 1];
      OfKindAppend(a, b[..|b| - 1], kind);
    }
  }

  lemma {:induction false} OfOneKind(out: seq<Contradiction>, own: FactKind, kind: FactKind)
    requires forall k :: 0 <= k < |out| ==> out[k].kind == own
    ensures OfKind(out, kind) == if kind == own then out else []
  {
    if out != [] {
      var front, last := out[..|out| - 1], out[|out| - 1];
      OfOneKind(front, own, kind);
      assert last.kind == own && out == front + [last];
      assert OfKind(out, kind) == OfKind(front, kind) + if last.kind == kind then [last] else [];
    }
  }

  /** What `Contradictions` has found once it has gone through the kinds whose keys are in `done`. */
  ghost predicate FoundFor(facts: seq<Fact>, out: seq<Contradiction>, done: set<string>) {
    forall kind :: OfKind(out, kind) == if Key(kind) in done then KindDisagreements(Readings(facts, kind)) else []
  }

  lemma FoundForOneMore(facts: seq<Fact>, out: seq<Contradiction>, done: set<string>, key: string)
    requires FoundFor(facts, out, done) && key !in done
    requires exists i :: 0 <= i < |facts| && Key(facts[i].kind) == key
    ensures FoundFor(facts, out + KindDisagreements(KeyReadings(facts, key)), done + {key})
  {
    hide Key, Readings, KeyReadings, OfKind, KindDisagreements;
    var i :| 0 <= i < |facts| && Key(facts[i].kind) == key;
    var own := facts[i].kind;
    var found := KindDisagreements(KeyReadings(facts, key));
    KeyReadingsAreReadings(facts, own);
    FoundIsOwn(facts, own);
    forall kind
      ensures OfKind(out + found, kind) == if Key(kind) in done + {key} then KindDisagreements(Readings(facts, kind)) else []
    {
      KeyInjective(kind, own);
      AddedToKind(out, found, own, kind);
    }
  }

  lemma AddedToKind(out: seq<Contradiction>, found: seq<Contradiction>, own: FactKind, kind: FactKind)
    requires forall c :: c in found ==> c.kind == own
    ensures OfKind(out, kind) == [] && kind == own ==> OfKind(out + found, kind) == found
    ensures kind != own ==> OfKind(out + found, kind) == OfKind(out, kind)
  {
    hide OfKind;
    OfKindAppend(out, found, kind);
    assert forall k :: 0 <= k < |found| ==> found[k] in found;
    OfOneKind(found, own, kind);
    assert OfKind(out, kind) + [] == OfKind(out, kind) && [] + found == found;
  }

  lemma NothingFound(facts: seq<Fact>)
    ensures FoundFor(facts, [], {})
  {
  }

  lemma FoundIsOwn(facts: seq<Fact>, kind: FactKind)
    ensures forall c :: c in KindDisagreements(Readings(facts, kind)) ==> c.kind == kind
  {
    hide Readings, Disagreements;
    var readings := Readings(facts, kind);
    ReadingsMembers(facts, kind);
    if |readings| >= 2 {
      assert readings[0] in readings;
      PairedWithFirst(readings[0], readings[1..]);
    }
  }

  /** A kind that was not read has no contradictions, so the keys of the index are all that matter. */
  lemma FoundForAll(facts: seq<Fact>, out: seq<Contradiction>, keys: set<string>)
    requires FoundFor(facts, out, keys)
    requires forall i :: 0 <= i < |facts| ==> Key(facts[i].kind) in keys
    ensures forall kind :: OfKind(out, kind) == KindDisagreements(Readings(facts, kind))
  {
    hide Key, Readings;
    forall kind ensures OfKind(out, kind) == KindDisagreements(Readings(facts, kind)) {
      ReadingsOccur(facts, kind);
    }
  }

  // ---- The set -----------------------------------------------------------------------------

  class FactSet {
    var facts: seq<Fact>
    var index: map<string, nat>

    /** The index holds every kind that was read, at its best reading. */
    ghost predicate Valid()
      reads this
    {
      && (forall key :: key in index ==>
            index[key] < |facts| && Key(facts[index[key]].kind) == key && IsBest(facts, facts[index[key]].kind, index[key]))
      && forall i :: 0 <= i < |facts| ==> Key(facts[i].kind) in index
    }

    constructor ()
      ensures Valid() && facts == []
    {
      facts, index := [], map[];
    }

    method Insert(fact: Fact)
      requires Valid()
      modifies this
      ensures Valid() && facts == old(facts) + [fact]
    {
      hide Key, IsBest;
      var key := Key(fact.kind);
      KindsByKey(facts, fact.kind);
      BestAfterInsert(facts, fact);
      if key in index && facts[index[key]].confidence >= fact.confidence {
        facts := facts + [fact];
      } else {
        facts := facts + [fact];
        index := index[key := |facts| - 1];
      }
    }

    /** The canonical reading: the earliest of highest confidence, when the kind was read. */
    method Get(kind: FactKind) returns (r: Option<Fact>)
      requires Valid()
      ensures r.Some? <==> HasReading(facts, kind)
      ensures r.Some? ==> exists i :: IsBest(facts, kind, i) && r.value == facts[i]
    {
      KindsByKey(facts, kind);
      if Key(kind) in index {
        r := Some(facts[index[Key(kind)]]);
      } else {
        r := None;
      }
    }

    /** Every reading of a kind, canonical first. */
    method AllReadings(kind: FactKind) returns (r: seq<Fact>)
      requires Valid()
      ensures IsStableSort(r, Readings(facts, kind))
      ensures r != [] <==> HasReading(facts, kind)
      ensures r != [] ==> exists i :: IsBest(facts, kind, i) && r[0] == facts[i]
    {
      r := Sorted(Readings(facts, kind));
      SortedIsStable(Readings(facts, kind));
      KindsByKey(facts, kind);
      if Key(kind) in index {
        CanonicalFirst(facts, kind, index[Key(kind)], r);
      } else {
        ReadingsOccur(facts, kind);
      }
    }

    /** For each kind, its readings that differ from the one inserted first, in order; empty exactly
        when all readings of each kind agree. */
    method Contradictions() returns (out: seq<Contradiction>)
      requires Valid()
      ensures out == [] <==> AllAgree(facts)
      ensures forall kind :: OfKind(out, kind) == KindDisagreements(Readings(facts, kind))
      ensures forall c :: c in out <==> Disputed(facts, c)
    {
      hide Key, KeyReadings, KindDisagreements, IsBest, AllAgree, Disputed, FoundFor;
      NothingFound(facts);
      out := [];
      var todo, done := index.Keys, {};
      while todo != {}
        invariant done + todo == index.Keys
        invariant done !! todo
        invariant FoundFor(facts, out, done)
        invariant forall c :: c in out <==> DisputedUnder(facts, done, c)
        decreases todo
      {
        var key :| key in todo;
        var found := Compare(KeyReadings(facts, key));
        DisputedUnderOneMore(facts, done, key);
        FoundForOneMore(facts, out, done, key);
        out := out + found;
        todo, done := todo - {key}, done + {key};
      }
      DisputedByKeyOrKind(facts, index.Keys);
      FoundForAll(facts, out, index.Keys);
      DisputedExactly(facts);
      assert out == [] <==> forall c :: c !in out by {
        assert out != [] ==> out[0] in out;
      }
    }
  }

  /** Compares every reading of one key with the first. */
  method Compare(readings: seq<Fact>) returns (out: seq<Contradiction>)
    ensures out == KindDisagreements(readings)
  {
    out := [];
    if |readings| >= 2 {
      var canonical, others := readings[0], readings[1..];
      for k := 0 to |others|
        invariant out == Disagreements(canonical, others[..k])
      {
        var other := others[k];
        assert others[..k + 1][..k] == others[..k];
        if other.value != canonical.value {
          out := out + [Contradiction(canonical.kind, canonical.value, other.value, canonical.page, other.page)];
        }
      }
      assert others[..|others|] == others;
    }
  }

  ghost predicate Disputed(facts: seq<Fact>, c: Contradiction) {
    exists kind :: c in KindDisagreements(Readings(facts, kind))
  }

  ghost predicate DisputedUnder(facts: seq<Fact>, keys: set<string>, c: Contradiction) {
    exists key :: key in keys && c in KindDisagreements(KeyReadings(facts, key))
  }

  lemma DisputedUnderOneMore(facts: seq<Fact>, keys: set<string>, key: string)
    ensures forall c :: DisputedUnder(facts, keys + {key}, c)
                   <==> DisputedUnder(facts, keys, c) || c in KindDisagreements(KeyReadings(facts, key))
  {
    hide KindDisagreements, KeyReadings;
    forall c
      ensures DisputedUnder(facts, keys + {key}, c)
         <==> DisputedUnder(facts, keys, c) || c in KindDisagreements(KeyReadings(facts, key))
    {
      if c in KindDisagreements(KeyReadings(facts, key)) {
        assert key in keys + {key};
      }
    }
  }

  lemma DisputedExactly(facts: seq<Fact>)
    ensures (forall c :: !Disputed(facts, c)) <==> AllAgree(facts)
  {
    hide KindDisagreements, Readings, AllAgree;
    ContradictionsExactly(facts);
    if forall c :: !Disputed(facts, c) {
      forall kind ensures KindDisagreements(Readings(facts, kind)) == [] {
        var found := KindDisagreements(Readings(facts, kind));
        assert found != [] ==> found[0] in found && !Disputed(facts, found[0]);
      }
    }
    if AllAgree(facts) {
      forall c ensures !Disputed(facts, c) {
        assert forall kind :: KindDisagreements(Readings(facts, kind)) == [];
      }
    }
  }

  lemma KindsByKey(facts: seq<Fact>, kind: FactKind)
    ensures forall i :: 0 <= i < |facts| && Key(facts[i].kind) == Key(kind) ==> facts[i].kind == kind
  {
    forall i | 0 <= i < |facts| ensures Key(facts[i].kind) == Key(kind) ==> facts[i].kind == kind {
      KeyInjective(facts[i].kind, kind);
    }
  }

  lemma BestAfterInsert(facts: seq<Fact>, fact: Fact)
    ensures forall kind, i :: IsBest(facts, kind, i) && (kind != fact.kind || facts[i].confidence >= fact.confidence)
              ==> IsBest(facts + [fact], kind, i)
    ensures forall i :: IsBest(facts, fact.kind, i) && facts[i].confidence < fact.confidence
              ==> IsBest(facts + [fact], fact.kind, |facts|)
    ensures !HasReading(facts, fact.kind) ==> IsBest(facts + [fact], fact.kind, |facts|)
  {
  }

  /** The facts filed under a key. */
  function KeyReadings(facts: seq<Fact>, key: string): (r: seq<Fact>) {
    if facts == [] then []
    else
      var rest := KeyReadings(facts[..|facts| - 1], key);
      if Key(facts[|facts| - 1].kind) == key then rest + [facts[|facts| - 1]] else rest
  }

  lemma {:induction false} KeyReadingsAreReadings(facts: seq<Fact>, kind: FactKind)
    ensures KeyReadings(facts, Key(kind)) == Readings(facts, kind)
  {
    if facts != [] {
      KeyReadingsAreReadings(facts[..|facts| - 1], kind);
      KeyInjective(facts[|facts| - 1].kind, kind);
    }
  }

  /** Going through the keys of the index goes through every kind that was read. */
  lemma DisputedByKeyOrKind(facts: seq<Fact>, keys: set<string>)
    requires forall i :: 0 <= i < |facts| ==> Key(facts[i].kind) in keys
    requires forall key :: key in keys ==> exists i :: 0 <= i < |facts| && Key(facts[i].kind) == key
    ensures forall c :: DisputedUnder(facts, keys, c) <==> Disputed(facts, c)
  {
    hide Key, Readings, KeyReadings;
    forall c ensures DisputedUnder(facts, keys, c) <==> Disputed(facts, c) {
      if DisputedUnder(facts, keys, c) {
        var key :| key in keys && c in KindDisagreements(KeyReadings(facts, key));
        var i :| 0 <= i < |facts| && Key(facts[i].kind) == key;
        KeyReadingsAreReadings(facts, facts[i].kind);
      }
      if Disputed(facts, c) {
        var kind :| c in KindDisagreements(Readings(facts, kind));
        KeyReadingsAreReadings(facts, kind);
        ReadingsOccur(facts, kind);
        assert Key(kind) in keys;
      }
    }
  }
}
