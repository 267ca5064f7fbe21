/** The evidence graph: nodes, edges and two adjacency indexes changed in place, and the blast
    radius queries that search them breadth first. */
module EvidenceGraph {
  import opened Basics
  import opened Facts

  /** Identifiers are opaque 128-bit values. */
  type Id = nat

  datatype NodeId =
    | Fact(documentVersionId: Id, fact: string)
    | Rule(ruleId: string, ruleVersion: string)
    | Calculation(calculationId: Id)
    | ModelRun(modelRunId: Id)
    | Assumption(statement: string)
    | Finding(opportunityId: Id)
    | Analysis(analysisId: Id)

  datatype EdgeKind = Supports | Informs | PartOf

  datatype Edge = Edge(from: NodeId, to: NodeId, kind: EdgeKind)

  /** One link of an evidence chain, with the fields that identify it in the graph. A calculation
      lists, for each of its inputs, the fact it came from if it came from a document. */
  datatype EvidenceItem =
    | DocumentValue(factId: Id, versionId: Id, factKind: FactKind)
    | RuleApplied(appliedRule: string, appliedVersion: string)
    | CalculationRun(runId: Id, inputFacts: seq<Option<Id>>)
    | ModelJudgement(judgementId: Id)
    | Assumed(assumption: string)

  /** One finding folded into the graph. */
  datatype Added = Added(analysisId: Id, opportunityId: Id, chain: seq<EvidenceItem>)

  // ---- Evidence chains ---------------------------------------------------------------------

  predicate HasDocumentAnchor(chain: seq<EvidenceItem>) {
    exists k :: 0 <= k < |chain| && chain[k].DocumentValue?
  }

  predicate HasRule(chain: seq<EvidenceItem>) {
    exists k :: 0 <= k < |chain| && chain[k].RuleApplied?
  }

  /** The gate an opportunity passes before it may be presented as actionable. */
  predicate ValidateActionable(chain: seq<EvidenceItem>) {
    !(chain == [] || !HasDocumentAnchor(chain) || !HasRule(chain))
  }

  /** The gate asks for a value read from a document and for a rule, and for nothing else. */
  lemma ActionableExactly(chain: seq<EvidenceItem>)
    ensures ValidateActionable(chain)
       <==> ((exists k :: 0 <= k < |chain| && chain[k].DocumentValue?) && (exists k :: 0 <= k < |chain| && chain[k].RuleApplied?))
  {
  }

  function ItemNode(item: EvidenceItem): (node: NodeId) {
    match item
    case DocumentValue(_, version, kind) => Fact(version, Key(kind))
    case RuleApplied(rule, version) => Rule(rule, version)
    case CalculationRun(id, _) => Calculation(id)
    case ModelJudgement(id) => ModelRun(id)
    case Assumed(statement) => Assumption(statement)
  }

  function ItemEdgeKind(item: EvidenceItem): (kind: EdgeKind) {
    match item
    case DocumentValue(_, _, _) => Supports
    case RuleApplied(_, _) => Supports
    case CalculationRun(_, _) => Supports
    case ModelJudgement(_) => Informs
    case Assumed(_) => Informs
  }

  // ---- Links and walks ---------------------------------------------------------------------

  type Links = set<(NodeId, NodeId)>

  function LinksOf(edges: set<Edge>): (links: Links) {
    set e | e in edges :: (e.from, e.to)
  }

  function Reversed(links: Links): (back: Links) {
    set l | l in links :: (l.1, l.0)
  }

  type Index = map<NodeId, set<NodeId>>

  /** The index lists exactly the successors in `links`, and lists no node without any. */
  ghost predicate Indexes(index: Index, links: Links) {
    && (forall a :: a in index ==> index[a] != {})
    && (forall a, b :: (a, b) in links <==> a in index && b in index[a])
  }

  /** A walk of one or more links. */
  ghost predicate IsWalk(links: Links, p: seq<NodeId>) {
    |p| >= 2 && forall i :: 0 <= i < |p| - 1 ==> (p[i], p[i + 1]) in links
  }

  ghost predicate Reaches(links: Links, a: NodeId, b: NodeId) {
    exists p :: IsWalk(links, p) && p[0] == a && p[|p| - 1] == b
  }

  lemma ReachesLink(links: Links, a: NodeId, b: NodeId)
    requires (a, b) in links
    ensures Reaches(links, a, b)
  {
    assert IsWalk(links, [a, b]);
  }

  lemma ReachesFurther(links: Links, a: NodeId, b: NodeId, c: NodeId)
    requires Reaches(links, a, b) && (b, c) in links
    ensures Reaches(links, a, c)
  {
    var p :| IsWalk(links, p) && p[0] == a && p[|p| - 1] == b;
    assert IsWalk(links, p + [c]);
  }

  ghost predicate Expanded(links: Links, seen: set<NodeId>, x: NodeId) {
    forall b :: (x, b) in links ==> b in seen
  }

  /** A set that holds the successors of `a` and of its own members holds all `a` reaches. */
  lemma {:induction false} ClosedHoldsReach(links: Links, a: NodeId, seen: set<NodeId>, p: seq<NodeId>)
    requires IsWalk(links, p) && p[0] == a
    requires forall x :: x == a || x in seen ==> Expanded(links, seen, x)
    ensures p[|p| - 1] in seen
    decreases |p|
  {
    if |p| > 2 {
      ClosedHoldsReach(links, a, seen, p[..|p| - 1]);
    }
    assert Expanded(links, seen, p[|p| - 2]);
    assert (p[|p| - 2], p[|p| - 2 + 1]) in links;
  }

  lemma WalkReversed(links: Links, p: seq<NodeId>) returns (q: seq<NodeId>)
    requires IsWalk(links, p)
    ensures IsWalk(Reversed(links), q) && q[0] == p[|p| - 1] && q[|q| - 1] == p[0]
  {
    q := seq(|p|, i requires 0 <= i < |p| => p[|p| - 1 - i]);
    forall i | 0 <= i < |q| - 1 ensures (q[i], q[i + 1]) in Reversed(links) {
      assert (p[|p| - 2 - i], p[|p| - 1 - i]) in links;
    }
  }

  /** What one end reaches forwards, the other reaches backwards. */
  lemma ReachesBackwards(links: Links, a: NodeId, b: NodeId)
    ensures Reaches(links, a, b) <==> Reaches(Reversed(links), b, a)
  {
    if Reaches(links, a, b) {
      var p :| IsWalk(links, p) && p[0] == a && p[|p| - 1] == b;
      var q := WalkReversed(links, p);
    }
    if Reaches(Reversed(links), b, a) {
      var p :| IsWalk(Reversed(links), p) && p[0] == b && p[|p| - 1] == a;
      var q := WalkReversed(Reversed(links), p);
      assert Reversed(Reversed(links)) == links;
    }
  }

  /** Two indexes of the same links are the same map. */
  lemma IndexIsUnique(x: Index, y: Index, links: Links)
    requires Indexes(x, links) && Indexes(y, links)
    ensures x == y
  {
    forall a ensures a in x <==> a in y {
      if a in x {
        var b :| b in x[a];
        assert (a, b) in links;
      }
      if a in y {
        var b :| b in y[a];
        assert (a, b) in links;
      }
    }
    forall a | a in x ensures x[a] == y[a] {
      forall b ensures b in x[a] <==> b in y[a] {
        assert (a, b) in links <==> b in x[a];
      }
    }
  }

  function WithLink(index: Index, a: NodeId, b: NodeId): (r: Index) {
    index[a := (if a in index then index[a] else {}) + {b}]
  }

  lemma WithLinkIndexes(index: Index, links: Links, a: NodeId, b: NodeId)
    requires Indexes(index, links)
    ensures Indexes(WithLink(index, a, b), links + {(a, b)})
  {
  }

  ghost function Endpoints(edges: set<Edge>): (nodes: set<NodeId>) {
    (set e | e in edges :: e.from) + (set e | e in edges :: e.to)
  }

  /** One more edge takes one more entry in each index. */
  lemma IndexesGrow(edges: set<Edge>, e: Edge, outgoing: Index, incoming: Index)
    requires Indexes(outgoing, LinksOf(edges)) && Indexes(incoming, Reversed(LinksOf(edges)))
    ensures Indexes(WithLink(outgoing, e.from, e.to), LinksOf(edges + {e}))
    ensures Indexes(WithLink(incoming, e.to, e.from), Reversed(LinksOf(edges + {e})))
    ensures Endpoints(edges + {e}) == Endpoints(edges) + {e.from, e.to}
  {
    hide Indexes, WithLink, LinksOf, Reversed, Endpoints;
    var links := LinksOf(edges);
    WithLinkIndexes(outgoing, links, e.from, e.to);
    WithLinkIndexes(incoming, Reversed(links), e.to, e.from);
    LinksGrow(edges, e);
    ReversedGrows(links, e.from, e.to);
    EndpointsGrow(edges, e);
  }

  lemma LinksGrow(edges: set<Edge>, e: Edge)
    ensures LinksOf(edges + {e}) == LinksOf(edges) + {(e.from, e.to)}
  {
  }

  lemma EndpointsGrow(edges: set<Edge>, e: Edge)
    ensures Endpoints(edges + {e}) == Endpoints(edges) + {e.from, e.to}
  {
  }

  lemma ReversedGrows(links: Links, a: NodeId, b: NodeId)
    ensures Reversed(links + {(a, b)}) == Reversed(links) + {(b, a)}
  {
  }

  lemma EmptyIndexes()
    ensures Indexes(map[], LinksOf({})) && Indexes(map[], Reversed(LinksOf({})))
  {
  }

  // ---- What a history of added findings says -----------------------------------------------

  /** Some chain added for opportunity `o` contains the evidence `node`. */
  ghost predicate RestsOn(history: seq<Added>, o: Id, node: NodeId) {
    exists i, k :: 0 <= i < |history| && history[i].opportunityId == o
      && 0 <= k < |history[i].chain| && ItemNode(history[i].chain[k]) == node
  }

  /** Opportunity `o` was added under analysis `a`. */
  ghost predicate AddedUnder(history: seq<Added>, o: Id, a: Id) {
    exists i :: 0 <= i < |history| && history[i].opportunityId == o && history[i].analysisId == a
  }

  /** Some chain added for opportunity `o` reads a document. */
  ghost predicate Anchored(history: seq<Added>, o: Id) {
    exists i :: 0 <= i < |history| && history[i].opportunityId == o && HasDocumentAnchor(history[i].chain)
  }

  ghost function AddedEdges(x: Added): (edges: set<Edge>) {
    {Edge(Finding(x.opportunityId), Analysis(x.analysisId), PartOf)} + ChainEdges(x.opportunityId, x.chain)
  }

  ghost function ChainEdges(o: Id, chain: seq<EvidenceItem>): (edges: set<Edge>) {
    set k | 0 <= k < |chain| :: Edge(ItemNode(chain[k]), Finding(o), ItemEdgeKind(chain[k]))
  }

  ghost function HistoryEdges(history: seq<Added>): (edges: set<Edge>) {
    if history == [] then {}
    else HistoryEdges(history[..|history| - 1]) + AddedEdges(history[|history| - 1])
  }

  lemma {:induction false} EdgeOrigin(history: seq<Added>, e: Edge)
    ensures e in HistoryEdges(history) <==> exists i :: 0 <= i < |history| && e in AddedEdges(history[i])
  {
    if history != [] {
      var front := history[..|history| - 1];
      EdgeOrigin(front, e);
      assert forall i :: 0 <= i < |front| ==> front[i] == history[i];
    }
  }

  /** Every link runs from evidence to a finding that rests on it or from a finding to its
      analysis. */
  lemma LinkMeaning(history: seq<Added>, a: NodeId, b: NodeId)
    ensures (a, b) in LinksOf(HistoryEdges(history))
       <==> ((b.Finding? && RestsOn(history, b.opportunityId, a))
             || (a.Finding? && b.Analysis? && AddedUnder(history, a.opportunityId, b.analysisId)))
  {
    var edges := HistoryEdges(history);
    if (a, b) in LinksOf(edges) {
      var e :| e in edges && e.from == a && e.to == b;
      EdgeOrigin(history, e);
      var i :| 0 <= i < |history| && e in AddedEdges(history[i]);
      if e.kind != PartOf {
        var k :| 0 <= k < |history[i].chain| && ItemNode(history[i].chain[k]) == a;
      }
    }
    if b.Finding? && RestsOn(history, b.opportunityId, a) {
      var i, k :| 0 <= i < |history| && history[i].opportunityId == b.opportunityId
        && 0 <= k < |history[i].chain| && ItemNode(history[i].chain[k]) == a;
      var e := Edge(a, b, ItemEdgeKind(history[i].chain[k]));
      assert e in AddedEdges(history[i]);
      EdgeOrigin(history, e);
    }
    if a.Finding? && b.Analysis? && AddedUnder(history, a.opportunityId, b.analysisId) {
      var i :| 0 <= i < |history| && history[i].opportunityId == a.opportunityId && history[i].analysisId == b.analysisId;
      var e := Edge(a, b, PartOf);
      assert e in AddedEdges(history[i]);
      EdgeOrigin(history, e);
    }
  }

  /** Which evidence a finding rests on, by the fields of the items themselves: a rule at its own
      version, a calculation, a model run or an assumption of its own identity, and a quantity of a
      document version. Findings and analyses are never evidence, so no two kinds share a node. */
  lemma EvidenceByFields(history: seq<Added>, o: Id)
    ensures forall r, v :: RestsOn(history, o, Rule(r, v)) <==>
              (exists i, k :: 0 <= i < |history| && history[i].opportunityId == o
                 && 0 <= k < |history[i].chain| && history[i].chain[k] == RuleApplied(r, v))
    ensures forall c :: RestsOn(history, o, Calculation(c)) <==>
              (exists i, k :: 0 <= i < |history| && history[i].opportunityId == o
                 && 0 <= k < |history[i].chain| && history[i].chain[k].CalculationRun? && history[i].chain[k].runId == c)
    ensures forall m :: RestsOn(history, o, ModelRun(m)) <==>
              (exists i, k :: 0 <= i < |history| && history[i].opportunityId == o
                 && 0 <= k < |history[i].chain| && history[i].chain[k] == ModelJudgement(m))
    ensures forall t :: RestsOn(history, o, Assumption(t)) <==>
              (exists i, k :: 0 <= i < |history| && history[i].opportunityId == o
                 && 0 <= k < |history[i].chain| && history[i].chain[k] == Assumed(t))
    ensures forall v, kind :: RestsOn(history, o, Fact(v, Key(kind))) <==>
              (exists i, k :: 0 <= i < |history| && history[i].opportunityId == o
                 && 0 <= k < |history[i].chain| && history[i].chain[k].DocumentValue?
                 && history[i].chain[k].versionId == v && history[i].chain[k].factKind == kind)
    ensures forall n :: RestsOn(history, o, n) ==> !n.Finding? && !n.Analysis?
  {
    hide Key;
    forall v, kind
      ensures RestsOn(history, o, Fact(v, Key(kind))) <==>
                (exists i, k :: 0 <= i < |history| && history[i].opportunityId == o
                   && 0 <= k < |history[i].chain| && history[i].chain[k].DocumentValue?
                   && history[i].chain[k].versionId == v && history[i].chain[k].factKind == kind)
    {
      FactsByFields(history, o, v, kind);
    }
  }

  lemma FactsByFields(history: seq<Added>, o: Id, v: Id, kind: FactKind)
    ensures RestsOn(history, o, Fact(v, Key(kind))) <==>
              (exists i, k :: 0 <= i < |history| && history[i].opportunityId == o
                 && 0 <= k < |history[i].chain| && history[i].chain[k].DocumentValue?
                 && history[i].chain[k].versionId == v && history[i].chain[k].factKind == kind)
  {
    hide Key;
    if RestsOn(history, o, Fact(v, Key(kind))) {
      var i, k :| 0 <= i < |history| && history[i].opportunityId == o
        && 0 <= k < |history[i].chain| && ItemNode(history[i].chain[k]) == Fact(v, Key(kind));
      KeyInjective(history[i].chain[k].factKind, kind);
    }
    forall i, k | 0 <= i < |history| && history[i].opportunityId == o
                  && 0 <= k < |history[i].chain| && history[i].chain[k].DocumentValue?
                  && history[i].chain[k].versionId == v && history[i].chain[k].factKind == kind
      ensures RestsOn(history, o, Fact(v, Key(kind)))
    {
      assert ItemNode(history[i].chain[k]) == Fact(v, Key(kind));
    }
  }

  /** The edges, by kind: document values, rules and calculations support a finding, judgements and
      assumptions inform it, and a finding is part of its analyses. */
  lemma EdgesByKind(history: seq<Added>, e: Edge)
    ensures e in HistoryEdges(history)
       <==> match e.kind
            case Supports => e.to.Finding? && (e.from.Fact? || e.from.Rule? || e.from.Calculation?) && RestsOn(history, e.to.opportunityId, e.from)
            case Informs => e.to.Finding? && (e.from.ModelRun? || e.from.Assumption?) && RestsOn(history, e.to.opportunityId, e.from)
            case PartOf => e.from.Finding? && e.to.Analysis? && AddedUnder(history, e.from.opportunityId, e.to.analysisId)
  {
    hide Key, HistoryEdges;
    EdgeOrigin(history, e);
    if e in HistoryEdges(history) {
      var i :| 0 <= i < |history| && e in AddedEdges(history[i]);
      if e.kind != PartOf {
        var k :| 0 <= k < |history[i].chain| && e == Edge(ItemNode(history[i].chain[k]), Finding(history[i].opportunityId), ItemEdgeKind(history[i].chain[k]));
      }
    }
    if e.kind != PartOf && e.to.Finding? && RestsOn(history, e.to.opportunityId, e.from) {
      var i, k :| 0 <= i < |history| && history[i].opportunityId == e.to.opportunityId
        && 0 <= k < |history[i].chain| && ItemNode(history[i].chain[k]) == e.from;
      assert Edge(e.from, e.to, ItemEdgeKind(history[i].chain[k])) in ChainEdges(e.to.opportunityId, history[i].chain);
      assert e.kind == ItemEdgeKind(history[i].chain[k]) ==> e in AddedEdges(history[i]);
    }
    if e.kind == PartOf && e.from.Finding? && e.to.Analysis? && AddedUnder(history, e.from.opportunityId, e.to.analysisId) {
      var i :| 0 <= i < |history| && history[i].opportunityId == e.from.opportunityId && history[i].analysisId == e.to.analysisId;
      assert e in AddedEdges(history[i]);
    }
  }

  // ---- Acyclicity and the blast radius -----------------------------------------------------

  /** Evidence below findings below analyses. */
  function Rank(n: NodeId): nat {
    if n.Analysis? then 2 else if n.Finding? then 1 else 0
  }

  lemma RankRises(history: seq<Added>, a: NodeId, b: NodeId)
    requires (a, b) in LinksOf(HistoryEdges(history))
    ensures Rank(a) < Rank(b)
  {
    LinkMeaning(history, a, b);
    if b.Finding? {
      var i, k :| 0 <= i < |history| && 0 <= k < |history[i].chain| && ItemNode(history[i].chain[k]) == a;
    }
  }

  lemma {:induction false} WalkClimbs(history: seq<Added>, p: seq<NodeId>)
    requires IsWalk(LinksOf(HistoryEdges(history)), p)
    ensures Rank(p[0]) + |p| - 1 <= Rank(p[|p| - 1])
    decreases |p|
  {
    RankRises(history, p[|p| - 2], p[|p| - 1]);
    if |p| > 2 {
      WalkClimbs(history, p[..|p| - 1]);
    }
  }

  /** No node is upstream of itself. */
  lemma Acyclic(history: seq<Added>, n: NodeId)
    ensures !Reaches(LinksOf(HistoryEdges(history)), n, n)
  {
    forall p | IsWalk(LinksOf(HistoryEdges(history)), p) && p[0] == n ensures p[|p| - 1] != n {
      WalkClimbs(history, p);
    }
  }

  /** Downstream of a node are exactly the findings that rest on it and the analyses those, or the
      node itself if it is a finding, were added under. */
  ghost predicate Downstream(history: seq<Added>, n: NodeId, m: NodeId) {
    match m
    case Finding(o) => RestsOn(history, o, n)
    case Analysis(a) =>
      || (n.Finding? && AddedUnder(history, n.opportunityId, a))
      || (exists o :: RestsOn(history, o, n) && AddedUnder(history, o, a))
    case _ => false
  }

  lemma ReachExactly(history: seq<Added>, n: NodeId, m: NodeId)
    ensures Reaches(LinksOf(HistoryEdges(history)), n, m) <==> Downstream(history, n, m)
  {
    hide Reaches, LinksOf, HistoryEdges, Downstream;
    if Reaches(LinksOf(HistoryEdges(history)), n, m) {
      ReachIsDownstream(history, n, m);
    }
    if Downstream(history, n, m) {
      DownstreamReaches(history, n, m);
    }
  }

  lemma ReachIsDownstream(history: seq<Added>, n: NodeId, m: NodeId)
    requires Reaches(LinksOf(HistoryEdges(history)), n, m)
    ensures Downstream(history, n, m)
  {
    hide LinksOf, HistoryEdges, RestsOn, AddedUnder;
    var p :| IsWalk(LinksOf(HistoryEdges(history)), p) && p[0] == n && p[|p| - 1] == m;
    WalkClimbs(history, p);
    LinkMeaning(history, p[0], p[1]);
    if |p| == 3 {
      LinkMeaning(history, p[1], p[2]);
    }
  }

  lemma DownstreamReaches(history: seq<Added>, n: NodeId, m: NodeId)
    requires Downstream(history, n, m)
    ensures Reaches(LinksOf(HistoryEdges(history)), n, m)
  {
    hide LinksOf, HistoryEdges, RestsOn, AddedUnder, Reaches;
    var links := LinksOf(HistoryEdges(history));
    if m.Finding? || (n.Finding? && AddedUnder(history, n.opportunityId, m.analysisId)) {
      LinkMeaning(history, n, m);
      ReachesLink(links, n, m);
    } else {
      var o :| RestsOn(history, o, n) && AddedUnder(history, o, m.analysisId);
      LinkMeaning(history, n, Finding(o));
      LinkMeaning(history, Finding(o), m);
      ReachesLink(links, n, Finding(o));
      ReachesFurther(links, n, Finding(o), m);
    }
  }

  /** Two document values are one node exactly when they read one quantity off one version. */
  lemma FactNodeIdentity(f: Id, v: Id, kind: FactKind, g: Id, w: Id, other: FactKind)
    ensures ItemNode(DocumentValue(f, v, kind)) == ItemNode(DocumentValue(g, w, other)) <==> v == w && kind == other
  {
    KeyInjective(kind, other);
  }

  /** An actionable chain leaves its finding anchored, with a document value and a rule upstream. */
  lemma ActionableIsAnchored(history: seq<Added>, i: nat)
    requires i < |history| && ValidateActionable(history[i].chain)
    ensures Anchored(history, history[i].opportunityId)
    ensures exists n: NodeId :: n.Fact? && Downstream(history, n, Finding(history[i].opportunityId))
    ensures exists n: NodeId :: n.Rule? && Downstream(history, n, Finding(history[i].opportunityId))
  {
    var chain := history[i].chain;
    var k :| 0 <= k < |chain| && chain[k].DocumentValue?;
    var l :| 0 <= l < |chain| && chain[l].RuleApplied?;
    assert Downstream(history, ItemNode(chain[k]), Finding(history[i].opportunityId));
    assert Downstream(history, ItemNode(chain[l]), Finding(history[i].opportunityId));
  }

  /** Chains that differ only in the inputs their calculations list give the same graph: a figure
      that enters through a calculation alone is not in it. */
  lemma CalculationInputsIgnored(x: Added, y: Added)
    requires x.analysisId == y.analysisId && x.opportunityId == y.opportunityId && |x.chain| == |y.chain|
    requires forall k :: 0 <= k < |x.chain| ==>
               x.chain[k] == y.chain[k]
               || (x.chain[k].CalculationRun? && y.chain[k].CalculationRun? && x.chain[k].runId == y.chain[k].runId)
    ensures AddedEdges(x) == AddedEdges(y)
  {
    assert forall k :: 0 <= k < |x.chain| ==>
        ItemNode(x.chain[k]) == ItemNode(y.chain[k]) && ItemEdgeKind(x.chain[k]) == ItemEdgeKind(y.chain[k]);
    assert ChainEdges(x.opportunityId, x.chain) == ChainEdges(y.opportunityId, y.chain);
  }

  /** What each fact was read as: the document version and the quantity. */
  type Register = map<Id, (Id, FactKind)>

  /** The register agrees with every document value in the history. */
  ghost predicate Registered(register: Register, history: seq<Added>) {
    forall i, k :: 0 <= i < |history| && 0 <= k < |history[i].chain| && history[i].chain[k].DocumentValue? ==>
      && history[i].chain[k].factId in register
      && register[history[i].chain[k].factId] == (history[i].chain[k].versionId, history[i].chain[k].factKind)
  }

  function FigureNode(register: Register, f: Id): (node: NodeId)
    requires f in register
  {
    Fact(register[f].0, Key(register[f].1))
  }

  /** Some chain of the opportunity has a calculation that lists the fact as an input. */
  ghost predicate Lists(history: seq<Added>, o: Id, f: Id) {
    exists i, k :: 0 <= i < |history| && history[i].opportunityId == o
      && 0 <= k < |history[i].chain| && history[i].chain[k].CalculationRun? && Some(f) in history[i].chain[k].inputFacts
  }

  /** Some chain of the opportunity has a document value of the same quantity and version. */
  ghost predicate Cites(register: Register, history: seq<Added>, o: Id, f: Id)
    requires f in register && Registered(register, history)
  {
    exists i, k :: 0 <= i < |history| && history[i].opportunityId == o
      && 0 <= k < |history[i].chain| && history[i].chain[k].DocumentValue?
      && register[history[i].chain[k].factId] == register[f]
  }

  /** A figure is upstream of a finding exactly when a chain of the finding cites it as a document
      value; that a calculation lists it as an input makes no difference. So all the figures a finding
      was computed from are in its provenance exactly when all of them are also cited. */
  lemma ListedFiguresUpstream(register: Register, history: seq<Added>, o: Id)
    requires Registered(register, history)
    ensures forall f :: f in register ==>
              (Reaches(LinksOf(HistoryEdges(history)), FigureNode(register, f), Finding(o)) <==> Cites(register, history, o, f))
    ensures (forall f :: f in register && Lists(history, o, f) ==> Downstream(history, FigureNode(register, f), Finding(o)))
       <==> (forall f :: f in register && Lists(history, o, f) ==> Cites(register, history, o, f))
  {
    hide Key, Lists, Registered, LinksOf, HistoryEdges, Reaches, Downstream, Cites;
    forall f | f in register
      ensures Downstream(history, FigureNode(register, f), Finding(o)) <==> Cites(register, history, o, f)
      ensures Reaches(LinksOf(HistoryEdges(history)), FigureNode(register, f), Finding(o)) <==> Cites(register, history, o, f)
    {
      CitedExactly(register, history, o, f);
      ReachExactly(history, FigureNode(register, f), Finding(o));
    }
  }

  lemma CitedExactly(register: Register, history: seq<Added>, o: Id, f: Id)
    requires f in register && Registered(register, history)
    ensures Downstream(history, FigureNode(register, f), Finding(o)) <==> Cites(register, history, o, f)
  {
    hide Key;
    if RestsOn(history, o, FigureNode(register, f)) {
      var i, k :| 0 <= i < |history| && history[i].opportunityId == o
        && 0 <= k < |history[i].chain| && ItemNode(history[i].chain[k]) == FigureNode(register, f);
      KeyInjective(history[i].chain[k].factKind, register[f].1);
    }
    if Cites(register, history, o, f) {
      var i, k :| 0 <= i < |history| && history[i].opportunityId == o
        && 0 <= k < |history[i].chain| && history[i].chain[k].DocumentValue?
        && register[history[i].chain[k].factId] == register[f];
      assert ItemNode(history[i].chain[k]) == FigureNode(register, f);
    }
  }

  /** Revenue cited, a rule, and a calculation from revenue and equity: the chain is actionable, and the
      equity it was computed from is not upstream of the finding. */
  lemma ListedFigureMissing(a: Id, o: Id, v: Id, w: Id)
    ensures var chain := [DocumentValue(1, v, Revenue), RuleApplied("r", "1"), CalculationRun(7, [Some(1), Some(2)])];
            var history, register := [Added(a, o, chain)], map[1 := (v, Revenue), 2 := (w, Equity)];
            && ValidateActionable(chain) && Registered(register, history) && Lists(history, o, 2)
            && !Reaches(LinksOf(HistoryEdges(history)), FigureNode(register, 2), Finding(o))
  {
    hide Key, LinksOf, HistoryEdges, Reaches;
    var chain := [DocumentValue(1, v, Revenue), RuleApplied("r", "1"), CalculationRun(7, [Some(1), Some(2)])];
    var history, register: Register := [Added(a, o, chain)], map[1 := (v, Revenue), 2 := (w, Equity)];
    assert chain[0].DocumentValue? && chain[1].RuleApplied?;
    assert history[0].chain[2].CalculationRun? && Some(2) in history[0].chain[2].inputFacts;
    ListedFiguresUpstream(register, history, o);
  }

  // ---- The graph ---------------------------------------------------------------------------

  class EvidenceGraph {
    var nodes: set<NodeId>
    var edges: set<Edge>
    var outgoing: Index
    var incoming: Index
    ghost var history: seq<Added>

    /** What is stored says what the added chains said. */
    ghost predicate Stored()
      reads this
    {
      edges == HistoryEdges(history) && nodes == Endpoints(edges)
    }

    /** Both indexes agree with the edges. */
    ghost predicate Indexed()
      reads this
    {
      Indexes(outgoing, LinksOf(edges)) && Indexes(incoming, Reversed(LinksOf(edges)))
    }

    constructor ()
      ensures Stored() && Indexed() && history == []
    {
      nodes, edges, outgoing, incoming, history := {}, {}, map[], map[], [];
    }

    /** A graph read back from storage, which keeps the nodes and edges and drops the indexes. */
    constructor Restore(nodes: set<NodeId>, edges: set<Edge>, ghost history: seq<Added>)
      requires edges == HistoryEdges(history) && nodes == Endpoints(edges)
      ensures Stored() && this.history == history && this.edges == edges
      ensures outgoing == map[] && incoming == map[]
    {
      this.nodes, this.edges, this.history := nodes, edges, history;
      outgoing, incoming := map[], map[];
    }

    method AddEdge(from: NodeId, to: NodeId, kind: EdgeKind)
      requires Indexed() && nodes == Endpoints(edges)
      modifies this
      ensures edges == old(edges) + {Edge(from, to, kind)} && nodes == Endpoints(edges)
      ensures Indexed() && history == old(history)
    {
      hide Indexes, LinksOf, Reversed, WithLink, Endpoints;
      IndexesGrow(edges, Edge(from, to, kind), outgoing, incoming);
      nodes := nodes + {from, to};
      outgoing := WithLink(outgoing, from, to);
      incoming := WithLink(incoming, to, from);
      edges := edges + {Edge(from, to, kind)};
    }

    /** Folds one finding's chain into the graph. */
    method AddFinding(analysisId: Id, opportunityId: Id, chain: seq<EvidenceItem>)
      requires Stored() && Indexed()
      modifies this
      ensures Stored() && Indexed()
      ensures history == old(history) + [Added(analysisId, opportunityId, chain)]
    {
      var finding := Finding(opportunityId);
      AddEdge(finding, Analysis(analysisId), PartOf);
      ghost var before := edges;
      for k := 0 to |chain|
        invariant Indexed() && nodes == Endpoints(edges)
        invariant edges == before + ChainEdges(opportunityId, chain[..k])
        invariant history == old(history)
      {
        AddEdge(ItemNode(chain[k]), finding, ItemEdgeKind(chain[k]));
        ChainEdgesStep(opportunityId, chain, k);
      }
      assert chain[..|chain|] == chain;
      ghost var x := Added(analysisId, opportunityId, chain);
      assert (history + [x])[..|history|] == history;
      history := history + [x];
    }

    /** Rebuilds the indexes from the edges alone. */
    method Reindex()
      modifies this
      ensures Indexed()
      ensures nodes == old(nodes) && edges == old(edges) && history == old(history)
    {
      hide Indexes, WithLink, LinksOf, Reversed;
      outgoing, incoming := map[], map[];
      EmptyIndexes();
      var todo, done := edges, {};
      while todo != {}
        invariant done + todo == edges
        invariant Indexes(outgoing, LinksOf(done)) && Indexes(incoming, Reversed(LinksOf(done)))
        invariant nodes == old(nodes) && edges == old(edges) && history == old(history)
        decreases todo
      {
        var e :| e in todo;
        IndexesGrow(done, e, outgoing, incoming);
        outgoing := WithLink(outgoing, e.from, e.to);
        incoming := WithLink(incoming, e.to, e.from);
        todo, done := todo - {e}, done + {e};
      }
    }

    /** Everything downstream: what falls if `node` does. */
    method Dependents(node: NodeId) returns (r: set<NodeId>)
      requires Stored() && Indexed()
      ensures forall m :: m in r <==> Downstream(history, node, m)
    {
      r := Reachable(node, outgoing, LinksOf(edges));
      forall m ensures m in r <==> Downstream(history, node, m) {
        ReachExactly(history, node, m);
      }
    }

    /** Everything upstream: the provenance of `node`. */
    method Provenance(node: NodeId) returns (r: set<NodeId>)
      requires Stored() && Indexed()
      ensures forall m :: m in r <==> Downstream(history, m, node)
    {
      r := Reachable(node, incoming, Reversed(LinksOf(edges)));
      forall m ensures m in r <==> Downstream(history, m, node) {
        ReachesBackwards(LinksOf(edges), m, node);
        ReachExactly(history, m, node);
      }
    }

    /** The opportunities affected if `node` is wrong. */
    method AffectedFindings(node: NodeId) returns (r: set<Id>)
      requires Stored() && Indexed()
      ensures forall o :: o in r <==> RestsOn(history, o, node)
    {
      var found := Dependents(node);
      r := set n | n in found && n.Finding? :: n.opportunityId;
      forall o ensures o in r <==> RestsOn(history, o, node) {
        assert o in r <==> Finding(o) in found;
      }
    }

    /** The analyses affected if `node` is wrong. */
    method AffectedAnalyses(node: NodeId) returns (r: set<Id>)
      requires Stored() && Indexed()
      ensures forall a :: a in r <==> Downstream(history, node, Analysis(a))
    {
      var found := Dependents(node);
      r := set n | n in found && n.Analysis? :: n.analysisId;
      forall a ensures a in r <==> Downstream(history, node, Analysis(a)) {
        assert a in r <==> Analysis(a) in found;
      }
    }

    /** Whether some document value supports the finding. */
    method FindingIsDocumentAnchored(opportunityId: Id) returns (anchored: bool)
      requires Stored()
      ensures anchored <==> Anchored(history, opportunityId)
    {
      anchored := exists e :: e in edges && e.to == Finding(opportunityId) && e.kind == Supports && e.from.Fact?;
      AnchorMeaning(history, opportunityId);
    }
  }

  /** Storing the nodes and edges and rebuilding the indexes gives back the same graph. */
  method StoreAndRestore(g: EvidenceGraph) returns (r: EvidenceGraph)
    requires g.Stored() && g.Indexed()
    ensures r.Stored() && r.Indexed() && r.history == g.history
    ensures r.nodes == g.nodes && r.edges == g.edges
    ensures r.outgoing == g.outgoing && r.incoming == g.incoming
  {
    r := new EvidenceGraph.Restore(g.nodes, g.edges, g.history);
    r.Reindex();
    IndexIsUnique(r.outgoing, g.outgoing, LinksOf(g.edges));
    IndexIsUnique(r.incoming, g.incoming, Reversed(LinksOf(g.edges)));
  }

  lemma ChainEdgesStep(o: Id, chain: seq<EvidenceItem>, k: nat)
    requires k < |chain|
    ensures ChainEdges(o, chain[..k + 1])
         == ChainEdges(o, chain[..k]) + {Edge(ItemNode(chain[k]), Finding(o), ItemEdgeKind(chain[k]))}
  {
    var front, all := chain[..k], chain[..k + 1];
    assert forall j :: 0 <= j < k ==> front[j] == all[j];
    assert all[k] == chain[k];
    forall e ensures e in ChainEdges(o, all) <==> e in ChainEdges(o, front) + {Edge(ItemNode(chain[k]), Finding(o), ItemEdgeKind(chain[k]))} {
      if e in ChainEdges(o, front) {
        var j :| 0 <= j < k && e == Edge(ItemNode(front[j]), Finding(o), ItemEdgeKind(front[j]));
        assert e == Edge(ItemNode(all[j]), Finding(o), ItemEdgeKind(all[j]));
      }
    }
  }

  lemma AnchorMeaning(history: seq<Added>, o: Id)
    ensures Anchored(history, o)
       <==> (exists e :: e in HistoryEdges(history) && e.to == Finding(o) && e.kind == Supports && e.from.Fact?)
  {
    hide Key, HistoryEdges;
    if Anchored(history, o) {
      var i :| 0 <= i < |history| && history[i].opportunityId == o && HasDocumentAnchor(history[i].chain);
      var k :| 0 <= k < |history[i].chain| && history[i].chain[k].DocumentValue?;
      var e := Edge(ItemNode(history[i].chain[k]), Finding(o), Supports);
      assert e in ChainEdges(o, history[i].chain);
      EdgeOrigin(history, e);
    }
    if e :| e in HistoryEdges(history) && e.to == Finding(o) && e.kind == Supports && e.from.Fact? {
      EdgeOrigin(history, e);
      var i :| 0 <= i < |history| && e in AddedEdges(history[i]);
      var k :| 0 <= k < |history[i].chain| && ItemNode(history[i].chain[k]) == e.from;
      assert history[i].chain[k].DocumentValue?;
    }
  }

  // ---- Breadth-first search ----------------------------------------------------------------

  method Reachable(start: NodeId, index: Index, ghost links: Links) returns (seen: set<NodeId>)
    requires Indexes(index, links)
    ensures forall x :: x in seen <==> Reaches(links, start, x)
  {
    hide Reaches, Explored, Indexes;
    seen := {};
    var queue := [start];
    ghost var targets := set l | l in links :: l.1;
    ExploredFirst(links, start);
    while queue != []
      invariant seen <= targets
      invariant forall x :: x in seen ==> Reaches(links, start, x)
      invariant forall x :: x in queue ==> x == start || x in seen
      invariant Explored(links, start, seen, queue)
      decreases |targets - seen|, |queue|
    {
      var current, rest := queue[0], queue[1..];
      assert queue == [current] + rest;
      NeighboursReached(links, start, current, index);
      ghost var before := seen;
      if current in index {
        seen, queue := Visit(index[current], seen, rest);
        Shrinks(targets, before, seen);
      } else {
        queue := rest;
      }
      ExploredNext(links, start, before, current, rest, seen, queue);
    }
    AllReached(links, start, seen);
  }

  /** Every node found so far is waiting, or all its successors have been found. */
  ghost predicate Explored(links: Links, start: NodeId, seen: set<NodeId>, queue: seq<NodeId>) {
    forall x :: (x == start || x in seen) && x !in queue ==> Expanded(links, seen, x)
  }

  lemma ExploredFirst(links: Links, start: NodeId)
    ensures Explored(links, start, {}, [start])
  {
  }

  lemma ExploredNext(links: Links, start: NodeId, before: set<NodeId>, current: NodeId, rest: seq<NodeId>,
                     seen: set<NodeId>, queue: seq<NodeId>)
    requires Explored(links, start, before, [current] + rest)
    requires before <= seen
    requires forall b :: (current, b) in links ==> b in seen
    requires forall x :: x in rest || x in seen - before ==> x in queue
    ensures Explored(links, start, seen, queue)
  {
    forall x | (x == start || x in seen) && x !in queue ensures Expanded(links, seen, x) {
      assert x in [current] + rest <==> x == current || x in rest;
      if x != current {
        assert Expanded(links, before, x);
      }
    }
  }

  lemma NeighboursReached(links: Links, start: NodeId, current: NodeId, index: Index)
    requires Indexes(index, links)
    requires current == start || Reaches(links, start, current)
    ensures forall b :: (current, b) in links <==> current in index && b in index[current]
    ensures forall b :: (current, b) in links ==> Reaches(links, start, b)
    ensures forall b :: (current, b) in links ==> b in set l | l in links :: l.1
  {
    hide Reaches;
    forall b | (current, b) in links ensures Reaches(links, start, b) {
      if current == start {
        ReachesLink(links, start, b);
      } else {
        ReachesFurther(links, start, current, b);
      }
    }
  }

  lemma AllReached(links: Links, start: NodeId, seen: set<NodeId>)
    requires Explored(links, start, seen, [])
    ensures forall x :: Reaches(links, start, x) ==> x in seen
  {
    forall x | Reaches(links, start, x) ensures x in seen {
      var p :| IsWalk(links, p) && p[0] == start && p[|p| - 1] == x;
      ClosedHoldsReach(links, start, seen, p);
    }
  }

  lemma Shrinks(targets: set<NodeId>, before: set<NodeId>, seen: set<NodeId>)
    requires before <= seen <= targets
    ensures |targets - seen| <= |targets - before|
    ensures |targets - seen| == |targets - before| ==> seen == before
  {
    var a, b := targets - seen, targets - before;
    assert b == a + (seen - before) && a !! (seen - before);
    assert |b| == |a| + |seen - before|;
  }

  /** Marks the unseen neighbours and queues them. */
  method Visit(neighbours: set<NodeId>, before: set<NodeId>, waiting: seq<NodeId>)
    returns (seen: set<NodeId>, queue: seq<NodeId>)
    ensures seen == before + neighbours
    ensures forall x :: x in queue <==> x in waiting || x in neighbours - before
    ensures seen == before ==> queue == waiting
  {
    seen, queue := before, waiting;
    var todo, done := neighbours, {};
    while todo != {}
      invariant done + todo == neighbours
      invariant seen == before + done
      invariant forall x :: x in queue <==> x in waiting || x in done - before
      invariant seen == before ==> queue == waiting
      decreases todo
    {
      var next :| next in todo;
      if next !in seen {
        seen, queue := seen + {next}, queue + [next];
      }
      todo, done := todo - {next}, done + {next};
    }
  }
}
