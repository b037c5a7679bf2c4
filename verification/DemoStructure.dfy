/**
 The portfolio structure of the demo app: nodes, and edges that say what contains what. New
 portfolios are hung below a node found by name, or below the root.
 */
module DemoStructure {
  import opened Outcomes

  datatype Node = Node(id: string, name: string)

  datatype EdgeKind = Contains | Owns

  datatype Edge = Edge(kind: EdgeKind, from: string, to: string)

  datatype Graph = Graph(rootId: string, nodes: seq<Node>, edges: seq<Edge>)

  datatype Portfolio = Portfolio(id: string, name: string, parent: string)

  predicate HasId(nodes: seq<Node>, id: string) {
    exists i :: 0 <= i < |nodes| && nodes[i].id == id
  }

  /** The first node by the name. */
  function FindByName(nodes: seq<Node>, name: string): Option<Node> {
    if nodes == [] then None
    else if nodes[0].name == name then Some(nodes[0])
    else FindByName(nodes[1..], name)
  }

  function ParentOf(g: Graph, p: Portfolio): string {
    match FindByName(g.nodes, p.parent)
    case Some(node) => node.id
    case None => g.rootId
  }

  /** The structure part of `completePortfolio`. */
  function CompletePortfolio(g: Graph, p: Portfolio): Graph {
    if HasId(g.nodes, p.id) then g
    else
      var parent := ParentOf(g, p);
      g.(nodes := g.nodes + [Node(p.id, p.name)],
         edges := g.edges + [Edge(Contains, parent, p.id), Edge(Owns, parent, p.id)])
  }

  function Run(g: Graph, ps: seq<Portfolio>): Graph
    decreases |ps|
  {
    if ps == [] then g else Run(CompletePortfolio(g, ps[0]), ps[1..])
  }

  // ---- Trees ----

  predicate ContainsEdge(g: Graph, i: int, from: string, to: string) {
    0 <= i < |g.edges| && g.edges[i] == Edge(Contains, from, to)
  }

  ghost predicate Contained(g: Graph, from: string, to: string) {
    exists i :: ContainsEdge(g, i, from, to)
  }

  /** A path of ids, each containing the next. */
  ghost predicate Path(g: Graph, ids: seq<string>) {
    |ids| > 0 && forall i :: 0 <= i < |ids| - 1 ==> Contained(g, ids[i], ids[i + 1])
  }

  ghost predicate PathTo(g: Graph, ids: seq<string>, from: string, to: string) {
    Path(g, ids) && ids[0] == from && ids[|ids| - 1] == to
  }

  ghost predicate Below(g: Graph, from: string, id: string) {
    exists ids :: PathTo(g, ids, from, id)
  }

  ghost predicate BelowSome(g: Graph, tops: set<string>, id: string) {
    exists top :: top in tops && Below(g, top, id)
  }

  /**
   Ids are unique; containment joins nodes and never reaches a top; no node has two parents; and
   every node is below a top. The root is a top, and an owner, which nothing contains, is another.
   With the root as its only top, this is a tree.
   */
  ghost predicate Forest(g: Graph, tops: set<string>) {
    && (forall i, j :: 0 <= i < j < |g.nodes| ==> g.nodes[i].id != g.nodes[j].id)
    && g.rootId in tops && (forall top :: top in tops ==> HasId(g.nodes, top))
    && (forall i, from, to :: ContainsEdge(g, i, from, to) ==> Joins(g, tops, from, to))
    && (forall i, j, from, other, to :: ContainsEdge(g, i, from, to) && ContainsEdge(g, j, other, to) ==> i == j)
    && (forall i {:trigger BelowSome(g, tops, g.nodes[i].id)} :: 0 <= i < |g.nodes| ==> BelowSome(g, tops, g.nodes[i].id))
  }

  ghost predicate Tree(g: Graph) {
    Forest(g, {g.rootId})
  }

  predicate Joins(g: Graph, tops: set<string>, from: string, to: string) {
    HasId(g.nodes, from) && HasId(g.nodes, to) && to !in tops
  }

  lemma {:induction false} FindByNameFinds(nodes: seq<Node>, name: string)
    ensures FindByName(nodes, name).Some? ==> HasId(nodes, FindByName(nodes, name).value.id)
    ensures FindByName(nodes, name).Some? <==> exists i :: 0 <= i < |nodes| && nodes[i].name == name
  {
    if nodes != [] {
      FindByNameFinds(nodes[1..], name);
      if nodes[0].name != name {
        if FindByName(nodes, name).Some? {
          var i :| 0 <= i < |nodes[1..]| && nodes[1..][i].id == FindByName(nodes, name).value.id;
          assert nodes[i + 1].id == FindByName(nodes, name).value.id;
        }
        if i :| 0 <= i < |nodes| && nodes[i].name == name {
          assert nodes[1..][i - 1] == nodes[i];
        }
        if i :| 0 <= i < |nodes[1..]| && nodes[1..][i].name == name {
          assert nodes[i + 1] == nodes[1..][i];
        }
      }
    }
  }

  /** Edges are only ever added, so paths stay. */
  lemma PathStays(g: Graph, h: Graph, ids: seq<string>)
    requires Path(g, ids) && g.edges <= h.edges
    ensures Path(h, ids)
  {
    forall i | 0 <= i < |ids| - 1 ensures Contained(h, ids[i], ids[i + 1]) {
      var j :| ContainsEdge(g, j, ids[i], ids[i + 1]);
      assert ContainsEdge(h, j, ids[i], ids[i + 1]);
    }
  }

  lemma BelowStays(g: Graph, h: Graph, from: string, id: string)
    requires Below(g, from, id) && g.edges <= h.edges
    ensures Below(h, from, id)
  {
    var ids :| PathTo(g, ids, from, id);
    PathStays(g, h, ids);
    assert PathTo(h, ids, from, id);
  }

  lemma BelowChild(g: Graph, from: string, id: string, child: string)
    requires Below(g, from, id) && Contained(g, id, child)
    ensures Below(g, from, child)
  {
    var ids :| PathTo(g, ids, from, id);
    var longer := ids + [child];
    forall i | 0 <= i < |longer| - 1 ensures Contained(g, longer[i], longer[i + 1]) {
      if i == |ids| - 1 {
        assert longer[i] == id;
      }
    }
    assert PathTo(g, longer, from, child);
  }

  /** The edges of a grown structure are the old ones and the two new ones. */
  lemma GrownEdges(g: Graph, p: Portfolio, i: int, from: string, to: string)
    requires !HasId(g.nodes, p.id)
    ensures var h := CompletePortfolio(g, p);
            ContainsEdge(h, i, from, to) <==>
            ContainsEdge(g, i, from, to) || (i == |g.edges| && from == ParentOf(g, p) && to == p.id)
  {
  }

  lemma ParentIsNode(g: Graph, tops: set<string>, p: Portfolio)
    requires Forest(g, tops)
    ensures HasId(g.nodes, ParentOf(g, p))
  {
    FindByNameFinds(g.nodes, p.parent);
  }

  /** A new portfolio, whatever its id, its name and its parent's, leaves a forest a forest. */
  lemma StaysForest(g: Graph, tops: set<string>, p: Portfolio)
    requires Forest(g, tops)
    ensures Forest(CompletePortfolio(g, p), tops)
  {
    if !HasId(g.nodes, p.id) {
      var h, parent := CompletePortfolio(g, p), ParentOf(g, p);
      ParentIsNode(g, tops, p);
      GrownNodes(g, tops, p);
      GrownEdgesJoinNodes(g, tops, p);
      forall i | 0 <= i < |h.nodes| ensures BelowSome(h, tops, h.nodes[i].id) {
        var j :| 0 <= j < |g.nodes| && g.nodes[j].id == if i < |g.nodes| then g.nodes[i].id else parent;
        assert BelowSome(g, tops, g.nodes[j].id);
        var top :| top in tops && Below(g, top, g.nodes[j].id);
        BelowStays(g, h, top, g.nodes[j].id);
        if i == |g.nodes| {
          assert ContainsEdge(h, |g.edges|, parent, p.id);
          BelowChild(h, top, parent, p.id);
        }
      }
    }
  }

  lemma GrownNodes(g: Graph, tops: set<string>, p: Portfolio)
    requires Forest(g, tops) && !HasId(g.nodes, p.id)
    ensures var h := CompletePortfolio(g, p);
            && HasId(h.nodes, p.id)
            && (forall id :: HasId(g.nodes, id) ==> HasId(h.nodes, id))
            && forall i, j :: 0 <= i < j < |h.nodes| ==> h.nodes[i].id != h.nodes[j].id
  {
    hide BelowSome, Joins, ContainsEdge, ParentOf;
    var h := CompletePortfolio(g, p);
    assert h.nodes[|g.nodes|].id == p.id;
    forall id | HasId(g.nodes, id) ensures HasId(h.nodes, id) {
      var i :| 0 <= i < |g.nodes| && g.nodes[i].id == id;
      assert h.nodes[i].id == id;
    }
  }

  lemma GrownEdgesJoinNodes(g: Graph, tops: set<string>, p: Portfolio)
    requires Forest(g, tops) && !HasId(g.nodes, p.id) && HasId(g.nodes, ParentOf(g, p))
    ensures var h := CompletePortfolio(g, p);
            && (forall i, from, to :: ContainsEdge(h, i, from, to) ==> Joins(h, tops, from, to))
            && (forall i, j, from, other, to :: ContainsEdge(h, i, from, to) && ContainsEdge(h, j, other, to) ==> i == j)
  {
    var h := CompletePortfolio(g, p);
    GrownNodes(g, tops, p);
    forall i, from, to | ContainsEdge(h, i, from, to) ensures Joins(h, tops, from, to) {
      GrownEdges(g, p, i, from, to);
    }
    forall i, j, from, other, to | ContainsEdge(h, i, from, to) && ContainsEdge(h, j, other, to) ensures i == j {
      GrownEdges(g, p, i, from, to);
      GrownEdges(g, p, j, other, to);
    }
  }

  /**
   Any sequence of new portfolios, whatever their ids, names and parents, keeps the structure a
   forest below the same tops; so a tree stays a tree.
   */
  lemma {:induction false} AlwaysForest(g: Graph, tops: set<string>, ps: seq<Portfolio>)
    requires Forest(g, tops)
    ensures Forest(Run(g, ps), tops) && Run(g, ps).rootId == g.rootId
    decreases |ps|
  {
    if ps != [] {
      StaysForest(g, tops, ps[0]);
      AlwaysForest(CompletePortfolio(g, ps[0]), tops, ps[1..]);
    }
  }

  lemma AlwaysTree(g: Graph, ps: seq<Portfolio>)
    requires Tree(g)
    ensures Tree(Run(g, ps))
  {
    AlwaysForest(g, {g.rootId}, ps);
  }

  /** Paths that do not end at the new node were there before. */
  lemma PathWasThere(g: Graph, tops: set<string>, p: Portfolio, ids: seq<string>)
    requires Forest(g, tops) && !HasId(g.nodes, p.id) && HasId(g.nodes, ParentOf(g, p))
    requires Path(CompletePortfolio(g, p), ids) && ids[|ids| - 1] != p.id
    ensures Path(g, ids)
  {
    hide Forest, Contained;
    var h := CompletePortfolio(g, p);
    forall i | 0 <= i < |ids| - 1 ensures Contained(g, ids[i], ids[i + 1]) {
      assert Contained(h, ids[i], ids[i + 1]);
      if i < |ids| - 2 {
        assert Contained(h, ids[i + 1], ids[i + 2]);
        NewContainsNothing(g, tops, p, ids[i + 1], ids[i + 2]);
      }
      OldStep(g, p, ids[i], ids[i + 1]);
    }
  }

  lemma OldStep(g: Graph, p: Portfolio, from: string, to: string)
    requires !HasId(g.nodes, p.id) && Contained(CompletePortfolio(g, p), from, to) && to != p.id
    ensures Contained(g, from, to)
  {
    var k :| ContainsEdge(CompletePortfolio(g, p), k, from, to);
    GrownEdges(g, p, k, from, to);
  }

  lemma NewContainsNothing(g: Graph, tops: set<string>, p: Portfolio, from: string, to: string)
    requires Forest(g, tops) && !HasId(g.nodes, p.id) && HasId(g.nodes, ParentOf(g, p))
    requires Contained(CompletePortfolio(g, p), from, to)
    ensures from != p.id
  {
    var k :| ContainsEdge(CompletePortfolio(g, p), k, from, to);
    GrownEdges(g, p, k, from, to);
    assert ContainsEdge(g, k, from, to) ==> Joins(g, tops, from, to);
  }

  /** A new portfolio is below exactly what the node found as its parent is below. */
  lemma NewPortfolioIsBelowItsParent(g: Graph, tops: set<string>, p: Portfolio, from: string)
    requires Forest(g, tops) && !HasId(g.nodes, p.id) && from != p.id
    ensures Below(CompletePortfolio(g, p), from, p.id) <==> Below(g, from, ParentOf(g, p))
  {
    hide Forest;
    var h, parent := CompletePortfolio(g, p), ParentOf(g, p);
    ParentIsNode(g, tops, p);
    if Below(g, from, parent) {
      BelowStays(g, h, from, parent);
      assert ContainsEdge(h, |g.edges|, parent, p.id);
      BelowChild(h, from, parent, p.id);
    }
    if Below(h, from, p.id) {
      var ids :| PathTo(h, ids, from, p.id);
      var n := |ids|;
      assert Contained(h, ids[n - 2], ids[n - 1]);
      LastStep(g, tops, p, ids[n - 2]);
      var up := ids[..n - 1];
      forall i | 0 <= i < |up| - 1 ensures Contained(h, up[i], up[i + 1]) {
        assert up[i] == ids[i] && up[i + 1] == ids[i + 1];
      }
      assert parent != p.id;
      PathWasThere(g, tops, p, up);
      assert PathTo(g, up, from, parent);
    }
  }

  /** Only the parent found contains the new node. */
  lemma LastStep(g: Graph, tops: set<string>, p: Portfolio, from: string)
    requires Forest(g, tops) && !HasId(g.nodes, p.id) && Contained(CompletePortfolio(g, p), from, p.id)
    ensures from == ParentOf(g, p)
  {
    var k :| ContainsEdge(CompletePortfolio(g, p), k, from, p.id);
    GrownEdges(g, p, k, from, p.id);
    assert ContainsEdge(g, k, from, p.id) ==> Joins(g, tops, from, p.id);
  }

  /** What is below what, among the nodes there are, never changes. */
  lemma {:induction false} BelowNeverChanges(g: Graph, tops: set<string>, ps: seq<Portfolio>, from: string, id: string)
    requires Forest(g, tops) && HasId(g.nodes, id)
    ensures Below(Run(g, ps), from, id) <==> Below(g, from, id)
    decreases |ps|
  {
    if ps != [] {
      var h := CompletePortfolio(g, ps[0]);
      StaysForest(g, tops, ps[0]);
      if !HasId(g.nodes, ps[0].id) {
        ParentIsNode(g, tops, ps[0]);
        GrownNodes(g, tops, ps[0]);
        if Below(g, from, id) {
          BelowStays(g, h, from, id);
        }
        if Below(h, from, id) {
          var ids :| PathTo(h, ids, from, id);
          PathWasThere(g, tops, ps[0], ids);
          assert PathTo(g, ids, from, id);
        }
      }
      BelowNeverChanges(h, tops, ps[1..], from, id);
    }
  }

  /** Every node but the other tops is below the root. */
  ghost predicate AllBelowRoot(g: Graph, tops: set<string>) {
    forall i :: 0 <= i < |g.nodes| && g.nodes[i].id !in tops ==> Below(g, g.rootId, g.nodes[i].id)
  }

  /** No portfolio that is new is put right below another top than the root. */
  predicate AllInside(g: Graph, tops: set<string>, ps: seq<Portfolio>)
    decreases |ps|
  {
    ps == [] ||
    ((HasId(g.nodes, ps[0].id) || ParentOf(g, ps[0]) == g.rootId || ParentOf(g, ps[0]) !in tops) &&
     AllInside(CompletePortfolio(g, ps[0]), tops, ps[1..]))
  }

  /**
   Over any sequence of new portfolios, everything but the owners stays below the root exactly
   when none is put right below an owner.
   */
  lemma {:induction false} AllBelowRootExactlyWhenInside(g: Graph, tops: set<string>, ps: seq<Portfolio>)
    requires Forest(g, tops) && AllBelowRoot(g, tops)
    ensures AllBelowRoot(Run(g, ps), tops) <==> AllInside(g, tops, ps)
    decreases |ps|
  {
    hide Forest, AllBelowRoot, Below;
    if ps != [] {
      var p := ps[0];
      var h, parent := CompletePortfolio(g, p), ParentOf(g, p);
      StaysForest(g, tops, p);
      if HasId(g.nodes, p.id) {
        AllBelowRootExactlyWhenInside(g, tops, ps[1..]);
      } else {
        GrownNodes(g, tops, p);
        TopsAreNodes(g, tops);
        NewPortfolioIsBelowItsParent(g, tops, p, g.rootId);
        RootOrOther(g, tops, parent, p);
        if Below(g, g.rootId, parent) {
          GrownBelowRoot(g, tops, p);
          AllBelowRootExactlyWhenInside(h, tops, ps[1..]);
        } else {
          NeverBelowRoot(h, tops, ps[1..], p.id);
        }
      }
    }
  }

  lemma TopsAreNodes(g: Graph, tops: set<string>)
    requires Forest(g, tops)
    ensures g.rootId in tops && forall top :: top in tops ==> HasId(g.nodes, top)
  {
  }

  lemma GrownBelowRoot(g: Graph, tops: set<string>, p: Portfolio)
    requires Forest(g, tops) && AllBelowRoot(g, tops) && !HasId(g.nodes, p.id)
    requires Below(CompletePortfolio(g, p), g.rootId, p.id)
    ensures AllBelowRoot(CompletePortfolio(g, p), tops)
  {
    var h := CompletePortfolio(g, p);
    forall i | 0 <= i < |h.nodes| && h.nodes[i].id !in tops ensures Below(h, h.rootId, h.nodes[i].id) {
      if i < |g.nodes| {
        BelowStays(g, h, g.rootId, g.nodes[i].id);
      }
    }
  }

  /** A node that is not below the root now never will be. */
  lemma NeverBelowRoot(g: Graph, tops: set<string>, ps: seq<Portfolio>, id: string)
    requires Forest(g, tops) && HasId(g.nodes, id) && id !in tops && !Below(g, g.rootId, id)
    ensures !AllBelowRoot(Run(g, ps), tops)
  {
    BelowNeverChanges(g, tops, ps, g.rootId, id);
    AlwaysForest(g, tops, ps);
    NodesStay(g, tops, ps, id);
    var i :| 0 <= i < |Run(g, ps).nodes| && Run(g, ps).nodes[i].id == id;
  }

  lemma {:induction false} NodesStay(g: Graph, tops: set<string>, ps: seq<Portfolio>, id: string)
    requires Forest(g, tops) && HasId(g.nodes, id)
    ensures HasId(Run(g, ps).nodes, id)
    decreases |ps|
  {
    if ps != [] {
      StaysForest(g, tops, ps[0]);
      if !HasId(g.nodes, ps[0].id) {
        GrownNodes(g, tops, ps[0]);
      }
      NodesStay(CompletePortfolio(g, ps[0]), tops, ps[1..], id);
    }
  }

  /** The parent found is below the root unless it is another top. */
  lemma RootOrOther(g: Graph, tops: set<string>, parent: string, p: Portfolio)
    requires Forest(g, tops) && AllBelowRoot(g, tops) && parent == ParentOf(g, p)
    ensures Below(g, g.rootId, parent) <==> parent == g.rootId || parent !in tops
  {
    ParentIsNode(g, tops, p);
    var i :| 0 <= i < |g.nodes| && g.nodes[i].id == parent;
    if parent == g.rootId {
      assert PathTo(g, [parent], g.rootId, parent);
    } else if parent in tops && Below(g, g.rootId, parent) {
      var ids :| PathTo(g, ids, g.rootId, parent);
      assert Contained(g, ids[|ids| - 2], ids[|ids| - 1]);
      TopHasNoParent(g, tops, ids[|ids| - 2], parent);
    }
  }

  /** A new portfolio hangs below the first node by its parent's name, or below the root if there is none. */
  lemma HangsBelowItsParent(g: Graph, p: Portfolio, i: nat)
    requires !HasId(g.nodes, p.id)
    requires i <= |g.nodes| && forall j :: 0 <= j < i ==> g.nodes[j].name != p.parent
    requires i < |g.nodes| ==> g.nodes[i].name == p.parent
    ensures var h, parent := CompletePortfolio(g, p), if i < |g.nodes| then g.nodes[i].id else g.rootId;
            && h.nodes == g.nodes + [Node(p.id, p.name)] && Contained(h, parent, p.id) && Edge(Owns, parent, p.id) in h.edges
  {
    FirstByName(g.nodes, p.parent, i);
    var h := CompletePortfolio(g, p);
    assert ContainsEdge(h, |g.edges|, ParentOf(g, p), p.id);
    assert h.edges[|g.edges| + 1] == Edge(Owns, ParentOf(g, p), p.id);
  }

  lemma {:induction false} FirstByName(nodes: seq<Node>, name: string, i: nat)
    requires i <= |nodes| && forall j :: 0 <= j < i ==> nodes[j].name != name
    requires i < |nodes| ==> nodes[i].name == name
    ensures FindByName(nodes, name) == if i < |nodes| then Some(nodes[i]) else None
    decreases i
  {
    if i > 0 {
      FirstByName(nodes[1..], name, i - 1);
    }
  }

  /** A portfolio is in the structure afterwards, and completing it again changes nothing. */
  lemma RepeatingChangesNothing(g: Graph, p: Portfolio, again: Portfolio)
    requires again.id == p.id
    ensures HasId(CompletePortfolio(g, p).nodes, p.id)
    ensures CompletePortfolio(CompletePortfolio(g, p), again) == CompletePortfolio(g, p)
  {
    if !HasId(g.nodes, p.id) {
      assert CompletePortfolio(g, p).nodes[|g.nodes|].id == p.id;
    }
  }

  /** The tops have no parent, every other node exactly one: at most here, at least below. */
  lemma EveryOtherNodeHasAParent(g: Graph, tops: set<string>, id: string) returns (parent: string)
    requires Forest(g, tops) && HasId(g.nodes, id) && id !in tops
    ensures Contained(g, parent, id) && HasId(g.nodes, parent)
    ensures forall other :: Contained(g, other, id) ==> other == parent
  {
    var i :| 0 <= i < |g.nodes| && g.nodes[i].id == id;
    assert BelowSome(g, tops, g.nodes[i].id);
    var top :| top in tops && Below(g, top, id);
    var ids :| PathTo(g, ids, top, id);
    parent := ids[|ids| - 2];
    assert Contained(g, ids[|ids| - 2], ids[|ids| - 1]);
    HasParentNode(g, tops, parent, id);
    forall other | Contained(g, other, id) ensures other == parent {
      OneParent(g, tops, other, parent, id);
    }
  }

  lemma HasParentNode(g: Graph, tops: set<string>, from: string, id: string)
    requires Forest(g, tops) && Contained(g, from, id)
    ensures HasId(g.nodes, from)
  {
    var k :| ContainsEdge(g, k, from, id);
  }

  lemma OneParent(g: Graph, tops: set<string>, one: string, other: string, id: string)
    requires Forest(g, tops) && Contained(g, one, id) && Contained(g, other, id)
    ensures one == other
  {
    var i :| ContainsEdge(g, i, one, id);
    var j :| ContainsEdge(g, j, other, id);
  }

  lemma TopHasNoParent(g: Graph, tops: set<string>, from: string, top: string)
    requires Forest(g, tops) && top in tops
    ensures !Contained(g, from, top)
  {
    forall i ensures !ContainsEdge(g, i, from, top) {
      assert ContainsEdge(g, i, from, top) ==> Joins(g, tops, from, top);
    }
  }

  /** A cycle read from the node before. */
  lemma Turned(g: Graph, cycle: seq<string>)
    requires Path(g, cycle) && |cycle| > 1 && cycle[0] == cycle[|cycle| - 1]
    ensures var turned := [cycle[|cycle| - 2]] + cycle[..|cycle| - 1];
            Path(g, turned) && turned[0] == turned[|turned| - 1]
  {
    hide Contained;
    var n := |cycle|;
    var turned := [cycle[n - 2]] + cycle[..n - 1];
    assert Contained(g, cycle[n - 2], cycle[n - 1]);
    forall k | 0 <= k < |turned| - 1 ensures Contained(g, turned[k], turned[k + 1]) {
      if k > 0 {
        assert turned[k] == cycle[k - 1] && turned[k + 1] == cycle[k];
      } else {
        assert turned[1] == cycle[0];
      }
    }
  }

  /** Going up from a cycle stays on it, so a node on a cycle is not below any top. */
  lemma {:induction false} NoCycleBelow(g: Graph, tops: set<string>, ids: seq<string>, cycle: seq<string>)
    requires Forest(g, tops) && Path(g, ids) && ids[0] in tops
    requires Path(g, cycle) && |cycle| > 1 && cycle[0] == cycle[|cycle| - 1] == ids[|ids| - 1]
    ensures false
    decreases |ids|
  {
    hide Forest, Contained;
    var n := |cycle|;
    assert Contained(g, cycle[n - 2], cycle[n - 1]);
    if |ids| > 1 {
      var up, parent := ids[..|ids| - 1], ids[|ids| - 2];
      assert Contained(g, ids[|ids| - 2], ids[|ids| - 1]);
      OneParent(g, tops, parent, cycle[n - 2], ids[|ids| - 1]);
      Turned(g, cycle);
      forall k | 0 <= k < |up| - 1 ensures Contained(g, up[k], up[k + 1]) {
        assert Contained(g, ids[k], ids[k + 1]);
      }
      NoCycleBelow(g, tops, up, [parent] + cycle[..n - 1]);
    } else {
      TopHasNoParent(g, tops, cycle[n - 2], ids[0]);
    }
  }

  /** No portfolio contains itself, over however many levels. */
  lemma ForestsHaveNoCycle(g: Graph, tops: set<string>, cycle: seq<string>)
    requires Forest(g, tops) && Path(g, cycle) && |cycle| > 1
    ensures cycle[0] != cycle[|cycle| - 1]
  {
    if cycle[0] == cycle[|cycle| - 1] {
      assert Contained(g, cycle[|cycle| - 2], cycle[|cycle| - 1]);
      var i :| ContainsEdge(g, i, cycle[|cycle| - 2], cycle[|cycle| - 1]);
      assert Joins(g, tops, cycle[|cycle| - 2], cycle[|cycle| - 1]);
      var j :| 0 <= j < |g.nodes| && g.nodes[j].id == cycle[0];
      assert BelowSome(g, tops, g.nodes[j].id);
      var top :| top in tops && Below(g, top, cycle[0]);
      var ids :| PathTo(g, ids, top, cycle[0]);
      NoCycleBelow(g, tops, ids, cycle);
    }
  }
}
