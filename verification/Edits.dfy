/** Editing the inheritance graph: the guard on additions, and what every sequence of
    edits keeps. */
module Edits {
  import opened Walks
  import opened Tables
  import opened Inheritance
  import C = CyclePath

  const MAX_EDGES: nat := 10

  // ----- the guard -----

  /** No chain through the new edge, measured by shortest walks, exceeds the limit. */
  ghost predicate WithinDepth(arcs: Arcs, parent: RoleId, child: RoleId) {
    forall x, y, i: nat, j: nat ::
      IsDistance(arcs, parent, x, i) && IsDistance(arcs, y, child, j) ==> i + 1 + j <= 10
  }

  ghost predicate Admitted(edges: seq<Edge>, parent: RoleId, child: RoleId) {
    && !Connected(Up(edges), parent, child)
    && WithinDepth(Up(edges), parent, child)
    && Edge(child, parent) !in edges
  }

  lemma DistanceReversed(arcs: Arcs, a: RoleId, b: RoleId, n: nat)
    ensures IsDistance(arcs, a, b, n) <==> IsDistance(Reversed(arcs), b, a, n)
  {
    ReversedTwice(arcs);
    forall m: nat ensures Reach(arcs, a, b, m) <==> Reach(Reversed(arcs), b, a, m) {
      if Reach(arcs, a, b, m) { ReachReversed(arcs, a, b, m); }
      if Reach(Reversed(arcs), b, a, m) { ReachReversed(Reversed(arcs), b, a, m); }
    }
  }

  /** The guard's sum of two eccentricities bounds every chain through the new edge. */
  lemma DepthSum(arcs: Arcs, parent: RoleId, child: RoleId, above: nat, below: nat)
    requires IsEccentricity(arcs, parent, above) && IsEccentricity(Reversed(arcs), child, below)
    ensures above + 1 + below <= 10 <==> WithinDepth(arcs, parent, child)
  {
    if above + 1 + below <= 10 {
      forall x, y, i: nat, j: nat | IsDistance(arcs, parent, x, i) && IsDistance(arcs, y, child, j)
        ensures i + 1 + j <= 10
      {
        DistanceReversed(arcs, y, child, j);
      }
    } else {
      var x :| IsDistance(arcs, parent, x, above);
      var y :| IsDistance(Reversed(arcs), child, y, below);
      DistanceReversed(arcs, y, child, below);
    }
  }

  datatype Outcome = Added | WouldCycle(path: C.Report) | TooDeep(total: nat) | Conflict

  /** The handler that adds a parent to a role. */
  method AddParent(edges: seq<Edge>, parent: RoleId, child: RoleId) returns (r: Outcome, edges': seq<Edge>)
    ensures edges' == Edited(edges, Add(parent, child))
    ensures edges' == if r.Added? then edges + [Edge(child, parent)] else edges
    ensures r.Added? <==> Admitted(edges, parent, child)
    ensures r.Conflict? <==> !r.WouldCycle? && !r.TooDeep? && Edge(child, parent) in edges
    ensures r.WouldCycle? <==> Connected(Up(edges), parent, child)
    ensures r.WouldCycle? && parent != child ==>
              r.path.Path? && C.ShortestCycle(Up(edges), parent, child, r.path.ids)
    ensures r.TooDeep? <==> !r.WouldCycle? && !WithinDepth(Up(edges), parent, child)
    ensures r.TooDeep? ==>
              exists above: nat, below: nat :: r.total == above + 1 + below
                && IsEccentricity(Up(edges), parent, above) && IsEccentricity(Reversed(Up(edges)), child, below)
  {
    edges' := edges;
    var hasCycle := DetectCycle(edges, parent, child);
    if hasCycle {
      var path := C.BuildCyclePath(edges, parent, child);
      ConnectedIsAbove(Up(edges), parent, child);
      return WouldCycle(path), edges;
    }
    var above := CheckInheritanceDepth(edges, parent);
    var below := CheckInheritanceDepthDown(edges, child);
    DepthSum(Up(edges), parent, child, above, below);
    if above + 1 + below > MAX_EDGES {
      return TooDeep(above + 1 + below), edges;
    }
    if Edge(child, parent) in edges {
      return Conflict, edges;
    }
    return Added, edges + [Edge(child, parent)];
  }

  /** The cycle check fires exactly when the two roles are one, or the child is among the
      parent's ancestors. */
  lemma ConnectedIsAbove(arcs: Arcs, a: RoleId, b: RoleId)
    ensures Connected(arcs, a, b) <==> a == b || Above(arcs, a, b)
  {
    if n :| Reach(arcs, a, b, n) {
      if n == 0 { ReachZeroIsEqual(arcs, a, b); }
    }
    if a == b { ReachZero(arcs, a); }
  }

  // ----- runs of edits -----

  datatype Edit = Add(parent: RoleId, child: RoleId) | Remove(parent: RoleId, child: RoleId)

  /** One request: a rejected addition changes nothing. */
  ghost function Edited(edges: seq<Edge>, edit: Edit): seq<Edge> {
    match edit
    case Add(parent, child) =>
      if Admitted(edges, parent, child) then edges + [Edge(child, parent)] else edges
    case Remove(parent, child) => Without(edges, Edge(child, parent))
  }

  /** The graph after a sequence of requests, starting empty. */
  ghost function Run(log: seq<Edit>): seq<Edge> {
    if log == [] then [] else Edited(Run(log[..|log| - 1]), log[|log| - 1])
  }

  lemma UpPush(edges: seq<Edge>, e: Edge)
    ensures Up(edges + [e]) == Up(edges) + {(e.child, e.parent)}
  {
    forall x, y ensures (x, y) in Up(edges + [e]) <==> (x, y) in Up(edges) + {(e.child, e.parent)} {
      UpIsEdge(edges + [e], x, y);
      UpIsEdge(edges, x, y);
    }
  }

  lemma UpShrinks(edges: seq<Edge>, e: Edge)
    ensures Up(Without(edges, e)) <= Up(edges)
  {
    WithoutMeans(edges, e);
  }

  lemma AcyclicShrinks(arcs: Arcs, bigger: Arcs)
    requires arcs <= bigger && Acyclic(bigger)
    ensures Acyclic(arcs)
  {
    forall a ensures !Above(arcs, a, a) {
      if n: nat :| n >= 1 && Reach(arcs, a, a, n) {
        ReachMono(arcs, bigger, a, a, n);
        assert Above(bigger, a, a);
      }
    }
  }

  /** A walk in the graph with one more arc either avoids it, or gets to its tail and
      goes on from its head within the old graph, no longer than before. */
  lemma {:induction false} WalkThroughNewArc(arcs: Arcs, c: RoleId, p: RoleId, a: RoleId, b: RoleId, n: nat)
    requires Reach(arcs + {(c, p)}, a, b, n)
    ensures Reach(arcs, a, b, n) || exists i: nat, j: nat :: Reach(arcs, a, c, i) && Reach(arcs, p, b, j)
    decreases n
  {
    if n == 0 {
      ReachZeroIsEqual(arcs + {(c, p)}, a, b);
      ReachZero(arcs, a);
    } else {
      var y := ReachLast(arcs + {(c, p)}, a, b, n);
      WalkThroughNewArc(arcs, c, p, a, y, n - 1);
      if (y, b) == (c, p) {
        ReachZero(arcs, p);
        if Reach(arcs, a, y, n - 1) {
          assert Reach(arcs, a, c, n - 1) && Reach(arcs, p, b, 0);
        } else {
          var i: nat, j: nat :| Reach(arcs, a, c, i) && Reach(arcs, p, y, j);
          assert Reach(arcs, a, c, i) && Reach(arcs, p, b, 0);
        }
      } else if Reach(arcs, a, y, n - 1) {
        ReachExtend(arcs, a, y, b, n - 1);
      } else {
        var i: nat, j: nat :| Reach(arcs, a, c, i) && Reach(arcs, p, y, j);
        ReachExtend(arcs, p, y, b, j);
        assert Reach(arcs, a, c, i) && Reach(arcs, p, b, j + 1);
      }
    }
  }

  lemma NewCycleUsesNewArc(arcs: Arcs, parent: RoleId, child: RoleId, x: RoleId, n: nat)
    requires n >= 1 && Reach(arcs + {(child, parent)}, x, x, n)
    ensures Above(arcs, x, x) || Connected(arcs, parent, child)
  {
    WalkThroughNewArc(arcs, child, parent, x, x, n);
    if i: nat, j: nat :| Reach(arcs, x, child, i) && Reach(arcs, parent, x, j) {
      ReachTrans(arcs, parent, x, child, j, i);
    }
  }

  /** On an acyclic graph the cycle check is exact: it fires exactly when the edge would
      close a cycle. */
  lemma CycleCheckExact(arcs: Arcs, parent: RoleId, child: RoleId)
    requires Acyclic(arcs)
    ensures Acyclic(arcs + {(child, parent)}) <==> !Connected(arcs, parent, child)
  {
    var more := arcs + {(child, parent)};
    if n :| Reach(arcs, parent, child, n) {
      ReachMono(arcs, more, parent, child, n);
      ReachExtend(more, parent, child, parent, n);
      assert Above(more, parent, parent);
    } else {
      forall x ensures !Above(more, x, x) {
        if n: nat :| n >= 1 && Reach(more, x, x, n) {
          NewCycleUsesNewArc(arcs, parent, child, x, n);
        }
      }
    }
  }

  /** Every sequence of requests leaves the graph acyclic. */
  lemma {:induction false} RunsStayAcyclic(log: seq<Edit>)
    ensures Acyclic(Up(Run(log)))
    decreases log
  {
    if log == [] {
      forall a ensures !Above(Up([]), a, a) {
        if n: nat :| n >= 1 && Reach(Up([]), a, a, n) {
          var b := ReachLast(Up([]), a, a, n);
        }
      }
    } else {
      var before, edit := Run(log[..|log| - 1]), log[|log| - 1];
      RunsStayAcyclic(log[..|log| - 1]);
      match edit
      case Add(parent, child) =>
        UpPush(before, Edge(child, parent));
        CycleCheckExact(Up(before), parent, child);
      case Remove(parent, child) =>
        UpShrinks(before, Edge(child, parent));
        AcyclicShrinks(Up(Run(log)), Up(before));
    }
  }

  /** In every reachable graph no role is its own ancestor. */
  lemma AncestorsExcludeSelf(log: seq<Edit>, role: RoleId)
    ensures !Above(Up(Run(log)), role, role)
  {
    RunsStayAcyclic(log);
  }

  /** An admitted edge keeps every role within the limit of everything above it. */
  lemma AdmittedKeepsDistances(arcs: Arcs, parent: RoleId, child: RoleId)
    requires DistancesWithin(arcs, 10) && WithinDepth(arcs, parent, child)
    ensures DistancesWithin(arcs + {(child, parent)}, 10)
  {
    var more := arcs + {(child, parent)};
    forall a, b | Connected(more, a, b) ensures exists m: nat :: m <= 10 && Reach(more, a, b, m) {
      var n :| Reach(more, a, b, n);
      WalkThroughNewArc(arcs, child, parent, a, b, n);
      if Reach(arcs, a, b, n) {
        assert Connected(arcs, a, b);
        var m: nat :| m <= 10 && Reach(arcs, a, b, m);
        ReachMono(arcs, more, a, b, m);
      } else {
        var i: nat, j: nat :| Reach(arcs, a, child, i) && Reach(arcs, parent, b, j);
        var i' := DistanceExists(arcs, a, child, i);
        var j' := DistanceExists(arcs, parent, b, j);
        ReachMono(arcs, more, a, child, i');
        ReachMono(arcs, more, parent, b, j');
        ReachExtend(more, a, child, parent, i');
        ReachTrans(more, a, parent, b, i' + 1, j');
        assert Reach(more, a, b, i' + 1 + j') && i' + 1 + j' <= 10;
      }
    }
  }

  /** Every sequence of additions keeps shortest distances within ten edges. */
  lemma {:induction false} AdditionsKeepDistances(log: seq<Edit>)
    requires forall e :: e in log ==> e.Add?
    ensures DistancesWithin(Up(Run(log)), 10)
    decreases log
  {
    if log == [] {
      forall a, b | Connected(Up([]), a, b) ensures exists m: nat :: m <= 10 && Reach(Up([]), a, b, m) {
        var n :| Reach(Up([]), a, b, n);
        if n >= 1 {
          var y := ReachLast(Up([]), a, b, n);
        }
        assert Reach(Up([]), a, b, 0);
      }
    } else {
      var before, edit := Run(log[..|log| - 1]), log[|log| - 1];
      assert edit in log;
      AdditionsKeepDistances(log[..|log| - 1]);
      UpPush(before, Edge(edit.child, edit.parent));
      if Admitted(before, edit.parent, edit.child) {
        AdmittedKeepsDistances(Up(before), edit.parent, edit.child);
      }
    }
  }
}
