/**
 * The role inheritance graph (table veloce_roles_hierarchy) and its
 * repository: the closure traversal getAllRoleIdsWithHierarchy, the direct
 * child lookup, the cycle pre-check and the duplicate-edge lookup.
 */
module RoleHierarchy {
  import opened Wrappers
  import opened Rows

  /** One row: the parent role inherits every permission the child role holds. */
  datatype HierarchyEdge = HierarchyEdge(parentRoleId: int, childRoleId: int)

  /** getChildRoleIds(): the child ids of the rows whose parent is `parentRoleId`, in row order. */
  function ChildRoleIds(edges: seq<HierarchyEdge>, parentRoleId: int): (children: seq<int>)
    ensures forall c :: c in children <==> HierarchyEdge(parentRoleId, c) in edges
    ensures |children| <= |edges|
  {
    if |edges| == 0 then []
    else
      var rest := ChildRoleIds(edges[1..], parentRoleId);
      assert forall e :: e in edges <==> e == edges[0] || e in edges[1..];
      if edges[0].parentRoleId == parentRoleId then [edges[0].childRoleId] + rest else rest
  }

  /** Every id that occurs as a child in the table. */
  function ChildIds(edges: seq<HierarchyEdge>): set<int> {
    set e | e in edges :: e.childRoleId
  }

  // ---------------------------------------------------------------------------
  // Reachability: the specification of the closure

  /** `p` follows parent-to-child edges of the table, one hop at a time. */
  ghost predicate IsPath(edges: seq<HierarchyEdge>, p: seq<int>) {
    |p| >= 1 && forall i :: 0 <= i < |p| - 1 ==> HierarchyEdge(p[i], p[i + 1]) in edges
  }

  /** `to` is reachable from `from` by zero or more parent-to-child hops. */
  ghost predicate Reaches(edges: seq<HierarchyEdge>, from: int, to: int) {
    exists p :: IsPath(edges, p) && p[0] == from && p[|p| - 1] == to
  }

  /** `x` is a start id or reachable from one: the closure the resolver must compute. */
  ghost predicate InClosure(edges: seq<HierarchyEdge>, start: seq<int>, x: int) {
    exists s :: s in start && Reaches(edges, s, x)
  }

  /** The ids in `ids` include the children of every parent in `ids`. */
  ghost predicate ClosedUnder(edges: seq<HierarchyEdge>, ids: seq<int>) {
    forall e :: e in edges && e.parentRoleId in ids ==> e.childRoleId in ids
  }

  lemma ReachesSelf(edges: seq<HierarchyEdge>, x: int)
    ensures Reaches(edges, x, x)
  {
    assert IsPath(edges, [x]);
  }

  /** One more hop extends a reachability fact. */
  lemma ReachesStep(edges: seq<HierarchyEdge>, a: int, b: int, c: int)
    requires Reaches(edges, a, b) && HierarchyEdge(b, c) in edges
    ensures Reaches(edges, a, c)
  {
    var p :| IsPath(edges, p) && p[0] == a && p[|p| - 1] == b;
    var q := p + [c];
    assert IsPath(edges, q);
  }

  /** Reachability is transitive. */
  lemma ReachesTrans(edges: seq<HierarchyEdge>, a: int, b: int, c: int)
    requires Reaches(edges, a, b) && Reaches(edges, b, c)
    ensures Reaches(edges, a, c)
  {
    var p :| IsPath(edges, p) && p[0] == a && p[|p| - 1] == b;
    var q :| IsPath(edges, q) && q[0] == b && q[|q| - 1] == c;
    var r := p + q[1..];
    forall i | 0 <= i < |r| - 1
      ensures HierarchyEdge(r[i], r[i + 1]) in edges
    {
      if i < |p| - 1 {
        assert r[i] == p[i] && r[i + 1] == p[i + 1];
      } else {
        var j := i - (|p| - 1);
        assert r[i] == q[j] && r[i + 1] == q[j + 1];
      }
    }
    assert IsPath(edges, r);
  }

  /** The closure is stable under one hop. */
  lemma ClosureStep(edges: seq<HierarchyEdge>, start: seq<int>, a: int, b: int)
    requires InClosure(edges, start, a) && HierarchyEdge(a, b) in edges
    ensures InClosure(edges, start, b)
  {
    var s :| s in start && Reaches(edges, s, a);
    ReachesStep(edges, s, a, b);
  }

  /** A set of ids closed under the edges holds everything reachable from its members. */
  lemma {:induction false} ClosedHoldsReachable(edges: seq<HierarchyEdge>, ids: seq<int>, p: seq<int>)
    requires ClosedUnder(edges, ids)
    requires IsPath(edges, p) && p[0] in ids
    ensures p[|p| - 1] in ids
  {
    if |p| > 1 {
      var init := p[..|p| - 1];
      assert IsPath(edges, init);
      ClosedHoldsReachable(edges, ids, init);
      assert HierarchyEdge(p[|p| - 2], p[|p| - 1]) in edges;
    }
  }

  /** A closed superset of the start ids holds the whole closure. */
  lemma ClosedHoldsClosure(edges: seq<HierarchyEdge>, start: seq<int>, ids: seq<int>)
    requires ClosedUnder(edges, ids)
    requires forall s :: s in start ==> s in ids
    ensures forall x :: InClosure(edges, start, x) ==> x in ids
  {
    forall x | InClosure(edges, start, x)
      ensures x in ids
    {
      var s :| s in start && Reaches(edges, s, x);
      var p :| IsPath(edges, p) && p[0] == s && p[|p| - 1] == x;
      ClosedHoldsReachable(edges, ids, p);
    }
  }

  /** The children of a role in the closure are in the closure, and are child ids of the table. */
  lemma ChildrenInClosure(edges: seq<HierarchyEdge>, start: seq<int>, parent: int)
    requires InClosure(edges, start, parent)
    ensures forall c :: c in ChildRoleIds(edges, parent) ==> InClosure(edges, start, c) && c in ChildIds(edges)
  {
    forall c | c in ChildRoleIds(edges, parent)
      ensures InClosure(edges, start, c) && c in ChildIds(edges)
    {
      ClosureStep(edges, start, parent, c);
      assert HierarchyEdge(parent, c) in edges;
    }
  }

  // ---------------------------------------------------------------------------
  // The traversal

  /**
   * The inner foreach of getAllRoleIdsWithHierarchy(): every child not yet
   * collected is appended both to the collected ids and to the worklist.
   */
  method EnqueueChildren(childRoleIds: seq<int>, allRoleIds: seq<int>, toProcess: seq<int>)
    returns (allRoleIds': seq<int>, toProcess': seq<int>)
    ensures forall x :: x in allRoleIds' <==> x in allRoleIds || x in childRoleIds
    ensures forall x :: x in toProcess' <==> x in toProcess || (x in childRoleIds && x !in allRoleIds)
  {
    allRoleIds', toProcess' := allRoleIds, toProcess;
    var i := 0;
    while i < |childRoleIds|
      invariant 0 <= i <= |childRoleIds|
      invariant forall x :: x in allRoleIds' <==> x in allRoleIds || x in childRoleIds[..i]
      invariant forall x :: x in toProcess' <==> x in toProcess || (x in childRoleIds[..i] && x !in allRoleIds)
    {
      var childId := childRoleIds[i];
      assert childRoleIds[..i + 1] == childRoleIds[..i] + [childId];
      if childId !in allRoleIds' {
        allRoleIds' := allRoleIds' + [childId];
        toProcess' := toProcess' + [childId];
      }
      i := i + 1;
    }
    assert childRoleIds[..i] == childRoleIds;
  }

  /**
   * What getAllRoleIdsWithHierarchy() keeps true between iterations: the
   * collected ids are exactly those processed or waiting, every child of a
   * processed role has been collected, and every collected id is in the closure.
   */
  ghost predicate TraversalInvariant(edges: seq<HierarchyEdge>, roleIds: seq<int>,
                                     allRoleIds: seq<int>, toProcess: seq<int>, processed: seq<int>) {
    && (forall s :: s in roleIds ==> s in allRoleIds)
    && (forall x :: x in toProcess ==> x in allRoleIds)
    && (forall x :: x in allRoleIds ==> x in processed || x in toProcess)
    && (forall e :: e in edges && e.parentRoleId in processed ==> e.childRoleId in allRoleIds)
    && (forall x :: x in allRoleIds ==> x in roleIds || x in ChildIds(edges))
    && (forall x :: x in allRoleIds ==> InClosure(edges, roleIds, x))
  }

  /** One iteration that processes a new role keeps the traversal invariant. */
  lemma TraversalStep(edges: seq<HierarchyEdge>, roleIds: seq<int>, allRoleIds: seq<int>, toProcess: seq<int>,
                      processed: seq<int>, allRoleIds': seq<int>, toProcess': seq<int>)
    requires TraversalInvariant(edges, roleIds, allRoleIds, toProcess, processed)
    requires |toProcess| > 0
    requires forall x :: x in allRoleIds' <==> x in allRoleIds || x in ChildRoleIds(edges, toProcess[0])
    requires forall x :: x in toProcess' <==> x in toProcess[1..] || (x in ChildRoleIds(edges, toProcess[0]) && x !in allRoleIds)
    ensures TraversalInvariant(edges, roleIds, allRoleIds', toProcess', processed + [toProcess[0]])
  {
    var currentId := toProcess[0];
    var children := ChildRoleIds(edges, currentId);
    var processed' := processed + [currentId];
    assert toProcess == [currentId] + toProcess[1..];
    ChildrenInClosure(edges, roleIds, currentId);
    forall x | x in allRoleIds'
      ensures x in processed' || x in toProcess'
    {
      if x in allRoleIds && x !in processed && x != currentId {
        assert x in toProcess[1..];
      }
    }
    forall e | e in edges && e.parentRoleId in processed'
      ensures e.childRoleId in allRoleIds'
    {
      if e.parentRoleId == currentId {
        assert e == HierarchyEdge(currentId, e.childRoleId);
        assert e.childRoleId in children;
      }
    }
  }

  /** When the worklist is empty the collected ids are the whole closure. */
  lemma TraversalDone(edges: seq<HierarchyEdge>, roleIds: seq<int>, allRoleIds: seq<int>, processed: seq<int>)
    requires TraversalInvariant(edges, roleIds, allRoleIds, [], processed)
    ensures forall x :: x in allRoleIds <==> InClosure(edges, roleIds, x)
  {
    assert ClosedUnder(edges, allRoleIds);
    ClosedHoldsClosure(edges, roleIds, allRoleIds);
  }

  /**
   * getAllRoleIdsWithHierarchy(): a worklist traversal that never processes a
   * role twice, so it ends on any graph, cyclic or not. The result holds each
   * id once and is exactly the closure of the start ids.
   */
  method AllRoleIdsWithHierarchy(edges: seq<HierarchyEdge>, roleIds: seq<int>) returns (result: seq<int>)
    ensures |roleIds| == 0 ==> result == []
    ensures NoDuplicates(result)
    ensures forall s :: s in roleIds ==> s in result
    ensures forall x :: x in result <==> InClosure(edges, roleIds, x)
  {
    if |roleIds| == 0 {
      return [];
    }
    ghost var universe := (set s | s in roleIds) + ChildIds(edges);
    var allRoleIds := roleIds;
    var toProcess := roleIds;
    var processed: seq<int> := [];
    ghost var processedSet: set<int> := {};
    forall s | s in roleIds
      ensures InClosure(edges, roleIds, s)
    {
      ReachesSelf(edges, s);
    }
    while |toProcess| > 0
      invariant TraversalInvariant(edges, roleIds, allRoleIds, toProcess, processed)
      invariant forall x :: x in processed <==> x in processedSet
      decreases universe - processedSet, |toProcess|
    {
      var currentId := toProcess[0];
      if currentId in processed {
        toProcess := toProcess[1..];
        continue;
      }
      assert currentId in universe;
      var childRoleIds := ChildRoleIds(edges, currentId);
      var allRoleIds', toProcess' := EnqueueChildren(childRoleIds, allRoleIds, toProcess[1..]);
      TraversalStep(edges, roleIds, allRoleIds, toProcess, processed, allRoleIds', toProcess');
      allRoleIds, toProcess, processed := allRoleIds', toProcess', processed + [currentId];
      processedSet := processedSet + {currentId};
    }
    TraversalDone(edges, roleIds, allRoleIds, processed);
    result := Unique(allRoleIds);
  }

  /**
   * wouldCreateCycle(): adding parent -> child closes a loop exactly when the
   * parent is already reachable from the child (a role is reachable from itself).
   */
  method WouldCreateCycle(edges: seq<HierarchyEdge>, parentRoleId: int, childRoleId: int) returns (cycle: bool)
    ensures parentRoleId == childRoleId ==> cycle
    ensures cycle <==> Reaches(edges, childRoleId, parentRoleId)
  {
    if parentRoleId == childRoleId {
      ReachesSelf(edges, childRoleId);
      return true;
    }
    var descendantsOfChild := AllRoleIdsWithHierarchy(edges, [childRoleId]);
    cycle := parentRoleId in descendantsOfChild;
    assert InClosure(edges, [childRoleId], parentRoleId) <==> Reaches(edges, childRoleId, parentRoleId) by {
      if Reaches(edges, childRoleId, parentRoleId) {
        assert childRoleId in [childRoleId];
      }
    }
  }

  /** hierarchyExists(): findOneBy on (parent, child) found a row. */
  function HierarchyExists(edges: seq<HierarchyEdge>, parentRoleId: int, childRoleId: int): (exists_: bool)
    ensures exists_ <==> HierarchyEdge(parentRoleId, childRoleId) in edges
  {
    IndexOf(edges, HierarchyEdge(parentRoleId, childRoleId)).Some?
  }

  // ---------------------------------------------------------------------------
  // Acyclicity and the cycle pre-check

  /** No edge leads back: the child of an edge never reaches its parent. */
  ghost predicate Acyclic(edges: seq<HierarchyEdge>) {
    forall e :: e in edges ==> !Reaches(edges, e.childRoleId, e.parentRoleId)
  }

  /** In an acyclic table no role is reachable from itself by one or more hops (no self-loops either). */
  lemma AcyclicHasNoCycle(edges: seq<HierarchyEdge>, p: seq<int>)
    requires Acyclic(edges)
    requires IsPath(edges, p) && |p| >= 2
    ensures p[0] != p[|p| - 1]
  {
    if p[0] == p[|p| - 1] {
      var e := HierarchyEdge(p[0], p[1]);
      assert e in edges;
      assert IsPath(edges, p[1..]);
      assert p[1..][0] == p[1] && p[1..][|p[1..]| - 1] == p[0];
      assert Reaches(edges, p[1], p[0]);
      assert false;
    }
  }

  /**
   * With one more edge parent -> child, a path either avoids the new edge or
   * goes through it: then it reaches the parent first and continues from the child.
   */
  lemma {:induction false} ReachesWithEdge(edges: seq<HierarchyEdge>, parent: int, child: int, p: seq<int>)
    requires IsPath(edges + [HierarchyEdge(parent, child)], p)
    ensures Reaches(edges, p[0], p[|p| - 1])
         || (Reaches(edges, p[0], parent) && Reaches(edges, child, p[|p| - 1]))
  {
    var edges' := edges + [HierarchyEdge(parent, child)];
    var a, b := p[0], p[|p| - 1];
    if |p| == 1 {
      ReachesSelf(edges, a);
    } else {
      var init := p[..|p| - 1];
      assert IsPath(edges', init);
      ReachesWithEdge(edges, parent, child, init);
      var u := p[|p| - 2];
      assert init[|init| - 1] == u;
      assert HierarchyEdge(u, b) in edges';
      if HierarchyEdge(u, b) in edges {
        if Reaches(edges, a, u) {
          ReachesStep(edges, a, u, b);
        } else {
          ReachesStep(edges, child, u, b);
        }
      } else {
        assert u == parent && b == child;
        ReachesSelf(edges, child);
      }
    }
  }

  /**
   * The cycle pre-check is sound: adding an edge that WouldCreateCycle lets
   * through keeps an acyclic table acyclic.
   */
  lemma AddEdgeKeepsAcyclic(edges: seq<HierarchyEdge>, parent: int, child: int)
    requires Acyclic(edges)
    requires !Reaches(edges, child, parent)
    ensures Acyclic(edges + [HierarchyEdge(parent, child)])
  {
    var edges' := edges + [HierarchyEdge(parent, child)];
    forall e | e in edges'
      ensures !Reaches(edges', e.childRoleId, e.parentRoleId)
    {
      if Reaches(edges', e.childRoleId, e.parentRoleId) {
        var p :| IsPath(edges', p) && p[0] == e.childRoleId && p[|p| - 1] == e.parentRoleId;
        ReachesWithEdge(edges, parent, child, p);
        if e in edges {
          if !Reaches(edges, e.childRoleId, e.parentRoleId) {
            // child ->* e.parent -> e.child ->* parent
            ReachesStep(edges, child, e.parentRoleId, e.childRoleId);
            ReachesTrans(edges, child, e.childRoleId, parent);
          }
        }
      }
    }
  }

  /** The converse: an edge the pre-check rejects would close a loop. */
  lemma RejectedEdgeClosesLoop(edges: seq<HierarchyEdge>, parent: int, child: int)
    requires Reaches(edges, child, parent)
    ensures !Acyclic(edges + [HierarchyEdge(parent, child)])
  {
    var edges' := edges + [HierarchyEdge(parent, child)];
    var p :| IsPath(edges, p) && p[0] == child && p[|p| - 1] == parent;
    assert IsPath(edges', p);
    assert HierarchyEdge(parent, child) in edges';
  }
}
