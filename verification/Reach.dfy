/** Reachability in the reference graph. */
module Reach {
  import opened RefGraph

  /** All child edges lead to nodes. */
  ghost predicate ChildrenKnown(nodes: seq<RefNode>) {
    forall i, c | 0 <= i < |nodes| && c in nodes[i].children :: c == INVALID || Known(nodes, c)
  }

  predicate Edge(nodes: seq<RefNode>, a: NodeId, b: NodeId) {
    Known(nodes, a) && b != INVALID && b in nodes[a - 1].children
  }

  ghost predicate Path(nodes: seq<RefNode>, p: seq<NodeId>) {
    p != [] && Known(nodes, p[0]) && forall i | 0 <= i < |p| - 1 :: Edge(nodes, p[i], p[i + 1])
  }

  /** Some path, of any length, leads from a to b. */
  ghost predicate Reaches(nodes: seq<RefNode>, a: NodeId, b: NodeId) {
    exists p :: Path(nodes, p) && p[0] == a && p[|p| - 1] == b
  }

  ghost predicate Live(nodes: seq<RefNode>, roots: set<NodeId>, id: NodeId) {
    exists r :: r in roots && Reaches(nodes, r, id)
  }

  ghost predicate Closed(nodes: seq<RefNode>, s: set<NodeId>) {
    forall a, b | a in s && Edge(nodes, a, b) :: b in s
  }

  lemma ReachesSelf(nodes: seq<RefNode>, a: NodeId)
    requires Known(nodes, a)
    ensures Reaches(nodes, a, a)
  {
    assert Path(nodes, [a]);
  }

  lemma ReachesOn(nodes: seq<RefNode>, a: NodeId, b: NodeId, c: NodeId)
    requires Edge(nodes, a, b) && Reaches(nodes, b, c)
    ensures Reaches(nodes, a, c)
  {
    var p :| Path(nodes, p) && p[0] == b && p[|p| - 1] == c;
    var q := [a] + p;
    forall i | 0 <= i < |q| - 1
      ensures Edge(nodes, q[i], q[i + 1])
    {
      if i > 0 {
        assert q[i] == p[i - 1] && q[i + 1] == p[i];
      }
    }
    assert Path(nodes, q);
  }

  /** A path that starts in a closed set stays in it. */
  lemma {:induction false} PathStays(nodes: seq<RefNode>, s: set<NodeId>, p: seq<NodeId>)
    requires Closed(nodes, s) && Path(nodes, p) && p[0] in s
    ensures p[|p| - 1] in s
    decreases |p|
  {
    if |p| > 1 {
      var n := |p| - 2;
      var q := p[..n + 1];
      forall i | 0 <= i < |q| - 1
        ensures Edge(nodes, q[i], q[i + 1])
      {
        assert Edge(nodes, p[i], p[i + 1]);
      }
      PathStays(nodes, s, q);
      assert Edge(nodes, p[n], p[n + 1]);
    }
  }

  /** A closed set that holds the roots and only live nodes is the set of live nodes. */
  lemma ClosedIsLive(nodes: seq<RefNode>, roots: set<NodeId>, s: set<NodeId>)
    requires Closed(nodes, s) && (forall r | r in roots && Known(nodes, r) :: r in s)
    requires forall x | x in s :: Live(nodes, roots, x)
    ensures forall x :: x in s <==> Live(nodes, roots, x)
  {
    forall x | Live(nodes, roots, x)
      ensures x in s
    {
      var r :| r in roots && Reaches(nodes, r, x);
      var p :| Path(nodes, p) && p[0] == r && p[|p| - 1] == x;
      PathStays(nodes, s, p);
    }
  }
}
