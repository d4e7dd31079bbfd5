/** The supergroup closure that the recursive common table expressions of
    the grant resolution compute: starting from the direct supergroups of a
    group, repeatedly add the supergroups of everything found so far; `UNION`
    drops what is already present, so the iteration stops on cycles. Used
    alike for user groups (`usergroup_usergroup`) and server groups
    (`servergroup_servergroup`). */
module Closure {

  /** A row of a group-nesting table: (subgroup id, supergroup id). */
  type Edge = (int, int)

  /** The direct supergroups of the groups in `s`. */
  function Parents(edges: set<Edge>, s: set<int>): set<int>
  {
    set e | e in edges && e.0 in s :: e.1
  }

  /** Every group that is a supergroup of something. */
  function Targets(edges: set<Edge>): set<int>
  {
    set e | e in edges :: e.1
  }

  lemma ParentsInTargets(edges: set<Edge>, s: set<int>)
    ensures Parents(edges, s) <= Targets(edges)
  {
  }

  lemma ParentsMonotone(edges: set<Edge>, s: set<int>, t: set<int>)
    requires s <= t
    ensures Parents(edges, s) <= Parents(edges, t)
  {
  }

  lemma ParentsUnion(edges: set<Edge>, s: set<int>, t: set<int>)
    ensures Parents(edges, s + t) == Parents(edges, s) + Parents(edges, t)
  {
  }

  lemma ProperSubsetCard(a: set<int>, b: set<int>)
    requires a < b
    ensures |a| < |b|
  {
    var d := b - a;
    assert b == a + d;
    assert a * d == {};
    assert d != {};
    assert |b| == |a| + |d|;
  }

  /** The least superset of `s` that is closed under taking supergroups. */
  function Saturate(edges: set<Edge>, s: set<int>): (r: set<int>)
    requires s <= Targets(edges)
    ensures s <= r <= Targets(edges)
    ensures Parents(edges, r) <= r
    ensures forall t :: s <= t && Parents(edges, t) <= t ==> r <= t
    decreases |Targets(edges) - s|
  {
    var next := s + Parents(edges, s);
    ParentsInTargets(edges, s);
    if next == s then s
    else
      ProperSubsetCard(Targets(edges) - next, Targets(edges) - s);
      var r := Saturate(edges, next);
      assert forall t :: s <= t && Parents(edges, t) <= t ==> next <= t by {
        forall t | s <= t && Parents(edges, t) <= t
          ensures next <= t
        {
          ParentsMonotone(edges, s, t);
        }
      }
      r
  }

  /** The transitive supergroups of `g`: what `WITH RECURSIVE subgroups`
      yields for `g`. It contains `g` itself only when `g` lies on a cycle. */
  function Ancestors(edges: set<Edge>, g: int): (r: set<int>)
    ensures Parents(edges, {g}) <= r <= Targets(edges)
    ensures Parents(edges, r) <= r
  {
    ParentsInTargets(edges, {g});
    Saturate(edges, Parents(edges, {g}))
  }

  /** `b` is reached from `a` by following exactly `n` nesting edges upward. */
  ghost predicate ReachIn(edges: set<Edge>, a: int, b: int, n: nat)
    decreases n
  {
    if n == 0 then false
    else if n == 1 then (a, b) in edges
    else exists c :: (a, c) in edges && ReachIn(edges, c, b, n - 1)
  }

  ghost predicate Reaches(edges: set<Edge>, a: int, b: int)
  {
    exists n: nat :: ReachIn(edges, a, b, n)
  }

  /** A set closed under supergroups keeps everything reachable from it. */
  lemma {:induction false} ClosedKeepsReach(edges: set<Edge>, s: set<int>, a: int, b: int, n: nat)
    requires Parents(edges, s) <= s
    requires a in s && ReachIn(edges, a, b, n)
    ensures b in s
    decreases n
  {
    if n == 1 {
      assert b in Parents(edges, s);
    } else {
      var c :| (a, c) in edges && ReachIn(edges, c, b, n - 1);
      assert c in Parents(edges, s);
      ClosedKeepsReach(edges, s, c, b, n - 1);
    }
  }

  lemma ReachTargets(edges: set<Edge>, a: int, b: int, n: nat)
    requires ReachIn(edges, a, b, n)
    ensures b in Targets(edges)
    decreases n
  {
    if n > 1 {
      var c :| (a, c) in edges && ReachIn(edges, c, b, n - 1);
      ReachTargets(edges, c, b, n - 1);
    }
  }

  /** The closure is exactly the set of groups reachable upward from `g` by
      one or more nesting edges. */
  lemma AncestorsIff(edges: set<Edge>, g: int, h: int)
    ensures h in Ancestors(edges, g) <==> Reaches(edges, g, h)
  {
    var anc := Ancestors(edges, g);
    if Reaches(edges, g, h) {
      var n: nat :| ReachIn(edges, g, h, n);
      if n == 1 {
        assert h in Parents(edges, {g});
      } else {
        var c :| (g, c) in edges && ReachIn(edges, c, h, n - 1);
        assert c in Parents(edges, {g});
        ClosedKeepsReach(edges, anc, c, h, n - 1);
      }
    }
    if h in anc {
      var reach := set x | x in Targets(edges) && Reaches(edges, g, x);
      assert Parents(edges, {g}) <= reach by {
        forall x | x in Parents(edges, {g})
          ensures x in reach
        {
          assert ReachIn(edges, g, x, 1);
        }
      }
      assert Parents(edges, reach) <= reach by {
        forall y | y in Parents(edges, reach)
          ensures y in reach
        {
          var e :| e in edges && e.0 in reach && e.1 == y;
          var n: nat :| ReachIn(edges, g, e.0, n);
          ReachAppend(edges, g, e.0, y, n);
        }
      }
    }
  }

  /** One more edge at the end of a path. */
  lemma {:induction false} ReachAppend(edges: set<Edge>, a: int, b: int, c: int, n: nat)
    requires ReachIn(edges, a, b, n) && (b, c) in edges
    ensures ReachIn(edges, a, c, n + 1)
    decreases n
  {
    if n > 1 {
      var d :| (a, d) in edges && ReachIn(edges, d, b, n - 1);
      ReachAppend(edges, d, b, c, n - 1);
    }
  }

  /** The worklist evaluation of the recursive query: each round adds the
      supergroups of the groups found in the previous round that are not
      known yet, and stops when a round finds nothing new. */
  method AncestorsWorklist(edges: set<Edge>, g: int) returns (r: set<int>)
    ensures r == Ancestors(edges, g)
  {
    ghost var anc := Ancestors(edges, g);
    r := Parents(edges, {g});
    var frontier := r;
    while frontier != {}
      invariant Parents(edges, {g}) <= r <= anc
      invariant frontier <= r
      invariant Parents(edges, r - frontier) <= r
      decreases |Targets(edges) - r|, |frontier|
    {
      var next := Parents(edges, frontier) - r;
      Step(edges, anc, r, frontier);
      if next != {} {
        ProperSubsetCard(Targets(edges) - (r + next), Targets(edges) - r);
      }
      r, frontier := r + next, next;
    }
  }

  /** One round of the worklist keeps its invariant. */
  lemma Step(edges: set<Edge>, anc: set<int>, r: set<int>, frontier: set<int>)
    requires r <= anc && Parents(edges, anc) <= anc && anc <= Targets(edges)
    requires frontier <= r && Parents(edges, r - frontier) <= r
    ensures var next := Parents(edges, frontier) - r;
      && r + next <= anc
      && (r + next) - next == r
      && Parents(edges, r) <= r + next
      && next <= Targets(edges)
  {
    ParentsMonotone(edges, frontier, anc);
    ParentsUnion(edges, r - frontier, frontier);
    assert r - frontier + frontier == r;
  }

  /** Groups that nest in each other are each other's supergroups, and the
      evaluation stops. */
  lemma CycleExample()
    ensures Ancestors({(1, 2), (2, 1)}, 1) == {1, 2}
  {
    var edges: set<Edge> := {(1, 2), (2, 1)};
    var anc := Ancestors(edges, 1);
    assert Parents(edges, {1}) == {2};
    assert Targets(edges) == {1, 2};
    assert 2 in anc;
    assert 1 in Parents(edges, {2});
    assert 1 in anc;
  }
}
