/**
 * Weak connectivity of a directed graph given by its node set and its set of
 * (source, target) pairs: two nodes are weakly connected when a walk that may use
 * edges in either direction leads from one to the other. `Component` computes the
 * weakly connected component of one node by breadth-first search; it stands for
 * the graph library's component enumeration used by the intervention.
 */
module Components {
  import opened Seqs

  /** `a` and `b` are joined by an edge, in one direction or the other. */
  predicate Adjacent(E: set<(string, string)>, a: string, b: string) {
    (a, b) in E || (b, a) in E
  }

  /** `p` is a non-empty walk that ignores edge direction. */
  ghost predicate IsWalk(E: set<(string, string)>, p: seq<string>) {
    |p| > 0 && forall i :: 0 <= i < |p| - 1 ==> Adjacent(E, p[i], p[i + 1])
  }

  ghost predicate Connected(E: set<(string, string)>, a: string, b: string) {
    exists p :: IsWalk(E, p) && p[0] == a && p[|p| - 1] == b
  }

  /** Every neighbour of a member of `S` is a member of `S`. */
  ghost predicate Closed(E: set<(string, string)>, S: set<string>) {
    forall x, y :: x in S && Adjacent(E, x, y) ==> y in S
  }

  lemma ConnectedRefl(E: set<(string, string)>, a: string)
    ensures Connected(E, a, a)
  {
    assert IsWalk(E, [a]);
  }

  lemma ConnectedStep(E: set<(string, string)>, a: string, b: string, c: string, p: seq<string>)
    requires IsWalk(E, p) && p[0] == a && p[|p| - 1] == b
    requires Adjacent(E, b, c)
    ensures IsWalk(E, p + [c]) && (p + [c])[0] == a && (p + [c])[|p|] == c
    ensures Connected(E, a, c)
  {
    var q := p + [c];
    forall i | 0 <= i < |q| - 1
      ensures Adjacent(E, q[i], q[i + 1])
    {
      if i < |p| - 1 {
        assert q[i] == p[i] && q[i + 1] == p[i + 1];
      }
    }
    assert q[|q| - 1] == c;
  }

  lemma ConnectedSym(E: set<(string, string)>, a: string, b: string)
    requires Connected(E, a, b)
    ensures Connected(E, b, a)
  {
    var p :| IsWalk(E, p) && p[0] == a && p[|p| - 1] == b;
    var q := Reverse(p);
    forall i | 0 <= i < |q| - 1
      ensures Adjacent(E, q[i], q[i + 1])
    {
      var j := |p| - 2 - i;
      assert Adjacent(E, p[j], p[j + 1]);
    }
    assert IsWalk(E, q);
  }

  lemma ConnectedTrans(E: set<(string, string)>, a: string, b: string, c: string)
    requires Connected(E, a, b) && Connected(E, b, c)
    ensures Connected(E, a, c)
  {
    var p :| IsWalk(E, p) && p[0] == a && p[|p| - 1] == b;
    var q :| IsWalk(E, q) && q[0] == b && q[|q| - 1] == c;
    var w := p + q[1..];
    forall i | 0 <= i < |w| - 1
      ensures Adjacent(E, w[i], w[i + 1])
    {
      if i < |p| - 1 {
        assert w[i] == p[i] && w[i + 1] == p[i + 1];
      } else {
        var j := i - |p| + 1;
        assert w[i] == q[j] && w[i + 1] == q[j + 1];
      }
    }
    assert IsWalk(E, w);
    assert w[|w| - 1] == c;
  }

  /** A walk that starts inside a closed set never leaves it. */
  lemma {:induction false} WalkStaysInClosed(E: set<(string, string)>, S: set<string>, p: seq<string>, k: nat)
    requires IsWalk(E, p) && p[0] in S && Closed(E, S)
    requires k < |p|
    ensures p[k] in S
  {
    if k > 0 {
      WalkStaysInClosed(E, S, p, k - 1);
      assert Adjacent(E, p[k - 1], p[k]);
    }
  }

  lemma ClosedContainsConnected(E: set<(string, string)>, S: set<string>, a: string, b: string)
    requires a in S && Closed(E, S) && Connected(E, a, b)
    ensures b in S
  {
    var p :| IsWalk(E, p) && p[0] == a && p[|p| - 1] == b;
    WalkStaysInClosed(E, S, p, |p| - 1);
  }

  /** Every member of `comp` has a recorded walk from `start` that ends at it. */
  ghost predicate Reaches(E: set<(string, string)>, start: string, walk: map<string, seq<string>>, comp: set<string>) {
    comp <= walk.Keys &&
    forall x :: x in comp ==> IsWalk(E, walk[x]) && walk[x][0] == start && walk[x][|walk[x]| - 1] == x
  }

  lemma ExtendReaches(E: set<(string, string)>, start: string, walk: map<string, seq<string>>, comp: set<string>,
                      x: string, found: set<string>)
    requires Reaches(E, start, walk, comp) && x in comp
    requires forall y :: y in found ==> Adjacent(E, x, y) && y !in comp
    ensures Reaches(E, start, walk + map y | y in found :: walk[x] + [y], comp + found)
  {
    var walk' := walk + map y | y in found :: walk[x] + [y];
    forall y | y in comp + found
      ensures IsWalk(E, walk'[y]) && walk'[y][0] == start && walk'[y][|walk'[y]| - 1] == y
    {
      if y in found {
        ConnectedStep(E, start, x, y, walk[x]);
      }
    }
  }

  lemma ProperSubsetSmaller(A: set<string>, B: set<string>)
    requires A < B
    ensures |A| < |B|
  {
    assert B - A != {};
    var z :| z in B - A;
    assert A <= B - {z};
    SubsetNotLarger(A, B - {z});
  }

  lemma {:induction false} SubsetNotLarger(A: set<string>, B: set<string>)
    requires A <= B
    ensures |A| <= |B|
    decreases B
  {
    if A != {} {
      var z :| z in A;
      SubsetNotLarger(A - {z}, B - {z});
    }
  }

  /** The members of `V` weakly connected to `start`: its weakly connected component. */
  method Component(V: set<string>, E: set<(string, string)>, start: string) returns (comp: set<string>)
    requires start in V
    requires forall e :: e in E ==> e.0 in V && e.1 in V
    ensures comp == set m | m in V && Connected(E, start, m)
  {
    comp := {start};
    var work := {start};
    ghost var walk: map<string, seq<string>> := map[start := [start]];
    assert IsWalk(E, [start]);
    while work != {}
      invariant work <= comp <= V && start in comp
      invariant Reaches(E, start, walk, comp)
      invariant forall x, y :: x in comp - work && Adjacent(E, x, y) ==> y in comp
      decreases |V - comp|, |work|
    {
      var x :| x in work;
      var found := set y | y in V && Adjacent(E, x, y) && y !in comp;
      ExtendReaches(E, start, walk, comp, x, found);
      FrontierStep(V, E, comp, work, x, found);
      walk := walk + map y | y in found :: walk[x] + [y];
      if found != {} {
        ProperSubsetSmaller(V - (comp + found), V - comp);
      } else {
        ProperSubsetSmaller(work - {x}, work);
      }
      comp := comp + found;
      work := (work - {x}) + found;
    }
    ComponentExact(V, E, start, walk, comp);
  }

  /** Expanding `x` keeps every node outside the frontier fully explored. */
  lemma FrontierStep(V: set<string>, E: set<(string, string)>, comp: set<string>, work: set<string>, x: string, found: set<string>)
    requires forall e :: e in E ==> e.0 in V && e.1 in V
    requires x in work && work <= comp
    requires forall u, v :: u in comp - work && Adjacent(E, u, v) ==> v in comp
    requires found == set y | y in V && Adjacent(E, x, y) && y !in comp
    ensures forall u, v :: u in (comp + found) - ((work - {x}) + found) && Adjacent(E, u, v) ==> v in comp + found
  {
    forall u, v | u in (comp + found) - ((work - {x}) + found) && Adjacent(E, u, v)
      ensures v in comp + found
    {
      if u == x {
        assert v in V;
      } else {
        assert u in comp - work;
      }
    }
  }

  /** A closed set whose members all have recorded walks from `start` is the
      component of `start`. */
  lemma ComponentExact(V: set<string>, E: set<(string, string)>, start: string, walk: map<string, seq<string>>, comp: set<string>)
    requires start in comp && comp <= V
    requires Reaches(E, start, walk, comp) && Closed(E, comp)
    ensures comp == set m | m in V && Connected(E, start, m)
  {
    forall m | m in comp
      ensures Connected(E, start, m)
    {
      assert IsWalk(E, walk[m]);
    }
    forall m | m in V && Connected(E, start, m)
      ensures m in comp
    {
      ClosedContainsConnected(E, comp, start, m);
    }
  }

  /** `x` is connected to some member of `R`. */
  ghost predicate Meets(E: set<(string, string)>, R: set<string>, x: string) {
    exists r :: r in R && Connected(E, x, r)
  }

  /** Within the component `comp` of `start`, a node is connected to a member of
      `R` exactly when the component holds a member of `R`; and the component is
      closed under adjacency. */
  lemma ComponentVerdict(V: set<string>, E: set<(string, string)>, R: set<string>, start: string, comp: set<string>)
    requires forall e :: e in E ==> e.0 in V && e.1 in V
    requires R <= V
    requires comp == set x | x in V && Connected(E, start, x)
    ensures forall x :: x in comp ==> (Meets(E, R, x) <==> exists y :: y in comp && y in R)
    ensures Closed(E, comp)
  {
    forall x | x in comp
      ensures Meets(E, R, x) <==> exists y :: y in comp && y in R
    {
      if r :| r in R && Connected(E, x, r) {
        ConnectedTrans(E, start, x, r);
        assert r in comp;
      }
      if y :| y in comp && y in R {
        ConnectedSym(E, start, x);
        ConnectedTrans(E, x, start, y);
      }
    }
    forall x, y | x in comp && Adjacent(E, x, y)
      ensures y in comp
    {
      assert y in V;
      var p :| IsWalk(E, p) && p[0] == start && p[|p| - 1] == x;
      ConnectedStep(E, start, x, y, p);
    }
  }

  /** Adding a closed component whose members all meet `R`, or none of them,
      keeps the verdict on the nodes seen so far. */
  lemma MeetingStep(E: set<(string, string)>, R: set<string>, seen: set<string>, keep: set<string>, comp: set<string>, meets: bool)
    requires keep <= seen && Closed(E, seen) && Closed(E, comp)
    requires forall x :: x in seen ==> (x in keep <==> Meets(E, R, x))
    requires forall x :: x in comp ==> (Meets(E, R, x) <==> meets)
    ensures var keep' := if meets then keep + comp else keep;
      && keep' <= seen + comp && Closed(E, seen + comp)
      && forall x :: x in seen + comp ==> (x in keep' <==> Meets(E, R, x))
  {
    var keep' := if meets then keep + comp else keep;
    forall x | x in seen + comp
      ensures x in keep' <==> Meets(E, R, x)
    {
      if x !in comp {
        assert x in seen;
      }
      else if x in seen {
        assert x in keep <==> meets;
      }
    }
  }

  /** Adds the component of `start` to `seen`, and to `keep` when it holds a
      member of `R`. */
  method Visit(V: set<string>, E: set<(string, string)>, R: set<string>, seen: set<string>, keep: set<string>, start: string)
    returns (seen': set<string>, keep': set<string>)
    requires forall e :: e in E ==> e.0 in V && e.1 in V
    requires R <= V && start in V
    requires keep <= seen <= V && Closed(E, seen)
    requires forall x :: x in seen ==> (x in keep <==> Meets(E, R, x))
    ensures seen <= seen' <= V && start in seen' && keep' <= seen' && Closed(E, seen')
    ensures forall x :: x in seen' ==> (x in keep' <==> Meets(E, R, x))
  {
    var comp := Component(V, E, start);
    ComponentVerdict(V, E, R, start, comp);
    ConnectedRefl(E, start);
    assert start in comp;
    var meets := exists y :: y in comp && y in R;
    MeetingStep(E, R, seen, keep, comp, meets);
    keep' := if meets then keep + comp else keep;
    seen' := seen + comp;
  }

  /** The members of `ns` whose weakly connected component holds a member of `R`,
      found component by component in the order of `ns`. */
  method ComponentsMeeting(ns: seq<string>, E: set<(string, string)>, R: set<string>) returns (keep: set<string>)
    requires forall e :: e in E ==> e.0 in ns && e.1 in ns
    requires R <= set x | x in ns
    ensures keep == set x | x in ns && Meets(E, R, x)
  {
    var V := set x | x in ns;
    keep := {};
    var seen: set<string> := {};
    var i := 0;
    while i < |ns|
      invariant 0 <= i <= |ns|
      invariant keep <= seen <= V
      invariant Closed(E, seen)
      invariant forall j :: 0 <= j < i ==> ns[j] in seen
      invariant forall x :: x in seen ==> (x in keep <==> Meets(E, R, x))
    {
      if ns[i] !in seen {
        seen, keep := Visit(V, E, R, seen, keep, ns[i]);
      }
      i := i + 1;
    }
    assert seen == V;
  }
}
