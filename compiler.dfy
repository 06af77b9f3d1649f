/**
 * The compiler (mcx/core/compiler.py): lowers a model graph to a function
 * definition. Its nodes are placeholders (the function's parameters), constants
 * and operations, each with an opaque expression generator; an unnamed operation
 * is an intermediate expression that is inlined where it is used.
 *
 * The graph is a DAG whose nodes are numbered in insertion order, the order the
 * parameter groups follow; the numbering is assumed to be topological as well:
 * every edge goes from a lower to a higher number. A node's predecessors are
 * visited in the order of the edge list. The topological order
 * the graph library computes is a parameter, checked by `IsTopologicalOrder`.
 */
module Compiler {
  import opened Wrappers
  import opened Syntax
  import opened Seqs
  import Graph

  datatype NodeKind =
    | Placeholder(isRandomVariable: bool, hasDefault: bool)
    | Constant
    | Op

  /** A node: its name (none for an intermediate expression), its kind, its
      expression generator and whether the model returns it. */
  datatype Node = Node(name: Option<string>, kind: NodeKind, gen: Code, isReturned: bool)

  /** An edge from node `src` to node `dst`; the attribute says in which
      positional slots or under which keywords `dst` binds `src`. */
  datatype Edge = Edge(src: nat, dst: nat, attr: Graph.EdgeAttr)

  datatype Dag = Dag(nodes: seq<Node>, edges: seq<Edge>)

  ghost predicate WellFormed(g: Dag) {
    && (forall e :: e in g.edges ==> e.src < e.dst < |g.nodes|)
    && (forall k, l :: 0 <= k < l < |g.edges| ==> g.edges[k].src != g.edges[l].src || g.edges[k].dst != g.edges[l].dst)
  }

  /** `order` lists every node once, each edge's source before its target. */
  ghost predicate IsTopologicalOrder(g: Dag, order: seq<nat>) {
    && |order| == |g.nodes|
    && (forall a :: 0 <= a < |order| ==> order[a] < |g.nodes|)
    && (forall a, b :: 0 <= a < b < |order| ==> order[a] != order[b])
    && (forall a, b, k ::
          (0 <= a < |order| && 0 <= b < |order| && 0 <= k < |g.edges| &&
           g.edges[k].src == order[a] && g.edges[k].dst == order[b]) ==> a < b)
  }

  /** The edges of `es` into `n`, in their order: the predecessors of `n` as the
      graph library visits them. */
  function Into(es: seq<Edge>, n: nat): (r: seq<Edge>)
    ensures forall e :: e in r <==> e in es && e.dst == n
    ensures |r| <= |es|
  {
    if es == [] then [] else (if es[0].dst == n then [es[0]] else []) + Into(es[1..], n)
  }

  // ---------------------------------------------------------------------------
  // The parameter list

  predicate IsRngKey(n: Node) {
    n.kind.Placeholder? && n.name == Some("rng_key")
  }

  /** A positional argument of the model: not a random variable, not rng_key,
      without a default. */
  predicate IsRequired(n: Node) {
    n.kind.Placeholder? && !n.kind.isRandomVariable && n.name != Some("rng_key") && !n.kind.hasDefault
  }

  predicate IsRandomVariable(n: Node) {
    n.kind.Placeholder? && n.kind.isRandomVariable
  }

  /** A keyword argument of the model: not a random variable, not rng_key,
      with a default. */
  predicate IsDefaulted(n: Node) {
    n.kind.Placeholder? && !n.kind.isRandomVariable && n.name != Some("rng_key") && n.kind.hasDefault
  }

  predicate Increasing(s: seq<nat>) {
    forall i, j :: 0 <= i < j < |s| ==> s[i] < s[j]
  }

  /** The positions of the nodes satisfying `p`, in node order. */
  function Select(ns: seq<Node>, p: Node -> bool): (r: seq<nat>)
    ensures forall k :: 0 <= k < |r| ==> r[k] < |ns| && p(ns[r[k]])
    decreases |ns|
  {
    if ns == [] then []
    else Select(ns[..|ns| - 1], p) + (if p(ns[|ns| - 1]) then [|ns| - 1] else [])
  }

  /** `Select` lists exactly the positions satisfying `p`, in ascending order. */
  lemma {:induction false} SelectSpec(ns: seq<Node>, p: Node -> bool)
    ensures var r := Select(ns, p);
      && (forall i :: i in r <==> 0 <= i < |ns| && p(ns[i]))
      && Increasing(r)
    decreases |ns|
  {
    if ns != [] {
      var init := ns[..|ns| - 1];
      var last := |ns| - 1;
      SelectSpec(init, p);
      var r0 := Select(init, p);
      var r := Select(ns, p);
      assert r == r0 + (if p(ns[last]) then [last] else []);
      assert forall i :: 0 <= i < |init| ==> init[i] == ns[i];
      assert forall k :: 0 <= k < |r0| ==> r0[k] < last;
    }
  }

  /** The parameters in the order the generated function takes them: rng_key,
      the positional arguments, the random variables from last to first, the
      keyword arguments. */
  function ParamOrder(g: Dag): (r: seq<nat>)
    ensures forall k :: 0 <= k < |r| ==> r[k] < |g.nodes|
  {
    Select(g.nodes, IsRngKey) + Select(g.nodes, IsRequired) + Reverse(Select(g.nodes, IsRandomVariable))
      + Select(g.nodes, IsDefaulted)
  }

  lemma {:induction false} IncreasingCount(s: seq<nat>, x: nat)
    requires Increasing(s)
    ensures multiset(s)[x] == if x in s then 1 else 0
    decreases |s|
  {
    if s != [] {
      assert s == [s[0]] + s[1..];
      assert Increasing(s[1..]);
      IncreasingCount(s[1..], x);
      assert s[0] !in s[1..];
    }
  }

  /** Every placeholder is a parameter exactly once, except that an rng_key
      placeholder that is also a random variable is listed twice; no other node is
      a parameter. */
  lemma ParamOrderOnce(g: Dag)
    ensures forall i: nat :: multiset(ParamOrder(g))[i] ==
              (if i >= |g.nodes| || !g.nodes[i].kind.Placeholder? then 0
               else if IsRngKey(g.nodes[i]) && g.nodes[i].kind.isRandomVariable then 2
               else 1)
  {
    forall i: nat
      ensures multiset(ParamOrder(g))[i] ==
        if i >= |g.nodes| || !g.nodes[i].kind.Placeholder? then 0
        else if IsRngKey(g.nodes[i]) && g.nodes[i].kind.isRandomVariable then 2
        else 1
    {
      var rv := Select(g.nodes, IsRandomVariable);
      SelectSpec(g.nodes, IsRngKey);
      SelectSpec(g.nodes, IsRequired);
      SelectSpec(g.nodes, IsRandomVariable);
      SelectSpec(g.nodes, IsDefaulted);
      IncreasingCount(Select(g.nodes, IsRngKey), i);
      IncreasingCount(Select(g.nodes, IsRequired), i);
      IncreasingCount(rv, i);
      IncreasingCount(Select(g.nodes, IsDefaulted), i);
      ReverseMultiset(rv);
    }
  }

  lemma SelectSnoc(ns: seq<Node>, x: Node, p: Node -> bool)
    ensures Select(ns + [x], p) == Select(ns, p) + (if p(x) then [|ns|] else [])
  {
    assert (ns + [x])[..|ns|] == ns;
  }

  /** In `head + Reverse(s) + tail`, where `s` ascends, the larger of two
      members of `s` comes first. */
  lemma ReversedSegment(head: seq<nat>, s: seq<nat>, tail: seq<nat>, x: nat, y: nat)
    requires Increasing(s) && x < |s| && y < |s| && s[x] < s[y]
    ensures var po, a, b := head + Reverse(s) + tail, |head| + (|s| - 1 - y), |head| + (|s| - 1 - x);
      0 <= a < b < |po| && po[a] == s[y] && po[b] == s[x]
  {
    assert x < y;
  }

  /** Random variables are taken in the reverse of their order in the model:
      of two random variables, the later one comes first. */
  lemma RandomVariablesReversed(g: Dag, i: nat, j: nat)
    requires i < j < |g.nodes| && IsRandomVariable(g.nodes[i]) && IsRandomVariable(g.nodes[j])
    ensures exists a, b :: 0 <= a < b < |ParamOrder(g)| && ParamOrder(g)[a] == j && ParamOrder(g)[b] == i
  {
    var head := Select(g.nodes, IsRngKey) + Select(g.nodes, IsRequired);
    var rv := Select(g.nodes, IsRandomVariable);
    var tail := Select(g.nodes, IsDefaulted);
    assert ParamOrder(g) == head + Reverse(rv) + tail;
    SelectSpec(g.nodes, IsRandomVariable);
    var x :| 0 <= x < |rv| && rv[x] == i;
    var y :| 0 <= y < |rv| && rv[y] == j;
    ReversedSegment(head, rv, tail, x, y);
  }

  /** In `head + s + Reverse(t) + tail`, every member of `s` comes before every
      member of `t`. */
  lemma SegmentsOrdered(head: seq<nat>, s: seq<nat>, t: seq<nat>, tail: seq<nat>, x: nat, y: nat)
    requires x < |s| && y < |t|
    ensures var po, a, b := head + s + Reverse(t) + tail, |head| + x, |head| + |s| + (|t| - 1 - y);
      0 <= a < b < |po| && po[a] == s[x] && po[b] == t[y]
  {
  }

  /** The positional arguments come before the random variables, wherever
      either stands in the model. */
  lemma ArgumentsBeforeRandomVariables(g: Dag, i: nat, j: nat)
    requires i < |g.nodes| && j < |g.nodes| && IsRequired(g.nodes[i]) && IsRandomVariable(g.nodes[j])
    ensures exists a, b :: 0 <= a < b < |ParamOrder(g)| && ParamOrder(g)[a] == i && ParamOrder(g)[b] == j
  {
    var rk := Select(g.nodes, IsRngKey);
    var req := Select(g.nodes, IsRequired);
    var rv := Select(g.nodes, IsRandomVariable);
    var tail := Select(g.nodes, IsDefaulted);
    assert ParamOrder(g) == rk + req + Reverse(rv) + tail;
    SelectSpec(g.nodes, IsRequired);
    SelectSpec(g.nodes, IsRandomVariable);
    var x :| 0 <= x < |req| && req[x] == i;
    var y :| 0 <= y < |rv| && rv[y] == j;
    SegmentsOrdered(rk, req, rv, tail, x, y);
  }

  // ---------------------------------------------------------------------------
  // Placeholders

  /** compile_placeholder: the parameter, given as default the expression of each
      predecessor, in visit order. */
  function PlaceholderExpr(g: Dag, n: nat): (r: Expr)
    requires WellFormed(g) && n < |g.nodes|
    ensures r.Call? && r.gen == g.nodes[n].gen && |r.args| == |Into(g.edges, n)| && r.kwargs == map[]
  {
    Call(g.nodes[n].gen, Defaults(g, Into(g.edges, n)), map[])
  }

  /** Each predecessor's generator, called without operands. */
  function Defaults(g: Dag, es: seq<Edge>): (r: seq<Expr>)
    requires forall e :: e in es ==> e.src < |g.nodes|
    ensures |r| == |es|
    ensures forall k :: 0 <= k < |es| ==> r[k] == Call(g.nodes[es[k].src].gen, [], map[])
    decreases |es|
  {
    if es == [] then []
    else
      var init := es[..|es| - 1];
      assert forall e :: e in init ==> e in es;
      Defaults(g, init) + [Call(g.nodes[es[|es| - 1].src].gen, [], map[])]
  }

  /** A placeholder gets exactly one default operand per predecessor. */
  method CompilePlaceholder(g: Dag, n: nat) returns (r: Expr)
    requires WellFormed(g) && n < |g.nodes|
    ensures r == PlaceholderExpr(g, n)
  {
    var preds := Into(g.edges, n);
    var default := CompileDefaults(g, preds);
    return Call(g.nodes[n].gen, default, map[]);
  }

  /** The predecessor loop of compile_placeholder. */
  method CompileDefaults(g: Dag, es: seq<Edge>) returns (default: seq<Expr>)
    requires forall e :: e in es ==> e.src < |g.nodes|
    ensures default == Defaults(g, es)
  {
    default := [];
    var i := 0;
    while i < |es|
      invariant 0 <= i <= |es|
      invariant |default| == i && forall k :: 0 <= k < i ==> default[k] == Call(g.nodes[es[k].src].gen, [], map[])
    {
      assert es[i] in es;
      ghost var prev := default;
      default := default + [Call(g.nodes[es[i].src].gen, [], map[])];
      assert forall k :: 0 <= k < i ==> default[k] == prev[k];
      i := i + 1;
    }
    var want := Defaults(g, es);
    assert forall k :: 0 <= k < |es| ==> want[k] == default[k];
  }

  // ---------------------------------------------------------------------------
  // Operations: compile_op

  datatype CompileError = DuplicatePosition(node: nat, slot: nat)

  /** The ascending sequence of the members of `s`. */
  function SortedKeys(s: set<nat>): (r: seq<nat>)
    ensures forall x :: x in r <==> x in s
    decreases s
  {
    if s == {} then []
    else
      var m := Min(s);
      [m] + SortedKeys(s - {m})
  }

  function Min(s: set<nat>): (m: nat)
    requires s != {}
    ensures m in s && forall y :: y in s ==> m <= y
  {
    MinExists(s);
    var m :| m in s && forall y :: y in s ==> m <= y;
    m
  }

  /** `SortedKeys` lists the members of `s` in ascending order, each once. */
  lemma SortedKeysSpec(s: set<nat>)
    ensures var r := SortedKeys(s); (forall x :: x in r <==> x in s) && Increasing(r) && |r| == |s|
  {
    SortedKeysIncreasing(s);
    SortedKeysSize(s);
  }

  lemma {:induction false} SortedKeysIncreasing(s: set<nat>)
    ensures Increasing(SortedKeys(s))
    decreases s
  {
    if s != {} {
      var m := Min(s);
      var t := s - {m};
      SortedKeysIncreasing(t);
      var rest := SortedKeys(t);
      var r := [m] + rest;
      assert SortedKeys(s) == r;
      forall i | 0 <= i < |rest|
        ensures m < rest[i]
      {
        assert rest[i] in t;
      }
      forall i, j | 0 <= i < j < |r|
        ensures r[i] < r[j]
      {
        assert r[j] == rest[j - 1];
        if i > 0 {
          assert r[i] == rest[i - 1];
        }
      }
    }
  }

  lemma {:induction false} SortedKeysSize(s: set<nat>)
    ensures |SortedKeys(s)| == |s|
    decreases s
  {
    if s != {} {
      var m := Min(s);
      var t := s - {m};
      SortedKeysSize(t);
      assert SortedKeys(s) == [m] + SortedKeys(t);
      assert |t| == |s| - 1;
    }
  }

  lemma MinExists(s: set<nat>)
    requires s != {}
    ensures exists m :: m in s && forall y :: y in s ==> m <= y
  {
    var m := LeastMember(s);
  }

  lemma {:induction false} LeastMember(s: set<nat>) returns (m: nat)
    requires s != {}
    ensures m in s && forall y :: y in s ==> m <= y
    decreases s
  {
    var x :| x in s;
    var t := s - {x};
    if t == {} {
      m := x;
    } else {
      var least := LeastMember(t);
      m := if x < least then x else least;
    }
    forall y | y in s
      ensures m <= y
    {
      if y != x {
        assert y in t;
      }
    }
  }

  /** The values of `slots` in ascending order of their slot: one value per
      slot, the i-th being that of the i-th smallest slot. */
  function Ordered(slots: map<nat, Expr>): (r: seq<Expr>)
    ensures |r| == |slots|
    ensures var ks := SortedKeys(slots.Keys);
      && Increasing(ks) && (forall k :: k in ks <==> k in slots)
      && |ks| == |r| && forall i :: 0 <= i < |ks| ==> r[i] == slots[ks[i]]
  {
    var ks := SortedKeys(slots.Keys);
    SortedKeysSpec(slots.Keys);
    seq(|ks|, i requires 0 <= i < |ks| => slots[ks[i]])
  }

  predicate NoRepeats(s: seq<nat>) {
    forall i, j :: 0 <= i < j < |s| ==> s[i] != s[j]
  }

  /** The positional operand `op` claims the slots `ps` in turn; a slot already
      taken is an error. */
  function Claim(slots: map<nat, Expr>, ps: seq<nat>, op: Expr, n: nat): (r: Result<map<nat, Expr>, CompileError>)
    ensures r.Ok? <==> NoRepeats(ps) && forall k :: k in ps ==> k !in slots
    ensures r.Ok? ==> forall k :: k in r.value <==> k in slots || k in ps
    ensures r.Ok? ==> forall k :: k in r.value ==> r.value[k] == if k in ps then op else slots[k]
    ensures r.Err? ==> r.error.node == n
    decreases |ps|
  {
    if ps == [] then Ok(slots)
    else if ps[0] in slots then Err(DuplicatePosition(n, ps[0]))
    else
      var r := Claim(slots[ps[0] := op], ps[1..], op, n);
      NoRepeatsCons(ps);
      assert forall k :: k in ps <==> k == ps[0] || k in ps[1..];
      r
  }

  lemma NoRepeatsCons(ps: seq<nat>)
    requires ps != []
    ensures NoRepeats(ps) <==> NoRepeats(ps[1..]) && ps[0] !in ps[1..]
  {
    if NoRepeats(ps[1..]) && ps[0] !in ps[1..] {
      forall i, j | 0 <= i < j < |ps|
        ensures ps[i] != ps[j]
      {
        assert ps[j] == ps[1..][j - 1];
        if i > 0 {
          assert ps[i] == ps[1..][i - 1];
        }
      }
    }
    if NoRepeats(ps) {
      forall i | 0 <= i < |ps[1..]|
        ensures ps[1..][i] != ps[0]
      {
        assert ps[1..][i] == ps[i + 1];
      }
    }
  }

  /** The keyword operand `op` is bound under each key of `ks`; a later binding
      replaces an earlier one. */
  function Bind(kw: map<string, Expr>, ks: seq<string>, op: Expr): (r: map<string, Expr>)
    ensures forall k :: k in r <==> k in kw || k in ks
    ensures forall k :: k in r ==> r[k] == if k in ks then op else kw[k]
    decreases |ks|
  {
    if ks == [] then kw else Bind(kw[ks[0] := op], ks[1..], op)
  }

  /** The operand a predecessor contributes: a reference to its name, or, for an
      unnamed node, its own expansion inlined. */
  function Operand(g: Dag, p: nat): (r: Result<Expr, CompileError>)
    requires WellFormed(g) && p < |g.nodes|
    decreases p, 2
  {
    if g.nodes[p].name.Some? then Ok(Name(g.nodes[p].name.value)) else Expand(g, p)
  }

  /** compile_op: the node's generator applied to the positional operands in
      ascending slot order and to the keyword operands. */
  function Expand(g: Dag, n: nat): (r: Result<Expr, CompileError>)
    requires WellFormed(g) && n < |g.nodes|
    decreases n, 1
  {
    var acc :- Gather(g, n, Into(g.edges, n), map[], map[]);
    Ok(Call(g.nodes[n].gen, Ordered(acc.0), acc.1))
  }

  /** The predecessor loop of compile_op over the edges `es` into `n`, with the
      positional and keyword operands gathered so far. */
  function Gather(g: Dag, n: nat, es: seq<Edge>, slots: map<nat, Expr>, kw: map<string, Expr>)
    : Result<(map<nat, Expr>, map<string, Expr>), CompileError>
    requires WellFormed(g) && n < |g.nodes|
    requires forall e :: e in es ==> e in g.edges && e.dst == n
    decreases n, 0, |es|
  {
    if es == [] then Ok((slots, kw))
    else
      assert es[0] in g.edges;
      var op :- Operand(g, es[0].src);
      assert forall e :: e in es[1..] ==> e in es;
      match es[0].attr
      case Positional(ps) =>
        var slots' :- Claim(slots, ps, op, n);
        Gather(g, n, es[1..], slots', kw)
      case Keyword(ks) => Gather(g, n, es[1..], slots, Bind(kw, ks, op))
  }

  /** The slots an edge binds its source in (none for a keyword edge). */
  function Slots(e: Edge): seq<nat> {
    match e.attr
    case Positional(ps) => ps
    case Keyword(_) => []
  }

  /** The keywords an edge binds its source under (none for a positional edge). */
  function Keys(e: Edge): seq<string> {
    match e.attr
    case Positional(_) => []
    case Keyword(ks) => ks
  }

  /** Every slot claim of `es`, in visit order. */
  function AllSlots(es: seq<Edge>): seq<nat> {
    if es == [] then [] else Slots(es[0]) + AllSlots(es[1..])
  }

  /** The slots claimed by the edges of `es`. */
  function SlotSet(es: seq<Edge>): (r: set<nat>)
    ensures forall k :: k in r <==> k in AllSlots(es)
  {
    set k | k in AllSlots(es)
  }

  /** The position of the last edge of `es` that binds `key`. */
  function LastKeyed(es: seq<Edge>, key: string): (r: Option<nat>)
    ensures r.None? <==> forall j :: 0 <= j < |es| ==> key !in Keys(es[j])
    ensures r.Some? ==> r.value < |es| && key in Keys(es[r.value]) &&
                        forall j :: r.value < j < |es| ==> key !in Keys(es[j])
  {
    if es == [] then None
    else
      var later := LastKeyed(es[1..], key);
      assert forall j :: 0 < j < |es| ==> es[j] == es[1..][j - 1];
      match later
      case Some(j) => Some(j + 1)
      case None => if key in Keys(es[0]) then Some(0) else None
  }

  ghost predicate OperandsOk(g: Dag, es: seq<Edge>)
    requires WellFormed(g) && forall e :: e in es ==> e in g.edges
  {
    forall e :: e in es ==> Operand(g, e.src).Ok?
  }

  lemma NoRepeatsConcat(a: seq<nat>, b: seq<nat>)
    ensures NoRepeats(a + b) <==> NoRepeats(a) && NoRepeats(b) && forall k :: k in a ==> k !in b
  {
    var c := a + b;
    if NoRepeats(c) {
      forall i, j | 0 <= i < j < |a|
        ensures a[i] != a[j]
      {
        assert a[i] == c[i] && a[j] == c[j];
      }
      forall i, j | 0 <= i < j < |b|
        ensures b[i] != b[j]
      {
        assert b[i] == c[|a| + i] && b[j] == c[|a| + j];
      }
      forall i, j | 0 <= i < |a| && 0 <= j < |b|
        ensures a[i] != b[j]
      {
        assert a[i] == c[i] && b[j] == c[|a| + j];
      }
    }
    if NoRepeats(a) && NoRepeats(b) && forall k :: k in a ==> k !in b {
      forall i, j | 0 <= i < j < |c|
        ensures c[i] != c[j]
      {
        if j < |a| {
          assert c[i] == a[i] && c[j] == a[j];
        } else if i >= |a| {
          assert c[i] == b[i - |a|] && c[j] == b[j - |a|];
        } else {
          assert c[i] == a[i] && c[j] == b[j - |a|];
          assert a[i] in a && b[j - |a|] in b;
        }
      }
    }
  }

  /** A claimed slot is claimed by some edge. */
  lemma {:induction false} AllSlotsWitness(es: seq<Edge>, k: nat)
    requires k in AllSlots(es)
    ensures exists e :: e in es && k in Slots(e)
    decreases |es|
  {
    assert AllSlots(es) == Slots(es[0]) + AllSlots(es[1..]);
    if k !in Slots(es[0]) {
      AllSlotsWitness(es[1..], k);
      var e :| e in es[1..] && k in Slots(e);
      assert e in es;
    }
  }

  /** The predecessor loop completes exactly when every operand compiles and no
      slot is claimed twice (nor one already taken); when every operand compiles,
      the only failure is a slot of this node claimed twice. */
  lemma {:induction false} GatherOk(g: Dag, n: nat, es: seq<Edge>, slots: map<nat, Expr>, kw: map<string, Expr>)
    requires WellFormed(g) && n < |g.nodes|
    requires forall e :: e in es ==> e in g.edges && e.dst == n
    ensures Gather(g, n, es, slots, kw).Ok? <==>
      OperandsOk(g, es) && NoRepeats(AllSlots(es)) && forall k :: k in AllSlots(es) ==> k !in slots
    ensures Gather(g, n, es, slots, kw).Err? && OperandsOk(g, es) ==> Gather(g, n, es, slots, kw).error.node == n
    decreases |es|
  {
    if es != [] {
      var rest := es[1..];
      assert forall e :: e in rest ==> e in es;
      assert es[0] in g.edges;
      NoRepeatsConcat(Slots(es[0]), AllSlots(rest));
      var o := Operand(g, es[0].src);
      if o.Ok? {
        match es[0].attr
        case Positional(ps) =>
          var c := Claim(slots, ps, o.value, n);
          if c.Ok? {
            assert Gather(g, n, es, slots, kw) == Gather(g, n, rest, c.value, kw);
            GatherOk(g, n, rest, c.value, kw);
          } else {
            assert Gather(g, n, es, slots, kw) == Err(c.error);
          }
        case Keyword(ks) =>
          assert Gather(g, n, es, slots, kw) == Gather(g, n, rest, slots, Bind(kw, ks, o.value));
          GatherOk(g, n, rest, slots, Bind(kw, ks, o.value));
      } else {
        assert Gather(g, n, es, slots, kw) == Err(o.error);
      }
    }
  }

  /** After the predecessor loop, each slot holds the operand of the edge that
      claimed it, and the slots taken before keep their operands. */
  lemma GatherSlots(g: Dag, n: nat, es: seq<Edge>, slots: map<nat, Expr>, kw: map<string, Expr>)
    requires WellFormed(g) && n < |g.nodes|
    requires forall e :: e in es ==> e in g.edges && e.dst == n
    requires Gather(g, n, es, slots, kw).Ok?
    ensures var out := Gather(g, n, es, slots, kw).value.0;
      && (forall k :: k in out <==> k in slots || k in AllSlots(es))
      && (forall k :: k in slots ==> out[k] == slots[k])
      && (forall e, k :: e in es && k in Slots(e) ==> k in out && Operand(g, e.src) == Ok(out[k]))
  {
    GatherSlotsKeys(g, n, es, slots, kw);
    forall e, k | e in es && k in Slots(e)
      ensures k in Gather(g, n, es, slots, kw).value.0
      ensures Operand(g, e.src) == Ok(Gather(g, n, es, slots, kw).value.0[k])
    {
      var i :| 0 <= i < |es| && es[i] == e;
      GatherSlotOf(g, n, es, slots, kw, i, k);
    }
  }

  lemma {:induction false} GatherSlotsKeys(g: Dag, n: nat, es: seq<Edge>, slots: map<nat, Expr>, kw: map<string, Expr>)
    requires WellFormed(g) && n < |g.nodes|
    requires forall e :: e in es ==> e in g.edges && e.dst == n
    requires Gather(g, n, es, slots, kw).Ok?
    ensures var out := Gather(g, n, es, slots, kw).value.0;
      && (forall k :: k in out <==> k in slots || k in AllSlots(es))
      && (forall k :: k in slots ==> out[k] == slots[k])
    decreases |es|
  {
    if es != [] {
      var rest := es[1..];
      assert forall e :: e in rest ==> e in es;
      assert es[0] in g.edges;
      var o := Operand(g, es[0].src);
      assert AllSlots(es) == Slots(es[0]) + AllSlots(rest);
      match es[0].attr
      case Positional(ps) =>
        var c := Claim(slots, ps, o.value, n);
        GatherSlotsKeys(g, n, rest, c.value, kw);
      case Keyword(ks) =>
        GatherSlotsKeys(g, n, rest, slots, Bind(kw, ks, o.value));
    }
  }

  /** The slot `k` claimed by the `i`-th edge of `es` holds that edge's operand. */
  lemma GatherSlotOf(g: Dag, n: nat, es: seq<Edge>, slots: map<nat, Expr>, kw: map<string, Expr>, i: nat, k: nat)
    requires WellFormed(g) && n < |g.nodes|
    requires forall e :: e in es ==> e in g.edges && e.dst == n
    requires Gather(g, n, es, slots, kw).Ok?
    requires i < |es| && k in Slots(es[i])
    ensures k in Gather(g, n, es, slots, kw).value.0
    ensures Operand(g, es[i].src) == Ok(Gather(g, n, es, slots, kw).value.0[k])
  {
    var slots', kw' := GatherPeelMany(g, n, es, slots, kw, i);
    assert es[i..][0] == es[i];
    GatherSlotFirst(g, n, es[i..], slots', kw', k);
  }

  /** A completed predecessor loop is the loop over the edges from position `i`
      on, from the state the first `i` edges lead to. */
  lemma {:induction false} GatherPeelMany(g: Dag, n: nat, es: seq<Edge>, slots: map<nat, Expr>, kw: map<string, Expr>, i: nat)
    returns (slots': map<nat, Expr>, kw': map<string, Expr>)
    requires WellFormed(g) && n < |g.nodes|
    requires forall e :: e in es ==> e in g.edges && e.dst == n
    requires i <= |es| && Gather(g, n, es, slots, kw).Ok?
    ensures forall e :: e in es[i..] ==> e in g.edges && e.dst == n
    ensures Gather(g, n, es, slots, kw) == Gather(g, n, es[i..], slots', kw')
    decreases i
  {
    if i == 0 {
      assert es[i..] == es;
      slots', kw' := slots, kw;
    } else {
      var rest := es[1..];
      assert rest[i - 1..] == es[i..];
      var s1, k1 := GatherPeel(g, n, es, slots, kw);
      slots', kw' := GatherPeelMany(g, n, rest, s1, k1, i - 1);
    }
  }

  /** A completed predecessor loop is the loop over the remaining edges from the
      state after the first one. */
  lemma GatherPeel(g: Dag, n: nat, es: seq<Edge>, slots: map<nat, Expr>, kw: map<string, Expr>)
    returns (slots': map<nat, Expr>, kw': map<string, Expr>)
    requires WellFormed(g) && n < |g.nodes|
    requires forall e :: e in es ==> e in g.edges && e.dst == n
    requires es != [] && Gather(g, n, es, slots, kw).Ok?
    ensures forall e :: e in es[1..] ==> e in g.edges && e.dst == n
    ensures Gather(g, n, es, slots, kw) == Gather(g, n, es[1..], slots', kw')
  {
    var rest := es[1..];
    assert forall e :: e in rest ==> e in es;
    assert es[0] in g.edges;
    var o := Operand(g, es[0].src);
    match es[0].attr
    case Positional(ps) =>
      var c := Claim(slots, ps, o.value, n);
      assert c.Ok?;
      slots', kw' := c.value, kw;
    case Keyword(ks) =>
      slots', kw' := slots, Bind(kw, ks, o.value);
  }

  lemma GatherSlotFirst(g: Dag, n: nat, es: seq<Edge>, slots: map<nat, Expr>, kw: map<string, Expr>, k: nat)
    requires WellFormed(g) && n < |g.nodes|
    requires forall e :: e in es ==> e in g.edges && e.dst == n
    requires Gather(g, n, es, slots, kw).Ok?
    requires es != [] && k in Slots(es[0])
    ensures k in Gather(g, n, es, slots, kw).value.0
    ensures Operand(g, es[0].src) == Ok(Gather(g, n, es, slots, kw).value.0[k])
  {
    var rest := es[1..];
    assert forall e :: e in rest ==> e in es;
    assert es[0] in g.edges;
    var o := Operand(g, es[0].src);
    var ps := es[0].attr.position;
    var c := Claim(slots, ps, o.value, n);
    assert c.Ok? && Gather(g, n, es, slots, kw) == Gather(g, n, rest, c.value, kw);
    GatherSlotsKeys(g, n, rest, c.value, kw);
    assert k in c.value && c.value[k] == o.value;
  }

  /** After the predecessor loop, a key is bound exactly when some edge binds it
      (or it was bound before), to the operand of the last such edge. */
  lemma {:induction false} GatherKeywords(g: Dag, n: nat, es: seq<Edge>, slots: map<nat, Expr>, kw: map<string, Expr>)
    requires WellFormed(g) && n < |g.nodes|
    requires forall e :: e in es ==> e in g.edges && e.dst == n
    requires Gather(g, n, es, slots, kw).Ok?
    ensures var out := Gather(g, n, es, slots, kw).value.1;
      && (forall key :: key in out <==> key in kw || LastKeyed(es, key).Some?)
      && (forall key :: key in out ==>
            Ok(out[key]) == match LastKeyed(es, key) case Some(j) => Operand(g, es[j].src) case None => Ok(kw[key]))
    decreases |es|
  {
    if es != [] {
      var rest := es[1..];
      assert forall e :: e in rest ==> e in es;
      assert es[0] in g.edges;
      var o := Operand(g, es[0].src);
      match es[0].attr
      case Positional(ps) =>
        var c := Claim(slots, ps, o.value, n);
        GatherKeywords(g, n, rest, c.value, kw);
      case Keyword(ks) =>
        GatherKeywords(g, n, rest, slots, Bind(kw, ks, o.value));
    }
  }

  /** compile_op succeeds exactly when every operand compiles and no slot of the
      node is claimed twice; if every operand compiles, a failure is a duplicate
      slot of this node. */
  lemma ExpandOk(g: Dag, n: nat)
    requires WellFormed(g) && n < |g.nodes|
    ensures var es := Into(g.edges, n);
      && (Expand(g, n).Ok? <==> OperandsOk(g, es) && NoRepeats(AllSlots(es)))
      && (Expand(g, n).Err? && OperandsOk(g, es) ==> Expand(g, n).error.node == n)
  {
    GatherOk(g, n, Into(g.edges, n), map[], map[]);
  }

  /** The positional operands come in ascending slot order, whatever the order
      of the predecessors: the i-th is the operand of the edge that claims the
      i-th smallest slot. */
  lemma ExpandPositional(g: Dag, n: nat)
    requires WellFormed(g) && n < |g.nodes| && Expand(g, n).Ok?
    ensures var r, es := Expand(g, n).value, Into(g.edges, n);
      var ks := SortedKeys(SlotSet(es));
      && Increasing(ks) && (forall k :: k in ks <==> k in AllSlots(es))
      && r.Call? && r.gen == g.nodes[n].gen && |r.args| == |ks|
      && forall i, e :: 0 <= i < |ks| && e in es && ks[i] in Slots(e) ==> Operand(g, e.src) == Ok(r.args[i])
  {
    var es := Into(g.edges, n);
    GatherSlots(g, n, es, map[], map[]);
    var acc := Gather(g, n, es, map[], map[]).value;
    var out := acc.0;
    var r := Expand(g, n).value;
    assert r == Call(g.nodes[n].gen, Ordered(out), acc.1);
    assert out.Keys == SlotSet(es);
    var ks := SortedKeys(out.Keys);
    SortedKeysSpec(out.Keys);
    assert forall i :: 0 <= i < |ks| ==> r.args[i] == out[ks[i]];
  }

  /** A keyword operand is bound exactly when some predecessor edge binds it, and
      the last such edge visited wins. */
  lemma ExpandKeywords(g: Dag, n: nat)
    requires WellFormed(g) && n < |g.nodes| && Expand(g, n).Ok?
    ensures var r, es := Expand(g, n).value, Into(g.edges, n);
      && r.Call?
      && (forall key :: key in r.kwargs <==> LastKeyed(es, key).Some?)
      && (forall key :: key in r.kwargs ==> Operand(g, es[LastKeyed(es, key).value].src) == Ok(r.kwargs[key]))
  {
    GatherKeywords(g, n, Into(g.edges, n), map[], map[]);
  }

  /** Every operand of a compiled operation, positional or keyword, is the
      operand of one of its predecessors. */
  lemma ExpandOperands(g: Dag, n: nat)
    requires WellFormed(g) && n < |g.nodes| && Expand(g, n).Ok?
    ensures var r := Expand(g, n).value;
      && r.Call?
      && forall v :: v in r.args || v in r.kwargs.Values ==>
           exists e :: e in Into(g.edges, n) && Operand(g, e.src) == Ok(v)
  {
    var r, es := Expand(g, n).value, Into(g.edges, n);
    ExpandPositional(g, n);
    ExpandKeywords(g, n);
    var ks := SortedKeys(SlotSet(es));
    forall v | v in r.args || v in r.kwargs.Values
      ensures exists e :: e in es && Operand(g, e.src) == Ok(v)
    {
      if v in r.args {
        var i :| 0 <= i < |r.args| && r.args[i] == v;
        AllSlotsWitness(es, ks[i]);
        var e :| e in es && ks[i] in Slots(e);
        assert Operand(g, e.src) == Ok(v);
      } else {
        var key :| key in r.kwargs && r.kwargs[key] == v;
        var j := LastKeyed(es, key).value;
        assert es[j] in es && Operand(g, es[j].src) == Ok(v);
      }
    }
  }

  /** A name referred to in a compiled operation is referred to in the operand
      of one of its predecessors. */
  lemma MentionedOperand(g: Dag, n: nat, x: string) returns (e: Edge)
    requires WellFormed(g) && n < |g.nodes| && Expand(g, n).Ok? && Mentions(Expand(g, n).value, x)
    ensures e in Into(g.edges, n) && Operand(g, e.src).Ok? && Mentions(Operand(g, e.src).value, x)
  {
    var r := Expand(g, n).value;
    ExpandOperands(g, n);
    var v: Expr;
    if a :| a in r.args && Mentions(a, x) {
      v := a;
    } else {
      var k :| k in r.kwargs && Mentions(r.kwargs[k], x);
      v := r.kwargs[k];
      assert v in r.kwargs.Values;
    }
    e :| e in Into(g.edges, n) && Operand(g, e.src) == Ok(v);
  }

  /** A name referred to in the expansion of the node at position `b` of a
      topological order is the name of a node at an earlier position: operands
      are predecessors, referred to by name or, when unnamed, inlined in turn. */
  lemma {:induction false} ExpandMentionsEarlier(g: Dag, order: seq<nat>, b: nat, x: string)
    requires WellFormed(g) && IsTopologicalOrder(g, order) && b < |order|
    requires Expand(g, order[b]).Ok? && Mentions(Expand(g, order[b]).value, x)
    ensures exists a :: 0 <= a < b && g.nodes[order[a]].name == Some(x)
    decreases order[b]
  {
    var e := MentionedOperand(g, order[b], x);
    var c := EarlierSource(g, order, b, e);
    if g.nodes[e.src].name.None? {
      ExpandMentionsEarlier(g, order, c, x);
      var a :| 0 <= a < c && g.nodes[order[a]].name == Some(x);
    }
  }

  /** The source of an edge into the node at position `b` of a topological order
      stands at an earlier position. */
  lemma EarlierSource(g: Dag, order: seq<nat>, b: nat, e: Edge) returns (c: nat)
    requires WellFormed(g) && IsTopologicalOrder(g, order) && b < |order|
    requires e in Into(g.edges, order[b])
    ensures c < b && order[c] == e.src
  {
    assert e in g.edges;
    var j :| 0 <= j < |g.edges| && g.edges[j] == e;
    OrderCovers(g, order);
    assert e.src in order;
    c :| 0 <= c < |order| && order[c] == e.src;
  }

  /** compile_op, with the predecessor loop filling the positional and keyword
      tables and unnamed predecessors compiled recursively. */
  method CompileOp(g: Dag, n: nat) returns (r: Result<Expr, CompileError>)
    requires WellFormed(g) && n < |g.nodes|
    ensures r == Expand(g, n)
    decreases n
  {
    var preds := Into(g.edges, n);
    var opArgs: map<nat, Expr> := map[];
    var opKwargs: map<string, Expr> := map[];
    var i := 0;
    while i < |preds|
      invariant 0 <= i <= |preds|
      invariant Gather(g, n, preds, map[], map[]) == Gather(g, n, preds[i..], opArgs, opKwargs)
    {
      var e := preds[i];
      assert preds[i..][0] == e && preds[i..][1..] == preds[i + 1..];
      assert e in g.edges;
      var operand: Result<Expr, CompileError>;
      if g.nodes[e.src].name.Some? {
        operand := Ok(Name(g.nodes[e.src].name.value));
      } else {
        operand := CompileOp(g, e.src);
      }
      if operand.Err? {
        return Err(operand.error);
      }
      var op := operand.value;
      match e.attr {
        case Positional(ps) =>
          var claimed := ClaimSlots(opArgs, ps, op, n);
          if claimed.Err? {
            return Err(claimed.error);
          }
          opArgs := claimed.value;
        case Keyword(ks) =>
          opKwargs := BindKeys(opKwargs, ks, op);
      }
      i := i + 1;
    }
    return Ok(Call(g.nodes[n].gen, Ordered(opArgs), opKwargs));
  }

  /** The positional-slot loop of compile_op for one predecessor. */
  method ClaimSlots(slots: map<nat, Expr>, ps: seq<nat>, op: Expr, n: nat) returns (r: Result<map<nat, Expr>, CompileError>)
    ensures r == Claim(slots, ps, op, n)
  {
    var acc: map<nat, Expr> := slots;
    var j := 0;
    while j < |ps|
      invariant 0 <= j <= |ps|
      invariant Claim(slots, ps, op, n) == Claim(acc, ps[j..], op, n)
    {
      assert ps[j..][0] == ps[j] && ps[j..][1..] == ps[j + 1..];
      if ps[j] in acc {
        return Err(DuplicatePosition(n, ps[j]));
      }
      acc := acc[ps[j] := op];
      j := j + 1;
    }
    return Ok(acc);
  }

  /** The keyword loop of compile_op for one predecessor. */
  method BindKeys(kw: map<string, Expr>, ks: seq<string>, op: Expr) returns (r: map<string, Expr>)
    ensures r == Bind(kw, ks, op)
  {
    r := kw;
    var j := 0;
    while j < |ks|
      invariant 0 <= j <= |ks|
      invariant Bind(kw, ks, op) == Bind(r, ks[j..], op)
    {
      assert ks[j..][0] == ks[j] && ks[j..][1..] == ks[j + 1..];
      r := r[ks[j] := op];
      j := j + 1;
    }
  }

  // ---------------------------------------------------------------------------
  // The function: compile_graph

  /** A statement of the generated function's body. */
  datatype Stmt = Assign(target: string, value: Expr) | Return(name: string)

  datatype FunctionDef = FunctionDef(name: string, params: seq<Expr>, body: seq<Stmt>)

  /** A node that the body assigns: a named constant or operation. */
  predicate Emits(n: Node) {
    n.name.Some? && (n.kind.Constant? || n.kind.Op?)
  }

  /** A node that the body returns: a named, returned operation. */
  predicate EmitsReturn(n: Node) {
    n.name.Some? && n.kind.Op? && n.isReturned
  }

  /** The parameter list: the compiled placeholders in parameter order. */
  function Params(g: Dag): (r: seq<Expr>)
    requires WellFormed(g)
    ensures var po := ParamOrder(g); |r| == |po| && forall i :: 0 <= i < |po| ==> r[i] == PlaceholderExpr(g, po[i])
  {
    var po := ParamOrder(g);
    seq(|po|, i requires 0 <= i < |po| => PlaceholderExpr(g, po[i]))
  }

  /** The value assigned to a constant (its generator called without operands)
      or to an operation (compile_op). */
  function Value(g: Dag, n: nat): Result<Expr, CompileError>
    requires WellFormed(g) && n < |g.nodes|
  {
    if g.nodes[n].kind.Op? then Expand(g, n) else Ok(Call(g.nodes[n].gen, [], map[]))
  }

  ghost predicate InRange(g: Dag, order: seq<nat>) {
    forall a :: 0 <= a < |order| ==> order[a] < |g.nodes|
  }

  /** The assignments of the nodes of `order`, in that order; the first
      operation that does not compile stops it. */
  function Assignments(g: Dag, order: seq<nat>): Result<seq<Stmt>, CompileError>
    requires WellFormed(g) && InRange(g, order)
    decreases |order|
  {
    if order == [] then Ok([])
    else
      var prev :- Assignments(g, order[..|order| - 1]);
      var n := order[|order| - 1];
      if !Emits(g.nodes[n]) then Ok(prev)
      else
        var v :- Value(g, n);
        Ok(prev + [Assign(g.nodes[n].name.value, v)])
  }

  /** The return statements of the nodes of `order`, in that order. */
  function Returns(g: Dag, order: seq<nat>): seq<Stmt>
    requires InRange(g, order)
    decreases |order|
  {
    if order == [] then []
    else
      var n := order[|order| - 1];
      Returns(g, order[..|order| - 1]) + (if EmitsReturn(g.nodes[n]) then [Return(g.nodes[n].name.value)] else [])
  }

  /** The nodes of `order`, in that order. */
  function OrderNodes(g: Dag, order: seq<nat>): (r: seq<Node>)
    requires InRange(g, order)
    ensures |r| == |order| && forall a :: 0 <= a < |order| ==> r[a] == g.nodes[order[a]]
  {
    seq(|order|, a requires 0 <= a < |order| => g.nodes[order[a]])
  }

  lemma OrderNodesPrefix(g: Dag, order: seq<nat>)
    requires InRange(g, order) && order != []
    ensures OrderNodes(g, order) == OrderNodes(g, order[..|order| - 1]) + [g.nodes[order[|order| - 1]]]
  {
  }

  /** Once the assignments of a prefix of `order` fail, those of `order` fail
      with the same error. */
  lemma {:induction false} AssignmentsErrPersists(g: Dag, order: seq<nat>, m: nat)
    requires WellFormed(g) && InRange(g, order) && m <= |order|
    requires Assignments(g, order[..m]).Err?
    ensures Assignments(g, order) == Assignments(g, order[..m])
    decreases |order| - m
  {
    if m < |order| {
      assert order[..m] == order[..|order| - 1][..m];
      AssignmentsErrPersists(g, order[..|order| - 1], m);
    } else {
      assert order[..m] == order;
    }
  }

  /** The body fails exactly when one of the operations of `order` that it
      assigns does not compile. */
  lemma {:induction false} AssignmentsOk(g: Dag, order: seq<nat>)
    requires WellFormed(g) && InRange(g, order)
    ensures Assignments(g, order).Ok? <==>
      forall a :: 0 <= a < |order| && Emits(g.nodes[order[a]]) ==> Value(g, order[a]).Ok?
    decreases |order|
  {
    if order != [] {
      var init := order[..|order| - 1];
      assert InRange(g, init);
      AssignmentsOk(g, init);
      assert forall a :: 0 <= a < |init| ==> init[a] == order[a];
    }
  }

  lemma AssignmentsSnoc(g: Dag, order: seq<nat>)
    requires WellFormed(g) && InRange(g, order) && order != [] && Assignments(g, order).Ok?
    ensures InRange(g, order[..|order| - 1]) && Assignments(g, order[..|order| - 1]).Ok?
    ensures Emits(g.nodes[order[|order| - 1]]) ==> Value(g, order[|order| - 1]).Ok?
    ensures var n := order[|order| - 1];
      Assignments(g, order).value == Assignments(g, order[..|order| - 1]).value +
        if Emits(g.nodes[n]) then [Assign(g.nodes[n].name.value, Value(g, n).value)] else []
  {
    assert InRange(g, order[..|order| - 1]);
  }

  /** The body assigns exactly the named constants and operations of `order`, one
      statement each, in the order of `order`. */
  lemma {:induction false} AssignmentsSpec(g: Dag, order: seq<nat>)
    requires WellFormed(g) && InRange(g, order) && Assignments(g, order).Ok?
    ensures var stmts, ps := Assignments(g, order).value, Select(OrderNodes(g, order), Emits);
      |stmts| == |ps| &&
      forall k :: 0 <= k < |ps| ==>
        stmts[k].Assign? && Some(stmts[k].target) == g.nodes[order[ps[k]]].name && Value(g, order[ps[k]]) == Ok(stmts[k].value)
    decreases |order|
  {
    if order != [] {
      var init := order[..|order| - 1];
      var n := order[|order| - 1];
      assert InRange(g, init);
      AssignmentsSnoc(g, order);
      AssignmentsSpec(g, init);
      OrderNodesPrefix(g, order);
      SelectSnoc(OrderNodes(g, init), g.nodes[n], Emits);
      var prev, ps0 := Assignments(g, init).value, Select(OrderNodes(g, init), Emits);
      var stmts, ps := Assignments(g, order).value, Select(OrderNodes(g, order), Emits);
      forall k | 0 <= k < |ps|
        ensures stmts[k].Assign? && Some(stmts[k].target) == g.nodes[order[ps[k]]].name
        ensures Value(g, order[ps[k]]) == Ok(stmts[k].value)
      {
        if k < |ps0| {
          assert stmts[k] == prev[k] && ps[k] == ps0[k];
          assert order[ps0[k]] == init[ps0[k]];
        } else {
          assert ps[k] == |init| && order[|init|] == n;
          assert stmts[k] == Assign(g.nodes[n].name.value, Value(g, n).value);
        }
      }
    }
  }

  /** The returns are exactly those of the named, returned operations of
      `order`, in that order. */
  lemma {:induction false} ReturnsSpec(g: Dag, order: seq<nat>)
    requires InRange(g, order)
    ensures var rets, ps := Returns(g, order), Select(OrderNodes(g, order), EmitsReturn);
      |rets| == |ps| && forall k :: 0 <= k < |ps| ==> rets[k] == Return(g.nodes[order[ps[k]]].name.value)
    decreases |order|
  {
    if order != [] {
      var init := order[..|order| - 1];
      var n := order[|order| - 1];
      assert InRange(g, init);
      ReturnsSpec(g, init);
      OrderNodesPrefix(g, order);
      SelectSnoc(OrderNodes(g, init), g.nodes[n], EmitsReturn);
      assert forall a :: 0 <= a < |init| ==> init[a] == order[a];
    }
  }

  /** A topological order names every node. */
  lemma OrderCovers(g: Dag, order: seq<nat>)
    requires IsTopologicalOrder(g, order)
    ensures forall n: nat :: n < |g.nodes| ==> n in order
  {
    forall n: nat | n < |g.nodes|
      ensures n in order
    {
      if n !in order {
        var others := Below(|g.nodes|) - {n};
        BelowSize(|g.nodes|);
        assert n in Below(|g.nodes|) && Below(|g.nodes|) == others + {n};
        assert |others| == |g.nodes| - 1;
        forall a | 0 <= a < |order|
          ensures order[a] in others
        {
          assert order[a] in order;
        }
        DistinctWithin(order, others);
        assert false;
      }
    }
  }

  /** The numbers below `n`. */
  function Below(n: nat): (r: set<nat>)
    ensures forall k :: k in r <==> 0 <= k < n
  {
    if n == 0 then {} else Below(n - 1) + {n - 1}
  }

  lemma {:induction false} BelowSize(n: nat)
    ensures |Below(n)| == n
  {
    if n > 0 {
      BelowSize(n - 1);
      assert n - 1 !in Below(n - 1) && Below(n) == Below(n - 1) + {n - 1};
    }
  }

  /** A sequence without repetitions, drawn from `S`, is no longer than `S` is large. */
  lemma {:induction false} DistinctWithin(s: seq<nat>, S: set<nat>)
    requires forall a, b :: 0 <= a < b < |s| ==> s[a] != s[b]
    requires forall a :: 0 <= a < |s| ==> s[a] in S
    ensures |s| <= |S|
    decreases |s|
  {
    if s != [] {
      var last := s[|s| - 1];
      var init := s[..|s| - 1];
      assert forall a :: 0 <= a < |init| ==> init[a] == s[a] && s[a] != last;
      DistinctWithin(init, S - {last});
    }
  }

  /** `x` is bound before the `k`-th statement runs: it is a parameter (a
      placeholder's name) or the target of an earlier assignment. */
  ghost predicate BoundBefore(g: Dag, stmts: seq<Stmt>, k: nat, x: string) {
    || (exists k' :: 0 <= k' < k && k' < |stmts| && stmts[k'].Assign? && stmts[k'].target == x)
    || (exists p :: 0 <= p < |g.nodes| && g.nodes[p].kind.Placeholder? && g.nodes[p].name == Some(x))
  }

  /** With a topological order, no assignment refers to a name before it is
      bound: every name in an assigned value is a parameter (a placeholder's name)
      or the target of an earlier assignment, however many unnamed operations lie
      between them and were inlined. */
  lemma AssignmentsRespectDependencies(g: Dag, order: seq<nat>)
    requires WellFormed(g) && IsTopologicalOrder(g, order) && Assignments(g, order).Ok?
    ensures var stmts := Assignments(g, order).value;
      forall k, x :: 0 <= k < |stmts| && stmts[k].Assign? && Mentions(stmts[k].value, x) ==> BoundBefore(g, stmts, k, x)
  {
    var stmts := Assignments(g, order).value;
    forall k, x | 0 <= k < |stmts| && stmts[k].Assign? && Mentions(stmts[k].value, x)
      ensures BoundBefore(g, stmts, k, x)
    {
      StatementMentions(g, order, k, x);
    }
  }

  lemma StatementMentions(g: Dag, order: seq<nat>, k: nat, x: string)
    requires WellFormed(g) && IsTopologicalOrder(g, order) && Assignments(g, order).Ok?
    requires var stmts := Assignments(g, order).value; k < |stmts| && stmts[k].Assign? && Mentions(stmts[k].value, x)
    ensures BoundBefore(g, Assignments(g, order).value, k, x)
  {
    var stmts := Assignments(g, order).value;
    var ps := AssignmentAt(g, order, k);
    AssignedValueMentions(g, order, ps[k], x, stmts[k].value);
    var a :| 0 <= a < ps[k] && g.nodes[order[a]].name == Some(x);
    if Emits(g.nodes[order[a]]) {
      var k' := SelectedBefore(OrderNodes(g, order), Emits, a, k);
      var _ := AssignmentAt(g, order, k');
      assert stmts[k'].Assign? && stmts[k'].target == x;
    } else {
      assert g.nodes[order[a]].kind.Placeholder?;
    }
  }

  /** The `k`-th assignment: that of the `k`-th node of `order` that emits one. */
  lemma AssignmentAt(g: Dag, order: seq<nat>, k: nat) returns (ps: seq<nat>)
    requires WellFormed(g) && InRange(g, order) && Assignments(g, order).Ok? && k < |Assignments(g, order).value|
    ensures var stmts := Assignments(g, order).value;
      && ps == Select(OrderNodes(g, order), Emits) && |ps| == |stmts| && ps[k] < |order|
      && stmts[k].Assign? && Some(stmts[k].target) == g.nodes[order[ps[k]]].name
      && Value(g, order[ps[k]]) == Ok(stmts[k].value)
  {
    ps := Select(OrderNodes(g, order), Emits);
    AssignmentsSpec(g, order);
  }

  /** A position that satisfies `p` and lies before the `i`-th selected one is
      itself selected, at an earlier index. */
  lemma SelectedBefore(ns: seq<Node>, p: Node -> bool, a: nat, i: nat) returns (j: nat)
    requires i < |Select(ns, p)| && a < Select(ns, p)[i] && p(ns[a])
    ensures j < i && Select(ns, p)[j] == a
  {
    var ps := Select(ns, p);
    SelectSpec(ns, p);
    assert a in ps;
    j :| 0 <= j < |ps| && ps[j] == a;
  }

  /** The value assigned to the node at position `b` of a topological order
      refers only to names of nodes at earlier positions. */
  lemma AssignedValueMentions(g: Dag, order: seq<nat>, b: nat, x: string, v: Expr)
    requires WellFormed(g) && IsTopologicalOrder(g, order) && b < |order|
    requires Value(g, order[b]) == Ok(v) && Mentions(v, x)
    ensures exists a :: 0 <= a < b && g.nodes[order[a]].name == Some(x)
  {
    if g.nodes[order[b]].kind.Op? {
      ExpandMentionsEarlier(g, order, b, x);
    }
  }

  /** The parameter list, one compiled placeholder at a time. */
  method CompileParams(g: Dag) returns (params: seq<Expr>)
    requires WellFormed(g)
    ensures params == Params(g)
  {
    params := CompilePlaceholders(g, ParamOrder(g));
  }

  /** The placeholders `po`, compiled in turn. */
  method CompilePlaceholders(g: Dag, po: seq<nat>) returns (params: seq<Expr>)
    requires WellFormed(g) && forall k :: 0 <= k < |po| ==> po[k] < |g.nodes|
    ensures |params| == |po| && forall k :: 0 <= k < |po| ==> params[k] == PlaceholderExpr(g, po[k])
  {
    params := [];
    var i := 0;
    while i < |po|
      invariant 0 <= i <= |po|
      invariant |params| == i && forall k :: 0 <= k < i ==> params[k] == PlaceholderExpr(g, po[k])
    {
      var p := CompilePlaceholder(g, po[i]);
      ghost var prev := params;
      params := params + [p];
      assert forall k :: 0 <= k < i ==> params[k] == prev[k];
      i := i + 1;
    }
  }

  /** The pass over the topological order: the assignments and the returns. */
  method CompileBody(g: Dag, order: seq<nat>) returns (r: Result<(seq<Stmt>, seq<Stmt>), CompileError>)
    requires WellFormed(g) && InRange(g, order)
    ensures Assignments(g, order).Err? ==> r == Err(Assignments(g, order).error)
    ensures Assignments(g, order).Ok? ==> r == Ok((Assignments(g, order).value, Returns(g, order)))
  {
    var stmts: seq<Stmt> := [];
    var rets: seq<Stmt> := [];
    var i := 0;
    while i < |order|
      invariant 0 <= i <= |order|
      invariant InRange(g, order[..i])
      invariant Assignments(g, order[..i]) == Ok(stmts)
      invariant rets == Returns(g, order[..i])
    {
      var n := order[i];
      assert order[..i + 1][..i] == order[..i];
      assert InRange(g, order[..i + 1]);
      if Emits(g.nodes[n]) {
        var name := g.nodes[n].name.value;
        if g.nodes[n].kind.Constant? {
          stmts := stmts + [Assign(name, Call(g.nodes[n].gen, [], map[]))];
        } else {
          var v := CompileOp(g, n);
          if v.Err? {
            AssignmentsErrPersists(g, order, i + 1);
            return Err(v.error);
          }
          stmts := stmts + [Assign(name, v.value)];
          if g.nodes[n].isReturned {
            rets := rets + [Return(name)];
          }
        }
      }
      i := i + 1;
    }
    assert order[..i] == order;
    return Ok((stmts, rets));
  }

  /** compile_graph: the parameters, then the body, made of the assignments
      followed by the returns. */
  method CompileGraph(g: Dag, order: seq<nat>, fnName: string) returns (r: Result<FunctionDef, CompileError>)
    requires WellFormed(g) && IsTopologicalOrder(g, order)
    ensures Assignments(g, order).Err? ==> r == Err(Assignments(g, order).error)
    ensures Assignments(g, order).Ok? ==>
      r == Ok(FunctionDef(fnName, Params(g), Assignments(g, order).value + Returns(g, order)))
  {
    var params := CompileParams(g);
    var body :- CompileBody(g, order);
    return Ok(FunctionDef(fnName, params, body.0 + body.1));
  }
}
