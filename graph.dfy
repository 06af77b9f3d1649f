/**
 * The probabilistic model graph (mcx/core/graph.py): a directed graph whose nodes
 * are named and carry a content (an argument, a constant, a deterministic
 * transformation or a random variable), and whose edges record how the source
 * node's value is bound by the target node (a positional slot or a keyword).
 *
 * The first half of the module defines the graph as a value and the operations
 * on it as functions, with the properties the program relies on proved as
 * lemmas; the class `GraphicalModel` at the end is the mutable object the program
 * manipulates, whose methods are proved against those functions.
 */
module Graph {
  import opened Wrappers
  import opened Syntax
  import Components

  /** An entry of the argument list given to add_transformation / add_randvar:
      a string names a node of the graph, anything else is a literal. */
  datatype Operand = Ref(ref: string) | Literal(code: Code)

  /** The `content` attribute of a node. */
  datatype Content =
    | Argument(name: string, isReturned: bool)
    | Var(name: string, value: Code, isReturned: bool)
    | Transformation(name: string, expression: Code, args: seq<Operand>, isReturned: bool)
    | RandVar(name: string, distribution: Code, args: seq<Operand>, isReturned: bool)

  /** How the target of an edge binds the value of its source: in the listed
      positional slots, or under the listed keywords. */
  datatype EdgeAttr = Positional(position: seq<nat>) | Keyword(key: seq<string>)

  datatype Edge = Edge(src: string, dst: string, attr: EdgeAttr)

  /** Nodes in insertion order, the content attribute of each node, and the edges
      in the order they were first added (the order in which the graph library
      reports a node's predecessors and successors). */
  datatype Model = Model(nodes: seq<string>, content: map<string, Content>, edges: seq<Edge>)

  datatype GraphError =
    | UndefinedReference(ref: string, node: string)  // add_transformation / add_randvar: undefined name
    | UnknownNode                                    // do / markov_blanket: the message never names the node
    | KeyNotFound(key: string)                       // mark_as_returned on a name that is not a node

  // ---------------------------------------------------------------------------
  // Edges

  function Pairs(es: seq<Edge>): set<(string, string)> {
    set k | 0 <= k < |es| :: (es[k].src, es[k].dst)
  }

  lemma PairsCons(es: seq<Edge>)
    requires es != []
    ensures Pairs(es) == {(es[0].src, es[0].dst)} + Pairs(es[1..])
  {
    forall p | p in Pairs(es)
      ensures p in {(es[0].src, es[0].dst)} + Pairs(es[1..])
    {
      var k :| 0 <= k < |es| && p == (es[k].src, es[k].dst);
      if k > 0 {
        assert p == (es[1..][k - 1].src, es[1..][k - 1].dst);
      }
    }
    forall p | p in Pairs(es[1..])
      ensures p in Pairs(es)
    {
      var k :| 0 <= k < |es[1..]| && p == (es[1..][k].src, es[1..][k].dst);
      assert p == (es[k + 1].src, es[k + 1].dst);
    }
  }

  /** No two edges join the same ordered pair of nodes. */
  predicate UniquePairs(es: seq<Edge>) {
    forall k, l :: 0 <= k < l < |es| ==> es[k].src != es[l].src || es[k].dst != es[l].dst
  }

  /** The position of the edge from `a` to `b`, if there is one. */
  function FindEdge(es: seq<Edge>, a: string, b: string): (r: Option<nat>)
    ensures r.Some? ==> r.value < |es| && es[r.value].src == a && es[r.value].dst == b
    ensures r.None? <==> (a, b) !in Pairs(es)
  {
    if es == [] then None
    else if es[0].src == a && es[0].dst == b then Some(0)
    else
      PairsCons(es);
      match FindEdge(es[1..], a, b)
      case Some(k) => Some(k + 1)
      case None => None
  }

  /** The predecessors of `n`, in the order their edges were added. */
  function Parents(es: seq<Edge>, n: string): (r: seq<string>)
    ensures forall x :: x in r <==> (x, n) in Pairs(es)
  {
    if es == [] then []
    else
      PairsCons(es);
      (if es[0].dst == n then [es[0].src] else []) + Parents(es[1..], n)
  }

  /** The successors of `n`, in the order their edges were added. */
  function Children(es: seq<Edge>, n: string): (r: seq<string>)
    ensures forall x :: x in r <==> (n, x) in Pairs(es)
  {
    if es == [] then []
    else
      PairsCons(es);
      (if es[0].src == n then [es[0].dst] else []) + Children(es[1..], n)
  }

  // ---------------------------------------------------------------------------
  // Invariants

  predicate Distinct(ns: seq<string>) {
    forall i, j :: 0 <= i < j < |ns| ==> ns[i] != ns[j]
  }

  /** The shape every graph built through the construction methods has. */
  ghost predicate WellFormed(m: Model) {
    && Distinct(m.nodes)
    && (forall n :: n in m.content <==> n in m.nodes)
    && (forall n :: n in m.content ==> m.content[n].name == n)
    && (forall k :: 0 <= k < |m.edges| ==> m.edges[k].src in m.nodes && m.edges[k].dst in m.nodes)
    && UniquePairs(m.edges)
  }

  /** `p` follows edges in their direction. */
  ghost predicate IsPath(E: set<(string, string)>, p: seq<string>) {
    |p| > 0 && forall i :: 0 <= i < |p| - 1 ==> (p[i], p[i + 1]) in E
  }

  /** No path of one edge or more leads from a node back to itself. */
  ghost predicate Acyclic(m: Model) {
    forall p :: IsPath(Pairs(m.edges), p) && |p| > 1 ==> p[0] != p[|p| - 1]
  }

  lemma AcyclicNoSelfLoop(m: Model, n: string)
    requires Acyclic(m)
    ensures (n, n) !in Pairs(m.edges)
  {
    if (n, n) in Pairs(m.edges) {
      assert IsPath(Pairs(m.edges), [n, n]);
      assert false;
    }
  }

  /** Removing edges cannot create a cycle. */
  lemma AcyclicSubgraph(m: Model, m': Model)
    requires Acyclic(m) && Pairs(m'.edges) <= Pairs(m.edges)
    ensures Acyclic(m')
  {
    forall p | IsPath(Pairs(m'.edges), p) && |p| > 1
      ensures p[0] != p[|p| - 1]
    {
      assert IsPath(Pairs(m.edges), p);
    }
  }

  // ---------------------------------------------------------------------------
  // Construction: add_argument, add_variable, add_transformation, add_randvar

  /** The node list after the graph library's add_node / add_edge meets `n`:
      a new name goes at the end, an existing one stays where it is. */
  function AppendNew(ns: seq<string>, n: string): (r: seq<string>)
    ensures forall x :: x in r <==> x in ns || x == n
  {
    if n in ns then ns else ns + [n]
  }

  lemma AppendNewDistinct(ns: seq<string>, n: string)
    requires Distinct(ns)
    ensures Distinct(AppendNew(ns, n))
  {
  }

  /** add_argument / add_variable (`c` is the node's content): the graph
      library's add_node, which adds a new name at the end and replaces the content
      of an existing one, keeping its edges. */
  function AddNode(m: Model, c: Content): (r: Model)
    ensures forall x :: x in r.nodes <==> x in m.nodes || x == c.name
    ensures r.content.Keys == m.content.Keys + {c.name}
    ensures r.content[c.name] == c && forall x :: x in m.content && x != c.name ==> r.content[x] == m.content[x]
    ensures r.edges == m.edges
  {
    Model(AppendNew(m.nodes, c.name), m.content[c.name := c], m.edges)
  }

  /** Adding or replacing a node keeps the graph well formed and, since no edge
      changes, acyclic. */
  lemma AddNodeWellFormed(m: Model, c: Content)
    requires WellFormed(m)
    ensures WellFormed(AddNode(m, c))
    ensures Acyclic(m) ==> Acyclic(AddNode(m, c))
  {
    AppendNewDistinct(m.nodes, c.name);
    var r := AddNode(m, c);
    forall k | 0 <= k < |r.edges|
      ensures r.edges[k].src in r.nodes && r.edges[k].dst in r.nodes
    {
      assert r.edges[k] == m.edges[k];
    }
  }

  /** The same edge, now also binding its source in `slot`. The `Keyword` case
      cannot be reached from `AddOp`, which builds positional edges only; it
      keeps the function total on any edge, turning a keyword edge into a
      positional one. */
  function AddSlot(attr: EdgeAttr, slot: nat): EdgeAttr {
    match attr
    case Positional(ps) => Positional(ps + [slot])
    case Keyword(_) => Positional([slot])
  }

  /** add_edge(a, b) for an argument in positional slot `slot`: a repeated edge
      keeps its place and records the extra slot. */
  function LinkOne(es: seq<Edge>, a: string, b: string, slot: nat): seq<Edge> {
    match FindEdge(es, a, b)
    case Some(k) => es[k := Edge(a, b, AddSlot(es[k].attr, slot))]
    case None => es + [Edge(a, b, Positional([slot]))]
  }

  /** The edges after add_transformation / add_randvar has linked every string
      entry of `args` to `dst`; `args[i]` is bound in slot `i`. */
  function Link(es: seq<Edge>, args: seq<Operand>, dst: string): seq<Edge>
    decreases |args|
  {
    if args == [] then es
    else
      var prev := Link(es, args[..|args| - 1], dst);
      match args[|args| - 1]
      case Ref(a) => LinkOne(prev, a, dst, |args| - 1)
      case Literal(_) => prev
  }

  /** The positions at which `args` names `a`, in ascending order. */
  function Slots(args: seq<Operand>, a: string): (r: seq<nat>)
    ensures forall i :: i in r <==> 0 <= i < |args| && args[i] == Ref(a)
    ensures forall i, j :: 0 <= i < j < |r| ==> r[i] < r[j]
    ensures forall i :: 0 <= i < |r| ==> r[i] < |args|
  {
    if args == [] then []
    else
      var prev := Slots(args[..|args| - 1], a);
      prev + (if args[|args| - 1] == Ref(a) then [|args| - 1] else [])
  }

  /** The pairs the references of `args` join to `dst`. */
  function RefPairs(args: seq<Operand>, dst: string): set<(string, string)> {
    set i | 0 <= i < |args| && args[i].Ref? :: (args[i].ref, dst)
  }

  lemma LinkOnePairs(es: seq<Edge>, a: string, b: string, slot: nat)
    ensures Pairs(LinkOne(es, a, b, slot)) == Pairs(es) + {(a, b)}
    ensures UniquePairs(es) ==> UniquePairs(LinkOne(es, a, b, slot))
  {
    var r := LinkOne(es, a, b, slot);
    match FindEdge(es, a, b)
    case Some(k) =>
      forall p | p in Pairs(r) ensures p in Pairs(es) {
        var l :| 0 <= l < |r| && p == (r[l].src, r[l].dst);
        assert p == (es[l].src, es[l].dst);
      }
      forall p | p in Pairs(es) ensures p in Pairs(r) {
        var l :| 0 <= l < |es| && p == (es[l].src, es[l].dst);
        assert p == (r[l].src, r[l].dst);
      }
    case None =>
      forall p | p in Pairs(r) ensures p in Pairs(es) + {(a, b)} {
        var l :| 0 <= l < |r| && p == (r[l].src, r[l].dst);
        if l < |es| {
          assert p == (es[l].src, es[l].dst);
        }
      }
      forall p | p in Pairs(es) + {(a, b)} ensures p in Pairs(r) {
        if p == (a, b) {
          assert p == (r[|es|].src, r[|es|].dst);
        } else {
          var l :| 0 <= l < |es| && p == (es[l].src, es[l].dst);
          assert p == (r[l].src, r[l].dst);
        }
      }
      if UniquePairs(es) {
        forall k, l | 0 <= k < l < |r|
          ensures r[k].src != r[l].src || r[k].dst != r[l].dst
        {
          if l == |es| {
            assert (r[k].src, r[k].dst) in Pairs(es);
          }
        }
      }
  }

  /** Linking adds exactly the pairs of the references, and keeps pairs unique. */
  lemma {:induction false} LinkPairs(es: seq<Edge>, args: seq<Operand>, dst: string)
    ensures Pairs(Link(es, args, dst)) == Pairs(es) + RefPairs(args, dst)
    ensures UniquePairs(es) ==> UniquePairs(Link(es, args, dst))
    decreases |args|
  {
    if args != [] {
      var init := args[..|args| - 1];
      LinkPairs(es, init, dst);
      var prev := Link(es, init, dst);
      assert RefPairs(args, dst) == RefPairs(init, dst) +
        (if args[|args| - 1].Ref? then {(args[|args| - 1].ref, dst)} else {}) by {
        forall p | p in RefPairs(args, dst)
          ensures p in RefPairs(init, dst) + (if args[|args| - 1].Ref? then {(args[|args| - 1].ref, dst)} else {})
        {
          var i :| 0 <= i < |args| && args[i].Ref? && p == (args[i].ref, dst);
          if i < |init| {
            assert init[i] == args[i];
          }
        }
        forall p | p in RefPairs(init, dst)
          ensures p in RefPairs(args, dst)
        {
          var i :| 0 <= i < |init| && init[i].Ref? && p == (init[i].ref, dst);
          assert args[i] == init[i];
        }
      }
      match args[|args| - 1]
      case Ref(a) => LinkOnePairs(prev, a, dst, |args| - 1);
      case Literal(_) =>
    }
  }

  /** Every edge into `dst` binds its source in exactly the positions where
      `args` names that source. */
  ghost predicate SlotsMatch(es: seq<Edge>, args: seq<Operand>, dst: string) {
    forall k :: 0 <= k < |es| && es[k].dst == dst ==> es[k].attr == Positional(Slots(args, es[k].src))
  }

  lemma LinkOneSlots(prev: seq<Edge>, init: seq<Operand>, a: string, dst: string)
    requires SlotsMatch(prev, init, dst) && UniquePairs(prev)
    requires Slots(init, a) != [] ==> (a, dst) in Pairs(prev)
    ensures SlotsMatch(LinkOne(prev, a, dst, |init|), init + [Ref(a)], dst)
  {
    var r := LinkOne(prev, a, dst, |init|);
    forall k | 0 <= k < |r| && r[k].dst == dst
      ensures r[k].attr == Positional(Slots(init + [Ref(a)], r[k].src))
    {
      LinkOneSlotAt(prev, init, a, dst, k);
    }
  }

  lemma LinkOneSlotAt(prev: seq<Edge>, init: seq<Operand>, a: string, dst: string, k: nat)
    requires SlotsMatch(prev, init, dst) && UniquePairs(prev)
    requires Slots(init, a) != [] ==> (a, dst) in Pairs(prev)
    requires k < |LinkOne(prev, a, dst, |init|)| && LinkOne(prev, a, dst, |init|)[k].dst == dst
    ensures var e := LinkOne(prev, a, dst, |init|)[k];
      e.attr == Positional(Slots(init + [Ref(a)], e.src))
  {
    var r := LinkOne(prev, a, dst, |init|);
    SlotsSnoc(init, Ref(a), r[k].src);
    match FindEdge(prev, a, dst)
    case Some(j) =>
      if k != j {
        assert r[k] == prev[k];
        assert r[k].src != a;
      }
    case None =>
      if k < |prev| {
        assert r[k] == prev[k];
        assert (r[k].src, dst) in Pairs(prev);
      } else {
        assert r[k] == Edge(a, dst, Positional([|init|]));
      }
  }

  lemma SlotsSnoc(init: seq<Operand>, o: Operand, x: string)
    ensures Slots(init + [o], x) == Slots(init, x) + (if o == Ref(x) then [|init|] else [])
  {
    assert (init + [o])[..|init|] == init;
  }

  /** When `dst` had no incoming edge, every edge into it afterwards binds its
      source in exactly the positions where `args` names that source. */
  lemma {:induction false} LinkSlotsFresh(es: seq<Edge>, args: seq<Operand>, dst: string)
    requires UniquePairs(es)
    requires forall k :: 0 <= k < |es| ==> es[k].dst != dst
    ensures SlotsMatch(Link(es, args, dst), args, dst)
    decreases |args|
  {
    if args != [] {
      var init := args[..|args| - 1];
      assert args == init + [args[|args| - 1]];
      LinkSlotsFresh(es, init, dst);
      LinkPairs(es, init, dst);
      var prev := Link(es, init, dst);
      match args[|args| - 1]
      case Literal(_) =>
        assert forall x :: Slots(args, x) == Slots(init, x);
      case Ref(a) =>
        if Slots(init, a) != [] {
          var i := Slots(init, a)[0];
          assert (init[i].ref, dst) in RefPairs(init, dst);
        }
        LinkOneSlots(prev, init, a, dst);
    }
  }

  /** The first string entry of `args` that does not name a node of `ns`. */
  function FirstUndefined(ns: seq<string>, args: seq<Operand>): (r: Option<string>)
    ensures r.None? <==> forall i :: 0 <= i < |args| && args[i].Ref? ==> args[i].ref in ns
    ensures r.Some? ==> exists i :: 0 <= i < |args| && args[i] == Ref(r.value) && r.value !in ns &&
                          forall j :: 0 <= j < i && args[j].Ref? ==> args[j].ref in ns
    decreases |args|
  {
    if args == [] then None
    else
      var init := args[..|args| - 1];
      assert forall i :: 0 <= i < |init| ==> init[i] == args[i];
      match FirstUndefined(ns, init)
      case Some(a) => Some(a)
      case None =>
        match args[|args| - 1]
        case Ref(a) => if a in ns then None else Some(a)
        case Literal(_) => None
  }

  /** add_transformation / add_randvar (`c` is the new node's content): fails on
      the first string entry that is not a node, and otherwise adds the node with
      an edge from every referenced node. On failure nothing changes. */
  function AddOp(m: Model, c: Content): (r: Result<Model, GraphError>)
    requires c.Transformation? || c.RandVar?
    ensures r.Err? <==> exists i :: 0 <= i < |c.args| && c.args[i].Ref? && c.args[i].ref !in m.nodes
    ensures r.Err? ==> r.error.UndefinedReference? && r.error.node == c.name && r.error.ref !in m.nodes
  {
    match FirstUndefined(m.nodes, c.args)
    case Some(a) => Err(UndefinedReference(a, c.name))
    case None => Ok(Model(AppendNew(m.nodes, c.name), m.content[c.name := c], Link(m.edges, c.args, c.name)))
  }

  /** After a successful add_transformation / add_randvar the graph has exactly
      its old edges plus one from each referenced node to the new node, and the
      new node holds `c`; literal entries add no edge. */
  lemma AddOpEdges(m: Model, c: Content)
    requires c.Transformation? || c.RandVar?
    requires AddOp(m, c).Ok?
    ensures var r := AddOp(m, c).value;
      && (forall a, b :: (a, b) in Pairs(r.edges) <==>
            (a, b) in Pairs(m.edges) || (b == c.name && exists i :: 0 <= i < |c.args| && c.args[i] == Ref(a)))
      && r.content == m.content[c.name := c]
      && (forall x :: x in r.nodes <==> x in m.nodes || x == c.name)
  {
    LinkPairs(m.edges, c.args, c.name);
    var r := AddOp(m, c).value;
    forall a, b | (b == c.name && exists i :: 0 <= i < |c.args| && c.args[i] == Ref(a))
      ensures (a, b) in Pairs(r.edges)
    {
      var i :| 0 <= i < |c.args| && c.args[i] == Ref(a);
      assert (c.args[i].ref, c.name) in RefPairs(c.args, c.name);
    }
  }

  lemma AddOpWellFormed(m: Model, c: Content)
    requires c.Transformation? || c.RandVar?
    requires WellFormed(m) && AddOp(m, c).Ok?
    ensures WellFormed(AddOp(m, c).value)
  {
    var r := AddOp(m, c).value;
    AppendNewDistinct(m.nodes, c.name);
    LinkPairs(m.edges, c.args, c.name);
    forall k | 0 <= k < |r.edges|
      ensures r.edges[k].src in r.nodes && r.edges[k].dst in r.nodes
    {
      var p := (r.edges[k].src, r.edges[k].dst);
      assert p in Pairs(r.edges);
      if p in Pairs(m.edges) {
        var l :| 0 <= l < |m.edges| && p == (m.edges[l].src, m.edges[l].dst);
      } else {
        var i :| 0 <= i < |c.args| && c.args[i].Ref? && p == (c.args[i].ref, c.name);
      }
    }
  }

  /** Defining a node under a new name keeps the graph acyclic: the new node has
      no outgoing edge, so no cycle can pass through it. */
  lemma AddOpAcyclic(m: Model, c: Content)
    requires c.Transformation? || c.RandVar?
    requires WellFormed(m) && Acyclic(m) && c.name !in m.nodes && AddOp(m, c).Ok?
    ensures Acyclic(AddOp(m, c).value)
  {
    var r := AddOp(m, c).value;
    AddOpEdges(m, c);
    var E, E' := Pairs(m.edges), Pairs(r.edges);
    assert forall a :: (c.name, a) !in E';
    forall p | IsPath(E', p) && |p| > 1
      ensures p[0] != p[|p| - 1]
    {
      if p[0] == p[|p| - 1] {
        forall i | 0 <= i < |p| - 1
          ensures p[i] != c.name
        {
          assert (p[i], p[i + 1]) in E';
        }
      }
    }
  }

  /** Every edge add_transformation / add_randvar gives a new node binds the
      referenced node in exactly the argument positions that name it. */
  lemma AddOpSlots(m: Model, c: Content)
    requires c.Transformation? || c.RandVar?
    requires WellFormed(m) && c.name !in m.nodes && AddOp(m, c).Ok?
    ensures var r := AddOp(m, c).value;
      forall k :: 0 <= k < |r.edges| && r.edges[k].dst == c.name ==>
        r.edges[k].attr == Positional(Slots(c.args, r.edges[k].src))
  {
    LinkSlotsFresh(m.edges, c.args, c.name);
  }

  // ---------------------------------------------------------------------------
  // mark_as_returned

  /** Flags the node `n` as returned; the graph library raises KeyError when `n`
      is not a node. */
  function MarkReturned(m: Model, n: string): (r: Result<Model, GraphError>)
    ensures r.Err? <==> n !in m.content
    ensures r.Err? ==> r.error == KeyNotFound(n)
  {
    if n !in m.content then Err(KeyNotFound(n))
    else Ok(m.(content := m.content[n := m.content[n].(isReturned := true)]))
  }

  /** mark_as_returned keeps the graph well formed and acyclic, makes `n` returned
      and leaves every other node's returned flag, each node's other content and
      the edges as they were. */
  lemma MarkReturnedEffect(m: Model, n: string)
    requires WellFormed(m) && MarkReturned(m, n).Ok?
    ensures var r := MarkReturned(m, n).value;
      && WellFormed(r) && (Acyclic(m) ==> Acyclic(r))
      && (forall x :: Returned(r, x) <==> x == n || Returned(m, x))
      && r.content[n] == m.content[n].(isReturned := true)
      && (forall x :: x in m.content && x != n ==> x in r.content && r.content[x] == m.content[x])
      && r.nodes == m.nodes && r.edges == m.edges
  {
  }

  // ---------------------------------------------------------------------------
  // Intervention: do

  predicate Returned(m: Model, n: string) {
    n in m.content && m.content[n].isReturned
  }

  /** The edges whose target is not in `cut`, in their order. */
  function WithoutIncoming(es: seq<Edge>, cut: set<string>): (r: seq<Edge>)
    ensures forall e :: e in r <==> e in es && e.dst !in cut
  {
    if es == [] then []
    else (if es[0].dst in cut then [] else [es[0]]) + WithoutIncoming(es[1..], cut)
  }

  /** The edges with both ends in `keep`, in their order. */
  function EdgesWithin(es: seq<Edge>, keep: set<string>): (r: seq<Edge>)
    ensures forall e :: e in r <==> e in es && e.src in keep && e.dst in keep
  {
    if es == [] then []
    else (if es[0].src in keep && es[0].dst in keep then [es[0]] else []) + EdgesWithin(es[1..], keep)
  }

  /** The members of `keep`, in the order of `ns`. */
  function NodesWithin(ns: seq<string>, keep: set<string>): (r: seq<string>)
    ensures forall x :: x in r <==> x in ns && x in keep
  {
    if ns == [] then []
    else (if ns[0] in keep then [ns[0]] else []) + NodesWithin(ns[1..], keep)
  }

  lemma PairsOfMembers(es: seq<Edge>, r: seq<Edge>)
    requires forall e :: e in r ==> e in es
    ensures Pairs(r) <= Pairs(es)
  {
    forall p | p in Pairs(r) ensures p in Pairs(es) {
      var k :| 0 <= k < |r| && p == (r[k].src, r[k].dst);
      assert r[k] in es;
      var l :| 0 <= l < |es| && es[l] == r[k];
    }
  }

  lemma PairsHasMember(es: seq<Edge>, e: Edge)
    requires e in es
    ensures (e.src, e.dst) in Pairs(es)
  {
    var l :| 0 <= l < |es| && es[l] == e;
  }

  lemma UniqueCons(es: seq<Edge>)
    requires es != []
    ensures UniquePairs(es) <==> UniquePairs(es[1..]) && (es[0].src, es[0].dst) !in Pairs(es[1..])
  {
    if UniquePairs(es) {
      forall k | 0 <= k < |es[1..]|
        ensures (es[0].src, es[0].dst) != (es[1..][k].src, es[1..][k].dst)
      {
        assert es[1..][k] == es[k + 1];
      }
    }
    if UniquePairs(es[1..]) && (es[0].src, es[0].dst) !in Pairs(es[1..]) {
      forall k, l | 0 <= k < l < |es|
        ensures es[k].src != es[l].src || es[k].dst != es[l].dst
      {
        assert es[l] == es[1..][l - 1];
        if k == 0 {
          assert (es[l].src, es[l].dst) in Pairs(es[1..]);
        } else {
          assert es[k] == es[1..][k - 1];
        }
      }
    }
  }

  lemma {:induction false} WithoutIncomingUnique(es: seq<Edge>, cut: set<string>)
    requires UniquePairs(es)
    ensures UniquePairs(WithoutIncoming(es, cut))
  {
    if es != [] {
      UniqueCons(es);
      WithoutIncomingUnique(es[1..], cut);
      var rest := WithoutIncoming(es[1..], cut);
      PairsOfMembers(es[1..], rest);
      if es[0].dst !in cut {
        assert ([es[0]] + rest)[1..] == rest;
        UniqueCons([es[0]] + rest);
      }
    }
  }

  lemma {:induction false} EdgesWithinUnique(es: seq<Edge>, keep: set<string>)
    requires UniquePairs(es)
    ensures UniquePairs(EdgesWithin(es, keep))
  {
    if es != [] {
      UniqueCons(es);
      EdgesWithinUnique(es[1..], keep);
      var rest := EdgesWithin(es[1..], keep);
      PairsOfMembers(es[1..], rest);
      if es[0].src in keep && es[0].dst in keep {
        assert ([es[0]] + rest)[1..] == rest;
        UniqueCons([es[0]] + rest);
      }
    }
  }

  lemma {:induction false} NodesWithinDistinct(ns: seq<string>, keep: set<string>)
    requires Distinct(ns)
    ensures Distinct(NodesWithin(ns, keep))
  {
    if ns != [] {
      assert Distinct(ns[1..]);
      NodesWithinDistinct(ns[1..], keep);
      assert ns[0] !in ns[1..];
    }
  }

  lemma {:induction false} WithoutIncomingAppend(es: seq<Edge>, e: Edge, cut: set<string>)
    ensures WithoutIncoming(es + [e], cut) == WithoutIncoming(es, cut) + (if e.dst in cut then [] else [e])
    decreases |es|
  {
    if es != [] {
      assert (es + [e])[1..] == es[1..] + [e];
      WithoutIncomingAppend(es[1..], e, cut);
    }
  }

  lemma {:induction false} WithoutIncomingNothing(es: seq<Edge>)
    ensures WithoutIncoming(es, {}) == es
  {
    if es != [] {
      WithoutIncomingNothing(es[1..]);
    }
  }

  /** Cutting the incoming edges of one node more, after those of `cut`. */
  lemma {:induction false} WithoutIncomingTwice(es: seq<Edge>, cut: set<string>, n: string)
    ensures WithoutIncoming(WithoutIncoming(es, cut), {n}) == WithoutIncoming(es, cut + {n})
    decreases |es|
  {
    if es != [] {
      WithoutIncomingTwice(es[1..], cut, n);
      var e := es[0];
      var rest := WithoutIncoming(es[1..], cut);
      var both := WithoutIncoming(es[1..], cut + {n});
      if e.dst in cut {
        assert WithoutIncoming(es, cut) == rest;
        assert WithoutIncoming(es, cut + {n}) == both;
      } else {
        var once := [e] + rest;
        assert WithoutIncoming(es, cut) == once;
        assert once[0] == e && once[1..] == rest;
        assert WithoutIncoming(once, {n}) == (if e.dst == n then [] else [e]) + WithoutIncoming(rest, {n});
        assert WithoutIncoming(es, cut + {n}) == (if e.dst == n then [] else [e]) + both;
      }
    }
  }

  /** The graph after each bound node's content has become a constant holding its
      value and its incoming edges have been removed. */
  function Sever(m: Model, b: map<string, Code>): Model {
    Model(m.nodes,
          map n | n in m.content :: if n in b then Var(n, b[n], false) else m.content[n],
          WithoutIncoming(m.edges, b.Keys))
  }

  /** The nodes whose weakly connected component holds a returned node. */
  ghost function KeptNodes(m: Model): set<string> {
    set n | n in m.nodes && exists r :: r in m.nodes && Returned(m, r) && Components.Connected(Pairs(m.edges), n, r)
  }

  /** The subgraph induced by `keep`. */
  function Restrict(m: Model, keep: set<string>): Model {
    Model(NodesWithin(m.nodes, keep), map n | n in m.content && n in keep :: m.content[n], EdgesWithin(m.edges, keep))
  }

  /** do(**bindings): fails when a bound name is not a node; otherwise severs the
      bound nodes and keeps the weakly connected components that hold a returned
      node. The graph itself is a value, so `m` is untouched. */
  ghost function Intervene(m: Model, b: map<string, Code>): (r: Result<Model, GraphError>)
    ensures r.Err? <==> exists n :: n in b && n !in m.nodes
    ensures r.Err? ==> r.error == UnknownNode
  {
    if exists n :: n in b && n !in m.nodes then Err(UnknownNode)
    else
      var s := Sever(m, b);
      Ok(Restrict(s, KeptNodes(s)))
  }

  lemma SeverWellFormed(m: Model, b: map<string, Code>)
    requires WellFormed(m) && forall n :: n in b ==> n in m.nodes
    ensures WellFormed(Sever(m, b))
    ensures forall p :: p in Pairs(Sever(m, b).edges) <==> p in Pairs(m.edges) && p.1 !in b
  {
    var s := Sever(m, b);
    WithoutIncomingUnique(m.edges, b.Keys);
    PairsOfMembers(m.edges, s.edges);
    forall k | 0 <= k < |s.edges|
      ensures s.edges[k].src in s.nodes && s.edges[k].dst in s.nodes
    {
      assert s.edges[k] in m.edges;
      var l :| 0 <= l < |m.edges| && m.edges[l] == s.edges[k];
    }
    SeverPairs(m, b);
  }

  lemma SeverPairs(m: Model, b: map<string, Code>)
    ensures forall p :: p in Pairs(Sever(m, b).edges) <==> p in Pairs(m.edges) && p.1 !in b
  {
    var s := Sever(m, b);
    PairsOfMembers(m.edges, s.edges);
    forall p | p in Pairs(s.edges)
      ensures p.1 !in b
    {
      var k :| 0 <= k < |s.edges| && p == (s.edges[k].src, s.edges[k].dst);
      assert s.edges[k] in s.edges;
    }
    forall p | p in Pairs(m.edges) && p.1 !in b
      ensures p in Pairs(s.edges)
    {
      var k :| 0 <= k < |m.edges| && p == (m.edges[k].src, m.edges[k].dst);
      assert m.edges[k] in s.edges;
      PairsHasMember(s.edges, m.edges[k]);
    }
  }

  lemma EdgesWithinPairs(es: seq<Edge>, keep: set<string>)
    ensures forall p :: p in Pairs(EdgesWithin(es, keep)) <==> p in Pairs(es) && p.0 in keep && p.1 in keep
  {
    var r := EdgesWithin(es, keep);
    forall p | p in Pairs(r)
      ensures p in Pairs(es) && p.0 in keep && p.1 in keep
    {
      var k :| 0 <= k < |r| && p == (r[k].src, r[k].dst);
      assert r[k] in r;
      PairsHasMember(es, r[k]);
    }
    forall p | p in Pairs(es) && p.0 in keep && p.1 in keep
      ensures p in Pairs(r)
    {
      var k :| 0 <= k < |es| && p == (es[k].src, es[k].dst);
      assert es[k] in r;
      PairsHasMember(r, es[k]);
    }
  }

  lemma RestrictWellFormed(m: Model, keep: set<string>)
    requires WellFormed(m)
    ensures WellFormed(Restrict(m, keep))
    ensures forall p :: p in Pairs(Restrict(m, keep).edges) <==> p in Pairs(m.edges) && p.0 in keep && p.1 in keep
  {
    var r := Restrict(m, keep);
    NodesWithinDistinct(m.nodes, keep);
    EdgesWithinUnique(m.edges, keep);
    EdgesWithinPairs(m.edges, keep);
    forall k | 0 <= k < |r.edges|
      ensures r.edges[k].src in r.nodes && r.edges[k].dst in r.nodes
    {
      assert r.edges[k] in r.edges;
      assert r.edges[k] in m.edges;
      var l :| 0 <= l < |m.edges| && m.edges[l] == r.edges[k];
    }
  }

  /** do yields a well-formed graph, with a subset of the original edges, that is
      acyclic when the original is. */
  lemma InterveneWellFormed(m: Model, b: map<string, Code>)
    requires WellFormed(m) && Intervene(m, b).Ok?
    ensures var r := Intervene(m, b).value;
      WellFormed(r) && Pairs(r.edges) <= Pairs(m.edges) && (Acyclic(m) ==> Acyclic(r))
  {
    var s := Sever(m, b);
    SeverWellFormed(m, b);
    RestrictWellFormed(s, KeptNodes(s));
    var r := Intervene(m, b).value;
    if Acyclic(m) {
      AcyclicSubgraph(m, r);
    }
  }

  /** After do, every bound node that survives holds a constant with its bound
      value, is not returned and has no incoming edge; every other surviving node
      keeps its content. */
  lemma InterveneSetsConstants(m: Model, b: map<string, Code>)
    requires WellFormed(m) && Intervene(m, b).Ok?
    ensures var r := Intervene(m, b).value;
      && (forall n :: n in b && n in r.nodes ==>
            r.content[n] == Var(n, b[n], false) && !Returned(r, n) && forall p :: p in Pairs(r.edges) ==> p.1 != n)
      && (forall n :: n in r.nodes && n !in b ==> r.content[n] == m.content[n])
  {
    var s := Sever(m, b);
    SeverWellFormed(m, b);
    RestrictWellFormed(s, KeptNodes(s));
  }

  lemma KeptNodesReturned(s: Model)
    ensures forall n :: n in s.nodes && Returned(s, n) ==> n in KeptNodes(s)
  {
    forall n | n in s.nodes && Returned(s, n)
      ensures n in KeptNodes(s)
    {
      Components.ConnectedRefl(Pairs(s.edges), n);
    }
  }

  lemma KeptNodesClosed(s: Model)
    requires WellFormed(s)
    ensures forall x, y :: (x, y) in Pairs(s.edges) ==> (x in KeptNodes(s) <==> y in KeptNodes(s))
  {
    forall x, y | (x, y) in Pairs(s.edges)
      ensures x in KeptNodes(s) <==> y in KeptNodes(s)
    {
      var k :| 0 <= k < |s.edges| && (x, y) == (s.edges[k].src, s.edges[k].dst);
      KeptAcross(s, x, y);
    }
  }

  /** The two ends of an edge are kept or dropped together. */
  lemma KeptAcross(s: Model, x: string, y: string)
    requires x in s.nodes && y in s.nodes && (x, y) in Pairs(s.edges)
    ensures x in KeptNodes(s) <==> y in KeptNodes(s)
  {
    var E := Pairs(s.edges);
    assert Components.IsWalk(E, [x, y]) && Components.IsWalk(E, [y, x]);
    if x in KeptNodes(s) {
      var r :| r in s.nodes && Returned(s, r) && Components.Connected(E, x, r);
      Components.ConnectedTrans(E, y, x, r);
    }
    if y in KeptNodes(s) {
      var r :| r in s.nodes && Returned(s, r) && Components.Connected(E, y, r);
      Components.ConnectedTrans(E, x, y, r);
    }
  }

  /** do keeps exactly the union of the weakly connected components (of the
      severed graph) that hold a returned node: every returned node stays, an edge
      never joins a kept node to a dropped one, no dropped node is connected to a
      returned node, and the kept nodes keep all the edges among them. */
  lemma InterveneKeepsReturnedComponents(m: Model, b: map<string, Code>)
    requires WellFormed(m) && Intervene(m, b).Ok?
    ensures var s, r := Sever(m, b), Intervene(m, b).value;
      var E := Pairs(s.edges);
      && (forall n :: n in r.nodes ==> n in s.nodes)
      && (forall n :: n in s.nodes && Returned(s, n) ==> n in r.nodes)
      && (forall x, y :: (x, y) in E ==> (x in r.nodes <==> y in r.nodes))
      && (forall n, x :: n in s.nodes && n !in r.nodes && Components.Connected(E, n, x) ==> !Returned(s, x))
      && (forall n :: n in r.nodes <==> n in s.nodes && exists x :: x in s.nodes && Returned(s, x) && Components.Connected(E, n, x))
      && (forall p :: p in Pairs(r.edges) <==> p in E && p.0 in r.nodes && p.1 in r.nodes)
  {
    var s := Sever(m, b);
    SeverWellFormed(m, b);
    EdgesWithinPairs(s.edges, KeptNodes(s));
    KeptNodesReturned(s);
    KeptNodesClosed(s);
  }

  // ---------------------------------------------------------------------------
  // Markov blanket

  /** The predecessors of each node of `cs`, concatenated in the order of `cs`. */
  function CoParents(es: seq<Edge>, cs: seq<string>): seq<string>
    decreases |cs|
  {
    if cs == [] then [] else CoParents(es, cs[..|cs| - 1]) + Parents(es, cs[|cs| - 1])
  }

  /** `s` without the occurrences of `x`. */
  function Without(s: seq<string>, x: string): (r: seq<string>)
    ensures forall y :: y in r <==> y in s && y != x
  {
    if s == [] then [] else (if s[0] == x then [] else [s[0]]) + Without(s[1..], x)
  }

  /** markov_blanket(n): parents, then children, then the children's parents other
      than `n`, as one list (which may repeat a node). */
  function Blanket(m: Model, n: string): (r: Result<seq<string>, GraphError>)
    ensures r.Err? <==> n !in m.nodes
    ensures r.Err? ==> r.error == UnknownNode
  {
    if n !in m.nodes then Err(UnknownNode)
    else
      var children := Children(m.edges, n);
      Ok(Parents(m.edges, n) + children + Without(CoParents(m.edges, children), n))
  }

  lemma {:induction false} CoParentsMembers(es: seq<Edge>, cs: seq<string>)
    ensures forall x :: x in CoParents(es, cs) <==> exists i :: 0 <= i < |cs| && (x, cs[i]) in Pairs(es)
    decreases |cs|
  {
    if cs != [] {
      var init := cs[..|cs| - 1];
      var last := cs[|cs| - 1];
      CoParentsMembers(es, init);
      assert CoParents(es, cs) == CoParents(es, init) + Parents(es, last);
      forall x | (exists i :: 0 <= i < |cs| && (x, cs[i]) in Pairs(es))
        ensures x in CoParents(es, cs)
      {
        var i :| 0 <= i < |cs| && (x, cs[i]) in Pairs(es);
        if i < |init| {
          assert init[i] == cs[i];
        }
      }
      forall x | x in CoParents(es, cs)
        ensures exists i :: 0 <= i < |cs| && (x, cs[i]) in Pairs(es)
      {
        if x in CoParents(es, init) {
          var i :| 0 <= i < |init| && (x, init[i]) in Pairs(es);
          assert cs[i] == init[i];
        } else {
          assert (x, last) in Pairs(es);
        }
      }
    }
  }

  /** The members of the Markov blanket are exactly the parents, the children and
      the children's other parents. */
  lemma BlanketMembers(m: Model, n: string)
    requires Blanket(m, n).Ok?
    ensures var P := Pairs(m.edges);
      forall x :: x in Blanket(m, n).value <==>
        (x, n) in P || (n, x) in P || (x != n && exists c :: (n, c) in P && (x, c) in P)
  {
    var P := Pairs(m.edges);
    var parents := Parents(m.edges, n);
    var children := Children(m.edges, n);
    var co := CoParents(m.edges, children);
    var v := parents + children + Without(co, n);
    assert Blanket(m, n).value == v;
    CoParentsMembers(m.edges, children);
    forall x
      ensures x in v <==> (x, n) in P || (n, x) in P || (x != n && exists c :: (n, c) in P && (x, c) in P)
    {
      assert x in v <==> x in parents || x in children || x in Without(co, n);
      if x in Without(co, n) {
        var i :| 0 <= i < |children| && (x, children[i]) in P;
        assert (n, children[i]) in P;
      }
      if x != n && exists c :: (n, c) in P && (x, c) in P {
        var c :| (n, c) in P && (x, c) in P;
        assert c in children;
        var i :| 0 <= i < |children| && children[i] == c;
        assert x in co;
      }
    }
  }

  /** In an acyclic graph a node is never in its own Markov blanket. */
  lemma BlanketExcludesSelf(m: Model, n: string)
    requires Acyclic(m) && Blanket(m, n).Ok?
    ensures n !in Blanket(m, n).value
  {
    AcyclicNoSelfLoop(m, n);
    BlanketMembers(m, n);
  }

  // ---------------------------------------------------------------------------
  // The mutable graph

  /** What remains of `es` once the edges into `n` are removed one at a time. */
  method CutIncoming(es: seq<Edge>, n: string) returns (r: seq<Edge>)
    ensures r == WithoutIncoming(es, {n})
  {
    r := [];
    var i := 0;
    while i < |es|
      invariant 0 <= i <= |es|
      invariant r == WithoutIncoming(es[..i], {n})
    {
      WithoutIncomingAppend(es[..i], es[i], {n});
      assert es[..i + 1] == es[..i] + [es[i]];
      if es[i].dst != n {
        r := r + [es[i]];
      }
      i := i + 1;
    }
    assert es[..i] == es;
  }

  /** Binding one more node `n` to `v`. */
  lemma SeverStep(m: Model, d: map<string, Code>, n: string, v: Code)
    requires n in m.content
    ensures var s := Sever(m, d);
      Sever(m, d[n := v]) == s.(content := s.content[n := Var(n, v, false)], edges := WithoutIncoming(s.edges, {n}))
  {
    WithoutIncomingTwice(m.edges, d.Keys, n);
    assert d[n := v].Keys == d.Keys + {n};
  }

  lemma SeverNothing(m: Model)
    ensures Sever(m, map[]) == m
  {
    WithoutIncomingNothing(m.edges);
    var none: map<string, Code> := map[];
    assert none.Keys == {};
  }

  /** One iteration of the bindings loop: `n` becomes a constant holding `v` and
      loses its incoming edges. */
  method SeverOne(ghost m: Model, ghost d: map<string, Code>, cs: map<string, Content>, es: seq<Edge>, n: string, v: Code)
    returns (cs': map<string, Content>, es': seq<Edge>)
    requires n in m.content && Model(m.nodes, cs, es) == Sever(m, d)
    ensures Model(m.nodes, cs', es') == Sever(m, d[n := v])
  {
    SeverStep(m, d, n, v);
    cs' := cs[n := Var(n, v, false)];
    es' := CutIncoming(es, n);
  }

  /** The bindings loop of do on a copy of `m`: each bound node becomes a constant
      and loses its incoming edges; a bound name that is not a node fails. */
  method SeverBindings(m: Model, bindings: map<string, Code>) returns (r: Result<Model, GraphError>)
    requires forall n :: n in m.nodes ==> n in m.content
    ensures r.Err? <==> exists n :: n in bindings && n !in m.nodes
    ensures r.Err? ==> r.error == UnknownNode
    ensures r.Ok? ==> r.value == Sever(m, bindings)
  {
    var cs, es := m.content, m.edges;
    ghost var done: map<string, Code> := map[];
    SeverNothing(m);
    var todo := bindings.Keys;
    while todo != {}
      invariant todo <= bindings.Keys
      invariant done.Keys == bindings.Keys - todo
      invariant forall n :: n in done ==> n in m.nodes && done[n] == bindings[n]
      invariant Model(m.nodes, cs, es) == Sever(m, done)
      decreases |todo|
    {
      var n :| n in todo;
      if n !in m.nodes {
        assert n in bindings && n !in m.nodes;
        return Err(UnknownNode);
      }
      cs, es := SeverOne(m, done, cs, es, n, bindings[n]);
      done := done[n := bindings[n]];
      todo := todo - {n};
    }
    assert done.Keys == bindings.Keys;
    assert done == bindings;
    assert forall n :: n in bindings ==> n in m.nodes;
    return Ok(Model(m.nodes, cs, es));
  }

  /** The component loop of do: the nodes of the weakly connected components that
      hold a returned node. */
  method ReturnedComponents(s: Model) returns (keep: set<string>)
    requires WellFormed(s)
    ensures keep == KeptNodes(s)
  {
    var E := Pairs(s.edges);
    forall e | e in E
      ensures e.0 in s.nodes && e.1 in s.nodes
    {
      var k :| 0 <= k < |s.edges| && e == (s.edges[k].src, s.edges[k].dst);
    }
    var R := set r | r in s.nodes && Returned(s, r);
    keep := Components.ComponentsMeeting(s.nodes, E, R);
  }

  /** The argument loop of add_transformation / add_randvar: links every string
      entry of `args` to `dst`, checking each against `ns`, and stops at the
      first that is not there. */
  method LinkAll(ns: seq<string>, es: seq<Edge>, args: seq<Operand>, dst: string) returns (r: Result<seq<Edge>, GraphError>)
    ensures r.Ok? <==> FirstUndefined(ns, args).None?
    ensures r.Ok? ==> r.value == Link(es, args, dst)
    ensures r.Err? ==> r.error == UndefinedReference(FirstUndefined(ns, args).value, dst)
  {
    var acc := es;
    var i := 0;
    while i < |args|
      invariant 0 <= i <= |args|
      invariant forall j :: 0 <= j < i && args[j].Ref? ==> args[j].ref in ns
      invariant acc == Link(es, args[..i], dst)
    {
      assert args[..i + 1][..i] == args[..i];
      match args[i] {
        case Ref(a) =>
          if a !in ns {
            ghost var f := FirstUndefined(ns, args);
            ghost var k :| 0 <= k < |args| && args[k] == Ref(f.value) && f.value !in ns &&
                           forall j :: 0 <= j < k && args[j].Ref? ==> args[j].ref in ns;
            assert k == i;
            return Err(UndefinedReference(a, dst));
          }
          acc := LinkOne(acc, a, dst, i);
        case Literal(_) =>
      }
      i := i + 1;
    }
    assert args[..i] == args;
    return Ok(acc);
  }

  /** The graph the program builds and queries (a directed graph of the graph
      library, each node carrying its content). */
  class GraphicalModel {
    var nodes: seq<string>
    var content: map<string, Content>
    var edges: seq<Edge>

    function View(): Model
      reads this
    {
      Model(nodes, content, edges)
    }

    ghost predicate Valid()
      reads this
    {
      WellFormed(View())
    }

    /** An empty graph. */
    constructor ()
      ensures View() == Model([], map[], []) && Valid()
    {
      nodes, content, edges := [], map[], [];
    }

    /** A graph holding `m`, as the subgraph the do-operator returns. */
    constructor Of(m: Model)
      ensures View() == m
    {
      nodes, content, edges := m.nodes, m.content, m.edges;
    }

    method AddArgument(name: string)
      requires Valid()
      modifies this
      ensures View() == AddNode(old(View()), Argument(name, false)) && Valid()
    {
      AddNodeWellFormed(View(), Argument(name, false));
      nodes, content := AppendNew(nodes, name), content[name := Argument(name, false)];
    }

    method AddVariable(name: string, value: Code, isReturned: bool)
      requires Valid()
      modifies this
      ensures View() == AddNode(old(View()), Var(name, value, isReturned)) && Valid()
    {
      AddNodeWellFormed(View(), Var(name, value, isReturned));
      nodes, content := AppendNew(nodes, name), content[name := Var(name, value, isReturned)];
    }

    /** Links every string entry of `c.args` to the node `c.name`, checking each
        against the nodes present on entry, and commits only when all are defined. */
    method Define(c: Content) returns (r: Outcome<GraphError>)
      requires Valid() && (c.Transformation? || c.RandVar?)
      modifies this
      ensures AddOp(old(View()), c).Ok? ==> r.Pass? && View() == AddOp(old(View()), c).value && Valid()
      ensures AddOp(old(View()), c).Err? ==> r == Fail(AddOp(old(View()), c).error) && View() == old(View())
    {
      var linked := LinkAll(nodes, edges, c.args, c.name);
      if linked.Err? {
        return Fail(linked.error);
      }
      AddOpWellFormed(View(), c);
      nodes, content, edges := AppendNew(nodes, c.name), content[c.name := c], linked.value;
      return Pass;
    }

    method AddTransformation(name: string, expression: Code, args: seq<Operand>, isReturned: bool)
      returns (r: Outcome<GraphError>)
      requires Valid()
      modifies this
      ensures var c := Transformation(name, expression, args, isReturned);
        && (AddOp(old(View()), c).Ok? ==> r.Pass? && View() == AddOp(old(View()), c).value && Valid())
        && (AddOp(old(View()), c).Err? ==> r == Fail(AddOp(old(View()), c).error) && View() == old(View()))
    {
      r := Define(Transformation(name, expression, args, isReturned));
    }

    method AddRandVar(name: string, distribution: Code, args: seq<Operand>, isReturned: bool)
      returns (r: Outcome<GraphError>)
      requires Valid()
      modifies this
      ensures var c := RandVar(name, distribution, args, isReturned);
        && (AddOp(old(View()), c).Ok? ==> r.Pass? && View() == AddOp(old(View()), c).value && Valid())
        && (AddOp(old(View()), c).Err? ==> r == Fail(AddOp(old(View()), c).error) && View() == old(View()))
    {
      r := Define(RandVar(name, distribution, args, isReturned));
    }

    method MarkAsReturned(name: string) returns (r: Outcome<GraphError>)
      requires Valid()
      modifies this
      ensures MarkReturned(old(View()), name).Ok? ==> r.Pass? && View() == MarkReturned(old(View()), name).value && Valid()
      ensures MarkReturned(old(View()), name).Err? ==> r == Fail(KeyNotFound(name)) && View() == old(View())
    {
      if name !in content {
        return Fail(KeyNotFound(name));
      }
      MarkReturnedEffect(View(), name);
      content := content[name := content[name].(isReturned := true)];
      return Pass;
    }

    /** The do-operator: a new graph, this one unchanged. */
    method Do(bindings: map<string, Code>) returns (r: Result<GraphicalModel, GraphError>)
      requires Valid()
      ensures Intervene(View(), bindings).Err? ==> r == Err(UnknownNode)
      ensures Intervene(View(), bindings).Ok? ==>
        r.Ok? && fresh(r.value) && r.value.View() == Intervene(View(), bindings).value && r.value.Valid()
    {
      var s :- SeverBindings(View(), bindings);
      SeverWellFormed(View(), bindings);
      var keep := ReturnedComponents(s);
      RestrictWellFormed(s, keep);
      var g := new GraphicalModel.Of(Restrict(s, keep));
      return Ok(g);
    }

    method MarkovBlanket(name: string) returns (r: Result<seq<string>, GraphError>)
      ensures r == Blanket(View(), name)
    {
      if name !in nodes {
        return Err(UnknownNode);
      }
      var children := Children(edges, name);
      var childrenParents := [];
      var i := 0;
      while i < |children|
        invariant 0 <= i <= |children|
        invariant childrenParents == CoParents(edges, children[..i])
      {
        assert children[..i + 1][..i] == children[..i];
        childrenParents := childrenParents + Parents(edges, children[i]);
        i := i + 1;
      }
      assert children[..i] == children;
      return Ok(Parents(edges, name) + children + Without(childrenParents, name));
    }
  }
}
