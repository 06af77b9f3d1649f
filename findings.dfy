/**
 * add_transformation / add_randvar as mcx/core/graph.py writes them: each string
 * entry is checked against the nodes present at that moment, and the add_edge
 * that links it also creates the new node (without content). Two consequences,
 * exhibited below on concrete graphs: a node may reference itself once an earlier
 * entry has created it, and a failure leaves the edges added so far and a node
 * without content behind. `Graph.AddOp`, used by the class, is the corrected
 * operation.
 */
module Findings {
  import opened Wrappers
  import opened Syntax
  import opened Graph

  /** The argument loop as written: the state after the entries of `args` and
      whether an undefined name stopped it. */
  function Scan(m: Model, args: seq<Operand>, dst: string): (r: (Model, Outcome<GraphError>))
    ensures r.0.content == m.content
    ensures forall x :: x in m.nodes ==> x in r.0.nodes
    decreases |args|
  {
    if args == [] then (m, Pass)
    else
      var prev := Scan(m, args[..|args| - 1], dst);
      var st := prev.0;
      if prev.1.Fail? then prev
      else
        match args[|args| - 1]
        case Literal(_) => prev
        case Ref(a) =>
          if a in st.nodes then (Model(AppendNew(st.nodes, dst), st.content, LinkOne(st.edges, a, dst, |args| - 1)), Pass)
          else (st, Fail(UndefinedReference(a, dst)))
  }

  /** add_transformation / add_randvar as written: the argument loop, then
      add_node with the content. */
  function AddOpAsWritten(m: Model, c: Content): (r: (Model, Outcome<GraphError>))
    requires c.Transformation? || c.RandVar?
    ensures r.1.Pass? ==> r.0.content == m.content[c.name := c]
  {
    var (st, o) := Scan(m, c.args, c.name);
    if o.Fail? then (st, o)
    else (st.(nodes := AppendNew(st.nodes, c.name), content := st.content[c.name := c]), Pass)
  }

  /** When every string entry names a node present on entry, the as-written loop
      builds the same edges as the corrected one and adds at most the new node. */
  lemma {:induction false} ScanDefined(m: Model, args: seq<Operand>, dst: string)
    requires forall i :: 0 <= i < |args| && args[i].Ref? ==> args[i].ref in m.nodes
    ensures Scan(m, args, dst).1.Pass?
    ensures Scan(m, args, dst).0.edges == Link(m.edges, args, dst)
    ensures Scan(m, args, dst).0.nodes == m.nodes || Scan(m, args, dst).0.nodes == AppendNew(m.nodes, dst)
    decreases |args|
  {
    if args != [] {
      var init := args[..|args| - 1];
      assert forall i :: 0 <= i < |init| ==> init[i] == args[i];
      ScanDefined(m, init, dst);
    }
  }

  /** Whenever the corrected operation succeeds, the code as written yields the
      same graph. */
  lemma AddOpAgrees(m: Model, c: Content)
    requires c.Transformation? || c.RandVar?
    requires AddOp(m, c).Ok?
    ensures AddOpAsWritten(m, c) == (AddOp(m, c).value, Pass)
  {
    ScanDefined(m, c.args, c.name);
  }

  const a0: Model := Model(["a"], map["a" := Argument("a", false)], [])

  /** The state after the entry "a" of the examples below. */
  lemma LinkedA()
    ensures Scan(a0, [Ref("a")], "t") == (Model(["a", "t"], a0.content, [Edge("a", "t", Positional([0]))]), Pass)
  {
    assert [Ref("a")][..0] == [];
    assert Scan(a0, [], "t") == (a0, Pass);
    assert "t" !in a0.nodes;
    assert AppendNew(a0.nodes, "t") == ["a", "t"];
    assert FindEdge([], "a", "t") == None;
    assert LinkOne([], "a", "t", 0) == [Edge("a", "t", Positional([0]))];
  }

  /** Self-reference: with node "a" defined, t = f(a, t) is accepted as written,
      because linking "a" already created "t"; the result has the edge t -> t and
      is no longer acyclic. The corrected operation rejects it. */
  lemma SelfReferenceAccepted()
    ensures var c := Transformation("t", Code("f"), [Ref("a"), Ref("t")], false);
      var (g, o) := AddOpAsWritten(a0, c);
      && o.Pass? && ("t", "t") in Pairs(g.edges) && !Acyclic(g)
      && AddOp(a0, c) == Err(UndefinedReference("t", "t"))
  {
    var c := Transformation("t", Code("f"), [Ref("a"), Ref("t")], false);
    LinkedA();
    assert c.args[..1] == [Ref("a")];
    assert FindEdge([Edge("a", "t", Positional([0]))], "t", "t") == None;
    var g := AddOpAsWritten(a0, c).0;
    assert g.edges == [Edge("a", "t", Positional([0])), Edge("t", "t", Positional([1]))];
    assert g.edges[1] == Edge("t", "t", Positional([1]));
    assert ("t", "t") in Pairs(g.edges);
    assert IsPath(Pairs(g.edges), ["t", "t"]);
  }

  /** Partial failure: with node "a" defined, t = f(a, b) fails on "b" as
      written, but leaves the edge a -> t and a node "t" without content, so the
      graph is no longer well formed. The corrected operation changes nothing. */
  lemma FailureLeavesPartialState()
    ensures var c := Transformation("t", Code("f"), [Ref("a"), Ref("b")], false);
      var (g, o) := AddOpAsWritten(a0, c);
      && o == Fail(UndefinedReference("b", "t"))
      && "t" in g.nodes && "t" !in g.content && ("a", "t") in Pairs(g.edges) && !WellFormed(g)
      && AddOp(a0, c) == Err(UndefinedReference("b", "t"))
  {
    var c := Transformation("t", Code("f"), [Ref("a"), Ref("b")], false);
    LinkedA();
    assert c.args[..1] == [Ref("a")];
    var g := AddOpAsWritten(a0, c).0;
    assert g == Scan(a0, [Ref("a")], "t").0;
    assert g.edges[0] == Edge("a", "t", Positional([0]));
    assert ("a", "t") in Pairs(g.edges);
  }

  /** Redefinition: after an argument a and b = f(a), redefining a = g(b) is
      accepted, by the code and by the corrected operation alike (every
      reference exists), and closes the cycle a -> b -> a. Acyclicity is kept
      only under a new name, as `AddOpAcyclic` requires. */
  lemma RedefinitionClosesCycle()
    ensures var b := Transformation("b", Code("f"), [Ref("a")], false);
      var a := Transformation("a", Code("g"), [Ref("b")], false);
      && AddOp(a0, b).Ok? && AddOp(AddOp(a0, b).value, a).Ok?
      && ("a", "b") in Pairs(AddOp(AddOp(a0, b).value, a).value.edges)
      && ("b", "a") in Pairs(AddOp(AddOp(a0, b).value, a).value.edges)
      && !Acyclic(AddOp(AddOp(a0, b).value, a).value)
  {
    var b := Transformation("b", Code("f"), [Ref("a")], false);
    var a := Transformation("a", Code("g"), [Ref("b")], false);
    assert b.args[0] == Ref("a");
    AddOpEdges(a0, b);
    var m1 := AddOp(a0, b).value;
    assert "b" in m1.nodes && a.args[0] == Ref("b");
    AddOpEdges(m1, a);
    var m2 := AddOp(m1, a).value;
    assert ("a", "b") in Pairs(m1.edges);
    assert ("a", "b") in Pairs(m2.edges) && ("b", "a") in Pairs(m2.edges);
    assert IsPath(Pairs(m2.edges), ["a", "b", "a"]);
  }

  /** The failure of markov_blanket as written: an unknown node, or the call of
      the successor mapping `self.succ` at mcx/core/graph.py:80, which is a
      mapping of the graph library and cannot be called. */
  datatype BlanketFailure = Unknown | NotCallable

  /** markov_blanket as written: the name check, then `self.succ(var_name)`,
      which raises for every node that passes the check. */
  function MarkovBlanketAsWritten(m: Model, n: string): (r: Result<seq<string>, BlanketFailure>)
    ensures r.Err?
    ensures r.error == NotCallable <==> n in m.nodes
  {
    if n !in m.nodes then Err(Unknown) else Err(NotCallable)
  }

  /** As written, the blanket of a present node is never returned, while the
      corrected query (`Blanket`, successors read as the node's children) returns
      its parents, children and co-parents. */
  lemma BlanketAsWrittenFails(m: Model, n: string)
    requires n in m.nodes
    ensures MarkovBlanketAsWritten(m, n) == Err(NotCallable)
    ensures Blanket(m, n).Ok? && forall x :: (n, x) in Pairs(m.edges) ==> x in Blanket(m, n).value
  {
    BlanketMembers(m, n);
  }
}
