# Model graph and compiler of a probabilistic-programming core

This project models the two central pieces of the `mcx` library and proves
properties of the model in Dafny.

- **The model graph** (`mcx/core/graph.py`, module `Graph`). A directed graph of
  named nodes. Each node carries a content: an argument, a constant (`Var`), a
  deterministic transformation or a random variable. Each edge records how the
  target binds the source's value, in positional slots or under keywords.
  - The first half of the module holds the graph as a value (`Graph.Model`), the
    operations as functions, and their properties as lemmas.
  - The class `Graph.GraphicalModel` is the mutable object the program uses. Its
    methods change the fields `nodes`, `content` and `edges` in place, and each is
    proved against the matching function. The operations are `add_argument`,
    `add_variable`, `add_transformation`, `add_randvar`, `mark_as_returned`,
    `do` (an intervention that returns a new graph) and `markov_blanket`.
- **Weak connectivity** (module `Components`). `do` asks the graph library for
  the weakly connected components. That library is not part of this model, so the
  module writes a work-list search and proves it computes exactly the members
  connected to a returned node.
- **The compiler** (`mcx/core/compiler.py`, module `Compiler`). It lowers a graph
  to a function definition:
  - the parameter list comes in four groups;
  - the body has one assignment per named constant or operation, in topological
    order, followed by the returns;
  - `compile_op` expands an operation recursively, inlining unnamed predecessors
    and ordering positional operands by slot.
- **The as-written code** (module `Findings`). This is `add_transformation` and
  `add_randvar` as the code writes them, with concrete graphs that show where that
  differs from the intended operation (see "## Findings"). Its edges carry the
  typed slots of the model's edges, which the code does not store (see
  "## Left out"). The module also holds `markov_blanket` as written.

Modelling choices:
- Expressions are an opaque datatype (`Syntax.Expr`): a name reference, or an
  opaque generator applied to positional and keyword operands. Source text and
  generators are the opaque `Syntax.Code`.
- The compiler's graph (`Compiler.Dag`) numbers its nodes, and the numbering
  serves twice. It is the insertion order, which the parameter groups follow.
  It is also assumed to be a topological numbering: every edge goes from a lower
  to a higher number. This assumption makes the recursion of `compile_op`
  terminate by construction, which is the acyclicity the code relies on. Graphs
  where the two orders differ are excluded (see "## Left out").
- A node's predecessors are the edges into it, in edge-list order.
- The topological order the graph library computes is a parameter, checked by
  `Compiler.IsTopologicalOrder`.
- The graph module's graph keeps its edges in insertion order. At most one edge
  joins a given ordered pair, as in the graph library.
- Errors are values:
  - `Graph.GraphError`: an undefined reference, an unknown node, or a missing
    key for `mark_as_returned`;
  - `Compiler.CompileError`: a duplicate positional slot.

Where the code and its own comments and docstrings disagree, or the code does
something a reader may not expect, the model follows the code:
- **Parameter order.** The comment at `mcx/core/compiler.py:11-14` says random
  variables come before the model's arguments, in model order. The code at line
  37 puts the positional arguments first, and line 22 lists the random variables
  in reverse. `Compiler.ParamOrder` follows the code.
- **rng_key listed twice.** A placeholder named `rng_key` that is also a random
  variable is in two groups (lines 15-24). It is therefore listed twice, which
  `Compiler.ParamOrderOnce` states.
- **Returns.** Only named operations can be returned (lines 71-76). A returned
  constant gets an assignment and no return statement.
- **Markov blanket.** The code returns a list, which may repeat a node
  (`mcx/core/graph.py:87`). The list is modelled; `Graph.BlanketMembers` states
  its members.

## Model

| member | source | states |
|---|---|---|
| `Graph.Parents` | mcx/core/graph.py:79 | the predecessors listed are exactly the sources of edges into the node |
| `Graph.Children` | mcx/core/graph.py:80 | the successors listed are exactly the targets of edges out of the node |
| `Graph.AddNode` | mcx/core/graph.py:89-93 | adding a node yields exactly the old names plus the new one; the new content is stored under its name, every other content is kept, and the edges are unchanged |
| `Graph.AddNodeWellFormed` | mcx/core/graph.py:89-93 | adding or replacing a node keeps the graph well formed, and acyclic when it was |
| `Graph.GraphicalModel.AddArgument` | mcx/core/graph.py:89-90 | the graph becomes `AddNode` of the old graph and an `Argument` content, and stays well formed |
| `Graph.GraphicalModel.AddVariable` | mcx/core/graph.py:92-93 | the graph becomes `AddNode` of the old graph and a `Var` content with the given value and flag, and stays well formed |
| `Graph.FirstUndefined` | mcx/core/graph.py:96-105 | none is found exactly when every string entry names a node; otherwise it finds the first string entry that is not a node |
| `Graph.AddOp` | mcx/core/graph.py:95-119 | construction fails exactly when some string entry is not a node, with an error naming an undefined reference and the new node |
| `Graph.LinkPairs` | mcx/core/graph.py:96-99 | linking adds exactly the pairs from each string entry's node to the new node and no other pair (a node named twice adds one pair), and keeps pairs unique |
| `Graph.AddOpEdges` | mcx/core/graph.py:95-119 | after a successful construction, the edges are the old ones plus one from each referenced node to the new node, literal entries add none, and the new node holds its content |
| `Graph.AddOpWellFormed` | mcx/core/graph.py:95-119 | a successful construction keeps the graph well formed |
| `Graph.AddOpAcyclic` | mcx/core/graph.py:95-119 | defining a node under a new name keeps an acyclic graph acyclic |
| `Graph.LinkSlotsFresh` | mcx/core/graph.py:96-99 | when the new node had no incoming edge, each edge into it binds its source in exactly the argument positions that name that source |
| `Graph.AddOpSlots` | mcx/core/graph.py:96-99 | every edge a construction gives the new node records exactly the positions of the arguments that reference its source |
| `Graph.LinkAll` | mcx/core/graph.py:96-105 | the argument loop succeeds exactly when every string entry is a node, then yields the linked edges; otherwise it fails on the first undefined entry |
| `Graph.GraphicalModel.Define` | mcx/core/graph.py:95-119 | on success the graph becomes `AddOp` of the old graph and stays well formed; on failure the error is `AddOp`'s and the graph is unchanged |
| `Graph.GraphicalModel.AddTransformation` | mcx/core/graph.py:95-106 | as `Define`, for a transformation content |
| `Graph.GraphicalModel.AddRandVar` | mcx/core/graph.py:108-119 | as `Define`, for a random-variable content |
| `Graph.MarkReturned` | mcx/core/graph.py:121-122 | fails exactly when the name is not a node, with a key error for that name |
| `Graph.MarkReturnedEffect` | mcx/core/graph.py:121-122 | the graph stays well formed and acyclic; the node becomes returned; every other node's flag, every other part of the content, the nodes and the edges are unchanged |
| `Graph.GraphicalModel.MarkAsReturned` | mcx/core/graph.py:121-122 | the graph becomes `MarkReturned` of the old graph, or stays unchanged with a key error when the name is not a node |
| `Graph.WithoutIncoming` | mcx/core/graph.py:52-54 | the remaining edges are exactly those whose target is not cut |
| `Graph.CutIncoming` | mcx/core/graph.py:52-54 | removing a node's incoming edges one at a time leaves exactly the edges with another target |
| `Graph.SeverOne` | mcx/core/graph.py:50-54 | one binding step turns the node into a constant holding its value and removes its incoming edges |
| `Graph.SeverBindings` | mcx/core/graph.py:45-54 | the bindings loop fails exactly when a bound name is not a node, and otherwise yields the copy with every bound node severed |
| `Graph.SeverWellFormed` | mcx/core/graph.py:45-54 | severing keeps the graph well formed |
| `Graph.SeverPairs` | mcx/core/graph.py:52-54 | after severing, the edges left are exactly the old edges whose target is not a bound node |
| `Graph.Intervene` | mcx/core/graph.py:45-48 | `do` fails exactly when some bound name is not a node, with the unknown-node error |
| `Graph.InterveneWellFormed` | mcx/core/graph.py:33-68 | the result of `do` is well formed, has a subset of the original edges, and is acyclic when the original is |
| `Graph.InterveneSetsConstants` | mcx/core/graph.py:50-54 | every surviving bound node holds a constant with its bound value, is not returned, and has no incoming edge; every other surviving node keeps its content |
| `Graph.InterveneKeepsReturnedComponents` | mcx/core/graph.py:59-66 | `do` keeps exactly the nodes weakly connected to a returned node, so it keeps every returned node and drops every other component; an edge never joins a kept node to a dropped one; the kept nodes keep every edge among them |
| `Components.Component` | mcx/core/graph.py:60 | the search returns exactly the nodes weakly connected to the start node |
| `Components.Visit` | mcx/core/graph.py:61-64 | adding one component keeps the seen set closed under adjacency, and keeps the invariant that a seen node is kept exactly when it is connected to a returned node |
| `Components.ComponentsMeeting` | mcx/core/graph.py:59-64 | the kept nodes are exactly those connected to some returned node |
| `Graph.ReturnedComponents` | mcx/core/graph.py:59-64 | the component loop keeps exactly the nodes whose weakly connected component holds a returned node |
| `Graph.GraphicalModel.Do` | mcx/core/graph.py:33-68 | `do` fails exactly when `Intervene` does; otherwise it returns a new, well-formed graph equal to `Intervene` of this one, and this graph is not modified |
| `Graph.Blanket` | mcx/core/graph.py:76-77 | the query fails exactly when the name is not a node |
| `Graph.CoParentsMembers` | mcx/core/graph.py:82-84 | the concatenated predecessor lists hold exactly the predecessors of the listed children |
| `Graph.BlanketMembers` | mcx/core/graph.py:76-87 | the blanket's members are exactly the parents, the children, and the children's other parents except the node itself |
| `Graph.BlanketExcludesSelf` | mcx/core/graph.py:76-87 | in an acyclic graph a node is never in its own blanket |
| `Graph.GraphicalModel.MarkovBlanket` | mcx/core/graph.py:70-87 | the loop over the children returns exactly `Blanket` of the graph, and the graph is not modified |
| `Findings.Scan` | mcx/core/graph.py:96-105 | the argument loop as written never changes any content and never loses a node |
| `Findings.AddOpAsWritten` | mcx/core/graph.py:95-106 | a successful as-written construction attaches the new content |
| `Findings.ScanDefined` | mcx/core/graph.py:96-105 | when every string entry names a node present on entry, the as-written loop succeeds and builds the corrected edges |
| `Findings.AddOpAgrees` | mcx/core/graph.py:95-119 | whenever the corrected construction succeeds, the code as written yields the same graph |
| `Findings.SelfReferenceAccepted` | mcx/core/graph.py:96-106 | as written, `t = f(a, t)` is accepted once `a` exists, leaving the edge t -> t and a cyclic graph; the corrected operation rejects it |
| `Findings.RedefinitionClosesCycle` | mcx/core/graph.py:89-106 | after `a` and `b = f(a)`, redefining `a = g(b)` is accepted by the code and by the corrected operation, and leaves the cycle a -> b -> a |
| `Findings.MarkovBlanketAsWritten` | mcx/core/graph.py:76-80 | as written, the query fails for every name: unknown names at the check, present ones at the call of `self.succ` |
| `Findings.BlanketAsWrittenFails` | mcx/core/graph.py:76-87 | for a present node the as-written query fails, while the corrected `Blanket` returns a list holding at least every child |
| `Findings.FailureLeavesPartialState` | mcx/core/graph.py:96-106 | as written, a failure on the second entry leaves an edge and a node without content, so the graph is no longer well formed; the corrected operation fails with nothing changed |
| `Compiler.Into` | mcx/core/compiler.py:102 | the predecessor edges of a node are exactly the edges into it |
| `Compiler.Select` | mcx/core/compiler.py:15-36 | each selected position is in range and satisfies the group's condition |
| `Compiler.SelectSpec` | mcx/core/compiler.py:15-36 | a group lists exactly the positions of the nodes satisfying its condition, in ascending (insertion) order |
| `Compiler.ParamOrder` | mcx/core/compiler.py:15-37 | every parameter position names a node of the graph |
| `Compiler.ParamOrderOnce` | mcx/core/compiler.py:15-37 | every placeholder is a parameter exactly once (twice for an rng_key that is a random variable), and no other node is one |
| `Compiler.RandomVariablesReversed` | mcx/core/compiler.py:20-24 | of two random variables, the one added later comes first |
| `Compiler.ArgumentsBeforeRandomVariables` | mcx/core/compiler.py:25-37 | every positional argument comes before every random variable |
| `Compiler.PlaceholderExpr` | mcx/core/compiler.py:142-148 | a placeholder compiles to its own generator with exactly one operand per predecessor and no keyword operand |
| `Compiler.Defaults` | mcx/core/compiler.py:144-146 | the k-th default is the k-th predecessor's generator called without operands |
| `Compiler.CompileDefaults` | mcx/core/compiler.py:144-146 | the append loop builds exactly those defaults |
| `Compiler.CompilePlaceholder` | mcx/core/compiler.py:142-148 | the placeholder compiles to `PlaceholderExpr` |
| `Compiler.CompilePlaceholders` | mcx/core/compiler.py:15-36 | compiling the placeholders in turn gives, at each position, that placeholder's `PlaceholderExpr` |
| `Compiler.CompileParams` | mcx/core/compiler.py:15-37 | the parameter list holds, at each position of `ParamOrder`, that placeholder compiled by `PlaceholderExpr`; with `ParamOrderOnce`, `RandomVariablesReversed` and `ArgumentsBeforeRandomVariables` this is every placeholder once, except an rng_key random variable, which is listed twice, in the code's four groups |
| `Compiler.SortedKeys` | mcx/core/compiler.py:137 | the sorted keys hold exactly the members of the set |
| `Compiler.SortedKeysSpec` | mcx/core/compiler.py:137 | the sorted keys ascend strictly and list each member once |
| `Compiler.Ordered` | mcx/core/compiler.py:137 | there is one operand per slot; the slots, listed in strictly ascending order, are exactly the stored ones, and the i-th operand is the one stored under the i-th smallest slot |
| `Compiler.Claim` | mcx/core/compiler.py:128-132 | claiming succeeds exactly when the slots are distinct and none was taken; then the claimed slots hold the operand and the others keep theirs; a failure names the node |
| `Compiler.ClaimSlots` | mcx/core/compiler.py:129-132 | the slot loop with its duplicate check computes `Claim` |
| `Compiler.Bind` | mcx/core/compiler.py:133-135 | the bound keys are the old ones plus the edge's, each new one holding the operand |
| `Compiler.BindKeys` | mcx/core/compiler.py:134-135 | the keyword loop computes `Bind` |
| `Compiler.GatherOk` | mcx/core/compiler.py:102-135 | the predecessor loop completes exactly when every operand compiles and no slot is claimed twice or already taken; with all operands compiled, a failure is a duplicate slot of this node |
| `Compiler.GatherSlots` | mcx/core/compiler.py:128-132 | after the loop, the slots taken are the earlier ones plus every claimed one, earlier slots keep their operand, and each claimed slot holds the operand of the edge that claimed it |
| `Compiler.GatherKeywords` | mcx/core/compiler.py:133-135 | after the loop, a key is bound exactly when bound before or by some edge, and holds the operand of the last edge that binds it |
| `Compiler.ExpandOk` | mcx/core/compiler.py:96-139 | `compile_op` succeeds exactly when every operand compiles and no slot of the node is claimed twice; with all operands compiled, a failure is a duplicate slot of this node |
| `Compiler.ExpandPositional` | mcx/core/compiler.py:128-137 | the positional operands come in ascending slot order whatever the predecessor order: the i-th is the operand of the edge that claims the i-th smallest slot |
| `Compiler.ExpandKeywords` | mcx/core/compiler.py:133-139 | a keyword operand is present exactly when some predecessor edge binds it, and the last such edge visited wins |
| `Compiler.ExpandOperands` | mcx/core/compiler.py:102-139 | every positional or keyword operand of a compiled operation is the operand of one of its predecessors |
| `Compiler.ExpandMentionsEarlier` | mcx/core/compiler.py:108-114 | a name in the expansion of a node is the name of a node earlier in the topological order, however many unnamed operations were inlined in between |
| `Compiler.CompileOp` | mcx/core/compiler.py:96-139 | the predecessor loop, with names referenced and unnamed predecessors compiled recursively, computes `Expand` |
| `Compiler.AssignmentsOk` | mcx/core/compiler.py:44-69 | the body compiles exactly when every operation it assigns compiles |
| `Compiler.AssignmentsSpec` | mcx/core/compiler.py:44-69 | the body has exactly one assignment per named constant or operation; they come in topological order, and each targets that node's name with its compiled value |
| `Compiler.ReturnsSpec` | mcx/core/compiler.py:71-76 | there is exactly one return per named, returned operation, in topological order |
| `Compiler.OrderCovers` | mcx/core/compiler.py:44 | a topological order lists every node of the graph |
| `Compiler.AssignmentsRespectDependencies` | mcx/core/compiler.py:39-69 | no assignment refers to a name before it is bound: every name in an assigned value is a placeholder's name (a parameter) or the target of an earlier assignment |
| `Compiler.CompileBody` | mcx/core/compiler.py:42-76 | the walk over the order fails with the error of `Assignments`, or returns exactly its assignments and the returns |
| `Compiler.CompileGraph` | mcx/core/compiler.py:8-87 | the function definition has the given name and the parameters `Params`; its body is the assignments followed by all the returns |

## Left out

- The syntax-tree library, `.code` rendering and `exec` into a namespace
  (`mcx/core/compiler.py:50-58, 61-67, 73-75, 79-93`): statements and expressions
  are abstract datatypes, and `compile_graph` returns the function definition
  rather than executable code.
- The graph library's internals (`DiGraph` inheritance, `copy`, `subgraph`,
  `topological_sort`): the graph is an explicit table of nodes, contents and
  edges. Weakly connected components are computed by `Components.Component`, and
  the topological order is a parameter with a validity precondition.
- `mcx/core/nodes.py` is not part of this model. Node contents and expression
  generators are opaque, and a constant's value is its generator called without
  operands.
- Error messages, including `astor.code_gen.to_source` (`mcx/core/graph.py:101-105,
  114-118`): only the kind of error is modelled. The `do` and `markov_blanket`
  messages never fill their placeholder, so `UnknownNode` carries no name.
- Exceptions are modelled as error results. The compiler's error is the duplicate
  slot. Every compiler member requires `Compiler.WellFormed`, which excludes
  graphs that are not DAGs.
- `do` iterates `kwargs` itself, which yields only the keys (`mcx/core/graph.py:46`).
  The model iterates the bindings as name/value pairs, as intended.
- `do` removes edges while iterating the predecessor view (`mcx/core/graph.py:52-54`).
  The model removes every incoming edge, as intended.
- `mcx/core/graph.py:80` calls `self.succ(var_name)`. But `succ` is the graph
  library's successor mapping, which cannot be called, so as written
  `markov_blanket` raises a TypeError for every node that is present. The class
  reads the successors as the node's children, as intended. The as-written
  query is `Findings.MarkovBlanketAsWritten` (see "## Findings").
- Graph.GraphicalModel.Do: returns an independent, fully mutable graph, whereas
  the code's result differs in two ways. `self.copy()` (`mcx/core/graph.py:45`) is
  shallow, so the result shares every content object it did not replace with the
  receiver. `mark_as_returned` mutates that shared object in place (line 122), so
  on either graph it flips the flag in both. `nx.subgraph` (line 66) returns a
  frozen read-only view, so adding a node to the result of `do` raises. The
  model captures neither the sharing nor the freezing.
- Graph.AddOpAcyclic: acyclicity is proved only for a definition under a new
  name. Redefining an existing name can close a cycle, in the code and in the
  model alike (`Findings.RedefinitionClosesCycle`). The code does not reject it,
  so neither does the model.
- Compiler.WellFormed: a node's number is both its insertion order and a
  topological numbering. Graphs whose insertion order is not topological cannot
  be represented. An example is a placeholder whose default reads a placeholder
  added after it, which `graph.py` allows because redefining a name keeps its
  node's position (lines 95-106). The parser that builds the compiler's graph is
  not part of this model.
- Edges made by `add_transformation` / `add_randvar` carry no type or position
  (`mcx/core/graph.py:99, 112`), though `compile_op` reads them. In the model
  every edge is typed from the outset. A string argument at position `i` binds
  its node in slot `i`; a node named twice gets both slots on the one edge.
  A redefinition links to the same node again, and `Graph.LinkOne` appends the
  new slots to the existing edge's list: after `t = f(a)` and then `t = g(a)`,
  the edge a -> t carries the slots `[0, 0]`.
- The edge order of `do`'s result: the model keeps the receiver's edge order, and
  `Graph.Restrict` keeps its node order. The graph library's `copy()`
  (`mcx/core/graph.py:45`) re-adds the edges grouped by source node, and
  `nx.subgraph` (line 66) may list the kept nodes in another order. So when `a` was
  added before `b` and then `t = f(b, a)` is defined, the model's `Parents` of `t` on the result is `["b", "a"]`,
  where the library lists `a` first. The members of each list are the same.
- The empty-edge check in `compile_op` is dead code (`mcx/core/compiler.py:105-106`)
  and is not modelled.
- The compiler's graph and the model graph are separate datatypes. The parser
  that builds the compiler's nodes and edges from a model lies outside
  `mcx/core/graph.py` and `mcx/core/compiler.py`.
- `merge_models`, the structural queries (`arguments`, `variables`, …) and
  caching do not exist in `mcx/core/graph.py`.

## Findings

| source | as written | input that shows it | evidently intended | confidence | as-written member | corrected member |
|---|---|---|---|---|---|---|
| mcx/core/graph.py:96-106 | each string entry is checked against the nodes present at that moment, and `add_edge` for an earlier entry has already created the new node | with node `a` defined, `add_transformation("t", f, ["a", "t"])` | a node cannot reference itself; construction fails on `t` | not executed | `Findings.SelfReferenceAccepted` | `Graph.AddOpAcyclic` |
| mcx/core/graph.py:80 | `self.succ(var_name)` calls the successor mapping, which is not callable | any present node, e.g. `markov_blanket("a")` after `add_argument("a")` | the node's children are read from the mapping; the call succeeds | not executed | `Findings.MarkovBlanketAsWritten` | `Graph.BlanketMembers` |
| mcx/core/graph.py:96-106 | edges are added while the entries are checked, and the content is attached only at the end | with node `a` defined, `add_transformation("t", f, ["a", "b"])` | a failed construction leaves the graph unchanged | not executed | `Findings.FailureLeavesPartialState` | `Graph.GraphicalModel.Define` |
