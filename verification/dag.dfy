/** The directed acyclic graph a pebbling game is played on (`dag::Graph`):
    named nodes, input nodes that feed them, output nodes, and for every
    node the list of its children, the nodes it is computed from. Every
    name the graph stores carries the graph's prefix. */
module Dag {
  import opened Wrappers
  import Strings

  /** An edge from a child `from` to the node `to` it feeds. */
  datatype Edge = Edge(from: string, to: string)

  /** `Edge::operator<`: compare the sources, then the targets. */
  predicate EdgeLess(a: Edge, b: Edge) {
    if Strings.Less(a.from, b.from) then true
    else if Strings.Less(b.from, a.from) then false
    else Strings.Less(a.to, b.to)
  }

  /** The order is the lexicographic order on (from, to). */
  lemma EdgeLessLexicographic(a: Edge, b: Edge)
    ensures EdgeLess(a, b) <==>
              Strings.Less(a.from, b.from) || (a.from == b.from && Strings.Less(a.to, b.to))
  {
    Strings.LessTotal(a.from, b.from);
    if a.from == b.from {
      Strings.LessIrreflexive(a.from);
    }
  }

  lemma EdgeLessIrreflexive(a: Edge)
    ensures !EdgeLess(a, a)
  {
    Strings.LessIrreflexive(a.from);
    Strings.LessIrreflexive(a.to);
  }

  lemma EdgeLessTransitive(a: Edge, b: Edge, c: Edge)
    requires EdgeLess(a, b) && EdgeLess(b, c)
    ensures EdgeLess(a, c)
  {
    EdgeLessLexicographic(a, b);
    EdgeLessLexicographic(b, c);
    EdgeLessLexicographic(a, c);
    if Strings.Less(a.from, b.from) && Strings.Less(b.from, c.from) {
      Strings.LessTransitive(a.from, b.from, c.from);
    } else if a.from == b.from && b.from == c.from {
      Strings.LessTransitive(a.to, b.to, c.to);
    }
  }

  /** Two edges are equal or one is below the other: the order is total. */
  lemma EdgeLessTotal(a: Edge, b: Edge)
    ensures a == b || EdgeLess(a, b) || EdgeLess(b, a)
  {
    EdgeLessLexicographic(a, b);
    EdgeLessLexicographic(b, a);
    Strings.LessTotal(a.from, b.from);
    Strings.LessTotal(a.to, b.to);
  }

  /** A graph. `inputEdges` are the edges leaving input nodes; `edges`
      those between nodes; `children` maps a node to its non-input
      children in the order they were added. */
  datatype Graph = Graph(name: string, prefix: string,
                         input: set<string>, nodes: set<string>, output: set<string>,
                         edges: set<Edge>, inputEdges: set<Edge>,
                         children: map<string, seq<string>>)

  /** `Graph(s)`: a graph with no prefix and nothing in it. */
  function NewGraph(name: string): (g: Graph)
    ensures g.name == name && g.prefix == ""
    ensures GraphOk(g)
  {
    Graph(name, "", {}, {}, {}, {}, {}, map[])
  }

  /** `node(name)`: the name as stored, with the graph's prefix. */
  function Node(g: Graph, name: string): (r: string)
    ensures g.prefix <= r && r[|g.prefix|..] == name
  {
    g.prefix + name
  }

  /** Prefixing loses nothing: distinct names stay distinct. */
  lemma NodeInjective(g: Graph, a: string, b: string)
    requires Node(g, a) == Node(g, b)
    ensures a == b
  {
    assert a == Node(g, a)[|g.prefix|..];
  }

  /** What a well-built graph satisfies: every stored name is prefixed,
      outputs are nodes, edges join nodes, input edges go from inputs to
      nodes, and every recorded child of a node is a node with an edge to
      it. */
  ghost predicate GraphOk(g: Graph) {
    (forall x :: x in g.input ==> g.prefix <= x) &&
    (forall x :: x in g.nodes ==> g.prefix <= x) &&
    g.output <= g.nodes &&
    (forall e :: e in g.edges ==> e.from in g.nodes && e.to in g.nodes) &&
    (forall e :: e in g.inputEdges ==> e.from in g.input && e.to in g.nodes) &&
    (forall k :: k in g.children ==> k in g.nodes && ChildrenOk(g, k, g.children[k]))
  }

  ghost predicate ChildrenOk(g: Graph, k: string, cs: seq<string>) {
    forall c :: c in cs ==> c in g.nodes && Edge(c, k) in g.edges
  }

  /** `add_input`: the prefixed name joins the inputs only. */
  function AddInput(g: Graph, name: string): (r: Graph)
    ensures r.input == g.input + {Node(g, name)}
    ensures r.(input := g.input) == g
    ensures GraphOk(g) ==> GraphOk(r)
  {
    g.(input := g.input + {Node(g, name)})
  }

  /** `add_node`: the prefixed name joins the nodes only. */
  function AddNode(g: Graph, name: string): (r: Graph)
    ensures r.nodes == g.nodes + {Node(g, name)}
    ensures r.(nodes := g.nodes) == g
    ensures GraphOk(g) ==> GraphOk(r)
  {
    g.(nodes := g.nodes + {Node(g, name)})
  }

  /** `add_output`: the prefixed name joins both the nodes and the outputs. */
  function AddOutput(g: Graph, name: string): (r: Graph)
    ensures r.nodes == g.nodes + {Node(g, name)} && r.output == g.output + {Node(g, name)}
    ensures r.(nodes := g.nodes, output := g.output) == g
    ensures IsOutput(r, Node(g, name))
    ensures GraphOk(g) ==> GraphOk(r)
  {
    g.(nodes := g.nodes + {Node(g, name)}, output := g.output + {Node(g, name)})
  }

  /** The prefixed sources among `from`, in order, that are inputs
      (`fromInput`) or not. */
  function SourcesOf(g: Graph, from: seq<string>, fromInput: bool): (r: seq<string>)
    ensures |r| <= |from|
    ensures forall c :: c in r ==> (c in g.input) == fromInput
    ensures forall i :: 0 <= i < |from| && (Node(g, from[i]) in g.input) == fromInput ==> Node(g, from[i]) in r
    ensures forall c :: c in r ==> exists i :: 0 <= i < |from| && c == Node(g, from[i])
  {
    if |from| == 0 then []
    else
      var n := Node(g, from[0]);
      var rest := SourcesOf(g, from[1..], fromInput);
      assert forall i :: 1 <= i < |from| ==> from[i] == from[1..][i - 1];
      (if (n in g.input) == fromInput then [n] else []) + rest
  }

  /** The edges from each of `cs` to `t`. */
  function EdgesTo(cs: seq<string>, t: string): (r: set<Edge>)
    ensures forall e :: e in r <==> e.to == t && e.from in cs
  {
    set c | c in cs :: Edge(c, t)
  }

  /** A source that is neither an input nor a node: `add_edges_to`'s
      assert fails on it. */
  predicate Dangling(g: Graph, name: string) {
    Node(g, name) !in g.input && Node(g, name) !in g.nodes
  }

  /** What the loop of `add_edges_to` adds: edges, input edges, and the
      target's children in order. */
  datatype Additions = Additions(edges: set<Edge>, inputEdges: set<Edge>, kids: seq<string>)

  /** The loop of `add_edges_to` over the sources `from` into target `t`.
      An input source adds an input edge and nothing else; any other
      source must be a node, and adds an edge and a child. */
  function AddSources(g: Graph, from: seq<string>, t: string): (r: Result<Additions>)
    ensures r.Failure? <==> exists i :: 0 <= i < |from| && Dangling(g, from[i])
    ensures r.Failure? ==> r.error == AssertionFailed
    ensures r.Success? ==> r.value.kids == SourcesOf(g, from, false)
    ensures r.Success? ==> r.value.edges == EdgesTo(SourcesOf(g, from, false), t)
    ensures r.Success? ==> r.value.inputEdges == EdgesTo(SourcesOf(g, from, true), t)
    decreases |from|
  {
    if |from| == 0 then Success(Additions({}, {}, []))
    else
      var n := Node(g, from[0]);
      SourcesStep(g, from, t);
      if n !in g.input && n !in g.nodes then Failure(AssertionFailed)
      else
        match AddSources(g, from[1..], t)
        case Failure(err) => Failure(err)
        case Success(a) =>
          if n in g.input then Success(a.(inputEdges := {Edge(n, t)} + a.inputEdges))
          else Success(a.(edges := {Edge(n, t)} + a.edges, kids := [n] + a.kids))
  }

  /** One source of `add_edges_to` at a time: what the first source
      contributes, and what the rest do. */
  lemma SourcesStep(g: Graph, from: seq<string>, t: string)
    requires |from| > 0
    ensures (exists i :: 0 <= i < |from| && Dangling(g, from[i])) <==>
              Dangling(g, from[0]) || exists i :: 0 <= i < |from[1..]| && Dangling(g, from[1..][i])
    ensures var n := Node(g, from[0]);
            EdgesTo(SourcesOf(g, from, false), t) ==
              (if n in g.input then {} else {Edge(n, t)}) + EdgesTo(SourcesOf(g, from[1..], false), t) &&
            EdgesTo(SourcesOf(g, from, true), t) ==
              (if n in g.input then {Edge(n, t)} else {}) + EdgesTo(SourcesOf(g, from[1..], true), t)
  {
    DanglingStep(g, from);
    var n := Node(g, from[0]);
    EdgesToAppend(if n in g.input then [] else [n], SourcesOf(g, from[1..], false), t);
    EdgesToAppend(if n in g.input then [n] else [], SourcesOf(g, from[1..], true), t);
  }

  lemma DanglingStep(g: Graph, from: seq<string>)
    requires |from| > 0
    ensures (exists i :: 0 <= i < |from| && Dangling(g, from[i])) <==>
              Dangling(g, from[0]) || exists i :: 0 <= i < |from[1..]| && Dangling(g, from[1..][i])
  {
    if exists i :: 0 <= i < |from[1..]| && Dangling(g, from[1..][i]) {
      var i :| 0 <= i < |from[1..]| && Dangling(g, from[1..][i]);
      assert Dangling(g, from[i + 1]);
    }
    if exists i :: 0 <= i < |from| && Dangling(g, from[i]) {
      var i :| 0 <= i < |from| && Dangling(g, from[i]);
      if i > 0 {
        assert Dangling(g, from[1..][i - 1]);
      }
    }
  }

  /** The edges from a concatenation of sources. */
  lemma EdgesToAppend(a: seq<string>, b: seq<string>, t: string)
    ensures EdgesTo(a + b, t) == EdgesTo(a, t) + EdgesTo(b, t)
    ensures EdgesTo([], t) == {}
    ensures forall n :: EdgesTo([n], t) == {Edge(n, t)}
  {
    forall e ensures e in EdgesTo(a + b, t) <==> e in EdgesTo(a, t) + EdgesTo(b, t) {
      if e.from in a + b {
        assert e.from in a || e.from in b;
      }
    }
    forall n ensures EdgesTo([n], t) == {Edge(n, t)} {
      forall e ensures e in EdgesTo([n], t) <==> e == Edge(n, t) {
      }
    }
  }

  /** `add_edges_to(from, to)`. Nothing happens for no sources. Otherwise
      the target must be a node; the edges are added as `AddSources` says,
      and the target's children list is recorded unless it already has
      one (`emplace` never replaces an entry). */
  function AddEdgesTo(g: Graph, from: seq<string>, to: string): (r: Result<Graph>)
    ensures |from| == 0 ==> r == Success(g)
    ensures |from| > 0 ==>
              (r.Failure? <==> Node(g, to) !in g.nodes || exists i :: 0 <= i < |from| && Dangling(g, from[i]))
    ensures r.Failure? ==> r.error == AssertionFailed
    ensures r.Success? && |from| > 0 ==>
              var t := Node(g, to);
              r.value.edges == g.edges + EdgesTo(SourcesOf(g, from, false), t) &&
              r.value.inputEdges == g.inputEdges + EdgesTo(SourcesOf(g, from, true), t) &&
              r.value.children == (if t in g.children then g.children
                                   else g.children[t := SourcesOf(g, from, false)]) &&
              r.value.(edges := g.edges, inputEdges := g.inputEdges, children := g.children) == g
  {
    if |from| == 0 then Success(g)
    else
      var t := Node(g, to);
      if t !in g.nodes then Failure(AssertionFailed)
      else
        match AddSources(g, from, t)
        case Failure(err) => Failure(err)
        case Success(a) =>
          Success(g.(edges := g.edges + a.edges, inputEdges := g.inputEdges + a.inputEdges,
                     children := if t in g.children then g.children else g.children[t := a.kids]))
  }

  /** `add_edges_to` keeps a graph well built. */
  lemma AddEdgesToKeepsOk(g: Graph, from: seq<string>, to: string)
    requires GraphOk(g)
    requires AddEdgesTo(g, from, to).Success?
    ensures GraphOk(AddEdgesTo(g, from, to).value)
  {
    if |from| > 0 {
      var r := AddEdgesTo(g, from, to).value;
      var t := Node(g, to);
      var cs := SourcesOf(g, from, false);
      var ins := SourcesOf(g, from, true);
      assert forall c :: c in cs ==> c in g.nodes by {
        forall c | c in cs
          ensures c in g.nodes
        {
          var i :| 0 <= i < |from| && c == Node(g, from[i]);
          assert !Dangling(g, from[i]);
        }
      }
      assert forall e :: e in r.edges ==> e.from in r.nodes && e.to in r.nodes;
      assert forall e :: e in r.inputEdges ==> e.from in r.input && e.to in r.nodes;
      forall k | k in r.children
        ensures k in r.nodes && ChildrenOk(r, k, r.children[k])
      {
        if k == t && t !in g.children {
          assert r.children[k] == cs;
        } else {
          assert r.children[k] == g.children[k];
          assert ChildrenOk(g, k, g.children[k]);
        }
      }
    }
  }

  /** `children.emplace` never replaces: once a node has a children list,
      a second `add_edges_to` into it keeps that list while its edges still
      grow by the new sources. */
  lemma SecondAddKeepsChildren(g: Graph, from1: seq<string>, from2: seq<string>, to: string)
    requires |from1| > 0 && |from2| > 0
    requires AddEdgesTo(g, from1, to).Success?
    requires AddEdgesTo(AddEdgesTo(g, from1, to).value, from2, to).Success?
    ensures var g1 := AddEdgesTo(g, from1, to).value;
            var g2 := AddEdgesTo(g1, from2, to).value;
            GetChildren(g2, Node(g, to)) == GetChildren(g1, Node(g, to)) &&
            g2.edges == g1.edges + EdgesTo(SourcesOf(g1, from2, false), Node(g, to))
  {
    var g1 := AddEdgesTo(g, from1, to).value;
    assert Node(g, to) in g1.children;
  }

  /** `get_children`: the children recorded for a node, empty for a node
      never given any. */
  function GetChildren(g: Graph, key: string): (r: seq<string>)
    ensures key !in g.children ==> r == []
    ensures GraphOk(g) ==> forall c :: c in r ==> c in g.nodes && Edge(c, key) in g.edges
  {
    if key in g.children then g.children[key] else []
  }

  /** `add_edges_to` into a node without children gives it exactly the
      non-input sources, in order. */
  lemma ChildrenAfterAdd(g: Graph, from: seq<string>, to: string)
    requires |from| > 0 && AddEdgesTo(g, from, to).Success?
    requires Node(g, to) !in g.children
    ensures GetChildren(AddEdgesTo(g, from, to).value, Node(g, to)) == SourcesOf(g, from, false)
  {
  }

  /** `is_output`: membership among the outputs (of a name as stored). */
  predicate IsOutput(g: Graph, name: string) {
    name in g.output
  }
}
