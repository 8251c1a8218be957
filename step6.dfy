/** The click-driven editor of `step6.py`: its own `Node`, `Segment` and
    `Graph` classes, the tagged-line format its graph is saved in, and the
    click handlers of `GraphApp` that add, link and remove nodes.  Canvas
    coordinates are integers, as Tk reports them. */
module Step6 {
  import opened Wrappers
  import opened ListOps
  import opened StrOps

  class Node {
    const name: string
    const x: int
    const y: int
    var neighbors: seq<Node>

    constructor (name: string, x: int, y: int)
      ensures this.name == name && this.x == x && this.y == y
      ensures neighbors == []
    {
      this.name := name;
      this.x := x;
      this.y := y;
      neighbors := [];
    }
  }

  /** A directed, named segment with a cost that defaults to 0. */
  datatype Segment = Segment(origin: Node, destination: Node, name: string, cost: int := 0)

  /** A segment built without a cost has cost 0. */
  lemma DefaultCost(origin: Node, destination: Node, name: string)
    ensures Segment(origin, destination, name).cost == 0
  {
  }

  /** The test of the node comprehension in `remove_node`. */
  function Others(node: Node): Node -> bool {
    (n: Node) => n != node
  }

  /** The test of the segment comprehension in `remove_node`. */
  function Untouched(node: Node): Segment -> bool {
    (s: Segment) => s.origin != node && s.destination != node
  }

  /** A line of the saved file for a node: `NODE name x y`. */
  function NodeLine(n: Node): string {
    "NODE " + n.name + " " + IntToString(n.x) + " " + IntToString(n.y) + "\n"
  }

  /** A line of the saved file for a segment: `SEGMENT name origin destination cost`. */
  function SegmentLine(s: Segment): string {
    "SEGMENT " + s.name + " " + s.origin.name + " " + s.destination.name + " " + IntToString(s.cost) + "\n"
  }

  /** Splitting a node line (without its newline) at the spaces gives back
      the tag, the name and both coordinates, when the name holds no space. */
  lemma NodeLineFields(n: Node)
    requires ' ' !in n.name
    ensures var l := NodeLine(n);
      && l[|l| - 1] == '\n'
      && Split(l[..|l| - 1], ' ') == ["NODE", n.name, IntToString(n.x), IntToString(n.y)]
      && ParseInt(IntToString(n.x)) == Some(n.x) && ParseInt(IntToString(n.y)) == Some(n.y)
  {
    var parts := ["NODE", n.name, IntToString(n.x), IntToString(n.y)];
    var l := NodeLine(n);
    assert parts[1..][1..][1..] == [parts[3]];
    assert Join(parts[1..][1..], ' ') == parts[2] + " " + parts[3];
    assert Join(parts, ' ') == "NODE " + n.name + " " + parts[2] + " " + parts[3];
    assert l[..|l| - 1] == Join(parts, ' ');
    SplitJoin(parts, ' ');
    ParseIntToString(n.x);
    ParseIntToString(n.y);
  }

  /** Splitting a segment line (without its newline) at the spaces gives back
      the tag, the segment's name, both endpoint names and the cost, when no
      name holds a space. */
  lemma SegmentLineFields(s: Segment)
    requires ' ' !in s.name && ' ' !in s.origin.name && ' ' !in s.destination.name
    ensures var l := SegmentLine(s);
      && l[|l| - 1] == '\n'
      && Split(l[..|l| - 1], ' ') == ["SEGMENT", s.name, s.origin.name, s.destination.name, IntToString(s.cost)]
      && ParseInt(IntToString(s.cost)) == Some(s.cost)
  {
    var parts := ["SEGMENT", s.name, s.origin.name, s.destination.name, IntToString(s.cost)];
    var l := SegmentLine(s);
    assert parts[1..][1..][1..][1..] == [parts[4]];
    assert Join(parts[1..][1..][1..], ' ') == parts[3] + " " + parts[4];
    assert Join(parts[1..][1..], ' ') == parts[2] + " " + parts[3] + " " + parts[4];
    assert Join(parts, ' ') == "SEGMENT " + s.name + " " + parts[2] + " " + parts[3] + " " + parts[4];
    assert l[..|l| - 1] == Join(parts, ' ');
    SplitJoin(parts, ' ');
    ParseIntToString(s.cost);
  }

  class Graph {
    var nodes: seq<Node>
    var segments: seq<Segment>

    constructor ()
      ensures nodes == [] && segments == []
    {
      nodes := [];
      segments := [];
    }

    /** `reset_graph`: empties both lists. */
    method ResetGraph()
      modifies this
      ensures nodes == [] && segments == []
    {
      nodes := [];
      segments := [];
    }

    /** `add_node`: appends without any check. */
    method AddNode(node: Node)
      modifies this
      ensures nodes == old(nodes) + [node]
      ensures segments == old(segments)
    {
      nodes := nodes + [node];
    }

    /** `add_segment`: appends without any check and touches no node. */
    method AddSegment(segment: Segment)
      modifies this
      ensures segments == old(segments) + [segment]
      ensures nodes == old(nodes)
    {
      segments := segments + [segment];
    }

    /** `remove_node`: keeps the nodes other than `node` and the segments
        that do not touch it, both in their original order. */
    method RemoveNode(node: Node)
      modifies this
      ensures nodes == Filter(old(nodes), Others(node))
      ensures segments == Filter(old(segments), Untouched(node))
    {
      nodes := Filter(nodes, Others(node));
      segments := Filter(segments, Untouched(node));
    }

    /** `save_to_file` without the file: the lines it writes, all node lines
        first, in node order, then all segment lines, in segment order. */
    method SaveToFile() returns (lines: seq<string>)
      ensures |lines| == |nodes| + |segments|
      ensures forall i | 0 <= i < |nodes| :: lines[i] == NodeLine(nodes[i])
      ensures forall j | 0 <= j < |segments| :: lines[|nodes| + j] == SegmentLine(segments[j])
    {
      lines := [];
      for i := 0 to |nodes|
        invariant |lines| == i
        invariant forall k | 0 <= k < i :: lines[k] == NodeLine(nodes[k])
      {
        lines := lines + [NodeLine(nodes[i])];
      }
      for j := 0 to |segments|
        invariant |lines| == |nodes| + j
        invariant forall k | 0 <= k < |nodes| :: lines[k] == NodeLine(nodes[k])
        invariant forall k | 0 <= k < j :: lines[|nodes| + k] == SegmentLine(segments[k])
      {
        lines := lines + [SegmentLine(segments[j])];
      }
    }
  }

  /** After `remove_node(node)`, `node` is gone from the nodes, no segment
      touches it, every other node and segment is still there as often as
      before, and what survives of a concatenation is what survives of each
      part, so the original order is kept. */
  lemma RemoveNodeProperties(ns: seq<Node>, segs: seq<Segment>, node: Node)
    ensures node !in Filter(ns, Others(node))
    ensures forall i | 0 <= i < |Filter(segs, Untouched(node))| ::
      Filter(segs, Untouched(node))[i].origin != node && Filter(segs, Untouched(node))[i].destination != node
    ensures forall n | n != node :: multiset(Filter(ns, Others(node)))[n] == multiset(ns)[n]
    ensures forall s: Segment | s.origin != node && s.destination != node ::
      multiset(Filter(segs, Untouched(node)))[s] == multiset(segs)[s]
    ensures forall u, v | ns == u + v :: Filter(ns, Others(node)) == Filter(u, Others(node)) + Filter(v, Others(node))
    ensures forall u, v | segs == u + v :: Filter(segs, Untouched(node)) == Filter(u, Untouched(node)) + Filter(v, Untouched(node))
  {
    forall i | 0 <= i < |Filter(segs, Untouched(node))|
      ensures Filter(segs, Untouched(node))[i].origin != node && Filter(segs, Untouched(node))[i].destination != node
    {
      assert Untouched(node)(Filter(segs, Untouched(node))[i]);
    }
    forall n | n != node ensures multiset(Filter(ns, Others(node)))[n] == multiset(ns)[n] {
      FilterCount(ns, Others(node), n);
    }
    forall s: Segment | s.origin != node && s.destination != node
      ensures multiset(Filter(segs, Untouched(node)))[s] == multiset(segs)[s]
    {
      FilterCount(segs, Untouched(node), s);
    }
    forall u, v | ns == u + v ensures Filter(ns, Others(node)) == Filter(u, Others(node)) + Filter(v, Others(node)) {
      FilterConcat(u, v, Others(node));
    }
    forall u, v | segs == u + v
      ensures Filter(segs, Untouched(node)) == Filter(u, Untouched(node)) + Filter(v, Untouched(node))
    {
      FilterConcat(u, v, Untouched(node));
    }
  }

  /** The click tolerance: strictly less than 10 away on both axes. */
  predicate Near(n: Node, ex: int, ey: int) {
    -10 < n.x - ex < 10 && -10 < n.y - ey < 10
  }

  /** Position of the first node within the click tolerance. */
  function FirstHit(ns: seq<Node>, ex: int, ey: int): (r: Option<nat>)
    ensures r.None? <==> forall i | 0 <= i < |ns| :: !Near(ns[i], ex, ey)
    ensures r.Some? ==> r.value < |ns| && Near(ns[r.value], ex, ey)
    ensures r.Some? ==> forall j | 0 <= j < r.value :: !Near(ns[j], ex, ey)
  {
    if ns == [] then None
    else if Near(ns[0], ex, ey) then Some(0)
    else
      match FirstHit(ns[1..], ex, ey)
      case None => None
      case Some(k) => Some(k + 1)
  }

  /** The name `add_node_with_click` gives the next node. */
  function NewNodeName(count: nat): string {
    "Nodo_" + IntToString(count + 1)
  }

  /** Different node counts give different names, so nodes added one after
      another without removals never share a name. */
  lemma NewNodeNameInjective(i: nat, j: nat)
    requires NewNodeName(i) == NewNodeName(j)
    ensures i == j
  {
    assert NewNodeName(i)[5..] == IntToString(i + 1);
    assert NewNodeName(j)[5..] == IntToString(j + 1);
    IntToStringInjective(i + 1, j + 1);
  }

  /** A segment's name names both endpoints: splitting it at the dash gives
      them back when neither name holds a dash. */
  lemma SegmentNameSplits(origin: string, destination: string)
    requires '-' !in origin && '-' !in destination
    ensures Split(origin + "-" + destination, '-') == [origin, destination]
  {
    var parts := [origin, destination];
    assert Join(parts, '-') == origin + "-" + destination;
    SplitJoin(parts, '-');
  }

  /** The application state: the graph it edits and the nodes selected so
      far for the next segment. */
  class GraphApp {
    const graph: Graph
    var selectedNodes: seq<Node>

    /** A selection never holds two nodes between clicks: the second one
        completes a segment and clears it. */
    ghost predicate Valid()
      reads this
    {
      |selectedNodes| <= 1
    }

    constructor ()
      ensures Valid() && fresh(graph)
      ensures graph.nodes == [] && graph.segments == [] && selectedNodes == []
    {
      graph := new Graph();
      selectedNodes := [];
    }

    /** The node loop of both click handlers: the first node near the
        click, or None. */
    method HitNode(ex: int, ey: int) returns (r: Option<Node>)
      ensures r.None? <==> FirstHit(graph.nodes, ex, ey).None?
      ensures r.Some? ==> r.value == graph.nodes[FirstHit(graph.nodes, ex, ey).value]
    {
      var i := 0;
      while i < |graph.nodes|
        invariant 0 <= i <= |graph.nodes|
        invariant forall j | 0 <= j < i :: !Near(graph.nodes[j], ex, ey)
      {
        if Near(graph.nodes[i], ex, ey) {
          return Some(graph.nodes[i]);
        }
        i := i + 1;
      }
      return None;
    }

    /** `add_node_with_click`: appends a new node at the click, named after
        the number of nodes it makes. */
    method AddNodeWithClick(ex: int, ey: int)
      requires Valid()
      modifies graph
      ensures Valid()
      ensures |graph.nodes| == |old(graph.nodes)| + 1 && graph.nodes[..|old(graph.nodes)|] == old(graph.nodes)
      ensures var n := graph.nodes[|old(graph.nodes)|];
        fresh(n) && n.name == NewNodeName(|old(graph.nodes)|) && n.x == ex && n.y == ey && n.neighbors == []
      ensures graph.segments == old(graph.segments)
    {
      var name := NewNodeName(|graph.nodes|);
      var node := new Node(name, ex, ey);
      graph.AddNode(node);
    }

    /** `enable_add_segment`: starts a new selection. */
    method EnableAddSegment()
      modifies this
      ensures Valid() && selectedNodes == []
    {
      selectedNodes := [];
    }

    /** `add_segment_with_click`: selects the first node near the click, if
        any; a second selected node completes a segment from the first to the
        second, named `origin-destination`, and clears the selection.  The
        cost, the Euclidean distance between the two nodes, is given. */
    method AddSegmentWithClick(ex: int, ey: int, cost: int)
      requires Valid()
      modifies this, graph
      ensures Valid()
      ensures graph.nodes == old(graph.nodes)
      ensures FirstHit(graph.nodes, ex, ey).None? ==>
        selectedNodes == old(selectedNodes) && graph.segments == old(graph.segments)
      ensures FirstHit(graph.nodes, ex, ey).Some? && old(selectedNodes) == [] ==>
        selectedNodes == [graph.nodes[FirstHit(graph.nodes, ex, ey).value]] && graph.segments == old(graph.segments)
      ensures FirstHit(graph.nodes, ex, ey).Some? && old(selectedNodes) != [] ==>
        var origin, destination := old(selectedNodes)[0], graph.nodes[FirstHit(graph.nodes, ex, ey).value];
        && selectedNodes == []
        && graph.segments == old(graph.segments) + [Segment(origin, destination, origin.name + "-" + destination.name, cost)]
    {
      var hit := HitNode(ex, ey);
      if hit.Some? {
        selectedNodes := selectedNodes + [hit.value];
      }
      if |selectedNodes| == 2 {
        var origin, destination := selectedNodes[0], selectedNodes[1];
        var name := origin.name + "-" + destination.name;
        graph.AddSegment(Segment(origin, destination, name, cost));
        selectedNodes := [];
      }
    }

    /** `remove_node_with_click`: removes the first node near the click, if
        any, with its segments. */
    method RemoveNodeWithClick(ex: int, ey: int)
      requires Valid()
      modifies graph
      ensures Valid()
      ensures FirstHit(old(graph.nodes), ex, ey).None? ==>
        graph.nodes == old(graph.nodes) && graph.segments == old(graph.segments)
      ensures FirstHit(old(graph.nodes), ex, ey).Some? ==>
        var node := old(graph.nodes)[FirstHit(old(graph.nodes), ex, ey).value];
        && graph.nodes == Filter(old(graph.nodes), Others(node))
        && graph.segments == Filter(old(graph.segments), Untouched(node))
    {
      var hit := HitNode(ex, ey);
      if hit.Some? {
        graph.RemoveNode(hit.value);
      }
    }

    /** `design_new_graph`: empties the graph; the selection is left as is. */
    method DesignNewGraph()
      requires Valid()
      modifies graph
      ensures Valid()
      ensures graph.nodes == [] && graph.segments == []
    {
      graph.ResetGraph();
    }
  }
}
