/** The graph engine of `graph.py`: nodes that carry a mutable list of
    neighbours, directed segments between them, and the operations that
    change or query a `Graph`.  Nodes are compared by identity, as Python
    does for objects without `__eq__`. */
module GraphEngine {
  import opened Wrappers
  import opened ListOps

  /** A named point.  Its name and coordinates are never reassigned; its
      `neighbors` list grows and shrinks in place. */
  class Node {
    const name: string
    const x: int
    const y: int
    var neighbors: seq<Node>

    constructor (name: string, x: int, y: int)
      ensures this.name == name && this.x == x && this.y == y
      ensures neighbors == []
    {
      this.name := name;
      this.x := x;
      this.y := y;
      neighbors := [];
    }
  }

  /** A directed segment.  The identifier is assigned right after the
      segment is built and is not changed afterwards. */
  datatype Segment = Segment(id: string, origin: Node, destination: Node)

  function Names(ns: seq<Node>): seq<string> {
    seq(|ns|, i requires 0 <= i < |ns| => ns[i].name)
  }

  function Ids(segs: seq<Segment>): seq<string> {
    seq(|segs|, i requires 0 <= i < |segs| => segs[i].id)
  }

  /** Position of the first occurrence of `name`, as a scan that stops at the
      first match finds it. */
  function FirstIndexOf(names: seq<string>, name: string): (r: Option<nat>)
    ensures r.None? <==> name !in names
    ensures r.Some? ==> r.value < |names| && names[r.value] == name && name !in names[..r.value]
  {
    if names == [] then None
    else if names[0] == name then Some(0)
    else
      assert names == [names[0]] + names[1..];
      match FirstIndexOf(names[1..], name)
      case None => None
      case Some(k) =>
        assert names[..k + 1] == [names[0]] + names[1..][..k];
        Some(k + 1)
  }

  /** Position of the last occurrence of `name`, as a scan that keeps going
      after a match and remembers the latest one finds it. */
  function LastIndexOf(names: seq<string>, name: string): (r: Option<nat>)
    ensures r.None? <==> name !in names
    ensures r.Some? ==> r.value < |names| && names[r.value] == name && name !in names[r.value + 1..]
  {
    if names == [] then None
    else if names[|names| - 1] == name then Some(|names| - 1)
    else
      assert names == names[..|names| - 1] + [names[|names| - 1]];
      LastIndexOf(names[..|names| - 1], name)
  }

  /** A scan that stops at the first match returns that match's position. */
  lemma FirstIndexOfAt(names: seq<string>, name: string, i: nat)
    requires i < |names| && names[i] == name
    requires forall j | 0 <= j < i :: names[j] != name
    ensures FirstIndexOf(names, name) == Some(i)
  {
  }

  /** With unique names the two scans agree; `GetNodeByName` and
      `AddSegment` then resolve a name to the same node. */
  lemma FirstIsLastWhenUnique(names: seq<string>, name: string)
    requires Distinct(names)
    ensures FirstIndexOf(names, name) == LastIndexOf(names, name)
  {
  }

  /** With a repeated name the two scans disagree: `GetNodeByName` (and so
      `DeleteNode`) picks a node no later than any carrier of the name,
      `AddSegment` one no earlier, so two carriers at `i < j` are never
      resolved to the same node. */
  lemma DuplicateNamesDisagree(names: seq<string>, name: string, i: nat, j: nat)
    requires i < j < |names| && names[i] == name && names[j] == name
    ensures FirstIndexOf(names, name).Some? && LastIndexOf(names, name).Some?
    ensures FirstIndexOf(names, name).value <= i < j <= LastIndexOf(names, name).value
  {
  }

  /** The node a scan result designates. */
  function Pick(ns: seq<Node>, r: Option<nat>): Option<Node>
    requires r.Some? ==> r.value < |ns|
  {
    match r
    case None => None
    case Some(k) => Some(ns[k])
  }

  /** The square of the Euclidean distance from `n` to (x, y); it orders
      nodes exactly as the distance itself does. */
  function SqDist(n: Node, x: int, y: int): nat {
    (n.x - x) * (n.x - x) + (n.y - y) * (n.y - y)
  }

  /** The node nearest to (x, y); among equally near nodes, the earliest. */
  function ClosestIndex(ns: seq<Node>, x: int, y: int): (k: nat)
    requires |ns| > 0
    ensures k < |ns|
    ensures forall j | 0 <= j < |ns| :: SqDist(ns[k], x, y) <= SqDist(ns[j], x, y)
    ensures forall j | 0 <= j < k :: SqDist(ns[j], x, y) > SqDist(ns[k], x, y)
  {
    if |ns| == 1 then 0
    else
      var k := ClosestIndex(ns[..|ns| - 1], x, y);
      assert forall j | 0 <= j < |ns| - 1 :: ns[..|ns| - 1][j] == ns[j];
      if SqDist(ns[|ns| - 1], x, y) < SqDist(ns[k], x, y) then |ns| - 1 else k
  }

  /** How many segments go from `a` to `b`. */
  function SegCount(segs: seq<Segment>, a: Node, b: Node): nat {
    if segs == [] then 0
    else (if segs[0].origin == a && segs[0].destination == b then 1 else 0) + SegCount(segs[1..], a, b)
  }

  lemma {:induction false} SegCountConcat(u: seq<Segment>, v: seq<Segment>, a: Node, b: Node)
    ensures SegCount(u + v, a, b) == SegCount(u, a, b) + SegCount(v, a, b)
  {
    if u == [] {
      assert u + v == v;
    } else {
      assert (u + v)[0] == u[0] && (u + v)[1..] == u[1..] + v;
      SegCountConcat(u[1..], v, a, b);
    }
  }

  /** `list.remove` deletes the first segment equal to the one found, and
      that is the one found: any equal segment carries the same identifier. */
  lemma FirstWithIdIsFirstEqual(segs: seq<Segment>, id: string)
    requires id in Ids(segs)
    ensures var i := FirstIndexOf(Ids(segs), id).value; FirstIndex(segs, segs[i]) == i
  {
    var i := FirstIndexOf(Ids(segs), id).value;
    var k := FirstIndex(segs, segs[i]);
    assert Ids(segs)[k] == id;
  }

  /** Taking out the segment at position `i` lowers the count of its own
      pair by one and leaves every other count as it was. */
  lemma SegCountRemoveAt(segs: seq<Segment>, i: nat, a: Node, b: Node)
    requires i < |segs|
    ensures SegCount(segs[..i] + segs[i + 1..], a, b) + (if segs[i].origin == a && segs[i].destination == b then 1 else 0)
            == SegCount(segs, a, b)
  {
    assert segs == segs[..i] + ([segs[i]] + segs[i + 1..]);
    SegCountConcat(segs[..i], [segs[i]] + segs[i + 1..], a, b);
    SegCountConcat([segs[i]], segs[i + 1..], a, b);
    SegCountConcat(segs[..i], segs[i + 1..], a, b);
  }

  /** A pair that no segment joins is counted zero times. */
  lemma {:induction false} SegCountAbsent(segs: seq<Segment>, a: Node, b: Node)
    requires forall i | 0 <= i < |segs| :: segs[i].origin != a || segs[i].destination != b
    ensures SegCount(segs, a, b) == 0
  {
    if segs != [] {
      SegCountAbsent(segs[1..], a, b);
    }
  }

  /** The test of the comprehension in `DeleteNode`. */
  function Avoids(c: Node): Segment -> bool {
    (s: Segment) => s.origin != c && s.destination != c
  }

  /** The comprehension in `DeleteNode`: the segments that do not touch `c`. */
  function Detached(segs: seq<Segment>, c: Node): seq<Segment> {
    Filter(segs, Avoids(c))
  }

  /** No surviving segment touches the deleted node, every other segment
      survives, and the survivors keep their relative order. */
  lemma DetachedProperties(segs: seq<Segment>, c: Node)
    ensures forall s | s in Detached(segs, c) :: s.origin != c && s.destination != c
    ensures forall i | 0 <= i < |segs| && segs[i].origin != c && segs[i].destination != c :: segs[i] in Detached(segs, c)
    ensures forall u, v | segs == u + v :: Detached(segs, c) == Detached(u, c) + Detached(v, c)
  {
    var keep := Avoids(c);
    forall s | s in Detached(segs, c) ensures s.origin != c && s.destination != c {
      var i :| 0 <= i < |Detached(segs, c)| && Detached(segs, c)[i] == s;
    }
    forall u, v | segs == u + v ensures Detached(segs, c) == Detached(u, c) + Detached(v, c) {
      FilterConcat(u, v, keep);
    }
  }

  /** Deleting segments that touch `c` leaves the count of every pair that
      does not involve `c` as it was. */
  lemma {:induction false} DetachedCount(segs: seq<Segment>, c: Node, a: Node, b: Node)
    requires a != c && b != c
    ensures SegCount(Detached(segs, c), a, b) == SegCount(segs, a, b)
  {
    if segs != [] {
      var keep := Avoids(c);
      assert segs == [segs[0]] + segs[1..];
      FilterConcat([segs[0]], segs[1..], keep);
      DetachedCount(segs[1..], c, a, b);
      var head := Filter([segs[0]], keep);
      assert Filter([segs[0]], keep) == (if keep(segs[0]) then [segs[0]] else []) + Filter([], keep);
      SegCountConcat(head, Detached(segs[1..], c), a, b);
      assert head != [] ==> head[1..] == [];
    }
  }

  /** The neighbour lists of the nodes `ns`, taken as values. */
  ghost function NeighborsOf(ns: seq<Node>): (m: map<Node, seq<Node>>)
    reads ns
    ensures forall n | n in ns :: n in m && m[n] == n.neighbors
  {
    map n | n in ns :: n.neighbors
  }

  /** The consistency the graph operations keep, stated on values: no node
      is listed twice, every segment joins two listed nodes, and for every
      ordered pair of listed nodes the origin's neighbour list `nb[a]` names
      the destination at least as many times as there are segments between
      them (so every segment's destination is among its origin's
      neighbours). */
  ghost predicate Consistent(ns: seq<Node>, segs: seq<Segment>, nb: map<Node, seq<Node>>) {
    && Distinct(ns)
    && (forall i | 0 <= i < |segs| :: segs[i].origin in ns && segs[i].destination in ns)
    && (forall a, b | a in ns && b in ns :: a in nb && SegCount(segs, a, b) <= multiset(nb[a])[b])
  }

  /** Only the neighbour lists of listed nodes matter. */
  lemma ConsistentAgree(ns: seq<Node>, segs: seq<Segment>, nb: map<Node, seq<Node>>, nb2: map<Node, seq<Node>>)
    requires Consistent(ns, segs, nb)
    requires forall a | a in ns :: a in nb2 && nb2[a] == nb[a]
    ensures Consistent(ns, segs, nb2)
  {
  }

  /** Appending a node that is not yet listed, whatever its neighbours,
      keeps the graph consistent: no segment touches it yet. */
  lemma ConsistentAddNode(ns: seq<Node>, segs: seq<Segment>, nb: map<Node, seq<Node>>, n: Node, l: seq<Node>)
    requires Consistent(ns, segs, nb) && n !in ns
    ensures Consistent(ns + [n], segs, nb[n := l])
  {
    var ns2 := ns + [n];
    forall i, j | 0 <= i < j < |ns2| ensures ns2[i] != ns2[j] {
      if j < |ns| {
        assert ns2[i] == ns[i] && ns2[j] == ns[j];
      } else {
        assert ns2[i] == ns[i];
      }
    }
    forall b | b in ns2 ensures SegCount(segs, n, b) == 0 && SegCount(segs, b, n) == 0 {
      SegCountAbsent(segs, n, b);
      SegCountAbsent(segs, b, n);
    }
  }

  /** Appending segment `s` together with one more occurrence of its
      destination in its origin's neighbours keeps the graph consistent. */
  lemma ConsistentAddSegment(ns: seq<Node>, segs: seq<Segment>, nb: map<Node, seq<Node>>, s: Segment)
    requires Consistent(ns, segs, nb) && s.origin in ns && s.destination in ns
    ensures s.origin in nb
    ensures Consistent(ns, segs + [s], nb[s.origin := nb[s.origin] + [s.destination]])
  {
    assert s.origin in nb;
    var nb2 := nb[s.origin := nb[s.origin] + [s.destination]];
    forall a, b | a in ns && b in ns
      ensures a in nb2 && SegCount(segs + [s], a, b) <= multiset(nb2[a])[b]
    {
      SegCountConcat(segs, [s], a, b);
    }
  }

  /** Deleting the segment at position `i` together with one occurrence of
      its destination in its origin's neighbours keeps the graph consistent;
      that occurrence is always there. */
  lemma ConsistentDeleteSegment(ns: seq<Node>, segs: seq<Segment>, nb: map<Node, seq<Node>>, i: nat)
    requires Consistent(ns, segs, nb) && i < |segs|
    ensures segs[i].origin in nb && segs[i].destination in nb[segs[i].origin]
    ensures Consistent(ns, segs[..i] + segs[i + 1..],
                       nb[segs[i].origin := RemoveFirst(nb[segs[i].origin], segs[i].destination)])
  {
    var s := segs[i];
    var rest := segs[..i] + segs[i + 1..];
    assert s.origin in ns && s.destination in ns;
    SegCountRemoveAt(segs, i, s.origin, s.destination);
    assert s.origin in nb;
    var nb2 := nb[s.origin := RemoveFirst(nb[s.origin], s.destination)];
    forall j | 0 <= j < |rest| ensures rest[j].origin in ns && rest[j].destination in ns {
      assert rest[j] == if j < i then segs[j] else segs[j + 1];
    }
    RemoveFirstMultiset(nb[s.origin], s.destination);
    forall a, b | a in ns && b in ns ensures a in nb2 && SegCount(rest, a, b) <= multiset(nb2[a])[b] {
      SegCountRemoveAt(segs, i, a, b);
    }
  }

  /** Every neighbour list after `DeleteNode`'s loop: the first occurrence
      of `c`, if any, is gone. */
  ghost function Unlinked(nb: map<Node, seq<Node>>, c: Node): map<Node, seq<Node>> {
    map n | n in nb :: if c in nb[n] then RemoveFirst(nb[n], c) else nb[n]
  }

  /** The segments that survive the deletion of `c` join nodes that survive it. */
  lemma DetachedEndpoints(ns: seq<Node>, segs: seq<Segment>, c: Node)
    requires c in ns && Distinct(ns)
    requires forall i | 0 <= i < |segs| :: segs[i].origin in ns && segs[i].destination in ns
    ensures forall i | 0 <= i < |Detached(segs, c)| ::
      Detached(segs, c)[i].origin in RemoveFirst(ns, c) && Detached(segs, c)[i].destination in RemoveFirst(ns, c)
  {
    var ns2 := RemoveFirst(ns, c);
    var segs2 := Detached(segs, c);
    RemoveFirstDistinct(ns, c);
    forall i | 0 <= i < |segs2| ensures segs2[i].origin in ns2 && segs2[i].destination in ns2 {
      var s := segs2[i];
      assert Avoids(c)(s);
      var j :| 0 <= j < |segs| && segs[j] == s;
      var o :| 0 <= o < |ns| && ns[o] == s.origin;
      var d :| 0 <= d < |ns| && ns[d] == s.destination;
    }
  }

  /** Deleting node `c`, every segment that touches it and one occurrence of
      it in each neighbour list keeps the three parts of `Consistent`: the
      remaining nodes are still distinct, every remaining segment joins two
      remaining nodes, and every remaining pair keeps enough neighbour
      occurrences for its segments. */
  lemma ConsistentDeleteNode(ns: seq<Node>, segs: seq<Segment>, nb: map<Node, seq<Node>>, c: Node)
    requires Consistent(ns, segs, nb) && c in ns
    ensures Distinct(RemoveFirst(ns, c))
    ensures forall i | 0 <= i < |Detached(segs, c)| ::
      Detached(segs, c)[i].origin in RemoveFirst(ns, c) && Detached(segs, c)[i].destination in RemoveFirst(ns, c)
    ensures forall a, b | a in RemoveFirst(ns, c) && b in RemoveFirst(ns, c) ::
      a in Unlinked(nb, c) && SegCount(Detached(segs, c), a, b) <= multiset(Unlinked(nb, c)[a])[b]
  {
    RemoveFirstKeepsDistinct(ns, c);
    DetachedEndpoints(ns, segs, c);
    DeleteNodeCounts(ns, segs, nb, c);
  }

  /** The three parts of `Consistent` for `nb`, with neighbour lists `nb2`
      that agree with `nb` on every listed node, give consistency for `nb2`. */
  lemma ConsistentFromParts(ns: seq<Node>, segs: seq<Segment>, nb: map<Node, seq<Node>>, nb2: map<Node, seq<Node>>)
    requires Distinct(ns)
    requires forall i | 0 <= i < |segs| :: segs[i].origin in ns && segs[i].destination in ns
    requires forall a, b | a in ns && b in ns :: a in nb && SegCount(segs, a, b) <= multiset(nb[a])[b]
    requires forall a | a in ns :: a in nb2 && nb2[a] == nb[a]
    ensures Consistent(ns, segs, nb2)
  {
  }

  /** Removing a node from a list without repetitions leaves no repetition. */
  lemma RemoveFirstKeepsDistinct(ns: seq<Node>, c: Node)
    requires c in ns && Distinct(ns)
    ensures Distinct(RemoveFirst(ns, c))
  {
    RemoveFirstDistinct(ns, c);
  }

  /** Taking a node that was not yet listed out again, right after
      appending it, gives back the node list and drops no segment: none can
      touch it.  This is what `DeleteNode` does to `c` itself. */
  lemma DeleteUndoesAdd(ns: seq<Node>, segs: seq<Segment>, c: Node)
    requires c !in ns
    requires forall i | 0 <= i < |segs| :: segs[i].origin in ns && segs[i].destination in ns
    ensures RemoveFirst(ns + [c], c) == ns
    ensures Detached(segs, c) == segs
  {
    RemoveFirstUndoesAppend(ns, c);
    forall i | 0 <= i < |segs| ensures Avoids(c)(segs[i]) {
    }
    FilterKeepsAll(segs, Avoids(c));
  }

  /** A node whose name no listed node carries is not listed itself. */
  lemma NewNameUnlisted(ns: seq<Node>, c: Node)
    requires c.name !in Names(ns)
    ensures c !in ns
  {
    forall k | 0 <= k < |ns| ensures ns[k] != c {
      assert Names(ns)[k] == ns[k].name;
    }
  }

  /** With its name not yet taken, a node appended to the list is what the
      first-match lookup of that name finds. */
  lemma LookupFindsAppended(ns: seq<Node>, c: Node)
    requires c.name !in Names(ns)
    ensures FirstIndexOf(Names(ns + [c]), c.name) == Some(|ns|) && (ns + [c])[|ns|] == c
  {
    var names := Names(ns + [c]);
    forall j | 0 <= j < |ns| ensures names[j] != c.name {
      assert names[j] == Names(ns)[j];
    }
    FirstIndexOfAt(names, c.name, |ns|);
  }

  /** `DeleteNode(c.name)` right after `AddNode(c)` undoes it when no listed
      node carries that name yet: the name lookup lands on `c`, so the node
      list comes back and every segment stays.  With the name already taken,
      the lookup picks the earlier node instead. */
  lemma DeleteByNameUndoesAdd(ns: seq<Node>, segs: seq<Segment>, c: Node)
    requires c.name !in Names(ns)
    requires forall i | 0 <= i < |segs| :: segs[i].origin in ns && segs[i].destination in ns
    ensures FirstIndexOf(Names(ns + [c]), c.name) == Some(|ns|) && (ns + [c])[|ns|] == c
    ensures RemoveFirst(ns + [c], c) == ns
    ensures Detached(segs, c) == segs
  {
    NewNameUnlisted(ns, c);
    DeleteUndoesAdd(ns, segs, c);
    LookupFindsAppended(ns, c);
  }

  /** The counts part of `ConsistentDeleteNode`. */
  lemma DeleteNodeCounts(ns: seq<Node>, segs: seq<Segment>, nb: map<Node, seq<Node>>, c: Node)
    requires c in ns && Distinct(ns)
    requires forall a, b | a in ns && b in ns :: a in nb && SegCount(segs, a, b) <= multiset(nb[a])[b]
    ensures forall a, b | a in RemoveFirst(ns, c) && b in RemoveFirst(ns, c) ::
      a in Unlinked(nb, c) && SegCount(Detached(segs, c), a, b) <= multiset(Unlinked(nb, c)[a])[b]
  {
    RemoveFirstLeaves(ns, c);
    UnlinkedCounts(ns, RemoveFirst(ns, c), segs, nb, c);
  }

  /** After the deletion of `c`, every pair of surviving nodes `ns2` still
      has enough neighbour occurrences for its segments. */
  lemma UnlinkedCounts(ns: seq<Node>, ns2: seq<Node>, segs: seq<Segment>, nb: map<Node, seq<Node>>, c: Node)
    requires forall a, b | a in ns && b in ns :: a in nb && SegCount(segs, a, b) <= multiset(nb[a])[b]
    requires forall n | n in ns2 :: n in ns && n != c
    ensures forall a, b | a in ns2 && b in ns2 ::
      a in Unlinked(nb, c) && SegCount(Detached(segs, c), a, b) <= multiset(Unlinked(nb, c)[a])[b]
  {
    forall a, b | a in ns2 && b in ns2
      ensures a in Unlinked(nb, c) && SegCount(Detached(segs, c), a, b) <= multiset(Unlinked(nb, c)[a])[b]
    {
      UnlinkedPair(segs, nb, c, a, b);
    }
  }

  /** One pair of surviving nodes after the deletion of `c`: neither its
      segment count nor its neighbour occurrences change. */
  lemma UnlinkedPair(segs: seq<Segment>, nb: map<Node, seq<Node>>, c: Node, a: Node, b: Node)
    requires a != c && b != c && a in nb
    requires SegCount(segs, a, b) <= multiset(nb[a])[b]
    ensures a in Unlinked(nb, c) && SegCount(Detached(segs, c), a, b) <= multiset(Unlinked(nb, c)[a])[b]
  {
    DetachedCount(segs, c, a, b);
    if c in nb[a] {
      RemoveFirstMultiset(nb[a], c);
    }
  }

  class Graph {
    var nodes: seq<Node>
    var segments: seq<Segment>

    /** The graph is consistent with the nodes' current neighbour lists. */
    ghost predicate Valid()
      reads this, nodes
    {
      Consistent(nodes, segments, NeighborsOf(nodes))
    }

    constructor ()
      ensures nodes == [] && segments == []
      ensures Valid()
    {
      nodes := [];
      segments := [];
    }

    /** The first node with the given name, or None. */
    method GetNodeByName(name: string) returns (r: Option<Node>)
      ensures r == Pick(nodes, FirstIndexOf(Names(nodes), name))
      ensures r.Some? ==> r.value in nodes && r.value.name == name
      ensures r.None? <==> forall i | 0 <= i < |nodes| :: nodes[i].name != name
    {
      var i := 0;
      while i < |nodes|
        invariant 0 <= i <= |nodes|
        invariant forall j | 0 <= j < i :: nodes[j].name != name
      {
        if nodes[i].name == name {
          FirstIndexOfAt(Names(nodes), name, i);
          return Some(nodes[i]);
        }
        i := i + 1;
      }
      assert name !in Names(nodes);
      return None;
    }

    /** The node nearest to (x, y), the earliest one among equally near
        nodes, or None for an empty graph. */
    method GetClosest(x: int, y: int) returns (r: Option<Node>)
      ensures r.None? <==> nodes == []
      ensures r.Some? ==> r.value == nodes[ClosestIndex(nodes, x, y)]
    {
      if nodes == [] {
        return None;
      }
      var closest: Option<Node> := None;
      var minDistance: Option<nat> := None;  // None stands for infinity
      for i := 0 to |nodes|
        invariant i == 0 ==> closest.None? && minDistance.None?
        invariant i > 0 ==> closest == Some(nodes[ClosestIndex(nodes[..i], x, y)])
        invariant i > 0 ==> minDistance == Some(SqDist(closest.value, x, y))
      {
        var distance := SqDist(nodes[i], x, y);
        assert nodes[..i + 1][..i] == nodes[..i];
        if minDistance.None? || distance < minDistance.value {
          minDistance := Some(distance);
          closest := Some(nodes[i]);
        }
      }
      assert nodes[..|nodes|] == nodes;
      return closest;
    }

    /** `AddNode`: refuses a node that is already in the graph (by identity),
        otherwise appends it; names are not checked. */
    method AddNode(n: Node) returns (ok: bool)
      requires Valid()
      modifies this
      ensures Valid()
      ensures ok == (n !in old(nodes))
      ensures nodes == if ok then old(nodes) + [n] else old(nodes)
      ensures segments == old(segments)
    {
      if n in nodes {
        return false;
      }
      ghost var nb := NeighborsOf(nodes)[n := n.neighbors];
      ConsistentAddNode(nodes, segments, NeighborsOf(nodes), n, n.neighbors);
      nodes := nodes + [n];
      ConsistentAgree(nodes, segments, nb, NeighborsOf(nodes));
      return true;
    }

    /** The scan at the start of `AddSegment`: it has no `break`, so each
        name resolves to the last node that carries it. */
    method FindEndpoints(name1: string, name2: string) returns (n1: Option<Node>, n2: Option<Node>)
      ensures n1 == Pick(nodes, LastIndexOf(Names(nodes), name1))
      ensures n2 == Pick(nodes, LastIndexOf(Names(nodes), name2))
    {
      n1, n2 := None, None;
      for i := 0 to |nodes|
        invariant n1 == Pick(nodes, LastIndexOf(Names(nodes[..i]), name1))
        invariant n2 == Pick(nodes, LastIndexOf(Names(nodes[..i]), name2))
      {
        assert Names(nodes[..i + 1])[..i] == Names(nodes[..i]);
        if nodes[i].name == name1 {
          n1 := Some(nodes[i]);
        }
        if nodes[i].name == name2 {
          n2 := Some(nodes[i]);
        }
      }
      assert nodes[..|nodes|] == nodes;
    }

    /** `AddSegment`: resolves both names by a full scan (the last node with
        a name wins), refuses when either is missing, and otherwise appends
        the segment and one occurrence of the destination to the origin's
        neighbours, even when the two are already linked. */
    method AddSegment(id: string, name1: string, name2: string) returns (ok: bool)
      requires Valid()
      modifies this, nodes
      ensures Valid()
      ensures nodes == old(nodes)
      ensures ok == (name1 in Names(nodes) && name2 in Names(nodes))
      ensures !ok ==> segments == old(segments) && unchanged(nodes)
      ensures ok ==>
        var n1 := nodes[LastIndexOf(Names(nodes), name1).value];
        var n2 := nodes[LastIndexOf(Names(nodes), name2).value];
        && segments == old(segments) + [Segment(id, n1, n2)]
        && n1.neighbors == old(n1.neighbors) + [n2]
        && forall n | n in nodes && n != n1 :: n.neighbors == old(n.neighbors)
    {
      var n1, n2 := FindEndpoints(name1, name2);
      if n1.None? || n2.None? {
        return false;
      }
      var s := Segment(id, n1.value, n2.value);
      Link(s);
      assert forall n | n in nodes && n != s.origin :: n.neighbors == old(n.neighbors);
      return true;
    }

    /** The two updates of `AddSegment` once both nodes are found: the
        segment is appended, and so is its destination to its origin's
        neighbours; the graph stays valid. */
    method Link(s: Segment)
      requires Valid() && s.origin in nodes && s.destination in nodes
      modifies this, s.origin
      ensures Valid()
      ensures nodes == old(nodes)
      ensures segments == old(segments) + [s]
      ensures s.origin.neighbors == old(s.origin.neighbors) + [s.destination]
    {
      ghost var nb := NeighborsOf(nodes);
      ConsistentAddSegment(nodes, segments, nb, s);
      var a, b := s.origin, s.destination;
      segments := segments + [s];
      a.neighbors := a.neighbors + [b];
      forall n | n in nodes ensures n in nb[a := nb[a] + [b]] && nb[a := nb[a] + [b]][n] == NeighborsOf(nodes)[n] {
        assert nb[n] == old(n.neighbors);
      }
      ConsistentAgree(nodes, segments, nb[a := nb[a] + [b]], NeighborsOf(nodes));
    }

    /** The loop of `DeleteNode` over all nodes: each neighbour list that
        names `c` loses its first occurrence of `c`. */
    method DropNeighbor(c: Node)
      requires Distinct(nodes)
      modifies nodes
      ensures forall n | n in nodes ::
        n.neighbors == if c in old(n.neighbors) then RemoveFirst(old(n.neighbors), c) else old(n.neighbors)
    {
      for i := 0 to |nodes|
        invariant forall j | 0 <= j < i ::
          nodes[j].neighbors == if c in old(nodes[j].neighbors) then RemoveFirst(old(nodes[j].neighbors), c) else old(nodes[j].neighbors)
        invariant forall j | i <= j < |nodes| :: nodes[j].neighbors == old(nodes[j].neighbors)
      {
        if c in nodes[i].neighbors {
          nodes[i].neighbors := RemoveFirst(nodes[i].neighbors, c);
        }
      }
    }

    /** The three updates of `DeleteNode` once the node is found: the
        segments that touch `c` go, each neighbour list loses its first
        occurrence of `c`, and `c` itself leaves the node list. */
    method Detach(c: Node)
      requires Distinct(nodes) && c in nodes
      modifies this, nodes
      ensures nodes == RemoveFirst(old(nodes), c)
      ensures segments == Detached(old(segments), c)
      ensures forall n | n in old(nodes) ::
        n.neighbors == if c in old(n.neighbors) then RemoveFirst(old(n.neighbors), c) else old(n.neighbors)
    {
      segments := Detached(segments, c);
      DropNeighbor(c);
      nodes := RemoveFirst(nodes, c);
    }

    /** The body of `DeleteNode` once the node is found: deletes every
        segment that touches `c`, takes one occurrence of `c` out of each
        neighbour list, and removes `c` itself, keeping the graph valid. */
    method Remove(c: Node)
      requires Valid() && c in nodes
      modifies this, nodes
      ensures Valid()
      ensures nodes == RemoveFirst(old(nodes), c) && c !in nodes
      ensures segments == Detached(old(segments), c)
      ensures forall n | n in old(nodes) ::
        n.neighbors == if c in old(n.neighbors) then RemoveFirst(old(n.neighbors), c) else old(n.neighbors)
    {
      ghost var ns := nodes;
      ghost var nb := NeighborsOf(nodes);
      ConsistentDeleteNode(nodes, segments, nb, c);
      RemoveFirstLeaves(nodes, c);
      Detach(c);
      forall a | a in nodes ensures a in Unlinked(nb, c) && Unlinked(nb, c)[a] == NeighborsOf(nodes)[a] {
        assert a in ns;
      }
      ConsistentFromParts(nodes, segments, Unlinked(nb, c), NeighborsOf(nodes));
    }

    /** `DeleteNode`: refuses an unknown name; otherwise removes the first
        node with that name as `Remove` does. */
    method DeleteNode(name: string) returns (ok: bool)
      requires Valid()
      modifies this, nodes
      ensures Valid()
      ensures ok == (name in Names(old(nodes)))
      ensures !ok ==> nodes == old(nodes) && segments == old(segments) && unchanged(nodes)
      ensures ok ==>
        var c := old(nodes)[FirstIndexOf(Names(old(nodes)), name).value];
        && nodes == RemoveFirst(old(nodes), c)
        && c !in nodes
        && segments == Detached(old(segments), c)
        && (forall n | n in old(nodes) :: n.neighbors == if c in old(n.neighbors) then RemoveFirst(old(n.neighbors), c) else old(n.neighbors))
    {
      var found := GetNodeByName(name);
      if found.None? {
        return false;
      }
      Remove(found.value);
      return true;
    }

    /** The search at the start of `DeleteSegment`: the first segment with
        the identifier, or None. */
    method FindSegment(id: string) returns (found: Option<Segment>)
      ensures found.None? <==> id !in Ids(segments)
      ensures found.Some? ==> found.value == segments[FirstIndexOf(Ids(segments), id).value]
    {
      found := None;
      var i := 0;
      while i < |segments|
        invariant 0 <= i <= |segments|
        invariant found.None?
        invariant forall j | 0 <= j < i :: segments[j].id != id
      {
        if segments[i].id == id {
          found := Some(segments[i]);
          FirstIndexOfAt(Ids(segments), id, i);
          break;
        }
        i := i + 1;
      }
      assert found.None? ==> id !in Ids(segments);
    }

    /** The body of `DeleteSegment` once the segment is found at position
        `i`: removes it from the list and one occurrence of its destination
        from its origin's neighbours if the destination is listed there;
        under `Valid` it always is. */
    method Unlink(s: Segment, ghost i: nat)
      requires Valid() && i < |segments| && segments[i] == s && FirstIndex(segments, s) == i
      modifies this, s.origin
      ensures Valid()
      ensures nodes == old(nodes)
      ensures segments == old(segments)[..i] + old(segments)[i + 1..]
      ensures s.destination in old(s.origin.neighbors)
      ensures s.origin.neighbors == RemoveFirst(old(s.origin.neighbors), s.destination)
    {
      ghost var nb := NeighborsOf(nodes);
      ConsistentDeleteSegment(nodes, segments, nb, i);
      ghost var nb2 := nb[s.origin := RemoveFirst(nb[s.origin], s.destination)];
      RemoveFirstAt(segments, s);
      segments := RemoveFirst(segments, s);
      if s.destination in s.origin.neighbors {
        s.origin.neighbors := RemoveFirst(s.origin.neighbors, s.destination);
      }
      forall a | a in nodes ensures a in NeighborsOf(nodes) && NeighborsOf(nodes)[a] == nb2[a] {
        assert NeighborsOf(nodes)[a] == a.neighbors;
      }
      ConsistentAgree(nodes, segments, nb2, NeighborsOf(nodes));
    }

    /** `DeleteSegment` (the effective definition): refuses an unknown
        identifier; otherwise unlinks the first segment that carries it. */
    method DeleteSegment(id: string) returns (ok: bool)
      requires Valid()
      modifies this, nodes
      ensures Valid()
      ensures nodes == old(nodes)
      ensures ok == (id in Ids(old(segments)))
      ensures !ok ==> segments == old(segments) && unchanged(nodes)
      ensures ok ==>
        var k := FirstIndexOf(Ids(old(segments)), id).value;
        var s := old(segments)[k];
        && segments == old(segments)[..k] + old(segments)[k + 1..]
        && s.destination in old(s.origin.neighbors)
        && s.origin.neighbors == RemoveFirst(old(s.origin.neighbors), s.destination)
        && forall n | n in nodes && n != s.origin :: n.neighbors == old(n.neighbors)
    {
      var found := FindSegment(id);
      if found.None? {
        return false;
      }
      ghost var i := FirstIndexOf(Ids(segments), id).value;
      FirstWithIdIsFirstEqual(segments, id);
      Unlink(found.value, i);
      return true;
    }
  }
}
