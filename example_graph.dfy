/** The example graph the editor offers: nodes A(0,0), B(5,5), C(10,0),
    D(5,-5) and the segments 1: A-B, 2: B-C, 3: C-D, 4: D-A, 5: A-C.  The
    lemmas evaluate, on this graph, the functions in which the graph
    engine's operations are specified, so that together with those
    operations' contracts they give the outcome of each call. */
module ExampleGraph {
  import opened Wrappers
  import opened ListOps
  import opened GraphEngine

  /** Four nodes named and placed as in the example. */
  ghost predicate ExampleNodes(a: Node, b: Node, c: Node, d: Node) {
    && a.name == "A" && a.x == 0 && a.y == 0
    && b.name == "B" && b.x == 5 && b.y == 5
    && c.name == "C" && c.x == 10 && c.y == 0
    && d.name == "D" && d.x == 5 && d.y == -5
  }

  /** The five segments of the example. */
  function ExampleSegments(a: Node, b: Node, c: Node, d: Node): seq<Segment> {
    [Segment("1", a, b), Segment("2", b, c), Segment("3", c, d), Segment("4", d, a), Segment("5", a, c)]
  }

  /** The names are unique, so `GetNodeByName` and `AddSegment` agree on
      every name; in particular both resolve "C" to the third node. */
  lemma ExampleNames(a: Node, b: Node, c: Node, d: Node)
    requires ExampleNodes(a, b, c, d)
    ensures Names([a, b, c, d]) == ["A", "B", "C", "D"]
    ensures Distinct(Names([a, b, c, d]))
    ensures FirstIndexOf(Names([a, b, c, d]), "C") == Some(2)
    ensures LastIndexOf(Names([a, b, c, d]), "C") == Some(2)
  {
    var names := Names([a, b, c, d]);
    assert names == ["A", "B", "C", "D"];
    FirstIndexOfAt(names, "C", 2);
  }

  /** `GetClosest(1, 1)` picks A, the only nearest node; all four nodes are
      equally near (5, 0), and the earliest, A, wins the tie. */
  lemma ExampleClosest(a: Node, b: Node, c: Node, d: Node)
    requires ExampleNodes(a, b, c, d)
    ensures ClosestIndex([a, b, c, d], 1, 1) == 0
    ensures ClosestIndex([a, b, c, d], 5, 0) == 0
  {
    var ns := [a, b, c, d];
    assert SqDist(a, 1, 1) == 2 && SqDist(b, 1, 1) == 32 && SqDist(c, 1, 1) == 82 && SqDist(d, 1, 1) == 52;
    var k := ClosestIndex(ns, 1, 1);
    assert SqDist(ns[k], 1, 1) <= SqDist(ns[0], 1, 1);
    assert k == 0;
    assert SqDist(a, 5, 0) == 25 && SqDist(b, 5, 0) == 25 && SqDist(c, 5, 0) == 25 && SqDist(d, 5, 0) == 25;
    var t := ClosestIndex(ns, 5, 0);
    assert t == 0;
  }

  /** Taking the third of four nodes out of the node list. */
  lemma RemoveThird(a: Node, b: Node, c: Node, d: Node)
    requires a != c && b != c
    ensures RemoveFirst([a, b, c, d], c) == [a, b, d]
  {
    assert [a, b, c, d] == [a] + ([b] + [c, d]);
    assert RemoveFirst([c, d], c) == [d];
    RemoveFirstCons(b, [c, d], c);
    RemoveFirstCons(a, [b] + [c, d], c);
  }

  /** Taking the last of two nodes out of a neighbour list. */
  lemma RemoveSecond(b: Node, c: Node)
    requires b != c
    ensures RemoveFirst([b, c], c) == [b]
  {
    assert [b, c][1..] == [c];
  }

  /** `DeleteNode("C")` on the example, for the nodes: they become A, B,
      D; A's neighbours [B, C] become [B], B's [C] become [], and D's [A],
      which do not name C, stay. */
  lemma ExampleDeleteCNodes(a: Node, b: Node, c: Node, d: Node)
    requires a != c && b != c && d != c
    ensures RemoveFirst([a, b, c, d], c) == [a, b, d]
    ensures RemoveFirst([b, c], c) == [b] && RemoveFirst([c], c) == [] && c !in [a]
  {
    RemoveThird(a, b, c, d);
    RemoveSecond(b, c);
  }

  /** The last two segments of the example without those touching C. */
  lemma DetachedLastTwo(a: Node, c: Node, d: Node)
    requires a != c && d != c
    ensures Detached([Segment("4", d, a), Segment("5", a, c)], c) == [Segment("4", d, a)]
  {
    var s := [Segment("4", d, a), Segment("5", a, c)];
    assert s[1..] == [Segment("5", a, c)];
    assert Filter(s[1..], Avoids(c)) == [];
  }

  /** The last four segments of the example without those touching C. */
  lemma DetachedLastFour(a: Node, b: Node, c: Node, d: Node)
    requires a != c && b != c && d != c
    ensures Detached(ExampleSegments(a, b, c, d)[1..], c) == [Segment("4", d, a)]
  {
    var s := ExampleSegments(a, b, c, d)[1..];
    assert s[1..][1..] == [Segment("4", d, a), Segment("5", a, c)];
    DetachedLastTwo(a, c, d);
    assert Filter(s[1..], Avoids(c)) == [Segment("4", d, a)];
  }

  /** `DeleteNode("C")` on the example, for the segments: only 1 and 4
      survive, in that order. */
  lemma ExampleDeleteCSegments(a: Node, b: Node, c: Node, d: Node)
    requires a != c && b != c && d != c
    ensures Detached(ExampleSegments(a, b, c, d), c) == [Segment("1", a, b), Segment("4", d, a)]
    ensures Ids(Detached(ExampleSegments(a, b, c, d), c)) == ["1", "4"]
  {
    DetachedLastFour(a, b, c, d);
    var s := ExampleSegments(a, b, c, d);
    assert Filter(s, Avoids(c)) == [s[0]] + Filter(s[1..], Avoids(c));
    assert Ids([Segment("1", a, b), Segment("4", d, a)]) == ["1", "4"];
  }
}
