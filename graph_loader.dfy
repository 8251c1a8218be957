/** `LoadGraphFromFile` of `graph.py`: a line-driven reader of the sectioned
    text format

        Nodes:
        <name>,<x>,<y>
        Segments:
        <id>,<origin name>,<destination name>

    The file is given as its sequence of lines.  What the reader does is
    specified by a state machine on values (`LoadStep`, `Load`), and the
    imperative reader is proved to build a graph that realizes its result. */
module GraphLoader {
  import opened Wrappers
  import opened ListOps
  import opened StrOps
  import opened GraphEngine

  /** The reader's `mode` variable: `None`, `"nodes"` or `"segments"`. */
  datatype Mode = Idle | ReadingNodes | ReadingSegments

  /** A node read so far. */
  datatype NodeRow = NodeRow(name: string, x: int, y: int)

  /** A segment added so far; its endpoints are positions among the nodes
      read so far. */
  datatype SegmentRow = SegmentRow(id: string, origin: nat, destination: nat)

  datatype LoadState = LoadState(mode: Mode, nodes: seq<NodeRow>, segments: seq<SegmentRow>)

  const Start := LoadState(Idle, [], [])

  function RowNames(rows: seq<NodeRow>): seq<string> {
    seq(|rows|, i requires 0 <= i < |rows| => rows[i].name)
  }

  /** The characters `float()` skips around a number: space and `\t` to
      `\r`.  Unlike `str.strip()`, it does not skip U+001C to U+001F. */
  predicate FloatSpace(c: char) {
    c == ' ' || ('\t' <= c <= '\r')
  }

  ghost predicate AllFloatSpace(s: string) {
    forall i | 0 <= i < |s| :: FloatSpace(s[i])
  }

  /** Drops the leading characters `float()` skips. */
  function TrimFloatLeft(s: string): (r: string)
    ensures |r| <= |s|
    ensures r == [] || !FloatSpace(r[0])
  {
    if s == [] || !FloatSpace(s[0]) then s else TrimFloatLeft(s[1..])
  }

  /** Drops the trailing characters `float()` skips. */
  function TrimFloatRight(s: string): (r: string)
    ensures |r| <= |s|
    ensures r == [] || !FloatSpace(r[|r| - 1])
  {
    if s == [] || !FloatSpace(s[|s| - 1]) then s else TrimFloatRight(s[..|s| - 1])
  }

  lemma {:induction false} TrimFloatLeftSuffix(s: string)
    ensures var r := TrimFloatLeft(s); r == s[|s| - |r|..] && AllFloatSpace(s[..|s| - |r|])
  {
    if s != [] && FloatSpace(s[0]) {
      TrimFloatLeftSuffix(s[1..]);
      var r := TrimFloatLeft(s);
      assert s[1..][..|s| - 1 - |r|] == s[1..|s| - |r|];
    }
  }

  lemma {:induction false} TrimFloatRightPrefix(s: string)
    ensures var r := TrimFloatRight(s); r == s[..|r|] && AllFloatSpace(s[|r|..])
  {
    if s != [] && FloatSpace(s[|s| - 1]) {
      var t := s[..|s| - 1];
      TrimFloatRightPrefix(t);
      var r := TrimFloatRight(t);
      assert TrimFloatRight(s) == r;
      assert s[..|r|] == t[..|r|];
      assert s[|r|..] == t[|r|..] + [s[|s| - 1]];
    }
  }

  /** The whitespace trimming `float()` does before it reads the number. */
  function TrimFloat(s: string): (r: string)
    ensures |r| <= |s|
    ensures r == [] || (!FloatSpace(r[0]) && !FloatSpace(r[|r| - 1]))
  {
    var l := TrimFloatLeft(s);
    TrimFloatRightPrefix(l);
    TrimFloatRight(l)
  }

  /** `TrimFloat` keeps one contiguous slice and drops only the characters
      `float()` skips on either side of it. */
  lemma TrimFloatIsSlice(s: string)
    ensures exists i, j | 0 <= i <= j <= |s| ::
      TrimFloat(s) == s[i..j] && AllFloatSpace(s[..i]) && AllFloatSpace(s[j..])
  {
    var l := TrimFloatLeft(s);
    var r := TrimFloat(s);
    TrimFloatLeftSuffix(s);
    TrimFloatRightPrefix(l);
    var i := |s| - |l|;
    var j := i + |r|;
    assert r == l[..|r|] == s[i..j];
    assert l[|r|..] == s[j..];
  }

  /** `float(field)` on a coordinate: the surrounding whitespace `float()`
      skips is dropped and an integer literal is read. */
  function ParseCoordinate(field: string): Option<int> {
    ParseInt(TrimFloat(field))
  }

  /** A field ending in U+001F, which `str.strip()` would drop, does not read
      as a coordinate, as `float("1\x1f")` raises. */
  lemma UnitSeparatorRejected()
    ensures Strip("1" + [31 as char]) == "1"
    ensures ParseCoordinate("1" + [31 as char]).None?
  {
    var f := "1" + [31 as char];
    assert StripLeft(f) == f;
    assert StripRight(f) == StripRight(f[..1]) == "1";
    assert TrimFloatLeft(f) == f && TrimFloatRight(f) == f;
  }

  predicate IsHeader(line: string) {
    StartsWith(line, "Nodes:") || StartsWith(line, "Segments:")
  }

  /** A data line in the nodes section: exactly three fields, the last two
      coordinates; anything else raises. */
  function ReadNodeLine(st: LoadState, line: string): Option<LoadState> {
    var f := Split(line, ',');
    if |f| != 3 then None
    else
      var x, y := ParseCoordinate(f[1]), ParseCoordinate(f[2]);
      if x.None? || y.None? then None
      else Some(st.(nodes := st.nodes + [NodeRow(f[0], x.value, y.value)]))
  }

  /** A data line in the segments section: exactly three fields, else it
      raises; `AddSegment` quietly adds nothing when a name is unknown. */
  function ReadSegmentLine(st: LoadState, line: string): Option<LoadState> {
    var f := Split(line, ',');
    if |f| != 3 then None
    else
      var o, d := LastIndexOf(RowNames(st.nodes), f[1]), LastIndexOf(RowNames(st.nodes), f[2]);
      if o.None? || d.None? then Some(st)
      else Some(st.(segments := st.segments + [SegmentRow(f[0], o.value, d.value)]))
  }

  /** One iteration of the reader's loop; None stands for the exception
      that aborts the whole load. */
  function LoadStep(st: LoadState, raw: string): Option<LoadState> {
    var line := Strip(raw);
    if line == [] then Some(st)
    else if StartsWith(line, "Nodes:") then Some(st.(mode := ReadingNodes))
    else if StartsWith(line, "Segments:") then Some(st.(mode := ReadingSegments))
    else
      match st.mode
      case Idle => Some(st)
      case ReadingNodes => ReadNodeLine(st, line)
      case ReadingSegments => ReadSegmentLine(st, line)
  }

  /** The reader's loop over `lines`, from state `st`. */
  function Run(st: LoadState, lines: seq<string>): Option<LoadState> {
    if lines == [] then Some(st)
    else
      match Run(st, lines[..|lines| - 1])
      case None => None
      case Some(s) => LoadStep(s, lines[|lines| - 1])
  }

  /** The result of loading a whole file. */
  function Load(lines: seq<string>): Option<LoadState> {
    Run(Start, lines)
  }

  /** Every segment joins two nodes read before it. */
  ghost predicate WellFormed(st: LoadState) {
    forall j | 0 <= j < |st.segments| :: st.segments[j].origin < |st.nodes| && st.segments[j].destination < |st.nodes|
  }

  /** Reading a line only ever appends: the nodes and segments read so far
      stay as they were, and the state stays well formed. */
  lemma LoadStepGrows(st: LoadState, raw: string)
    requires WellFormed(st)
    requires LoadStep(st, raw).Some?
    ensures var s := LoadStep(st, raw).value;
      && WellFormed(s)
      && s.nodes[..|st.nodes|] == st.nodes
      && s.segments[..|st.segments|] == st.segments
      && |s.nodes| <= |st.nodes| + 1 && |s.segments| <= |st.segments| + 1
  {
    var line := Strip(raw);
    if line != [] && !IsHeader(line) {
      if st.mode == ReadingNodes {
        ReadNodeLineGrows(st, line);
      } else if st.mode == ReadingSegments {
        ReadSegmentLineGrows(st, line);
      }
    }
  }

  /** A node line appends one node and nothing else. */
  lemma ReadNodeLineGrows(st: LoadState, line: string)
    requires WellFormed(st) && ReadNodeLine(st, line).Some?
    ensures var s := ReadNodeLine(st, line).value;
      && WellFormed(s)
      && s.nodes[..|st.nodes|] == st.nodes && |s.nodes| == |st.nodes| + 1
      && s.segments == st.segments && s.mode == st.mode
  {
    var s := ReadNodeLine(st, line).value;
    assert s.nodes[..|st.nodes|] == st.nodes;
  }

  /** A segment line appends at most one segment, between nodes read
      before it, and nothing else. */
  lemma ReadSegmentLineGrows(st: LoadState, line: string)
    requires WellFormed(st) && ReadSegmentLine(st, line).Some?
    ensures var s := ReadSegmentLine(st, line).value;
      && WellFormed(s)
      && s.nodes == st.nodes && s.mode == st.mode
      && s.segments[..|st.segments|] == st.segments && |s.segments| <= |st.segments| + 1
  {
    var s := ReadSegmentLine(st, line).value;
    assert s.segments[..|st.segments|] == st.segments;
  }

  lemma {:induction false} RunWellFormed(lines: seq<string>)
    requires Load(lines).Some?
    ensures WellFormed(Load(lines).value)
  {
    if lines != [] {
      RunWellFormed(lines[..|lines| - 1]);
      LoadStepGrows(Load(lines[..|lines| - 1]).value, lines[|lines| - 1]);
    }
  }

  /** Reading `a + b` is reading `a`, then reading `b` from where `a` left
      off; an error in `a` ends the load. */
  lemma {:induction false} RunConcat(st: LoadState, a: seq<string>, b: seq<string>)
    ensures Run(st, a + b) == match Run(st, a) case None => None case Some(s) => Run(s, b)
  {
    if b == [] {
      assert a + b == a;
    } else {
      assert (a + b)[..|a + b| - 1] == a + b[..|b| - 1];
      RunConcat(st, a, b[..|b| - 1]);
    }
  }

  /** One malformed line anywhere makes the whole load fail: no partial
      graph is ever returned. */
  lemma NoPartialGraph(a: seq<string>, b: seq<string>)
    requires Load(a).None?
    ensures Load(a + b).None?
  {
    RunConcat(Start, a, b);
  }

  /** Loading the first `k + 1` lines is loading the first `k`, then
      reading line `k`; loading all of them is loading the file. */
  lemma LoadPrefix(lines: seq<string>, k: nat)
    requires k <= |lines|
    ensures k < |lines| ==> Load(lines[..k + 1]) == match Load(lines[..k]) case None => None case Some(s) => LoadStep(s, lines[k])
    ensures k == |lines| ==> Load(lines[..k]) == Load(lines)
  {
    if k < |lines| {
      assert lines[..k + 1][..k] == lines[..k];
    } else {
      assert lines[..k] == lines;
    }
  }

  /** A load that fails on line `k` fails as a whole. */
  lemma LoadAborts(lines: seq<string>, k: nat)
    requires k < |lines| && Load(lines[..k + 1]).None?
    ensures Load(lines).None?
  {
    assert lines[..k + 1] + lines[k + 1..] == lines;
    NoPartialGraph(lines[..k + 1], lines[k + 1..]);
  }

  /** Blank lines (only whitespace) are skipped. */
  lemma BlankLineSkipped(st: LoadState, raw: string)
    requires AllSpace(raw)
    ensures LoadStep(st, raw) == Some(st)
  {
    StripEmptyIffAllSpace(raw);
  }

  /** A header line switches the mode and adds nothing. */
  lemma HeaderAddsNothing(st: LoadState, raw: string)
    requires IsHeader(Strip(raw))
    ensures LoadStep(st, raw).Some?
    ensures LoadStep(st, raw).value.nodes == st.nodes && LoadStep(st, raw).value.segments == st.segments
    ensures LoadStep(st, raw).value.mode == if StartsWith(Strip(raw), "Nodes:") then ReadingNodes else ReadingSegments
  {
  }

  /** Lines before the first header are ignored, whatever they hold. */
  lemma {:induction false} DataBeforeHeaderIgnored(lines: seq<string>)
    requires forall i | 0 <= i < |lines| :: !IsHeader(Strip(lines[i]))
    ensures Load(lines) == Some(Start)
  {
    if lines != [] {
      DataBeforeHeaderIgnored(lines[..|lines| - 1]);
    }
  }

  /** In a data section, a line that does not split into exactly three
      comma-separated fields aborts the load. */
  lemma WrongFieldCountFails(st: LoadState, raw: string)
    requires st.mode != Idle
    requires Strip(raw) != [] && !IsHeader(Strip(raw))
    requires |Split(Strip(raw), ',')| != 3
    ensures LoadStep(st, raw).None?
  {
  }

  /** In the nodes section, a three-field line is read exactly when both
      coordinates parse, and then adds one node at the end. */
  lemma NodeLineRead(st: LoadState, raw: string)
    requires st.mode == ReadingNodes
    requires Strip(raw) != [] && !IsHeader(Strip(raw))
    requires |Split(Strip(raw), ',')| == 3
    ensures var f := Split(Strip(raw), ',');
      && (LoadStep(st, raw).Some? <==> ParseCoordinate(f[1]).Some? && ParseCoordinate(f[2]).Some?)
      && (LoadStep(st, raw).Some? ==>
            LoadStep(st, raw).value == st.(nodes := st.nodes + [NodeRow(f[0], ParseCoordinate(f[1]).value, ParseCoordinate(f[2]).value)]))
  {
  }

  /** In the segments section, a three-field line whose endpoint names are
      not both known is skipped without error; otherwise it adds one segment
      between the last nodes carrying the two names. */
  lemma SegmentLineRead(st: LoadState, raw: string)
    requires st.mode == ReadingSegments
    requires Strip(raw) != [] && !IsHeader(Strip(raw))
    requires |Split(Strip(raw), ',')| == 3
    ensures var f := Split(Strip(raw), ',');
      && LoadStep(st, raw).Some?
      && (f[1] !in RowNames(st.nodes) || f[2] !in RowNames(st.nodes) ==> LoadStep(st, raw) == Some(st))
      && (f[1] in RowNames(st.nodes) && f[2] in RowNames(st.nodes) ==>
            var s := LoadStep(st, raw).value;
            && s.nodes == st.nodes
            && |s.segments| == |st.segments| + 1
            && s.segments[..|st.segments|] == st.segments
            && var row := s.segments[|st.segments|];
               row.id == f[0]
               && st.nodes[row.origin].name == f[1] && f[1] !in RowNames(st.nodes)[row.origin + 1..]
               && st.nodes[row.destination].name == f[2] && f[2] !in RowNames(st.nodes)[row.destination + 1..])
  {
  }

  /** The neighbour list the reader builds for node `i`: the destination of
      every segment leaving `i`, in segment order, once per segment. */
  function NeighborRows(ns: seq<Node>, segs: seq<SegmentRow>, i: nat): seq<Node>
    requires forall j | 0 <= j < |segs| :: segs[j].destination < |ns|
  {
    if segs == [] then []
    else
      var last := segs[|segs| - 1];
      NeighborRows(ns, segs[..|segs| - 1], i) + if last.origin == i then [ns[last.destination]] else []
  }

  /** Appending a node changes no neighbour list: existing segments only
      designate nodes read before it. */
  lemma {:induction false} NeighborRowsExtend(ns: seq<Node>, n: Node, segs: seq<SegmentRow>, i: nat)
    requires forall j | 0 <= j < |segs| :: segs[j].destination < |ns|
    ensures NeighborRows(ns + [n], segs, i) == NeighborRows(ns, segs, i)
  {
    if segs != [] {
      NeighborRowsExtend(ns, n, segs[..|segs| - 1], i);
    }
  }

  /** A node that no segment leaves has no neighbours. */
  lemma {:induction false} NeighborRowsNone(ns: seq<Node>, segs: seq<SegmentRow>, i: nat)
    requires forall j | 0 <= j < |segs| :: segs[j].destination < |ns| && segs[j].origin != i
    ensures NeighborRows(ns, segs, i) == []
  {
    if segs != [] {
      NeighborRowsNone(ns, segs[..|segs| - 1], i);
    }
  }

  /** The nodes `ns`, the segments `segs` and the neighbour lists `nb`
      hold exactly what the reader's state records: the nodes with their
      names and coordinates, in order; the segments with their identifiers
      and endpoints, in order; and as each node's neighbours the
      destinations of the segments leaving it, in segment order. */
  ghost predicate Mirrors(ns: seq<Node>, segs: seq<Segment>, nb: map<Node, seq<Node>>, st: LoadState) {
    && |ns| == |st.nodes|
    && (forall i | 0 <= i < |st.nodes| ::
          ns[i].name == st.nodes[i].name && ns[i].x == st.nodes[i].x && ns[i].y == st.nodes[i].y)
    && WellFormed(st)
    && |segs| == |st.segments|
    && (forall j | 0 <= j < |st.segments| ::
          segs[j] == Segment(st.segments[j].id, ns[st.segments[j].origin], ns[st.segments[j].destination]))
    && (forall i | 0 <= i < |st.nodes| :: ns[i] in nb && nb[ns[i]] == NeighborRows(ns, st.segments, i))
  }

  /** The graph `g` holds what the reader's state records. */
  ghost predicate Realizes(g: Graph, st: LoadState)
    reads g, g.nodes
  {
    Mirrors(g.nodes, g.segments, NeighborsOf(g.nodes), st)
  }

  /** Only the neighbour lists of listed nodes matter. */
  lemma MirrorsAgree(ns: seq<Node>, segs: seq<Segment>, nb: map<Node, seq<Node>>, nb2: map<Node, seq<Node>>, st: LoadState)
    requires Mirrors(ns, segs, nb, st)
    requires forall a | a in ns :: a in nb2 && nb2[a] == nb[a]
    ensures Mirrors(ns, segs, nb2, st)
  {
  }

  /** The graph's node names are the names read. */
  lemma MirrorsNames(ns: seq<Node>, segs: seq<Segment>, nb: map<Node, seq<Node>>, st: LoadState)
    requires Mirrors(ns, segs, nb, st)
    ensures Names(ns) == RowNames(st.nodes)
  {
  }

  /** Adding a new node with no neighbours mirrors reading its line. */
  lemma MirrorsAddNode(ns: seq<Node>, segs: seq<Segment>, nb: map<Node, seq<Node>>, st: LoadState, n: Node)
    requires Mirrors(ns, segs, nb, st) && n !in ns
    ensures Mirrors(ns + [n], segs, nb[n := []], st.(nodes := st.nodes + [NodeRow(n.name, n.x, n.y)]))
  {
    var ns2 := ns + [n];
    var st2 := st.(nodes := st.nodes + [NodeRow(n.name, n.x, n.y)]);
    forall i | 0 <= i < |st2.nodes| ensures ns2[i] in nb[n := []] && nb[n := []][ns2[i]] == NeighborRows(ns2, st2.segments, i) {
      NeighborRowsExtend(ns, n, st.segments, i);
      if i == |ns| {
        NeighborRowsNone(ns, st.segments, i);
      }
    }
  }

  /** Adding segment `id` from `ns[o]` to `ns[d]`, with `ns[d]` appended to
      the neighbours of `ns[o]`, mirrors reading its line. */
  lemma MirrorsAddSegment(ns: seq<Node>, segs: seq<Segment>, nb: map<Node, seq<Node>>, st: LoadState, id: string, o: nat, d: nat)
    requires Mirrors(ns, segs, nb, st) && Distinct(ns) && o < |ns| && d < |ns|
    ensures ns[o] in nb
    ensures Mirrors(ns, segs + [Segment(id, ns[o], ns[d])], nb[ns[o] := nb[ns[o]] + [ns[d]]],
                    st.(segments := st.segments + [SegmentRow(id, o, d)]))
  {
    var row := SegmentRow(id, o, d);
    var st2 := st.(segments := st.segments + [row]);
    assert st2.segments[..|st.segments|] == st.segments;
    var nb2 := nb[ns[o] := nb[ns[o]] + [ns[d]]];
    forall i | 0 <= i < |st2.nodes| ensures ns[i] in nb2 && nb2[ns[i]] == NeighborRows(ns, st2.segments, i) {
      if i != o {
        assert ns[i] != ns[o];
      }
    }
  }

  /** A data line of the nodes section, read into `g`. */
  method AddNodeLine(g: Graph, ghost st: LoadState, line: string) returns (ok: bool)
    requires g.Valid() && Realizes(g, st)
    modifies g
    ensures ok == ReadNodeLine(st, line).Some?
    ensures ok ==> g.Valid() && Realizes(g, ReadNodeLine(st, line).value)
    ensures forall n | n in g.nodes :: n in old(g.nodes) || fresh(n)
  {
    var f := Split(line, ',');
    if |f| != 3 {
      return false;
    }
    var x, y := ParseCoordinate(f[1]), ParseCoordinate(f[2]);
    if x.None? || y.None? {
      return false;
    }
    var n := new Node(f[0], x.value, y.value);
    ghost var nb := NeighborsOf(g.nodes);
    MirrorsAddNode(g.nodes, g.segments, nb, st, n);
    var _ := g.AddNode(n);
    MirrorsAgree(g.nodes, g.segments, nb[n := []], NeighborsOf(g.nodes), ReadNodeLine(st, line).value);
    return true;
  }

  /** A data line of the segments section, read into `g`. */
  method AddSegmentLine(g: Graph, ghost st: LoadState, line: string) returns (ok: bool)
    requires g.Valid() && Realizes(g, st)
    modifies g, g.nodes
    ensures ok == ReadSegmentLine(st, line).Some?
    ensures ok ==> g.Valid() && Realizes(g, ReadSegmentLine(st, line).value)
    ensures g.nodes == old(g.nodes)
  {
    var f := Split(line, ',');
    if |f| != 3 {
      return false;
    }
    ghost var ns, segs, nb := g.nodes, g.segments, NeighborsOf(g.nodes);
    var added := g.AddSegment(f[0], f[1], f[2]);
    forall n | n in ns && (!added || n != ns[LastIndexOf(Names(ns), f[1]).value])
      ensures n in NeighborsOf(g.nodes) && NeighborsOf(g.nodes)[n] == nb[n]
    {
      assert nb[n] == old(n.neighbors);
    }
    SegmentLineMirrored(ns, segs, nb, st, line, added, g.segments, NeighborsOf(g.nodes));
    return true;
  }

  /** What `AddSegment` does to the graph's values, given a three-field
      segment line, mirrors what reading that line does to the state. */
  lemma SegmentLineMirrored(ns: seq<Node>, segs: seq<Segment>, nb: map<Node, seq<Node>>, st: LoadState, line: string,
                            added: bool, segs2: seq<Segment>, nb2: map<Node, seq<Node>>)
    requires Mirrors(ns, segs, nb, st) && Distinct(ns)
    requires |Split(line, ',')| == 3
    requires var f := Split(line, ',');
      && added == (f[1] in Names(ns) && f[2] in Names(ns))
      && (!added ==> segs2 == segs && forall n | n in ns :: n in nb2 && nb2[n] == nb[n])
      && (added ==>
            var n1 := ns[LastIndexOf(Names(ns), f[1]).value];
            var n2 := ns[LastIndexOf(Names(ns), f[2]).value];
            && segs2 == segs + [Segment(f[0], n1, n2)]
            && n1 in nb2 && nb2[n1] == nb[n1] + [n2]
            && forall n | n in ns && n != n1 :: n in nb2 && nb2[n] == nb[n])
    ensures ReadSegmentLine(st, line).Some?
    ensures Mirrors(ns, segs2, nb2, ReadSegmentLine(st, line).value)
  {
    var f := Split(line, ',');
    MirrorsNames(ns, segs, nb, st);
    if added {
      var o, d := LastIndexOf(Names(ns), f[1]).value, LastIndexOf(Names(ns), f[2]).value;
      var next := st.(segments := st.segments + [SegmentRow(f[0], o, d)]);
      assert ReadSegmentLine(st, line) == Some(next);
      MirrorsAddSegment(ns, segs, nb, st, f[0], o, d);
      MirrorsAgree(ns, segs2, nb[ns[o] := nb[ns[o]] + [ns[d]]], nb2, next);
    } else {
      assert ReadSegmentLine(st, line) == Some(st);
      MirrorsAgree(ns, segs, nb, nb2, st);
    }
  }

  /** One line of the file, read into `g` in the reader's current `mode`:
      blank lines are skipped, a header switches the mode, and a data line
      is read by the section it is in. */
  method ReadLine(g: Graph, ghost st: LoadState, mode: Mode, raw: string) returns (ok: bool, mode2: Mode)
    requires st.mode == mode && g.Valid() && Realizes(g, st)
    modifies g, g.nodes
    ensures ok == LoadStep(st, raw).Some?
    ensures ok ==> g.Valid() && Realizes(g, LoadStep(st, raw).value) && mode2 == LoadStep(st, raw).value.mode
    ensures forall n | n in g.nodes :: n in old(g.nodes) || fresh(n)
  {
    var line := Strip(raw);
    if line == [] {
      return true, mode;
    }
    if StartsWith(line, "Nodes:") {
      return true, ReadingNodes;
    } else if StartsWith(line, "Segments:") {
      return true, ReadingSegments;
    }
    ok := true;
    if mode == ReadingNodes {
      ok := AddNodeLine(g, st, line);
    } else if mode == ReadingSegments {
      ok := AddSegmentLine(g, st, line);
    }
    mode2 := mode;
  }

  /** `LoadGraphFromFile`: reads the lines in order into a new graph,
      switching sections at each header; a malformed line anywhere makes it
      return None instead of a graph. */
  method LoadGraphFromFile(lines: seq<string>) returns (r: Option<Graph>)
    ensures r.None? <==> Load(lines).None?
    ensures r.Some? ==> fresh(r.value) && r.value.Valid() && Realizes(r.value, Load(lines).value)
    ensures r.Some? ==> forall n | n in r.value.nodes :: fresh(n)
  {
    var g := new Graph();
    var mode := Idle;
    ghost var st := Start;
    for k := 0 to |lines|
      invariant Load(lines[..k]) == Some(st)
      invariant st.mode == mode
      invariant fresh(g) && forall n | n in g.nodes :: fresh(n)
      invariant g.Valid() && Realizes(g, st)
    {
      LoadPrefix(lines, k);
      var ok;
      ok, mode := ReadLine(g, st, mode, lines[k]);
      if !ok {
        LoadAborts(lines, k);
        return None;
      }
      st := LoadStep(st, lines[k]).value;
    }
    LoadPrefix(lines, |lines|);
    return Some(g);
  }
}
