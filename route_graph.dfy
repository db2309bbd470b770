/** Route graphs (utils/route_graph.py): one directed graph per route, with an
    edge from the entry node to the exit node of every route section of every
    alternative route path. Node ids come from alternative markers, from the
    beginning or end of a path, or from the sequence numbers of two adjacent
    sections, so alternative paths merge where they share a marker. */
module RouteGraph {
  import opened PyStr

  type RouteId = int
  type PathId = int

  /** A section's `route_alternative_marker_at_entry` (or `_at_exit`) entry:
      the key may be missing, hold `None`, or hold a list of markers. */
  datatype MarkerField = Absent | NoneValue | Markers(markers: seq<string>) {
    /** The source's test: key present, not None, and a non-empty list. */
    predicate HasMarker() {
      Markers? && |markers| > 0
    }

    function First(): string
      requires HasMarker()
    {
      markers[0]
    }
  }

  datatype Section = Section(sequenceNumber: int, entryMarkers: MarkerField, exitMarkers: MarkerField)

  datatype RoutePath = RoutePath(id: PathId, sections: seq<Section>)

  datatype Route = Route(id: RouteId, paths: seq<RoutePath>)

  predicate Parenthesized(id: string) {
    |id| >= 2 && id[0] == '(' && id[|id| - 1] == ')'
  }

  /** The four shapes of node id. */
  function MarkerId(marker: string): string {
    "(" + marker + ")"
  }

  function BeginningId(n: int): string {
    "(" + IntToStr(n) + "_beginning)"
  }

  function EndId(n: int): string {
    "(" + IntToStr(n) + "_end)"
  }

  function AdjacencyId(before: int, after: int): string {
    "(" + IntToStr(before) + "->" + IntToStr(after) + ")"
  }

  /** `from_node_id`: the node a section is entered at. The caller passes
      the index the section has in its path; neighbour `i - 1` is read only
      when `i > 0`. */
  function FromNodeId(path: RoutePath, section: Section, i: nat): string
    requires i < |path.sections|
  {
    if section.entryMarkers.HasMarker() then MarkerId(section.entryMarkers.First())
    else if i == 0 then BeginningId(section.sequenceNumber)
    else AdjacencyId(path.sections[i - 1].sequenceNumber, section.sequenceNumber)
  }

  /** `to_node_id`: the node a section is left at; neighbour `i + 1` is read
      only when `i` is not the last index. */
  function ToNodeId(path: RoutePath, section: Section, i: nat): string
    requires i < |path.sections|
  {
    if section.exitMarkers.HasMarker() then MarkerId(section.exitMarkers.First())
    else if i == |path.sections| - 1 then EndId(section.sequenceNumber)
    else AdjacencyId(section.sequenceNumber, path.sections[i + 1].sequenceNumber)
  }

  type Edge = (string, string)

  /** The edge section `i` of `path` adds. */
  function EdgeOf(path: RoutePath, i: nat): Edge
    requires i < |path.sections|
  {
    (FromNodeId(path, path.sections[i], i), ToNodeId(path, path.sections[i], i))
  }

  function GraphName(id: RouteId): string {
    "Route-Graph for route " + IntToStr(id)
  }

  function Endpoints(es: set<Edge>): set<string> {
    (set e | e in es :: e.0) + (set e | e in es :: e.1)
  }

  /** A networkx DiGraph, as far as the core uses it: two graph attributes
      set at construction, and `add_edge`, which adds missing nodes and
      overwrites the attributes of an existing (u, v) edge. The only edge
      attribute the core sets is `abschnittsfolge_id`, the owning path. */
  class DiGraph {
    const routeId: RouteId
    const name: string
    var nodes: set<string>
    var edges: map<Edge, PathId>

    /** The core adds nodes only through `add_edge`, so the nodes are
        exactly the endpoints of the edges. */
    ghost predicate Valid()
      reads this
    {
      nodes == Endpoints(edges.Keys)
    }

    constructor (routeId: RouteId, name: string)
      ensures this.routeId == routeId && this.name == name
      ensures nodes == {} && edges == map[]
      ensures Valid()
    {
      this.routeId := routeId;
      this.name := name;
      nodes := {};
      edges := map[];
    }

    method AddEdge(u: string, v: string, pathId: PathId)
      requires Valid()
      modifies this
      ensures Valid()
      ensures nodes == old(nodes) + {u, v}
      ensures edges == old(edges)[(u, v) := pathId]
    {
      EndpointsInsert(edges.Keys, (u, v));
      nodes := nodes + {u, v};
      edges := edges[(u, v) := pathId];
    }
  }

  lemma EndpointsInsert(es: set<Edge>, e: Edge)
    ensures Endpoints(es + {e}) == Endpoints(es) + {e.0, e.1}
  {
    assert e in es + {e};
  }

  type EdgeMap = map<Edge, PathId>

  /** The edges the sections of `path` add, in section order. */
  function PathEdgeList(path: RoutePath): (es: seq<Edge>)
    ensures |es| == |path.sections|
    ensures forall i :: 0 <= i < |es| ==> es[i] == EdgeOf(path, i)
  {
    seq(|path.sections|, i requires 0 <= i < |path.sections| => EdgeOf(path, i))
  }

  /** `m` after `add_edge(u, v, abschnittsfolge_id=id)` for each (u, v) of `es`, in order. */
  function AddEdges(m: EdgeMap, es: seq<Edge>, id: PathId): EdgeMap {
    if es == [] then m else AddEdges(m, es[..|es| - 1], id)[es[|es| - 1] := id]
  }

  /** The edges of a graph after every section of `paths` has added its edge. */
  function PathsEdges(paths: seq<RoutePath>): EdgeMap {
    if paths == [] then map[]
    else
      var last := paths[|paths| - 1];
      AddEdges(PathsEdges(paths[..|paths| - 1]), PathEdgeList(last), last.id)
  }

  function RouteEdges(route: Route): EdgeMap {
    PathsEdges(route.paths)
  }

  /** What the graph built for `route` holds. */
  ghost predicate Describes(g: DiGraph, route: Route)
    reads g
  {
    && g.routeId == route.id
    && g.name == GraphName(route.id)
    && g.edges == RouteEdges(route)
    && g.nodes == Endpoints(RouteEdges(route).Keys)
  }

  /** The graph of one route: the body of the outer loop of
      `generate_route_graphs`. */
  method BuildRouteGraph(route: Route) returns (g: DiGraph)
    ensures fresh(g) && g.Valid()
    ensures Describes(g, route)
  {
    g := new DiGraph(route.id, GraphName(route.id));
    for p := 0 to |route.paths|
      invariant g.Valid()
      invariant g.edges == PathsEdges(route.paths[..p])
    {
      var path := route.paths[p];
      AddPath(g, path);
      PathsEdgesSnoc(route.paths, p);
    }
    assert route.paths[..|route.paths|] == route.paths;
  }

  lemma PathsEdgesSnoc(paths: seq<RoutePath>, p: nat)
    requires p < |paths|
    ensures PathsEdges(paths[..p + 1]) == AddEdges(PathsEdges(paths[..p]), PathEdgeList(paths[p]), paths[p].id)
  {
    assert paths[..p + 1][..p] == paths[..p];
  }

  /** The inner loop: one edge per section of `path`, in order. */
  method AddPath(g: DiGraph, path: RoutePath)
    requires g.Valid()
    modifies g
    ensures g.Valid()
    ensures g.edges == AddEdges(old(g.edges), PathEdgeList(path), path.id)
  {
    ghost var es := PathEdgeList(path);
    for i := 0 to |path.sections|
      invariant g.Valid()
      invariant g.edges == AddEdges(old(g.edges), es[..i], path.id)
    {
      EndpointsInsert(g.edges.Keys, EdgeOf(path, i));
      g.AddEdge(FromNodeId(path, path.sections[i], i), ToNodeId(path, path.sections[i], i), path.id);
      assert es[..i + 1][..i] == es[..i];
    }
    assert es[..|es|] == es;
  }

  /** The registry: each route id mapped to the last route with that id. */
  function LatestRoutes(routes: seq<Route>): map<RouteId, Route> {
    if routes == [] then map[]
    else LatestRoutes(routes[..|routes| - 1])[routes[|routes| - 1].id := routes[|routes| - 1]]
  }

  /** `generate_route_graphs`: a fresh graph per route id; a later route with
      a duplicate id replaces the earlier one's graph. */
  method GenerateRouteGraphs(routes: seq<Route>) returns (graphs: map<RouteId, DiGraph>)
    ensures graphs.Keys == LatestRoutes(routes).Keys
    ensures forall id :: id in graphs ==> fresh(graphs[id]) && graphs[id].Valid()
    ensures forall id :: id in graphs ==> Describes(graphs[id], LatestRoutes(routes)[id])
    ensures forall a, b :: a in graphs && b in graphs && a != b ==> graphs[a] != graphs[b]
  {
    graphs := map[];
    for k := 0 to |routes|
      invariant graphs.Keys == LatestRoutes(routes[..k]).Keys
      invariant forall id :: id in graphs ==> fresh(graphs[id]) && graphs[id].Valid()
      invariant forall id :: id in graphs ==> Describes(graphs[id], LatestRoutes(routes[..k])[id])
      invariant forall a, b :: a in graphs && b in graphs && a != b ==> graphs[a] != graphs[b]
    {
      var g := BuildRouteGraph(routes[k]);
      graphs := graphs[routes[k].id := g];
      assert routes[..k + 1][..k] == routes[..k];
    }
    assert routes[..|routes|] == routes;
  }

  // ---------------------------------------------------------------------
  // Node ids

  /** Marker rule: sections with the same first entry marker are entered at
      the same node, whatever path they are in and whatever their index. */
  lemma EntryMarkerMerge(p1: RoutePath, s1: Section, i1: nat, p2: RoutePath, s2: Section, i2: nat)
    requires i1 < |p1.sections| && i2 < |p2.sections|
    requires s1.entryMarkers.HasMarker() && s2.entryMarkers.HasMarker()
    requires s1.entryMarkers.First() == s2.entryMarkers.First()
    ensures FromNodeId(p1, s1, i1) == FromNodeId(p2, s2, i2) == MarkerId(s1.entryMarkers.First())
  {
  }

  /** The same on the exit side. */
  lemma ExitMarkerMerge(p1: RoutePath, s1: Section, i1: nat, p2: RoutePath, s2: Section, i2: nat)
    requires i1 < |p1.sections| && i2 < |p2.sections|
    requires s1.exitMarkers.HasMarker() && s2.exitMarkers.HasMarker()
    requires s1.exitMarkers.First() == s2.exitMarkers.First()
    ensures ToNodeId(p1, s1, i1) == ToNodeId(p2, s2, i2) == MarkerId(s1.exitMarkers.First())
  {
  }

  /** A path leaving a junction and another entering it meet at one node. */
  lemma ExitEntryMerge(p1: RoutePath, s1: Section, i1: nat, p2: RoutePath, s2: Section, i2: nat)
    requires i1 < |p1.sections| && i2 < |p2.sections|
    requires s1.exitMarkers.HasMarker() && s2.entryMarkers.HasMarker()
    requires s1.exitMarkers.First() == s2.entryMarkers.First()
    ensures ToNodeId(p1, s1, i1) == FromNodeId(p2, s2, i2)
  {
  }

  /** Every node id, of whichever kind, is wrapped in parentheses. */
  lemma NodeIdsParenthesized(path: RoutePath, s: Section, i: nat)
    requires i < |path.sections|
    ensures Parenthesized(FromNodeId(path, s, i)) && Parenthesized(ToNodeId(path, s, i))
  {
    var f, t := FromNodeId(path, s, i), ToNodeId(path, s, i);
    assert f[0] == '(' && f[|f| - 1] == ')';
    assert t[0] == '(' && t[|t| - 1] == ')';
  }

  /** A missing key, `None` and `[]` all fall through to the positional rule,
      so the three give the same ids. */
  lemma NoMarkerFallsThrough(path: RoutePath, s: Section, i: nat, entry: MarkerField, exit: MarkerField)
    requires i < |path.sections|
    requires !entry.HasMarker() && !s.entryMarkers.HasMarker()
    requires !exit.HasMarker() && !s.exitMarkers.HasMarker()
    ensures FromNodeId(path, s.(entryMarkers := entry), i) == FromNodeId(path, s, i)
    ensures ToNodeId(path, s.(exitMarkers := exit), i) == ToNodeId(path, s, i)
    ensures entry == Absent || entry == NoneValue || entry == Markers([])
  {
  }

  /** Boundary forms: without markers, the first section starts at its
      "beginning" node and the last one ends at its "end" node; a
      one-section path gets both. */
  lemma BoundaryIds(path: RoutePath)
    requires |path.sections| > 0
    ensures var first := path.sections[0];
      !first.entryMarkers.HasMarker() ==> FromNodeId(path, first, 0) == BeginningId(first.sequenceNumber)
    ensures var n := |path.sections|; var last := path.sections[n - 1];
      !last.exitMarkers.HasMarker() ==> ToNodeId(path, last, n - 1) == EndId(last.sequenceNumber)
  {
  }

  /** Chaining: without markers between them, a section ends where the next
      one starts, at the node named after both sequence numbers. */
  lemma Chaining(path: RoutePath, i: nat)
    requires 0 < i < |path.sections|
    requires !path.sections[i - 1].exitMarkers.HasMarker()
    requires !path.sections[i].entryMarkers.HasMarker()
    ensures ToNodeId(path, path.sections[i - 1], i - 1) == FromNodeId(path, path.sections[i], i)
    ensures FromNodeId(path, path.sections[i], i)
         == AdjacencyId(path.sections[i - 1].sequenceNumber, path.sections[i].sequenceNumber)
  {
  }

  /** The junction between two consecutive sections is consistent when
      neither side carries a marker or both name the same first marker. */
  predicate Junction(before: Section, after: Section) {
    || (!before.exitMarkers.HasMarker() && !after.entryMarkers.HasMarker())
    || (before.exitMarkers.HasMarker() && after.entryMarkers.HasMarker()
        && before.exitMarkers.First() == after.entryMarkers.First())
  }

  /** A path whose junctions are consistent is a walk in its route's graph:
      each edge starts where the previous one ended. */
  lemma PathIsWalk(path: RoutePath)
    requires forall i :: 0 < i < |path.sections| ==> Junction(path.sections[i - 1], path.sections[i])
    ensures forall i :: 0 < i < |path.sections| ==> EdgeOf(path, i - 1).1 == EdgeOf(path, i).0
  {
    forall i | 0 < i < |path.sections| ensures EdgeOf(path, i - 1).1 == EdgeOf(path, i).0 {
      if path.sections[i].entryMarkers.HasMarker() {
        ExitEntryMerge(path, path.sections[i - 1], i - 1, path, path.sections[i], i);
      } else {
        Chaining(path, i);
      }
    }
  }

  /** The positional ids of the three kinds never coincide: a beginning id
      and an end id hold an underscore, an adjacency id does not, and the
      two boundary forms end differently. */
  lemma PositionalIdsDistinct(a: int, b: int, c: int, d: int)
    ensures BeginningId(a) != AdjacencyId(b, c)
    ensures EndId(d) != AdjacencyId(b, c)
    ensures BeginningId(a) != EndId(d)
  {
    var adj := AdjacencyId(b, c);
    var sb, sc := IntToStr(b), IntToStr(c);
    assert adj == "(" + sb + "->" + sc + ")";
    forall j | 0 <= j < |adj| ensures adj[j] != '_' {
      if 1 <= j < 1 + |sb| {
        assert adj[j] == sb[j - 1];
      } else if 1 + |sb| + 2 <= j < 1 + |sb| + 2 + |sc| {
        assert adj[j] == sc[j - 3 - |sb|];
      }
    }
    var beg := BeginningId(a);
    assert beg[1 + |IntToStr(a)|] == '_';
    var end := EndId(d);
    assert end[1 + |IntToStr(d)|] == '_';
    assert beg[|beg| - 2] == 'g' && end[|end| - 2] == 'd';
  }

  /** Each positional id names its sequence numbers: different numbers give
      different ids. */
  lemma BeginningIdInjective(a: int, c: int)
    requires BeginningId(a) == BeginningId(c)
    ensures a == c
  {
    var sa, sc := IntToStr(a), IntToStr(c);
    assert |sa| == |sc|;
    assert BeginningId(a)[1..1 + |sa|] == sa && BeginningId(c)[1..1 + |sc|] == sc;
    IntToStrInjective(a, c);
  }

  lemma EndIdInjective(a: int, c: int)
    requires EndId(a) == EndId(c)
    ensures a == c
  {
    var sa, sc := IntToStr(a), IntToStr(c);
    assert |sa| == |sc|;
    assert EndId(a)[1..1 + |sa|] == sa && EndId(c)[1..1 + |sc|] == sc;
    IntToStrInjective(a, c);
  }

  lemma AdjacencyIdInjective(a: int, b: int, c: int, d: int)
    requires AdjacencyId(a, b) == AdjacencyId(c, d)
    ensures a == c && b == d
  {
    var x := AdjacencyId(a, b);
    var sa, sb, sc, sd := IntToStr(a), IntToStr(b), IntToStr(c), IntToStr(d);
    ArrowFirst(a, b);
    ArrowFirst(c, d);
    assert |sa| == |sc|;
    assert x[1..1 + |sa|] == sa && AdjacencyId(c, d)[1..1 + |sc|] == sc;
    IntToStrInjective(a, c);
    assert x[3 + |sa|..|x| - 1] == sb && AdjacencyId(c, d)[3 + |sc|..|x| - 1] == sd;
    IntToStrInjective(b, d);
  }

  /** The first `>` of an adjacency id is the one of its arrow. */
  lemma ArrowFirst(a: int, b: int)
    ensures var x, n := AdjacencyId(a, b), |IntToStr(a)|;
      x[2 + n] == '>' && forall j :: 0 <= j < 2 + n ==> x[j] != '>'
  {
    var x, sa := AdjacencyId(a, b), IntToStr(a);
    forall j | 1 <= j < 1 + |sa| ensures x[j] != '>' {
      assert x[j] == sa[j - 1];
    }
  }

  lemma MarkerIdInjective(m1: string, m2: string)
    requires MarkerId(m1) == MarkerId(m2)
    ensures m1 == m2
  {
    assert MarkerId(m1)[1..|MarkerId(m1)| - 1] == m1;
    assert MarkerId(m2)[1..|MarkerId(m2)| - 1] == m2;
  }

  // ---------------------------------------------------------------------
  // Edges

  /** The pairs (entry id, exit id) of all sections of all paths of a route. */
  ghost function SectionEdges(paths: seq<RoutePath>): set<Edge> {
    set p, i | 0 <= p < |paths| && 0 <= i < |paths[p].sections| :: EdgeOf(paths[p], i)
  }

  ghost function Elements(es: seq<Edge>): set<Edge> {
    set e | e in es
  }

  function TotalSections(paths: seq<RoutePath>): nat {
    if paths == [] then 0 else TotalSections(paths[..|paths| - 1]) + |paths[|paths| - 1].sections|
  }

  lemma {:induction false} AddEdgesKeys(m: EdgeMap, es: seq<Edge>, id: PathId)
    ensures AddEdges(m, es, id).Keys == m.Keys + Elements(es)
  {
    if es != [] {
      var init := es[..|es| - 1];
      AddEdgesKeys(m, init, id);
      assert es == init + [es[|es| - 1]];
    }
  }

  lemma {:induction false} AddEdgesSize(m: EdgeMap, es: seq<Edge>, id: PathId)
    ensures |AddEdges(m, es, id)| <= |m| + |es|
  {
    if es != [] {
      var init := es[..|es| - 1];
      AddEdgesSize(m, init, id);
      var a := AddEdges(m, init, id);
      var k := es[|es| - 1];
      if k in a {
        assert a[k := id].Keys == a.Keys;
      } else {
        assert a[k := id].Keys == a.Keys + {k};
      }
    }
  }

  lemma {:induction false} AddEdgesLastWriter(m: EdgeMap, es: seq<Edge>, id: PathId, i: nat)
    requires i < |es|
    requires forall j :: i < j < |es| ==> es[j] != es[i]
    ensures es[i] in AddEdges(m, es, id) && AddEdges(m, es, id)[es[i]] == id
  {
    if i != |es| - 1 {
      var init := es[..|es| - 1];
      assert init[i] == es[i];
      AddEdgesLastWriter(m, init, id, i);
    }
  }

  lemma {:induction false} AddEdgesUntouched(m: EdgeMap, es: seq<Edge>, id: PathId, e: Edge)
    requires e !in es
    ensures (e in AddEdges(m, es, id)) == (e in m)
    ensures e in m ==> AddEdges(m, es, id)[e] == m[e]
  {
    if es != [] {
      assert es[|es| - 1] != e;
      AddEdgesUntouched(m, es[..|es| - 1], id, e);
    }
  }

  lemma SectionEdgesSnoc(paths: seq<RoutePath>)
    requires paths != []
    ensures SectionEdges(paths)
         == SectionEdges(paths[..|paths| - 1]) + Elements(PathEdgeList(paths[|paths| - 1]))
  {
    var k := |paths| - 1;
    var init := paths[..k];
    var last := PathEdgeList(paths[k]);
    forall e | e in SectionEdges(paths) ensures e in SectionEdges(init) || e in last {
      var p, i :| 0 <= p < |paths| && 0 <= i < |paths[p].sections| && EdgeOf(paths[p], i) == e;
      if p < k {
        assert init[p] == paths[p];
      } else {
        assert last[i] == e;
      }
    }
    forall e | e in SectionEdges(init) ensures e in SectionEdges(paths) {
      var p, i :| 0 <= p < |init| && 0 <= i < |init[p].sections| && EdgeOf(init[p], i) == e;
      assert init[p] == paths[p];
    }
    forall e | e in last ensures e in SectionEdges(paths) {
      var i :| 0 <= i < |last| && last[i] == e;
    }
  }

  /** The edge set of a route's graph is exactly the set of (entry id, exit
      id) pairs of its sections, and there are at most as many edges as
      sections: sections that give the same pair share one edge. */
  lemma {:induction false} RouteEdgeSet(paths: seq<RoutePath>)
    ensures PathsEdges(paths).Keys == SectionEdges(paths)
    ensures |PathsEdges(paths)| <= TotalSections(paths)
  {
    if paths != [] {
      var k := |paths| - 1;
      var init := paths[..k];
      var last := PathEdgeList(paths[k]);
      RouteEdgeSet(init);
      AddEdgesKeys(PathsEdges(init), last, paths[k].id);
      AddEdgesSize(PathsEdges(init), last, paths[k].id);
      SectionEdgesSnoc(paths);
    }
  }

  /** The graph's nodes are exactly the entry and exit ids of the sections. */
  lemma RouteNodes(route: Route)
    ensures Endpoints(RouteEdges(route).Keys) == Endpoints(SectionEdges(route.paths))
  {
    RouteEdgeSet(route.paths);
  }

  /** Each edge contributes at most two nodes. */
  lemma {:induction false} EndpointsSize(es: set<Edge>)
    ensures |Endpoints(es)| <= 2 * |es|
  {
    if es != {} {
      var e :| e in es;
      var rest := es - {e};
      EndpointsSize(rest);
      assert es == rest + {e};
      EndpointsInsert(rest, e);
    }
  }

  /** A route's graph has at most two nodes per section. */
  lemma NodeBound(route: Route)
    ensures |Endpoints(RouteEdges(route).Keys)| <= 2 * TotalSections(route.paths)
  {
    RouteEdgeSet(route.paths);
    EndpointsSize(RouteEdges(route).Keys);
  }

  /** Section (p, i) comes before section (p2, i2) in path-then-section order. */
  predicate Before(p: nat, i: nat, p2: nat, i2: nat) {
    p < p2 || (p == p2 && i < i2)
  }

  /** Edge attribute: the `abschnittsfolge_id` of an edge is the id of the
      path of the last section, in path-then-section order, that gives it. */
  lemma {:induction false} RouteEdgeOwner(paths: seq<RoutePath>, p: nat, i: nat)
    requires p < |paths| && i < |paths[p].sections|
    requires forall p2: nat, i2: nat :: p2 < |paths| && i2 < |paths[p2].sections| && Before(p, i, p2, i2)
               ==> EdgeOf(paths[p2], i2) != EdgeOf(paths[p], i)
    ensures EdgeOf(paths[p], i) in PathsEdges(paths)
    ensures PathsEdges(paths)[EdgeOf(paths[p], i)] == paths[p].id
  {
    var ls := EdgeLists(paths);
    PathsEdgesFold(paths);
    assert ls[p].0[i] == EdgeOf(paths[p], i);
    forall p2: nat, i2: nat | p2 < |ls| && i2 < |ls[p2].0| && Before(p, i, p2, i2)
      ensures ls[p2].0[i2] != ls[p].0[i]
    {
      assert ls[p2].0[i2] == EdgeOf(paths[p2], i2);
    }
    FoldOwner(ls, p, i);
  }

  /** Each path's edge list with its id: the part of a path the edge map sees. */
  function EdgeLists(paths: seq<RoutePath>): (ls: seq<(seq<Edge>, PathId)>)
    ensures |ls| == |paths|
    ensures forall p :: 0 <= p < |paths| ==> ls[p] == (PathEdgeList(paths[p]), paths[p].id)
  {
    seq(|paths|, p requires 0 <= p < |paths| => (PathEdgeList(paths[p]), paths[p].id))
  }

  function FoldEdges(ls: seq<(seq<Edge>, PathId)>): EdgeMap {
    if ls == [] then map[] else AddEdges(FoldEdges(ls[..|ls| - 1]), ls[|ls| - 1].0, ls[|ls| - 1].1)
  }

  lemma {:induction false} PathsEdgesFold(paths: seq<RoutePath>)
    ensures PathsEdges(paths) == FoldEdges(EdgeLists(paths))
  {
    if paths != [] {
      var k := |paths| - 1;
      PathsEdgesFold(paths[..k]);
      assert EdgeLists(paths)[..k] == EdgeLists(paths[..k]);
    }
  }

  lemma {:induction false} FoldOwner(ls: seq<(seq<Edge>, PathId)>, p: nat, i: nat)
    requires p < |ls| && i < |ls[p].0|
    requires forall p2: nat, i2: nat :: p2 < |ls| && i2 < |ls[p2].0| && Before(p, i, p2, i2)
               ==> ls[p2].0[i2] != ls[p].0[i]
    ensures ls[p].0[i] in FoldEdges(ls) && FoldEdges(ls)[ls[p].0[i]] == ls[p].1
  {
    var k := |ls| - 1;
    var init := ls[..k];
    var last := ls[k].0;
    var e := ls[p].0[i];
    if p == k {
      forall j | i < j < |last| ensures last[j] != last[i] {
        assert Before(p, i, k, j);
      }
      AddEdgesLastWriter(FoldEdges(init), last, ls[k].1, i);
    } else {
      forall j | 0 <= j < |last| ensures last[j] != e {
        assert Before(p, i, k, j);
      }
      AddEdgesUntouched(FoldEdges(init), last, ls[k].1, e);
      assert init[p] == ls[p];
      forall p2: nat, i2: nat | p2 < |init| && i2 < |init[p2].0| && Before(p, i, p2, i2)
        ensures init[p2].0[i2] != init[p].0[i]
      {
        assert init[p2] == ls[p2];
      }
      FoldOwner(init, p, i);
    }
  }

  // ---------------------------------------------------------------------
  // Registry

  /** The registry holds exactly the ids of the routes, and each id maps
      to the last route that has it. */
  lemma {:induction false} LatestRoutesSpec(routes: seq<Route>)
    ensures LatestRoutes(routes).Keys == set j | 0 <= j < |routes| :: routes[j].id
    ensures forall j :: 0 <= j < |routes| && (forall j2 :: j < j2 < |routes| ==> routes[j2].id != routes[j].id)
              ==> LatestRoutes(routes)[routes[j].id] == routes[j]
  {
    LatestRoutesKeys(routes);
    forall j | 0 <= j < |routes| && (forall j2 :: j < j2 < |routes| ==> routes[j2].id != routes[j].id)
      ensures LatestRoutes(routes)[routes[j].id] == routes[j]
    {
      LatestRouteWins(routes, j);
    }
  }

  lemma {:induction false} LatestRoutesKeys(routes: seq<Route>)
    ensures LatestRoutes(routes).Keys == set j | 0 <= j < |routes| :: routes[j].id
  {
    if routes != [] {
      var k := |routes| - 1;
      var init := routes[..k];
      LatestRoutesKeys(init);
      assert forall j :: 0 <= j < k ==> init[j] == routes[j];
      assert (set j | 0 <= j < |routes| :: routes[j].id) == (set j | 0 <= j < k :: init[j].id) + {routes[k].id};
    }
  }

  lemma {:induction false} LatestRouteWins(routes: seq<Route>, j: nat)
    requires j < |routes| && forall j2 :: j < j2 < |routes| ==> routes[j2].id != routes[j].id
    ensures routes[j].id in LatestRoutes(routes) && LatestRoutes(routes)[routes[j].id] == routes[j]
  {
    var k := |routes| - 1;
    if j < k {
      var init := routes[..k];
      assert init[j] == routes[j];
      forall j2 | j < j2 < k ensures init[j2].id != init[j].id {
        assert init[j2] == routes[j2];
      }
      LatestRouteWins(init, j);
    }
  }

  // ---------------------------------------------------------------------
  // Two concrete routes

  /** One path with sections 10 and 20 and no markers. */
  lemma TwoSectionPath(pid: PathId, rid: RouteId)
    ensures var route := Route(rid, [RoutePath(pid, [Section(10, Absent, Absent), Section(20, Absent, Absent)])]);
      && RouteEdges(route) == map[("(10_beginning)", "(10->20)") := pid, ("(10->20)", "(20_end)") := pid]
      && Endpoints(RouteEdges(route).Keys) == {"(10_beginning)", "(10->20)", "(20_end)"}
  {
    var path := RoutePath(pid, [Section(10, Absent, Absent), Section(20, Absent, Absent)]);
    var route := Route(rid, [path]);
    assert IntToStr(10) == "10" by { assert NatToStr(1) == "1"; }
    assert IntToStr(20) == "20" by { assert NatToStr(2) == "2"; }
    assert BeginningId(10) == "(10_beginning)";
    assert AdjacencyId(10, 20) == "(10->20)";
    assert EndId(20) == "(20_end)";
    var e1, e2 := ("(10_beginning)", "(10->20)"), ("(10->20)", "(20_end)");
    assert FromNodeId(path, path.sections[0], 0) == BeginningId(10);
    assert ToNodeId(path, path.sections[0], 0) == AdjacencyId(10, 20);
    assert FromNodeId(path, path.sections[1], 1) == AdjacencyId(10, 20);
    assert ToNodeId(path, path.sections[1], 1) == EndId(20);
    var es := PathEdgeList(path);
    assert es == [e1, e2];
    assert es[..1] == [e1] && es[..1][..0] == [];
    assert [path][..0] == [];
    assert PathsEdges([path][..0]) == map[];
    assert PathsEdges([path]) == AddEdges(map[], PathEdgeList(path), pid);
    assert AddEdges(map[], es[..1], pid) == map[e1 := pid];
    assert RouteEdges(route).Keys == {e1, e2};
  }

  /** A path ending at marker AK5 and a path starting at AK5 share that node:
      the first path's edge enters it and the second's leaves it. */
  lemma SharedMarkerNode(rid: RouteId)
    ensures var ak5 := Markers(["AK5"]);
      var route := Route(rid, [RoutePath(1, [Section(1, Absent, ak5)]), RoutePath(2, [Section(2, ak5, Absent)])]);
      RouteEdges(route) == map[("(1_beginning)", "(AK5)") := 1, ("(AK5)", "(2_end)") := 2]
  {
    var ak5 := Markers(["AK5"]);
    var p1, p2 := RoutePath(1, [Section(1, Absent, ak5)]), RoutePath(2, [Section(2, ak5, Absent)]);
    var e1, e2 := ("(1_beginning)", "(AK5)"), ("(AK5)", "(2_end)");
    assert IntToStr(1) == "1" && IntToStr(2) == "2";
    assert BeginningId(1) == "(1_beginning)" && EndId(2) == "(2_end)" && MarkerId("AK5") == "(AK5)";
    assert PathEdgeList(p1) == [e1] && PathEdgeList(p2) == [e2];
    assert [p1][..0] == [] && [p1, p2][..1] == [p1];
    assert PathsEdges([p1][..0]) == map[];
    assert PathsEdges([p1]) == AddEdges(map[], [e1], 1);
    assert [e1][..0] == [] && [e2][..0] == [];
    assert PathsEdges([p1]) == map[e1 := 1];
    assert PathsEdges([p1, p2]) == AddEdges(map[e1 := 1], [e2], 2);
  }

  /** Two paths with the same two markers around a section give one edge, not
      two: the (u, v) pair is the edge's identity in a DiGraph, and the later
      path's id wins. */
  lemma SharedEdgeCollapses(rid: RouteId)
    ensures var a, b := Markers(["A"]), Markers(["B"]);
      var route := Route(rid, [RoutePath(1, [Section(5, a, b)]), RoutePath(2, [Section(6, a, b)])]);
      && TotalSections(route.paths) == 2
      && RouteEdges(route) == map[("(A)", "(B)") := 2]
  {
    var a, b := Markers(["A"]), Markers(["B"]);
    var p1, p2 := RoutePath(1, [Section(5, a, b)]), RoutePath(2, [Section(6, a, b)]);
    var e := ("(A)", "(B)");
    assert MarkerId("A") == "(A)" && MarkerId("B") == "(B)";
    assert PathEdgeList(p1) == [e] && PathEdgeList(p2) == [e];
    assert [p1][..0] == [] && [p1, p2][..1] == [p1] && [e][..0] == [];
    assert PathsEdges([p1][..0]) == map[];
    assert TotalSections([p1]) == 1;
    assert PathsEdges([p1]) == AddEdges(map[], [e], 1);
    assert AddEdges(map[], [e], 1) == AddEdges(map[], [e][..0], 1)[e := 1];
    assert PathsEdges([p1]) == map[e := 1];
    assert PathsEdges([p1, p2]) == AddEdges(map[e := 1], [e], 2);
  }
}
