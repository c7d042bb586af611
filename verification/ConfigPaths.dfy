/** The configuration-path gatherer of print-introspected-doxygen.cc: a depth-first search over the
    labelled, usually cyclic, graph of registered types.

    `StaticInformation` is the source's class.  `Gathered` is the list of entries one search appends.
    The independent reference is the set of simple walks (`SimpleWalk`): a walk is a sequence of
    edge numbers, and it is simple when it visits no type twice. */
module ConfigPaths {
  import opened Common

  datatype TypeId = TypeId(name: string)

  /** What the checker of an attribute says: a pointer, a vector of objects, or neither. */
  datatype Checker = PointerTo(pointee: TypeId) | VectorOf(item: TypeId) | Plain

  datatype Attribute = Attribute(name: string, checker: Checker)

  /** The type registry the search reads.  `descends` holds (child, ancestor) pairs. */
  datatype Registry = Registry(
    objectTid: TypeId,
    registered: seq<TypeId>,
    attributes: map<TypeId, seq<Attribute>>,
    descends: set<(TypeId, TypeId)>)
  {
    function AttributesOf(tid: TypeId): seq<Attribute> {
      if tid in attributes then attributes[tid] else []
    }
  }

  datatype Graph = Graph(registry: Registry, aggregates: seq<(TypeId, TypeId)>)

  datatype Edge = Edge(name: string, target: TypeId)

  type Entry = (TypeId, string)

  // ---------------------------------------------------------------------------------------------
  // The ordered edges of a type

  /** Pointers to Object itself are not followed. */
  function AttributeEdge(g: Graph, a: Attribute): seq<Edge> {
    match a.checker
    case PointerTo(pointee) => if pointee == g.registry.objectTid then [] else [Edge(a.name, pointee)]
    case VectorOf(item) => [Edge(a.name + "/[i]", item)]
    case Plain => []
  }

  function AttributeEdges(g: Graph, attributes: seq<Attribute>): seq<Edge> {
    if attributes == [] then []
    else AttributeEdges(g, attributes[..|attributes| - 1]) + AttributeEdge(g, attributes[|attributes| - 1])
  }

  function ChildEdge(g: Graph, tid: TypeId, child: TypeId): seq<Edge> {
    if (child, tid) in g.registry.descends then [Edge("$" + child.name, child)] else []
  }

  function ChildEdges(g: Graph, tid: TypeId, children: seq<TypeId>): seq<Edge> {
    if children == [] then []
    else ChildEdges(g, tid, children[..|children| - 1]) + ChildEdge(g, tid, children[|children| - 1])
  }

  /** An aggregation is followed from either end; a self-aggregation leads back to its own type. */
  function AggregateEdge(tid: TypeId, pair: (TypeId, TypeId)): seq<Edge> {
    if pair.1 == tid then [Edge("$" + pair.0.name, pair.0)]
    else if pair.0 == tid then [Edge("$" + pair.1.name, pair.1)]
    else []
  }

  function AggregateEdges(tid: TypeId, pairs: seq<(TypeId, TypeId)>): seq<Edge> {
    if pairs == [] then []
    else AggregateEdges(tid, pairs[..|pairs| - 1]) + AggregateEdge(tid, pairs[|pairs| - 1])
  }

  function Edges(g: Graph, tid: TypeId): seq<Edge> {
    AttributeEdges(g, g.registry.AttributesOf(tid))
    + ChildEdges(g, tid, g.registry.registered)
    + AggregateEdges(tid, g.aggregates)
  }

  // ---------------------------------------------------------------------------------------------
  // Termination: the types an edge can lead to form a finite set

  ghost function Known(g: Graph): set<TypeId> {
    (set t | t in g.registry.registered)
    + (set tid, k | tid in g.registry.attributes && 0 <= k < |g.registry.attributes[tid]|
         && g.registry.attributes[tid][k].checker.PointerTo? :: g.registry.attributes[tid][k].checker.pointee)
    + (set tid, k | tid in g.registry.attributes && 0 <= k < |g.registry.attributes[tid]|
         && g.registry.attributes[tid][k].checker.VectorOf? :: g.registry.attributes[tid][k].checker.item)
    + (set pair | pair in g.aggregates :: pair.0)
    + (set pair | pair in g.aggregates :: pair.1)
  }

  ghost predicate LeadsToKnown(g: Graph, es: seq<Edge>) {
    forall i :: 0 <= i < |es| ==> es[i].target in Known(g)
  }

  lemma AttributeEdgeKnown(g: Graph, tid: TypeId, k: nat)
    requires k < |g.registry.AttributesOf(tid)|
    ensures LeadsToKnown(g, AttributeEdge(g, g.registry.AttributesOf(tid)[k]))
  {
    assert tid in g.registry.attributes;
    var a := g.registry.attributes[tid][k];
  }

  lemma {:induction false} AttributeEdgesKnown(g: Graph, tid: TypeId, n: nat)
    requires n <= |g.registry.AttributesOf(tid)|
    ensures LeadsToKnown(g, AttributeEdges(g, g.registry.AttributesOf(tid)[..n]))
  {
    if n == 0 {
    } else {
      var attributes := g.registry.AttributesOf(tid);
      AttributeEdgesKnown(g, tid, n - 1);
      AttributeEdgeKnown(g, tid, n - 1);
      assert attributes[..n][..n - 1] == attributes[..n - 1];
    }
  }

  lemma {:induction false} ChildEdgesKnown(g: Graph, tid: TypeId, children: seq<TypeId>)
    requires forall t :: t in children ==> t in g.registry.registered
    ensures LeadsToKnown(g, ChildEdges(g, tid, children))
  {
    if children == [] {
    } else {
      ChildEdgesKnown(g, tid, children[..|children| - 1]);
      assert children[|children| - 1] in children;
    }
  }

  lemma {:induction false} AggregateEdgesKnown(g: Graph, tid: TypeId, pairs: seq<(TypeId, TypeId)>)
    requires forall p :: p in pairs ==> p in g.aggregates
    ensures LeadsToKnown(g, AggregateEdges(tid, pairs))
  {
    if pairs == [] {
    } else {
      AggregateEdgesKnown(g, tid, pairs[..|pairs| - 1]);
      assert pairs[|pairs| - 1] in pairs;
    }
  }

  lemma EdgesKnown(g: Graph, tid: TypeId)
    ensures LeadsToKnown(g, Edges(g, tid))
  {
    var attributes := g.registry.AttributesOf(tid);
    assert attributes[..|attributes|] == attributes;
    AttributeEdgesKnown(g, tid, |attributes|);
    ChildEdgesKnown(g, tid, g.registry.registered);
    AggregateEdgesKnown(g, tid, g.aggregates);
  }

  /** Types that may still be entered when the search stands at `tid`. */
  ghost function Open(g: Graph, tid: TypeId, onPath: seq<TypeId>): set<TypeId> {
    Known(g) + {tid} - (set t | t in onPath)
  }

  lemma OpenShrinks(g: Graph, tid: TypeId, onPath: seq<TypeId>, next: TypeId)
    requires tid !in onPath && next in Known(g)
    ensures |Open(g, next, onPath + [tid])| < |Open(g, tid, onPath)|
  {
    var small, big := Open(g, next, onPath + [tid]), Open(g, tid, onPath);
    assert tid in big && tid !in small;
    assert small <= big - {tid};
    Smaller(small, big - {tid});
  }

  lemma {:induction false} Smaller<T>(a: set<T>, b: set<T>)
    requires a <= b
    ensures |a| <= |b|
    decreases a
  {
    if a == {} {
    } else {
      var x :| x in a;
      Smaller(a - {x}, b - {x});
    }
  }

  // ---------------------------------------------------------------------------------------------
  // What one search appends

  function Join(path: seq<string>): string {
    if path == [] then "" else Join(path[..|path| - 1]) + "/" + path[|path| - 1]
  }

  ghost function Gathered(g: Graph, tid: TypeId, path: seq<string>, onPath: seq<TypeId>): seq<Entry>
    decreases |Open(g, tid, onPath)|, 1, 0
  {
    if tid in onPath then []
    else
      EdgesKnown(g, tid);
      [(tid, Join(path))] + GatheredVia(g, tid, Edges(g, tid), path, onPath)
  }

  /** The part of a search at `tid` that follows the edges `es`. */
  ghost function GatheredVia(g: Graph, tid: TypeId, es: seq<Edge>, path: seq<string>, onPath: seq<TypeId>): seq<Entry>
    requires tid !in onPath && LeadsToKnown(g, es)
    decreases |Open(g, tid, onPath)|, 0, |es|
  {
    if es == [] then []
    else
      var e := es[|es| - 1];
      OpenShrinks(g, tid, onPath, e.target);
      GatheredVia(g, tid, es[..|es| - 1], path, onPath) + Gathered(g, e.target, path + [e.name], onPath + [tid])
  }

  lemma AttributeStep(done: seq<Edge>, g: Graph, xs: seq<Attribute>, i: nat)
    requires i < |xs|
    ensures done + AttributeEdges(g, xs[..i + 1]) == done + AttributeEdges(g, xs[..i]) + AttributeEdge(g, xs[i])
  {
    assert xs[..i + 1][..i] == xs[..i];
  }

  lemma ChildStep(done: seq<Edge>, g: Graph, tid: TypeId, xs: seq<TypeId>, i: nat)
    requires i < |xs|
    ensures done + ChildEdges(g, tid, xs[..i + 1]) == done + ChildEdges(g, tid, xs[..i]) + ChildEdge(g, tid, xs[i])
  {
    assert xs[..i + 1][..i] == xs[..i];
  }

  lemma AggregateStep(done: seq<Edge>, tid: TypeId, xs: seq<(TypeId, TypeId)>, i: nat)
    requires i < |xs|
    ensures done + AggregateEdges(tid, xs[..i + 1]) == done + AggregateEdges(tid, xs[..i]) + AggregateEdge(tid, xs[i])
  {
    assert xs[..i + 1][..i] == xs[..i];
  }

  lemma GatheredViaSnoc(
      before: seq<Entry>, g: Graph, tid: TypeId, es: seq<Edge>, e: Edge, path: seq<string>, onPath: seq<TypeId>)
    requires tid !in onPath && LeadsToKnown(g, es) && e.target in Known(g)
    ensures LeadsToKnown(g, es + [e])
    ensures before + GatheredVia(g, tid, es + [e], path, onPath)
         == before + GatheredVia(g, tid, es, path, onPath) + Gathered(g, e.target, path + [e.name], onPath + [tid])
  {
    DropLast(es, e);
    ConcatAssociative(before, GatheredVia(g, tid, es, path, onPath),
                      Gathered(g, e.target, path + [e.name], onPath + [tid]));
  }

  lemma GatheredNothing(before: seq<Entry>, g: Graph, tid: TypeId, path: seq<string>, onPath: seq<TypeId>)
    requires tid in onPath
    ensures before + Gathered(g, tid, path, onPath) == before
  {
  }

  lemma GatheredUnfolds(
      before: seq<Entry>, g: Graph, tid: TypeId, path: seq<string>, onPath: seq<TypeId>, es: seq<Edge>)
    requires tid !in onPath && LeadsToKnown(g, es)
    requires es == [] + AttributeEdges(g, g.registry.AttributesOf(tid))
                + ChildEdges(g, tid, g.registry.registered) + AggregateEdges(tid, g.aggregates)
    ensures before + Gathered(g, tid, path, onPath)
         == before + [(tid, Join(path))] + GatheredVia(g, tid, es, path, onPath)
  {
    assert [] + AttributeEdges(g, g.registry.AttributesOf(tid)) == AttributeEdges(g, g.registry.AttributesOf(tid));
    assert es == Edges(g, tid);
    ConcatAssociative(before, [(tid, Join(path))], GatheredVia(g, tid, es, path, onPath));
  }

  /** The entries of `output` recorded for `tid`. */
  function PathsTo(output: seq<Entry>, tid: TypeId): seq<string> {
    if output == [] then []
    else
      var last := output[|output| - 1];
      PathsTo(output[..|output| - 1], tid) + if last.0 == tid then [last.1] else []
  }

  class StaticInformation {
    const registry: Registry
    const aggregates: seq<(TypeId, TypeId)>
    var output: seq<Entry>
    var currentPath: seq<string>
    var alreadyProcessed: seq<TypeId>

    constructor (registry: Registry, aggregates: seq<(TypeId, TypeId)>)
      ensures this.registry == registry && this.aggregates == aggregates
      ensures output == [] && currentPath == [] && alreadyProcessed == []
    {
      this.registry, this.aggregates := registry, aggregates;
      output, currentPath, alreadyProcessed := [], [], [];
    }

    function TypeGraph(): Graph {
      Graph(registry, aggregates)
    }

    method HasAlreadyBeenProcessed(tid: TypeId) returns (found: bool)
      ensures found <==> tid in alreadyProcessed
    {
      for i := 0 to |alreadyProcessed|
        invariant tid !in alreadyProcessed[..i]
      {
        if alreadyProcessed[i] == tid {
          return true;
        }
      }
      return false;
    }

    method GetCurrentPath() returns (path: string)
      ensures path == Join(currentPath)
    {
      path := "";
      for i := 0 to |currentPath|
        invariant path == Join(currentPath[..i])
      {
        path := path + "/" + currentPath[i];
        assert currentPath[..i + 1][..i] == currentPath[..i];
      }
      assert currentPath[..|currentPath|] == currentPath;
    }

    method RecordOutput(tid: TypeId)
      modifies this`output
      ensures output == old(output) + [(tid, Join(currentPath))]
    {
      var path := GetCurrentPath();
      output := output + [(tid, path)];
    }

    /** Follows one edge: push, search, pop. */
    method Follow(tid: TypeId, e: Edge)
      requires NoDuplicates(alreadyProcessed) && tid !in alreadyProcessed && e.target in Known(TypeGraph())
      modifies this
      ensures currentPath == old(currentPath) && alreadyProcessed == old(alreadyProcessed)
      ensures output == old(output)
          + Gathered(TypeGraph(), e.target, currentPath + [e.name], alreadyProcessed + [tid])
      decreases |Open(TypeGraph(), tid, alreadyProcessed)|, 0, 0
    {
      currentPath := currentPath + [e.name];
      alreadyProcessed := alreadyProcessed + [tid];
      OpenShrinks(TypeGraph(), tid, old(alreadyProcessed), e.target);
      DoGather(e.target);
      alreadyProcessed := alreadyProcessed[..|alreadyProcessed| - 1];
      currentPath := currentPath[..|currentPath| - 1];
      assert currentPath == old(currentPath) && alreadyProcessed == old(alreadyProcessed);
    }

    method DoGather(tid: TypeId)
      requires NoDuplicates(alreadyProcessed)
      modifies this
      ensures currentPath == old(currentPath) && alreadyProcessed == old(alreadyProcessed)
      ensures output == old(output) + Gathered(TypeGraph(), tid, currentPath, alreadyProcessed)
      decreases |Open(TypeGraph(), tid, alreadyProcessed)|, 1
    {
      var g := TypeGraph();
      var seen := HasAlreadyBeenProcessed(tid);
      if seen {
        GatheredNothing(output, TypeGraph(), tid, currentPath, alreadyProcessed);
        return;
      }
      RecordOutput(tid);
      ghost var base := output;
      ghost var es := GatherAttributes(tid, [], base);
      es := GatherChildren(tid, es, base);
      es := GatherAggregates(tid, es, base);
      GatheredUnfolds(old(output), TypeGraph(), tid, currentPath, alreadyProcessed, es);
    }

    // The three loops of DoGather.  `es` are the edges followed so far and `Following` says that
    // exactly these have been searched since `base`.

    ghost predicate Following(tid: TypeId, es: seq<Edge>, base: seq<Entry>)
      reads this
    {
      && NoDuplicates(alreadyProcessed) && tid !in alreadyProcessed
      && LeadsToKnown(TypeGraph(), es)
      && output == base + GatheredVia(TypeGraph(), tid, es, currentPath, alreadyProcessed)
    }

    method GatherAttributes(tid: TypeId, ghost done: seq<Edge>, ghost base: seq<Entry>) returns (ghost es: seq<Edge>)
      requires Following(tid, done, base)
      modifies this
      ensures currentPath == old(currentPath) && alreadyProcessed == old(alreadyProcessed)
      ensures es == done + AttributeEdges(TypeGraph(), registry.AttributesOf(tid)) && Following(tid, es, base)
      decreases |Open(TypeGraph(), tid, alreadyProcessed)|, 0, 3
    {
      es := done;
      var attributes := registry.AttributesOf(tid);
      for i := 0 to |attributes|
        invariant currentPath == old(currentPath) && alreadyProcessed == old(alreadyProcessed)
        invariant es == done + AttributeEdges(TypeGraph(), attributes[..i]) && Following(tid, es, base)
      {
        ghost var step;
        es, step := FollowAttribute(tid, i, es, base);
        AttributeStep(done, TypeGraph(), attributes, i);
      }
      assert attributes[..|attributes|] == attributes;
    }

    method FollowAttribute(tid: TypeId, i: nat, ghost es: seq<Edge>, ghost base: seq<Entry>)
      returns (ghost es': seq<Edge>, ghost step: seq<Edge>)
      requires Following(tid, es, base) && i < |registry.AttributesOf(tid)|
      modifies this
      ensures currentPath == old(currentPath) && alreadyProcessed == old(alreadyProcessed)
      ensures step == AttributeEdge(TypeGraph(), registry.AttributesOf(tid)[i])
      ensures es' == es + step && Following(tid, es', base)
      decreases |Open(TypeGraph(), tid, alreadyProcessed)|, 0, 2
    {
      var a := registry.AttributesOf(tid)[i];
      AttributeEdgeKnown(TypeGraph(), tid, i);
      es', step := es, AttributeEdge(TypeGraph(), a);
      match a.checker {
        case PointerTo(pointee) =>
          if pointee != registry.objectTid {
            assert step[0] == Edge(a.name, pointee);
            es' := FollowNext(tid, Edge(a.name, pointee), es, base);
          }
        case VectorOf(item) =>
          assert step[0] == Edge(a.name + "/[i]", item);
          es' := FollowNext(tid, Edge(a.name + "/[i]", item), es, base);
        case Plain =>
      }
    }

    method GatherChildren(tid: TypeId, ghost done: seq<Edge>, ghost base: seq<Entry>) returns (ghost es: seq<Edge>)
      requires Following(tid, done, base)
      modifies this
      ensures currentPath == old(currentPath) && alreadyProcessed == old(alreadyProcessed)
      ensures es == done + ChildEdges(TypeGraph(), tid, registry.registered) && Following(tid, es, base)
      decreases |Open(TypeGraph(), tid, alreadyProcessed)|, 0, 3
    {
      es := done;
      for i := 0 to |registry.registered|
        invariant currentPath == old(currentPath) && alreadyProcessed == old(alreadyProcessed)
        invariant es == done + ChildEdges(TypeGraph(), tid, registry.registered[..i]) && Following(tid, es, base)
      {
        ghost var step;
        es, step := FollowChild(tid, registry.registered[i], es, base);
        ChildStep(done, TypeGraph(), tid, registry.registered, i);
      }
      assert registry.registered[..|registry.registered|] == registry.registered;
    }

    method FollowChild(tid: TypeId, child: TypeId, ghost es: seq<Edge>, ghost base: seq<Entry>)
      returns (ghost es': seq<Edge>, ghost step: seq<Edge>)
      requires Following(tid, es, base) && child in registry.registered
      modifies this
      ensures currentPath == old(currentPath) && alreadyProcessed == old(alreadyProcessed)
      ensures step == ChildEdge(TypeGraph(), tid, child) && es' == es + step && Following(tid, es', base)
      decreases |Open(TypeGraph(), tid, alreadyProcessed)|, 0, 2
    {
      es', step := es, ChildEdge(TypeGraph(), tid, child);
      if (child, tid) in registry.descends {
        es' := FollowNext(tid, Edge("$" + child.name, child), es, base);
      }
    }

    method GatherAggregates(tid: TypeId, ghost done: seq<Edge>, ghost base: seq<Entry>) returns (ghost es: seq<Edge>)
      requires Following(tid, done, base)
      modifies this
      ensures currentPath == old(currentPath) && alreadyProcessed == old(alreadyProcessed)
      ensures es == done + AggregateEdges(tid, aggregates) && Following(tid, es, base)
      decreases |Open(TypeGraph(), tid, alreadyProcessed)|, 0, 3
    {
      es := done;
      for i := 0 to |aggregates|
        invariant currentPath == old(currentPath) && alreadyProcessed == old(alreadyProcessed)
        invariant es == done + AggregateEdges(tid, aggregates[..i]) && Following(tid, es, base)
      {
        ghost var step;
        es, step := FollowAggregate(tid, aggregates[i], es, base);
        AggregateStep(done, tid, aggregates, i);
      }
      assert aggregates[..|aggregates|] == aggregates;
    }

    method FollowAggregate(tid: TypeId, pair: (TypeId, TypeId), ghost es: seq<Edge>, ghost base: seq<Entry>)
      returns (ghost es': seq<Edge>, ghost step: seq<Edge>)
      requires Following(tid, es, base) && pair in aggregates
      modifies this
      ensures currentPath == old(currentPath) && alreadyProcessed == old(alreadyProcessed)
      ensures step == AggregateEdge(tid, pair) && es' == es + step && Following(tid, es', base)
      decreases |Open(TypeGraph(), tid, alreadyProcessed)|, 0, 2
    {
      assert pair in TypeGraph().aggregates;
      es', step := es, AggregateEdge(tid, pair);
      if pair.0 == tid || pair.1 == tid {
        var other := if pair.1 == tid then pair.0 else pair.1;
        es' := FollowNext(tid, Edge("$" + other.name, other), es, base);
      }
    }

    /** `Follow`, with the bookkeeping of the loops. */
    method FollowNext(tid: TypeId, e: Edge, ghost es: seq<Edge>, ghost base: seq<Entry>) returns (ghost es': seq<Edge>)
      requires Following(tid, es, base) && e.target in Known(TypeGraph())
      modifies this
      ensures currentPath == old(currentPath) && alreadyProcessed == old(alreadyProcessed)
      ensures es' == es + [e] && Following(tid, es', base)
      decreases |Open(TypeGraph(), tid, alreadyProcessed)|, 0, 1
    {
      Follow(tid, e);
      es' := es + [e];
      GatheredViaSnoc(base, TypeGraph(), tid, es, e, currentPath, alreadyProcessed);
    }

    /** `Uniquefy` takes its container by value, so nothing is sorted or erased after the search. */
    method Gather(tid: TypeId)
      requires currentPath == [] && alreadyProcessed == []
      modifies this
      ensures currentPath == [] && alreadyProcessed == []
      ensures output == old(output) + Gathered(TypeGraph(), tid, [], [])
    {
      DoGather(tid);
    }

    /** Gathers the root objects one after the other. */
    method GatherAll(roots: seq<TypeId>)
      requires currentPath == [] && alreadyProcessed == [] && output == []
      modifies this
      ensures currentPath == [] && alreadyProcessed == []
      ensures output == GatheredFrom(TypeGraph(), roots)
    {
      for i := 0 to |roots|
        invariant currentPath == [] && alreadyProcessed == []
        invariant output == GatheredFrom(TypeGraph(), roots[..i])
      {
        Gather(roots[i]);
        assert roots[..i + 1][..i] == roots[..i];
      }
      assert roots[..|roots|] == roots;
    }

    method Get(tid: TypeId) returns (paths: seq<string>)
      ensures paths == PathsTo(output, tid)
    {
      paths := [];
      for i := 0 to |output|
        invariant paths == PathsTo(output[..i], tid)
      {
        assert output[..i + 1][..i] == output[..i];
        if output[i].0 == tid {
          paths := paths + [output[i].1];
        }
      }
      assert output[..|output|] == output;
    }
  }

  ghost function GatheredFrom(g: Graph, roots: seq<TypeId>): seq<Entry> {
    if roots == [] then []
    else GatheredFrom(g, roots[..|roots| - 1]) + Gathered(g, roots[|roots| - 1], [], [])
  }

  // ---------------------------------------------------------------------------------------------
  // The reference: labelled walks, given by the numbers of the edges taken

  ghost predicate InGraph(g: Graph, tid: TypeId, w: seq<nat>)
    decreases |w|
  {
    w != [] ==> w[0] < |Edges(g, tid)| && InGraph(g, Edges(g, tid)[w[0]].target, w[1..])
  }

  ghost function Visits(g: Graph, tid: TypeId, w: seq<nat>): seq<TypeId>
    requires InGraph(g, tid, w)
    decreases |w|
  {
    if w == [] then [tid] else [tid] + Visits(g, Edges(g, tid)[w[0]].target, w[1..])
  }

  ghost function Labels(g: Graph, tid: TypeId, w: seq<nat>): seq<string>
    requires InGraph(g, tid, w)
    decreases |w|
  {
    if w == [] then []
    else [Edges(g, tid)[w[0]].name] + Labels(g, Edges(g, tid)[w[0]].target, w[1..])
  }

  ghost function End(g: Graph, tid: TypeId, w: seq<nat>): TypeId
    requires InGraph(g, tid, w)
    decreases |w|
  {
    if w == [] then tid else End(g, Edges(g, tid)[w[0]].target, w[1..])
  }

  predicate AllNew(visits: seq<TypeId>, avoid: seq<TypeId>) {
    NoDuplicates(visits) && forall v :: v in visits ==> v !in avoid
  }

  /** A walk that repeats no type and avoids the types in `avoid`. */
  ghost predicate SimpleWalk(g: Graph, tid: TypeId, w: seq<nat>, avoid: seq<TypeId>) {
    InGraph(g, tid, w) && AllNew(Visits(g, tid, w), avoid)
  }

  ghost function EntryOf(g: Graph, tid: TypeId, path: seq<string>, w: seq<nat>): Entry
    requires InGraph(g, tid, w)
  {
    (End(g, tid, w), Join(path + Labels(g, tid, w)))
  }

  /** Depth-first preorder: a walk comes before its extensions, and lower edges come first. */
  ghost predicate Before(a: seq<nat>, b: seq<nat>) {
    b != [] && (a == [] || a[0] < b[0] || (a[0] == b[0] && Before(a[1..], b[1..])))
  }

  ghost predicate Preorder(ws: seq<seq<nat>>) {
    forall i, j :: 0 <= i < j < |ws| ==> Before(ws[i], ws[j])
  }

  // The simple walks, listed in preorder.

  ghost function Walks(g: Graph, tid: TypeId, onPath: seq<TypeId>): seq<seq<nat>>
    decreases |Open(g, tid, onPath)|, 1
  {
    if tid in onPath then [] else [[]] + Merge(Branches(g, tid, onPath))
  }

  /** For each edge of `tid`, the walks that go on from its target. */
  ghost function Branches(g: Graph, tid: TypeId, onPath: seq<TypeId>): (r: seq<seq<seq<nat>>>)
    requires tid !in onPath
    ensures |r| == |Edges(g, tid)|
    decreases |Open(g, tid, onPath)|, 0
  {
    EdgesKnown(g, tid);
    seq(|Edges(g, tid)|, k requires 0 <= k < |Edges(g, tid)| =>
      OpenShrinks(g, tid, onPath, Edges(g, tid)[k].target);
      Walks(g, Edges(g, tid)[k].target, onPath + [tid]))
  }

  ghost function Merge(branches: seq<seq<seq<nat>>>): seq<seq<nat>> {
    if branches == [] then []
    else Merge(branches[..|branches| - 1]) + PrependAll(|branches| - 1, branches[|branches| - 1])
  }

  ghost function PrependAll(k: nat, ws: seq<seq<nat>>): (r: seq<seq<nat>>)
    ensures |r| == |ws| && forall i :: 0 <= i < |ws| ==> r[i] == [k] + ws[i]
  {
    seq(|ws|, i requires 0 <= i < |ws| => [k] + ws[i])
  }

  lemma InPrependAll(k: nat, ws: seq<seq<nat>>, w: seq<nat>)
    ensures w in PrependAll(k, ws) <==> w != [] && w[0] == k && w[1..] in ws
  {
    var r := PrependAll(k, ws);
    if w in r {
      var i :| 0 <= i < |r| && r[i] == w;
      assert w[1..] == ws[i];
    }
    if w != [] && w[0] == k && w[1..] in ws {
      var i :| 0 <= i < |ws| && ws[i] == w[1..];
      assert r[i] == [k] + w[1..] == w;
    }
  }

  // ---------------------------------------------------------------------------------------------
  // The search lists exactly the simple walks

  lemma {:induction false} InMerge(branches: seq<seq<seq<nat>>>, w: seq<nat>)
    ensures w in Merge(branches) <==> w != [] && w[0] < |branches| && w[1..] in branches[w[0]]
  {
    if branches == [] {
    } else {
      InMerge(branches[..|branches| - 1], w);
      InPrependAll(|branches| - 1, branches[|branches| - 1], w);
    }
  }

  lemma AllNewCons(x: TypeId, rest: seq<TypeId>, avoid: seq<TypeId>)
    requires x !in avoid
    ensures AllNew([x] + rest, avoid) <==> AllNew(rest, avoid + [x])
  {
    var all := [x] + rest;
    assert forall i :: 0 <= i < |rest| ==> all[i + 1] == rest[i];
    if AllNew(all, avoid) {
      forall v | v in rest ensures v !in avoid + [x] {
        var i :| 0 <= i < |rest| && rest[i] == v;
        assert all[0] != all[i + 1] && v in all;
      }
    }
    if AllNew(rest, avoid + [x]) {
      forall i, j | 0 <= i < j < |all| ensures all[i] != all[j] {
        assert all[j] == rest[j - 1] && rest[j - 1] in rest;
      }
    }
  }

  lemma SimpleWalkStep(g: Graph, tid: TypeId, w: seq<nat>, avoid: seq<TypeId>)
    requires w != [] && w[0] < |Edges(g, tid)| && tid !in avoid
    ensures SimpleWalk(g, tid, w, avoid) <==> SimpleWalk(g, Edges(g, tid)[w[0]].target, w[1..], avoid + [tid])
  {
    if InGraph(g, tid, w) {
      AllNewCons(tid, Visits(g, Edges(g, tid)[w[0]].target, w[1..]), avoid);
    }
  }

  lemma {:induction false} WalksAreSimpleWalks(g: Graph, tid: TypeId, onPath: seq<TypeId>, w: seq<nat>)
    ensures w in Walks(g, tid, onPath) <==> SimpleWalk(g, tid, w, onPath)
    decreases |w|
  {
    if tid in onPath {
      if InGraph(g, tid, w) {
        assert Visits(g, tid, w)[0] == tid;
      }
    } else {
      InMerge(Branches(g, tid, onPath), w);
      if w == [] {
        assert Walks(g, tid, onPath)[0] == [];
      } else if w[0] < |Edges(g, tid)| {
        SimpleWalkStep(g, tid, w, onPath);
        WalksAreSimpleWalks(g, Edges(g, tid)[w[0]].target, onPath + [tid], w[1..]);
      }
    }
  }

  lemma {:induction false} WalksInPreorder(g: Graph, tid: TypeId, onPath: seq<TypeId>)
    ensures Preorder(Walks(g, tid, onPath))
    decreases |Open(g, tid, onPath)|
  {
    if tid in onPath {
    } else {
      EdgesKnown(g, tid);
      var branches := Branches(g, tid, onPath);
      forall k | 0 <= k < |branches| ensures Preorder(branches[k]) {
        OpenShrinks(g, tid, onPath, Edges(g, tid)[k].target);
        WalksInPreorder(g, Edges(g, tid)[k].target, onPath + [tid]);
      }
      MergeInPreorder(branches);
    }
  }

  lemma {:induction false} MergeInPreorder(branches: seq<seq<seq<nat>>>)
    requires forall k :: 0 <= k < |branches| ==> Preorder(branches[k])
    ensures Preorder(Merge(branches)) && Preorder([[]] + Merge(branches))
  {
    if branches == [] {
    } else {
      var n := |branches| - 1;
      MergeInPreorder(branches[..n]);
      forall w | w in Merge(branches[..n]) ensures w != [] && w[0] < n {
        InMerge(branches[..n], w);
      }
      PreorderConcat(Merge(branches[..n]), n, branches[n]);
    }
    forall i | 0 <= i < |Merge(branches)| ensures Before([], Merge(branches)[i]) {
      InMerge(branches, Merge(branches)[i]);
    }
  }

  lemma PreorderConcat(low: seq<seq<nat>>, k: nat, sub: seq<seq<nat>>)
    requires Preorder(low) && Preorder(sub)
    requires forall w :: w in low ==> w != [] && w[0] < k
    ensures Preorder(low + PrependAll(k, sub))
  {
    var high := PrependAll(k, sub);
    forall i, j | 0 <= i < j < |sub| ensures Before(high[i], high[j]) {
      assert high[i][1..] == sub[i] && high[j][1..] == sub[j];
    }
  }

  ghost predicate Lists(g: Graph, tid: TypeId, path: seq<string>, ws: seq<seq<nat>>, output: seq<Entry>) {
    && |output| == |ws|
    && forall i :: 0 <= i < |ws| ==> InGraph(g, tid, ws[i]) && output[i] == EntryOf(g, tid, path, ws[i])
  }

  lemma EntryOfStep(g: Graph, tid: TypeId, path: seq<string>, k: nat, w: seq<nat>)
    requires k < |Edges(g, tid)| && InGraph(g, Edges(g, tid)[k].target, w)
    ensures InGraph(g, tid, [k] + w)
    ensures EntryOf(g, tid, path, [k] + w) == EntryOf(g, Edges(g, tid)[k].target, path + [Edges(g, tid)[k].name], w)
  {
    assert ([k] + w)[1..] == w;
    var e := Edges(g, tid)[k];
    assert path + ([e.name] + Labels(g, e.target, w)) == path + [e.name] + Labels(g, e.target, w);
  }

  lemma {:induction false} GatheredListsWalks(g: Graph, tid: TypeId, path: seq<string>, onPath: seq<TypeId>)
    ensures Lists(g, tid, path, Walks(g, tid, onPath), Gathered(g, tid, path, onPath))
    decreases |Open(g, tid, onPath)|
  {
    if tid in onPath {
    } else {
      var es, branches := Edges(g, tid), Branches(g, tid, onPath);
      EdgesKnown(g, tid);
      forall k | 0 <= k < |es|
        ensures BranchListed(g, tid, path, onPath, branches, k)
      {
        OpenShrinks(g, tid, onPath, es[k].target);
        GatheredListsWalks(g, es[k].target, path + [es[k].name], onPath + [tid]);
      }
      GatheredViaListsMerge(g, tid, path, onPath, branches);
      assert path + [] == path;
      ListsConcat(g, tid, path, [[]], [(tid, Join(path))],
        Merge(branches), GatheredVia(g, tid, es, path, onPath));
    }
  }

  /** What one edge contributes is what the walks along it describe. */
  ghost predicate BranchListed(
      g: Graph, tid: TypeId, path: seq<string>, onPath: seq<TypeId>, branches: seq<seq<seq<nat>>>, k: nat)
    requires k < |Edges(g, tid)| && k < |branches|
  {
    var e := Edges(g, tid)[k];
    Lists(g, e.target, path + [e.name], branches[k], Gathered(g, e.target, path + [e.name], onPath + [tid]))
  }

  lemma GatheredViaListsMerge(
      g: Graph, tid: TypeId, path: seq<string>, onPath: seq<TypeId>, branches: seq<seq<seq<nat>>>)
    requires tid !in onPath && |Edges(g, tid)| == |branches| && LeadsToKnown(g, Edges(g, tid))
    requires forall k :: 0 <= k < |branches| ==> BranchListed(g, tid, path, onPath, branches, k)
    ensures Lists(g, tid, path, Merge(branches), GatheredVia(g, tid, Edges(g, tid), path, onPath))
  {
    for k := 0 to |branches|
      invariant Lists(g, tid, path, Merge(branches[..k]), GatheredVia(g, tid, Edges(g, tid)[..k], path, onPath))
    {
      MergeStep(g, tid, k, path, onPath, branches);
    }
    assert branches[..|branches|] == branches && Edges(g, tid)[..|branches|] == Edges(g, tid);
  }

  lemma MergeStep(
      g: Graph, tid: TypeId, k: nat, path: seq<string>, onPath: seq<TypeId>, branches: seq<seq<seq<nat>>>)
    requires tid !in onPath && k < |Edges(g, tid)| == |branches| && LeadsToKnown(g, Edges(g, tid))
    requires BranchListed(g, tid, path, onPath, branches, k)
    requires Lists(g, tid, path, Merge(branches[..k]), GatheredVia(g, tid, Edges(g, tid)[..k], path, onPath))
    ensures Lists(g, tid, path, Merge(branches[..k + 1]), GatheredVia(g, tid, Edges(g, tid)[..k + 1], path, onPath))
  {
    var es, e := Edges(g, tid), Edges(g, tid)[k];
    var more := Gathered(g, e.target, path + [e.name], onPath + [tid]);
    ListsPrepend(g, tid, k, path, branches[k], more);
    ListsConcat(g, tid, path, Merge(branches[..k]), GatheredVia(g, tid, es[..k], path, onPath),
                PrependAll(k, branches[k]), more);
    assert es[..k + 1][..k] == es[..k] && branches[..k + 1][..k] == branches[..k];
  }

  lemma ListsPrepend(g: Graph, tid: TypeId, k: nat, path: seq<string>, ws: seq<seq<nat>>, output: seq<Entry>)
    requires k < |Edges(g, tid)|
    requires Lists(g, Edges(g, tid)[k].target, path + [Edges(g, tid)[k].name], ws, output)
    ensures Lists(g, tid, path, PrependAll(k, ws), output)
  {
    forall i | 0 <= i < |ws|
      ensures InGraph(g, tid, [k] + ws[i]) && output[i] == EntryOf(g, tid, path, [k] + ws[i])
    {
      EntryOfStep(g, tid, path, k, ws[i]);
    }
  }

  lemma ListsConcat(g: Graph, tid: TypeId, path: seq<string>,
      ws: seq<seq<nat>>, output: seq<Entry>, ws': seq<seq<nat>>, output': seq<Entry>)
    requires Lists(g, tid, path, ws, output) && Lists(g, tid, path, ws', output')
    ensures Lists(g, tid, path, ws + ws', output + output')
  {
  }

  /** What DoGather appends is exactly one entry for each simple walk that avoids the types on the
      stack, in depth-first preorder. */
  lemma SearchEnumeratesSimpleWalks(g: Graph, tid: TypeId, path: seq<string>, onPath: seq<TypeId>)
    ensures Lists(g, tid, path, Walks(g, tid, onPath), Gathered(g, tid, path, onPath))
    ensures Preorder(Walks(g, tid, onPath))
    ensures forall w :: w in Walks(g, tid, onPath) <==> SimpleWalk(g, tid, w, onPath)
  {
    GatheredListsWalks(g, tid, path, onPath);
    WalksInPreorder(g, tid, onPath);
    forall w ensures w in Walks(g, tid, onPath) <==> SimpleWalk(g, tid, w, onPath) {
      WalksAreSimpleWalks(g, tid, onPath, w);
    }
  }

  /** Preorder is strict, so a list in preorder holds no walk twice. */
  lemma {:induction false} BeforeIsStrict(a: seq<nat>, b: seq<nat>)
    requires Before(a, b)
    ensures a != b && !Before(b, a)
  {
    if a != [] && a[0] == b[0] {
      BeforeIsStrict(a[1..], b[1..]);
    }
  }

  // ---------------------------------------------------------------------------------------------
  // Get

  lemma {:induction false} InPathsTo(output: seq<Entry>, tid: TypeId, path: string)
    ensures path in PathsTo(output, tid) <==> (tid, path) in output
  {
    if output == [] {
    } else {
      InPathsTo(output[..|output| - 1], tid, path);
      assert output == output[..|output| - 1] + [output[|output| - 1]];
    }
  }

  ghost predicate ReachedBy(g: Graph, root: TypeId, w: seq<nat>, tid: TypeId, path: string) {
    SimpleWalk(g, root, w, []) && End(g, root, w) == tid && Join(Labels(g, root, w)) == path
  }

  lemma InGathered(g: Graph, root: TypeId, tid: TypeId, path: string)
    ensures (tid, path) in Gathered(g, root, [], []) <==> exists w :: ReachedBy(g, root, w, tid, path)
  {
    SearchEnumeratesSimpleWalks(g, root, [], []);
    var ws, output := Walks(g, root, []), Gathered(g, root, [], []);
    if (tid, path) in output {
      var i :| 0 <= i < |output| && output[i] == (tid, path);
      assert ws[i] in ws;
      assert [] + Labels(g, root, ws[i]) == Labels(g, root, ws[i]);
      assert ReachedBy(g, root, ws[i], tid, path);
    }
    if w :| ReachedBy(g, root, w, tid, path) {
      assert w in ws;
      var i :| 0 <= i < |ws| && ws[i] == w;
      assert [] + Labels(g, root, w) == Labels(g, root, w);
      assert output[i] == (tid, path);
    }
  }

  /** After gathering `roots`, Get returns exactly the label paths of the simple walks from a root. */
  lemma {:induction false} GetReturnsSimplePaths(g: Graph, roots: seq<TypeId>, tid: TypeId, path: string)
    ensures path in PathsTo(GatheredFrom(g, roots), tid)
       <==> exists root, w :: root in roots && ReachedBy(g, root, w, tid, path)
  {
    InPathsTo(GatheredFrom(g, roots), tid, path);
    if roots == [] {
    } else {
      var init, last := roots[..|roots| - 1], roots[|roots| - 1];
      assert roots == init + [last];
      GetReturnsSimplePaths(g, init, tid, path);
      InPathsTo(GatheredFrom(g, init), tid, path);
      InGathered(g, last, tid, path);
    }
  }

  /** The label paths of the walks in `ws` that end at `tid`, in the order of `ws`. */
  ghost function PathsOf(g: Graph, root: TypeId, ws: seq<seq<nat>>, tid: TypeId): seq<string>
    requires forall i :: 0 <= i < |ws| ==> InGraph(g, root, ws[i])
  {
    if ws == [] then []
    else
      var last := ws[|ws| - 1];
      PathsOf(g, root, ws[..|ws| - 1], tid)
      + if End(g, root, last) == tid then [Join(Labels(g, root, last))] else []
  }

  lemma {:induction false} PathsToOfLists(g: Graph, root: TypeId, ws: seq<seq<nat>>, output: seq<Entry>, tid: TypeId)
    requires Lists(g, root, [], ws, output)
    ensures PathsTo(output, tid) == PathsOf(g, root, ws, tid)
  {
    if ws == [] {
    } else {
      var n := |ws| - 1;
      PathsToOfLists(g, root, ws[..n], output[..n], tid);
      assert [] + Labels(g, root, ws[n]) == Labels(g, root, ws[n]);
    }
  }

  /** Get keeps one path for each simple walk to `tid`, in preorder, with no walk lost or repeated. */
  lemma GetListsEveryWalkOnce(g: Graph, root: TypeId, tid: TypeId)
    ensures forall i :: 0 <= i < |Walks(g, root, [])| ==> InGraph(g, root, Walks(g, root, [])[i])
    ensures PathsTo(Gathered(g, root, [], []), tid) == PathsOf(g, root, Walks(g, root, []), tid)
    ensures NoDuplicates(Walks(g, root, []))
  {
    SearchEnumeratesSimpleWalks(g, root, [], []);
    var ws := Walks(g, root, []);
    PathsToOfLists(g, root, ws, Gathered(g, root, [], []), tid);
    forall i, j | 0 <= i < j < |ws| ensures ws[i] != ws[j] {
      BeforeIsStrict(ws[i], ws[j]);
    }
  }

  /** Nothing removes repeated entries: two equal edges out of a type that a simple walk reaches, with
      a target that walk has not visited, give two equal entries.  Registering one aggregation twice,
      as the source does for Icmpv4L4Protocol, creates such edges. */
  lemma RepeatedEdgeRepeatsEntry(g: Graph, root: TypeId, w: seq<nat>, i: nat, j: nat)
    requires SimpleWalk(g, root, w, []) && i < j < |Edges(g, End(g, root, w))|
    requires Edges(g, End(g, root, w))[i] == Edges(g, End(g, root, w))[j]
    requires Edges(g, End(g, root, w))[i].target !in Visits(g, root, w)
    ensures !NoDuplicates(Gathered(g, root, [], []))
  {
    var u, v := w + [i], w + [j];
    Extend(g, root, w, i);
    Extend(g, root, w, j);
    assert u[|w|] != v[|w|];
    SameEntryTwice(g, root, u, v);
  }

  lemma SameEntryTwice(g: Graph, root: TypeId, u: seq<nat>, v: seq<nat>)
    requires u != v && SimpleWalk(g, root, u, []) && SimpleWalk(g, root, v, [])
    requires End(g, root, u) == End(g, root, v) && Labels(g, root, u) == Labels(g, root, v)
    ensures !NoDuplicates(Gathered(g, root, [], []))
  {
    SearchEnumeratesSimpleWalks(g, root, [], []);
    var ws, output := Walks(g, root, []), Gathered(g, root, [], []);
    assert u in ws && v in ws;
    var a :| 0 <= a < |ws| && ws[a] == u;
    var b :| 0 <= b < |ws| && ws[b] == v;
    assert output[a] == output[b];
  }

  lemma {:induction false} Extend(g: Graph, tid: TypeId, w: seq<nat>, i: nat)
    requires InGraph(g, tid, w) && i < |Edges(g, End(g, tid, w))|
    ensures InGraph(g, tid, w + [i])
    ensures Visits(g, tid, w + [i]) == Visits(g, tid, w) + [Edges(g, End(g, tid, w))[i].target]
    ensures Labels(g, tid, w + [i]) == Labels(g, tid, w) + [Edges(g, End(g, tid, w))[i].name]
    ensures End(g, tid, w + [i]) == Edges(g, End(g, tid, w))[i].target
    decreases |w|
  {
    if w == [] {
      assert w + [i] == [i] && [i][1..] == [];
    } else {
      assert (w + [i])[1..] == w[1..] + [i];
      Extend(g, Edges(g, tid)[w[0]].target, w[1..], i);
    }
  }
}
