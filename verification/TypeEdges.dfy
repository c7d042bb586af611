/** Which edges a type has, said without the functions the search builds them with: pointers to other
    types than Object, vectors, registered descendants and aggregations, each once and in this order. */
module TypeEdges {
  import opened Common
  import opened ConfigPaths

  // ---------------------------------------------------------------------------------------------
  // What gives an edge

  datatype Kind = Attributes | Types | Aggregations

  /** A source of an edge: the attribute, registered type or aggregation with a number. */
  datatype Source = Source(kind: Kind, k: nat)

  /** Attribute number `k` of the type points to another type than Object, or is a vector. */
  predicate AttributeGives(g: Graph, tid: TypeId, k: nat, e: Edge) {
    && tid in g.registry.attributes && k < |g.registry.attributes[tid]|
    && var a := g.registry.attributes[tid][k];
      || (a.checker == PointerTo(e.target) && e.target != g.registry.objectTid && e.name == a.name)
      || (a.checker == VectorOf(e.target) && e.name == a.name + "/[i]")
  }

  /** The registered type number `k` descends from the type. */
  predicate TypeGives(g: Graph, tid: TypeId, k: nat, e: Edge) {
    && k < |g.registry.registered| && g.registry.registered[k] == e.target
    && (e.target, tid) in g.registry.descends && e.name == "$" + e.target.name
  }

  /** Aggregation number `k` has the type at either end. */
  predicate AggregationGives(g: Graph, tid: TypeId, k: nat, e: Edge) {
    && k < |g.aggregates| && (g.aggregates[k] == (tid, e.target) || g.aggregates[k] == (e.target, tid))
    && e.name == "$" + e.target.name
  }

  predicate Gives(g: Graph, tid: TypeId, source: Source, e: Edge) {
    match source.kind
    case Attributes => AttributeGives(g, tid, source.k, e)
    case Types => TypeGives(g, tid, source.k, e)
    case Aggregations => AggregationGives(g, tid, source.k, e)
  }

  function Rank(kind: Kind): nat {
    match kind
    case Attributes => 0
    case Types => 1
    case Aggregations => 2
  }

  /** Attributes come before descendants, these before aggregations; within a kind the number decides. */
  predicate Precedes(a: Source, b: Source) {
    Rank(a.kind) < Rank(b.kind) || (a.kind == b.kind && a.k < b.k)
  }

  /** A source gives at most one edge. */
  lemma SourceGivesOneEdge(g: Graph, tid: TypeId, source: Source, d: Edge, e: Edge)
    requires Gives(g, tid, source, d) && Gives(g, tid, source, e)
    ensures d == e
  {
  }

  // ---------------------------------------------------------------------------------------------
  // One kind of source: the edges are those of the numbers in `ks`, in ascending order

  ghost predicate Listed(g: Graph, tid: TypeId, kind: Kind, es: seq<Edge>, ks: seq<nat>, n: nat) {
    && |ks| == |es|
    && (forall i :: 0 <= i < |ks| ==> ks[i] < n && Gives(g, tid, Source(kind, ks[i]), es[i]))
    && (forall i, j :: 0 <= i < j < |ks| ==> ks[i] < ks[j])
    && (forall k: nat, e :: k < n && Gives(g, tid, Source(kind, k), e) ==> k in ks)
  }

  /** `step` holds the edge of one source, or none. */
  ghost predicate OneStep(g: Graph, tid: TypeId, source: Source, step: seq<Edge>) {
    |step| <= 1 && forall e :: Gives(g, tid, source, e) <==> e in step
  }

  lemma ListedNext(g: Graph, tid: TypeId, kind: Kind, es: seq<Edge>, ks: seq<nat>, n: nat, step: seq<Edge>)
    returns (ks': seq<nat>)
    requires Listed(g, tid, kind, es, ks, n) && OneStep(g, tid, Source(kind, n), step)
    ensures Listed(g, tid, kind, es + step, ks', n + 1)
  {
    if step == [] {
      ks' := ks;
      assert es + step == es;
    } else {
      ks' := ks + [n];
      assert step[0] in step;
      forall k: nat, e | k < n + 1 && Gives(g, tid, Source(kind, k), e) ensures k in ks' {
        assert k < n ==> k in ks;
        assert ks'[|ks|] == n;
      }
    }
  }

  lemma AttributeStepGiven(g: Graph, tid: TypeId, k: nat)
    requires k < |g.registry.AttributesOf(tid)|
    ensures OneStep(g, tid, Source(Attributes, k), AttributeEdge(g, g.registry.AttributesOf(tid)[k]))
  {
    var step := AttributeEdge(g, g.registry.AttributesOf(tid)[k]);
    assert |step| == 1 ==> step == [step[0]];
  }

  lemma TypeStepGiven(g: Graph, tid: TypeId, k: nat)
    requires k < |g.registry.registered|
    ensures OneStep(g, tid, Source(Types, k), ChildEdge(g, tid, g.registry.registered[k]))
  {
  }

  lemma AggregationStepGiven(g: Graph, tid: TypeId, k: nat)
    requires k < |g.aggregates|
    ensures OneStep(g, tid, Source(Aggregations, k), AggregateEdge(tid, g.aggregates[k]))
  {
  }

  lemma {:induction false} AttributesListed(g: Graph, tid: TypeId, n: nat) returns (ks: seq<nat>)
    requires n <= |g.registry.AttributesOf(tid)|
    ensures Listed(g, tid, Attributes, AttributeEdges(g, g.registry.AttributesOf(tid)[..n]), ks, n)
  {
    if n == 0 {
      ks := [];
    } else {
      var xs := g.registry.AttributesOf(tid);
      ks := AttributesListed(g, tid, n - 1);
      AttributeStepGiven(g, tid, n - 1);
      assert xs[..n][..n - 1] == xs[..n - 1];
      ks := ListedNext(g, tid, Attributes, AttributeEdges(g, xs[..n - 1]), ks, n - 1, AttributeEdge(g, xs[n - 1]));
    }
  }

  lemma {:induction false} TypesListed(g: Graph, tid: TypeId, n: nat) returns (ks: seq<nat>)
    requires n <= |g.registry.registered|
    ensures Listed(g, tid, Types, ChildEdges(g, tid, g.registry.registered[..n]), ks, n)
  {
    if n == 0 {
      ks := [];
    } else {
      var xs := g.registry.registered;
      ks := TypesListed(g, tid, n - 1);
      TypeStepGiven(g, tid, n - 1);
      assert xs[..n][..n - 1] == xs[..n - 1];
      ks := ListedNext(g, tid, Types, ChildEdges(g, tid, xs[..n - 1]), ks, n - 1, ChildEdge(g, tid, xs[n - 1]));
    }
  }

  lemma {:induction false} AggregationsListed(g: Graph, tid: TypeId, n: nat) returns (ks: seq<nat>)
    requires n <= |g.aggregates|
    ensures Listed(g, tid, Aggregations, AggregateEdges(tid, g.aggregates[..n]), ks, n)
  {
    if n == 0 {
      ks := [];
    } else {
      var xs := g.aggregates;
      ks := AggregationsListed(g, tid, n - 1);
      AggregationStepGiven(g, tid, n - 1);
      assert xs[..n][..n - 1] == xs[..n - 1];
      ks := ListedNext(g, tid, Aggregations, AggregateEdges(tid, xs[..n - 1]), ks, n - 1,
                       AggregateEdge(tid, xs[n - 1]));
    }
  }

  // ---------------------------------------------------------------------------------------------
  // All edges of a type

  /** Edge by edge, the source that gives it. */
  ghost predicate SourcesGive(g: Graph, tid: TypeId, sources: seq<Source>, es: seq<Edge>) {
    |sources| == |es| && forall i :: 0 <= i < |es| ==> Gives(g, tid, sources[i], es[i])
  }

  ghost predicate Ordered(sources: seq<Source>) {
    forall i, j :: 0 <= i < j < |sources| ==> Precedes(sources[i], sources[j])
  }

  /** Every source of the kind that gives an edge is there. */
  ghost predicate Complete(g: Graph, tid: TypeId, kind: Kind, sources: seq<Source>) {
    forall k: nat, e :: Gives(g, tid, Source(kind, k), e) ==> Source(kind, k) in sources
  }

  function Numbered(kind: Kind, ks: seq<nat>): (sources: seq<Source>)
    ensures |sources| == |ks| && forall i :: 0 <= i < |ks| ==> sources[i] == Source(kind, ks[i])
  {
    seq(|ks|, i requires 0 <= i < |ks| => Source(kind, ks[i]))
  }

  /** The sources of one kind, with the edges they give. */
  ghost predicate KindListed(g: Graph, tid: TypeId, kind: Kind, sources: seq<Source>, es: seq<Edge>) {
    && SourcesGive(g, tid, sources, es) && Ordered(sources) && Complete(g, tid, kind, sources)
    && forall i :: 0 <= i < |sources| ==> sources[i].kind == kind
  }

  /** No source of the kind has a number from `n` on. */
  ghost predicate Bounded(g: Graph, tid: TypeId, kind: Kind, n: nat) {
    forall k: nat, e :: Gives(g, tid, Source(kind, k), e) ==> k < n
  }

  lemma ListedIsKindListed(g: Graph, tid: TypeId, kind: Kind, es: seq<Edge>, ks: seq<nat>, n: nat)
    requires Listed(g, tid, kind, es, ks, n) && Bounded(g, tid, kind, n)
    ensures KindListed(g, tid, kind, Numbered(kind, ks), es)
  {
    var sources := Numbered(kind, ks);
    forall k: nat, e | Gives(g, tid, Source(kind, k), e) ensures Source(kind, k) in sources {
      var i :| 0 <= i < |ks| && ks[i] == k;
      assert sources[i] == Source(kind, k);
    }
  }

  lemma AttributeKind(g: Graph, tid: TypeId) returns (sources: seq<Source>)
    ensures KindListed(g, tid, Attributes, sources, AttributeEdges(g, g.registry.AttributesOf(tid)))
  {
    var xs := g.registry.AttributesOf(tid);
    assert xs[..|xs|] == xs;
    var ks := AttributesListed(g, tid, |xs|);
    ListedIsKindListed(g, tid, Attributes, AttributeEdges(g, xs), ks, |xs|);
    sources := Numbered(Attributes, ks);
  }

  lemma TypeKind(g: Graph, tid: TypeId) returns (sources: seq<Source>)
    ensures KindListed(g, tid, Types, sources, ChildEdges(g, tid, g.registry.registered))
  {
    var xs := g.registry.registered;
    assert xs[..|xs|] == xs;
    var ks := TypesListed(g, tid, |xs|);
    ListedIsKindListed(g, tid, Types, ChildEdges(g, tid, xs), ks, |xs|);
    sources := Numbered(Types, ks);
  }

  lemma AggregationKind(g: Graph, tid: TypeId) returns (sources: seq<Source>)
    ensures KindListed(g, tid, Aggregations, sources, AggregateEdges(tid, g.aggregates))
  {
    var xs := g.aggregates;
    assert xs[..|xs|] == xs;
    var ks := AggregationsListed(g, tid, |xs|);
    ListedIsKindListed(g, tid, Aggregations, AggregateEdges(tid, xs), ks, |xs|);
    sources := Numbered(Aggregations, ks);
  }

  lemma OrderedConcat(a: seq<Source>, b: seq<Source>)
    requires Ordered(a) && Ordered(b)
    requires forall i, j :: 0 <= i < |a| && 0 <= j < |b| ==> Rank(a[i].kind) < Rank(b[j].kind)
    ensures Ordered(a + b)
  {
  }

  lemma SourcesGiveConcat(g: Graph, tid: TypeId, a: seq<Source>, es: seq<Edge>, b: seq<Source>, ds: seq<Edge>)
    requires SourcesGive(g, tid, a, es) && SourcesGive(g, tid, b, ds)
    ensures SourcesGive(g, tid, a + b, es + ds)
  {
  }

  lemma CompleteExtends(g: Graph, tid: TypeId, kind: Kind, part: seq<Source>, whole: seq<Source>)
    requires Complete(g, tid, kind, part) && forall source :: source in part ==> source in whole
    ensures Complete(g, tid, kind, whole)
  {
  }

  /** Every attribute, registered type and aggregation that gives an edge gives one, in that order, and
      nothing else does. */
  lemma EdgesAreGiven(g: Graph, tid: TypeId) returns (sources: seq<Source>)
    ensures SourcesGive(g, tid, sources, Edges(g, tid)) && Ordered(sources)
    ensures forall kind :: Complete(g, tid, kind, sources)
  {
    var a := AttributeKind(g, tid);
    var b := TypeKind(g, tid);
    var c := AggregationKind(g, tid);
    sources := a + b + c;
    OrderedConcat(a, b);
    OrderedConcat(a + b, c);
    var es := AttributeEdges(g, g.registry.AttributesOf(tid));
    SourcesGiveConcat(g, tid, a, es, b, ChildEdges(g, tid, g.registry.registered));
    SourcesGiveConcat(g, tid, a + b, es + ChildEdges(g, tid, g.registry.registered), c,
                      AggregateEdges(tid, g.aggregates));
    CompleteExtends(g, tid, Attributes, a, sources);
    CompleteExtends(g, tid, Types, b, sources);
    CompleteExtends(g, tid, Aggregations, c, sources);
    forall kind ensures Complete(g, tid, kind, sources) {
      match kind
      case Attributes =>
      case Types =>
      case Aggregations =>
    }
  }

  /** An edge leaves the type if and only if an attribute, a registered type or an aggregation gives it. */
  lemma EdgeIff(g: Graph, tid: TypeId, e: Edge)
    ensures e in Edges(g, tid) <==>
      || (exists k :: AttributeGives(g, tid, k, e))
      || (exists k :: TypeGives(g, tid, k, e))
      || (exists k :: AggregationGives(g, tid, k, e))
  {
    var sources := EdgesAreGiven(g, tid);
    var es := Edges(g, tid);
    if e in es {
      var i :| 0 <= i < |es| && es[i] == e;
      assert Gives(g, tid, sources[i], e);
    }
    forall k: nat, kind | Gives(g, tid, Source(kind, k), e) ensures e in es {
      assert Complete(g, tid, kind, sources);
      var i :| 0 <= i < |sources| && sources[i] == Source(kind, k);
      SourceGivesOneEdge(g, tid, sources[i], e, es[i]);
    }
    forall k: nat ensures AttributeGives(g, tid, k, e) || TypeGives(g, tid, k, e) || AggregationGives(g, tid, k, e)
      ==> e in es
    {
      assert Gives(g, tid, Source(Attributes, k), e) == AttributeGives(g, tid, k, e);
      assert Gives(g, tid, Source(Types, k), e) == TypeGives(g, tid, k, e);
      assert Gives(g, tid, Source(Aggregations, k), e) == AggregationGives(g, tid, k, e);
    }
  }

  /** An attribute that points to Object gives no edge, so the search never enters Object by it. */
  lemma PointersToObjectSkipped(g: Graph, tid: TypeId, k: nat, e: Edge)
    requires k < |g.registry.AttributesOf(tid)|
    requires g.registry.AttributesOf(tid)[k].checker == PointerTo(g.registry.objectTid)
    ensures !AttributeGives(g, tid, k, e)
  {
  }

  // ---------------------------------------------------------------------------------------------
  // Paths and roots

  lemma {:induction false} JoinConcat(a: seq<string>, b: seq<string>)
    ensures Join(a + b) == Join(a) + Join(b)
  {
    if b == [] {
      assert a + b == a;
    } else {
      var n := |b| - 1;
      assert (a + b)[..|a + b| - 1] == a + b[..n];
      JoinConcat(a, b[..n]);
      assert Join(a + b) == Join(a) + Join(b[..n]) + "/" + b[n];
    }
  }

  /** The path of one label is a slash and the label, and paths are put one behind the other. */
  lemma JoinIsSlashed(path: seq<string>, name: string)
    ensures Join([]) == "" && Join([name] + path) == "/" + name + Join(path)
  {
    JoinConcat([name], path);
    assert [name][..0] == [];
    assert Join([name]) == "" + "/" + name;
  }

  lemma {:induction false} PathsToConcat(a: seq<Entry>, b: seq<Entry>, tid: TypeId)
    ensures PathsTo(a + b, tid) == PathsTo(a, tid) + PathsTo(b, tid)
  {
    if b == [] {
      assert a + b == a;
    } else {
      assert (a + b)[..|a + b| - 1] == a + b[..|b| - 1];
      PathsToConcat(a, b[..|b| - 1], tid);
    }
  }

  /** The paths of a further root come behind those of the roots before it. */
  lemma GetKeepsRootOrder(g: Graph, roots: seq<TypeId>, root: TypeId, tid: TypeId)
    ensures PathsTo(GatheredFrom(g, roots + [root]), tid)
         == PathsTo(GatheredFrom(g, roots), tid) + PathsTo(Gathered(g, root, [], []), tid)
  {
    DropLast(roots, root);
    PathsToConcat(GatheredFrom(g, roots), Gathered(g, root, [], []), tid);
  }
}
