/** When the entries of one search are all different.  `Uniquefy` should see to it and does not, so it
    is up to the graph: `EntriesDifferIff` says exactly which graphs repeat an entry. */
module PathUniqueness {
  import opened Common
  import opened ConfigPaths

  // ---------------------------------------------------------------------------------------------
  // Names

  const ITEM := "[i]"

  /** Neither a separator nor the mark of a vector item. */
  predicate BaseName(s: string) {
    '/' !in s && s != ITEM
  }

  /** A base name, or a base name with the suffix of a vector item. */
  predicate IsLabel(s: string) {
    BaseName(s) || (|s| >= 4 && s[|s| - 4..] == "/" + ITEM && BaseName(s[..|s| - 4]))
  }

  /** In every type the name of an edge tells which edge it is, up to equal edges. */
  ghost predicate NamesTellEdges(g: Graph) {
    forall tid, i, j | 0 <= i < |Edges(g, tid)| && 0 <= j < |Edges(g, tid)| ::
      Edges(g, tid)[i].name == Edges(g, tid)[j].name ==> Edges(g, tid)[i] == Edges(g, tid)[j]
  }

  ghost predicate AllLabels(g: Graph) {
    forall tid, i :: 0 <= i < |Edges(g, tid)| ==> IsLabel(Edges(g, tid)[i].name)
  }

  /** Attribute names are base names without a leading `$`, each used once in its type, and type names
      hold no slash. */
  ghost predicate WellNamed(g: Graph) {
    && (forall t :: t in Known(g) ==> '/' !in t.name)
    && (forall tid, k | 0 <= k < |g.registry.AttributesOf(tid)| ::
          PlainName(g.registry.AttributesOf(tid)[k].name))
    && (forall tid, k, l | 0 <= k < |g.registry.AttributesOf(tid)| && 0 <= l < |g.registry.AttributesOf(tid)| ::
          g.registry.AttributesOf(tid)[k].name == g.registry.AttributesOf(tid)[l].name ==> k == l)
  }

  predicate PlainName(s: string) {
    BaseName(s) && (s == "" || s[0] != '$')
  }

  // ---------------------------------------------------------------------------------------------
  // Joined labels can be taken apart again

  lemma NoSlashBehind(s: string, x: string, k: nat)
    requires '/' !in x && |s| < k <= |s| + |x|
    ensures (s + "/" + x)[k] != '/'
  {
    assert (s + "/" + x)[k] == x[k - |s| - 1];
  }

  lemma LastSlash(s: string, x: string, t: string, y: string)
    requires '/' !in x && '/' !in y && s + "/" + x == t + "/" + y
    ensures s == t && x == y
  {
    var whole := s + "/" + x;
    if |s| < |t| {
      NoSlashBehind(s, x, |t|);
    } else if |t| < |s| {
      NoSlashBehind(t, y, |s|);
    } else {
      assert whole[..|s|] == s && whole[..|s|] == t;
      assert whole[|s| + 1..] == x && whole[|s| + 1..] == y;
    }
  }

  lemma ItemSuffix(s: string, x: string)
    requires IsLabel(x) && !BaseName(x)
    ensures s + "/" + x == s + "/" + x[..|x| - 4] + "/" + ITEM
  {
    assert x == x[..|x| - 4] + ("/" + ITEM);
  }

  lemma LastLabel(s: string, x: string, t: string, y: string)
    requires IsLabel(x) && IsLabel(y) && s + "/" + x == t + "/" + y
    ensures s == t && x == y
  {
    if BaseName(x) && BaseName(y) {
      LastSlash(s, x, t, y);
    } else if BaseName(x) {
      ItemSuffix(t, y);
      LastSlash(s, x, t + "/" + y[..|y| - 4], ITEM);
    } else if BaseName(y) {
      ItemSuffix(s, x);
      LastSlash(s + "/" + x[..|x| - 4], ITEM, t, y);
    } else {
      ItemSuffix(s, x);
      ItemSuffix(t, y);
      LastSlash(s + "/" + x[..|x| - 4], ITEM, t + "/" + y[..|y| - 4], ITEM);
      LastSlash(s, x[..|x| - 4], t, y[..|y| - 4]);
      assert x == x[..|x| - 4] + ("/" + ITEM) && y == y[..|y| - 4] + ("/" + ITEM);
    }
  }

  /** The printed path determines the list of labels. */
  lemma {:induction false} JoinInjective(a: seq<string>, b: seq<string>)
    requires forall i :: 0 <= i < |a| ==> IsLabel(a[i])
    requires forall i :: 0 <= i < |b| ==> IsLabel(b[i])
    requires Join(a) == Join(b)
    ensures a == b
  {
    if a == [] || b == [] {
    } else {
      var m, n := |a| - 1, |b| - 1;
      LastLabel(Join(a[..m]), a[m], Join(b[..n]), b[n]);
      JoinInjective(a[..m], b[..n]);
      assert a == a[..m] + [a[m]] && b == b[..n] + [b[n]];
    }
  }

  // ---------------------------------------------------------------------------------------------
  // Well-named registries have telling edge names

  /** An edge of an attribute, or one named after its target type. */
  ghost predicate Described(g: Graph, tid: TypeId, e: Edge) {
    || (exists k :: 0 <= k < |g.registry.AttributesOf(tid)| && AttributeEdge(g, g.registry.AttributesOf(tid)[k]) == [e])
    || e.name == "$" + e.target.name
  }

  lemma {:induction false} AttributeEdgesDescribed(g: Graph, tid: TypeId, n: nat)
    requires n <= |g.registry.AttributesOf(tid)|
    ensures forall e :: e in AttributeEdges(g, g.registry.AttributesOf(tid)[..n]) ==> Described(g, tid, e)
  {
    if n == 0 {
    } else {
      var attributes := g.registry.AttributesOf(tid);
      AttributeEdgesDescribed(g, tid, n - 1);
      assert attributes[..n][..n - 1] == attributes[..n - 1];
      forall e | e in AttributeEdge(g, attributes[n - 1]) ensures Described(g, tid, e) {
        assert AttributeEdge(g, attributes[n - 1]) == [e];
      }
    }
  }

  lemma {:induction false} ChildEdgesDescribed(g: Graph, tid: TypeId, children: seq<TypeId>)
    ensures forall e :: e in ChildEdges(g, tid, children) ==> Described(g, tid, e)
  {
    if children == [] {
    } else {
      ChildEdgesDescribed(g, tid, children[..|children| - 1]);
    }
  }

  lemma {:induction false} AggregateEdgesDescribed(g: Graph, tid: TypeId, pairs: seq<(TypeId, TypeId)>)
    ensures forall e :: e in AggregateEdges(tid, pairs) ==> Described(g, tid, e)
  {
    if pairs == [] {
    } else {
      AggregateEdgesDescribed(g, tid, pairs[..|pairs| - 1]);
    }
  }

  lemma EdgesDescribed(g: Graph, tid: TypeId, i: nat)
    requires i < |Edges(g, tid)|
    ensures Described(g, tid, Edges(g, tid)[i]) && Edges(g, tid)[i].target in Known(g)
  {
    var attributes := g.registry.AttributesOf(tid);
    assert attributes[..|attributes|] == attributes;
    AttributeEdgesDescribed(g, tid, |attributes|);
    ChildEdgesDescribed(g, tid, g.registry.registered);
    AggregateEdgesDescribed(g, tid, g.aggregates);
    EdgesKnown(g, tid);
    assert Edges(g, tid)[i] in Edges(g, tid);
  }

  /** An attribute edge is named by a plain name, behind which a vector puts its suffix. */
  lemma AttributeEdgeName(g: Graph, a: Attribute, e: Edge)
    requires PlainName(a.name) && AttributeEdge(g, a) == [e]
    ensures e.name == if a.checker.VectorOf? then a.name + "/" + ITEM else a.name
    ensures IsLabel(e.name) && (e.name == "" || e.name[0] != '$')
  {
    assert AttributeEdge(g, a)[0] == e;
    if a.checker.VectorOf? {
      assert a.name + "/[i]" == a.name + "/" + ITEM;
      assert e.name[|e.name| - 4..] == "/" + ITEM && e.name[..|e.name| - 4] == a.name;
    }
  }

  /** A base name shows whether and where the suffix of a vector was put behind it. */
  lemma SameSuffixed(x: string, xItem: bool, y: string, yItem: bool)
    requires BaseName(x) && BaseName(y)
    requires (if xItem then x + "/" + ITEM else x) == (if yItem then y + "/" + ITEM else y)
    ensures x == y
  {
    assert (x + "/" + ITEM)[|x|] == '/' && (y + "/" + ITEM)[|y|] == '/';
    if xItem && yItem {
      LastSlash(x, ITEM, y, ITEM);
    }
  }

  lemma SameName(g: Graph, tid: TypeId, i: nat, j: nat)
    requires WellNamed(g) && i < |Edges(g, tid)| && j < |Edges(g, tid)|
    requires Edges(g, tid)[i].name == Edges(g, tid)[j].name
    ensures Edges(g, tid)[i] == Edges(g, tid)[j]
  {
    var attributes, d, e := g.registry.AttributesOf(tid), Edges(g, tid)[i], Edges(g, tid)[j];
    EdgesDescribed(g, tid, i);
    EdgesDescribed(g, tid, j);
    if k :| 0 <= k < |attributes| && AttributeEdge(g, attributes[k]) == [d] {
      AttributeEdgeName(g, attributes[k], d);
      if l :| 0 <= l < |attributes| && AttributeEdge(g, attributes[l]) == [e] {
        AttributeEdgeName(g, attributes[l], e);
        SameSuffixed(attributes[k].name, attributes[k].checker.VectorOf?,
                     attributes[l].name, attributes[l].checker.VectorOf?);
        assert [d][0] == [e][0];
      }
    } else if l :| 0 <= l < |attributes| && AttributeEdge(g, attributes[l]) == [e] {
      AttributeEdgeName(g, attributes[l], e);
    } else {
      assert d.target.name == d.name[1..] && e.target.name == e.name[1..];
    }
  }

  lemma NamesAreLabels(g: Graph, tid: TypeId, i: nat)
    requires WellNamed(g) && i < |Edges(g, tid)|
    ensures IsLabel(Edges(g, tid)[i].name)
  {
    var attributes, e := g.registry.AttributesOf(tid), Edges(g, tid)[i];
    EdgesDescribed(g, tid, i);
    if k :| 0 <= k < |attributes| && AttributeEdge(g, attributes[k]) == [e] {
      AttributeEdgeName(g, attributes[k], e);
    } else {
      assert e.name[0] == '$' && ITEM[0] == '[';
    }
  }

  /** Both conditions on edges follow from conditions on the names alone. */
  lemma WellNamedTells(g: Graph)
    requires WellNamed(g)
    ensures NamesTellEdges(g) && AllLabels(g)
  {
    forall tid, i, j | 0 <= i < |Edges(g, tid)| && 0 <= j < |Edges(g, tid)|
      && Edges(g, tid)[i].name == Edges(g, tid)[j].name
      ensures Edges(g, tid)[i] == Edges(g, tid)[j]
    {
      SameName(g, tid, i, j);
    }
    forall tid, i | 0 <= i < |Edges(g, tid)| ensures IsLabel(Edges(g, tid)[i].name) {
      NamesAreLabels(g, tid, i);
    }
  }

  // ---------------------------------------------------------------------------------------------
  // Repeated entries come from repeated edges

  /** A simple walk ends at a type with two equal edges to a type it may still enter. */
  ghost predicate RepeatedEdge(g: Graph, tid: TypeId, w: seq<nat>, i: nat, j: nat, avoid: seq<TypeId>) {
    && SimpleWalk(g, tid, w, avoid) && i < j < |Edges(g, End(g, tid, w))|
    && Edges(g, End(g, tid, w))[i] == Edges(g, End(g, tid, w))[j]
    && Edges(g, End(g, tid, w))[i].target !in Visits(g, tid, w) + avoid
  }

  lemma RepeatedEdgeStep(g: Graph, tid: TypeId, k: nat, w: seq<nat>, i: nat, j: nat, avoid: seq<TypeId>)
    requires tid !in avoid && k < |Edges(g, tid)|
    requires RepeatedEdge(g, Edges(g, tid)[k].target, w, i, j, avoid + [tid])
    ensures RepeatedEdge(g, tid, [k] + w, i, j, avoid)
  {
    assert ([k] + w)[1..] == w;
    SimpleWalkStep(g, tid, [k] + w, avoid);
  }

  lemma RepeatedEdgeHere(g: Graph, tid: TypeId, u: seq<nat>, j: nat, avoid: seq<TypeId>)
    requires SimpleWalk(g, tid, u, avoid) && u != [] && j < |Edges(g, tid)| && u[0] != j
    requires Edges(g, tid)[u[0]] == Edges(g, tid)[j]
    ensures RepeatedEdge(g, tid, [], if u[0] < j then u[0] else j, if u[0] < j then j else u[0], avoid)
  {
    var visits, target := Visits(g, tid, u), Edges(g, tid)[u[0]].target;
    assert visits == [tid] + Visits(g, target, u[1..]) && Visits(g, target, u[1..])[0] == target;
    assert visits[0] == tid && visits[1] == target && target in visits;
    assert Visits(g, tid, []) == [tid] && tid in visits;
  }

  lemma {:induction false} LabelsLength(g: Graph, tid: TypeId, w: seq<nat>)
    requires InGraph(g, tid, w)
    ensures |Labels(g, tid, w)| == |w|
    decreases |w|
  {
    if w == [] {
    } else {
      LabelsLength(g, Edges(g, tid)[w[0]].target, w[1..]);
    }
  }

  /** Two simple walks with the same labels part at a repeated edge. */
  lemma {:induction false} WalksPart(g: Graph, tid: TypeId, u: seq<nat>, v: seq<nat>, avoid: seq<TypeId>)
    returns (w: seq<nat>, i: nat, j: nat)
    requires NamesTellEdges(g) && u != v
    requires SimpleWalk(g, tid, u, avoid) && SimpleWalk(g, tid, v, avoid)
    requires Labels(g, tid, u) == Labels(g, tid, v)
    ensures RepeatedEdge(g, tid, w, i, j, avoid)
    decreases |u|
  {
    LabelsLength(g, tid, u);
    LabelsLength(g, tid, v);
    var es := Edges(g, tid);
    assert Labels(g, tid, u)[0] == es[u[0]].name && Labels(g, tid, v)[0] == es[v[0]].name;
    assert Visits(g, tid, u)[0] == tid;
    if u[0] == v[0] {
      assert u == [u[0]] + u[1..] && v == [v[0]] + v[1..];
      assert Labels(g, tid, u)[1..] == Labels(g, es[u[0]].target, u[1..]);
      assert Labels(g, tid, v)[1..] == Labels(g, es[v[0]].target, v[1..]);
      SimpleWalkStep(g, tid, u, avoid);
      SimpleWalkStep(g, tid, v, avoid);
      w, i, j := WalksPart(g, es[u[0]].target, u[1..], v[1..], avoid + [tid]);
      RepeatedEdgeStep(g, tid, u[0], w, i, j, avoid);
      w := [u[0]] + w;
    } else {
      RepeatedEdgeHere(g, tid, u, v[0], avoid);
      w, i, j := [], if u[0] < v[0] then u[0] else v[0], if u[0] < v[0] then v[0] else u[0];
    }
  }

  lemma {:induction false} WalkLabels(g: Graph, tid: TypeId, w: seq<nat>)
    requires AllLabels(g) && InGraph(g, tid, w)
    ensures forall k :: 0 <= k < |Labels(g, tid, w)| ==> IsLabel(Labels(g, tid, w)[k])
    decreases |w|
  {
    if w == [] {
    } else {
      WalkLabels(g, Edges(g, tid)[w[0]].target, w[1..]);
    }
  }

  lemma RepeatedEntryHasRepeatedEdge(g: Graph, root: TypeId, a: nat, b: nat) returns (w: seq<nat>, i: nat, j: nat)
    requires NamesTellEdges(g) && AllLabels(g)
    requires a < b < |Gathered(g, root, [], [])| && Gathered(g, root, [], [])[a] == Gathered(g, root, [], [])[b]
    ensures RepeatedEdge(g, root, w, i, j, [])
  {
    SearchEnumeratesSimpleWalks(g, root, [], []);
    var ws := Walks(g, root, []);
    var u, v := ws[a], ws[b];
    assert u in ws && v in ws;
    BeforeIsStrict(u, v);
    assert [] + Labels(g, root, u) == Labels(g, root, u) && [] + Labels(g, root, v) == Labels(g, root, v);
    WalkLabels(g, root, u);
    WalkLabels(g, root, v);
    JoinInjective(Labels(g, root, u), Labels(g, root, v));
    w, i, j := WalksPart(g, root, u, v, []);
  }

  /** The entries of a search are all different if and only if no type that a simple walk reaches has
      two equal edges to a type not yet visited. */
  lemma EntriesDifferIff(g: Graph, root: TypeId)
    requires NamesTellEdges(g) && AllLabels(g)
    ensures NoDuplicates(Gathered(g, root, [], [])) <==> !exists w, i, j :: RepeatedEdge(g, root, w, i, j, [])
  {
    if !NoDuplicates(Gathered(g, root, [], [])) {
      var a, b :| 0 <= a < b < |Gathered(g, root, [], [])|
        && Gathered(g, root, [], [])[a] == Gathered(g, root, [], [])[b];
      var w, i, j := RepeatedEntryHasRepeatedEdge(g, root, a, b);
    }
    if w, i, j :| RepeatedEdge(g, root, w, i, j, []) {
      RepeatedEdgeRepeatsEntry(g, root, w, i, j);
    }
  }

  // ---------------------------------------------------------------------------------------------
  // Several searches

  /** Simple walks from the two roots have equal labels and the same end. */
  ghost predicate WalksMeet(g: Graph, root: TypeId, root': TypeId, u: seq<nat>, v: seq<nat>) {
    && SimpleWalk(g, root, u, []) && SimpleWalk(g, root', v, [])
    && End(g, root, u) == End(g, root', v) && Labels(g, root, u) == Labels(g, root', v)
  }

  ghost predicate SearchesMeet(g: Graph, root: TypeId, root': TypeId) {
    exists u, v :: WalksMeet(g, root, root', u, v)
  }

  predicate Overlap<T(==)>(a: seq<T>, b: seq<T>) {
    exists x :: x in a && x in b
  }

  /** Two searches share an entry if and only if such walks exist. */
  lemma SharedEntryIff(g: Graph, root: TypeId, root': TypeId)
    requires AllLabels(g)
    ensures Overlap(Gathered(g, root, [], []), Gathered(g, root', [], [])) <==> SearchesMeet(g, root, root')
  {
    if e :| e in Gathered(g, root, [], []) && e in Gathered(g, root', [], []) {
      InGathered(g, root, e.0, e.1);
      InGathered(g, root', e.0, e.1);
      var u :| ReachedBy(g, root, u, e.0, e.1);
      var v :| ReachedBy(g, root', v, e.0, e.1);
      WalkLabels(g, root, u);
      WalkLabels(g, root', v);
      JoinInjective(Labels(g, root, u), Labels(g, root', v));
      assert WalksMeet(g, root, root', u, v);
    }
    if u, v :| WalksMeet(g, root, root', u, v) {
      var tid, path := End(g, root, u), Join(Labels(g, root, u));
      assert ReachedBy(g, root, u, tid, path) && ReachedBy(g, root', v, tid, path);
      InGathered(g, root, tid, path);
      InGathered(g, root', tid, path);
      assert (tid, path) in Gathered(g, root, [], []);
    }
  }

  lemma {:induction false} FromWhichRoot(g: Graph, roots: seq<TypeId>, e: Entry) returns (k: nat)
    requires e in GatheredFrom(g, roots)
    ensures k < |roots| && e in Gathered(g, roots[k], [], [])
  {
    var n := |roots| - 1;
    if e in Gathered(g, roots[n], [], []) {
      k := n;
    } else {
      k := FromWhichRoot(g, roots[..n], e);
    }
  }

  lemma {:induction false} InGatheredFrom(g: Graph, roots: seq<TypeId>, k: nat, e: Entry)
    requires k < |roots| && e in Gathered(g, roots[k], [], [])
    ensures e in GatheredFrom(g, roots)
  {
    var n := |roots| - 1;
    if k == n {
    } else {
      InGatheredFrom(g, roots[..n], k, e);
    }
  }

  lemma NoDuplicatesConcat<T>(a: seq<T>, b: seq<T>)
    ensures NoDuplicates(a + b) <==> NoDuplicates(a) && NoDuplicates(b) && !Overlap(a, b)
  {
    var whole := a + b;
    assert forall i :: 0 <= i < |a| ==> whole[i] == a[i];
    assert forall j :: 0 <= j < |b| ==> whole[|a| + j] == b[j];
    if NoDuplicates(whole) {
      forall i, j | 0 <= i < |a| && 0 <= j < |b| ensures a[i] != b[j] {
        assert whole[i] != whole[|a| + j];
      }
      forall i, j | 0 <= i < j < |b| ensures b[i] != b[j] {
        assert whole[|a| + i] != whole[|a| + j];
      }
    } else {
      var i, j :| 0 <= i < j < |whole| && whole[i] == whole[j];
      if i >= |a| {
        assert b[i - |a|] == b[j - |a|];
      } else if j >= |a| {
        assert a[i] in a && b[j - |a|] in b;
      }
    }
  }

  ghost predicate SearchRepeats(g: Graph, root: TypeId) {
    exists w, i, j :: RepeatedEdge(g, root, w, i, j, [])
  }

  ghost predicate AllSearchesDiffer(g: Graph, roots: seq<TypeId>) {
    && (forall k :: 0 <= k < |roots| ==> !SearchRepeats(g, roots[k]))
    && (forall k, l :: 0 <= k < l < |roots| ==> !SearchesMeet(g, roots[k], roots[l]))
  }

  lemma LastSearchDiffers(g: Graph, roots: seq<TypeId>)
    requires AllLabels(g) && roots != []
    ensures Overlap(GatheredFrom(g, roots[..|roots| - 1]), Gathered(g, roots[|roots| - 1], [], []))
       <==> exists k :: 0 <= k < |roots| - 1 && SearchesMeet(g, roots[k], roots[|roots| - 1])
  {
    var init, last := roots[..|roots| - 1], roots[|roots| - 1];
    if e :| e in GatheredFrom(g, init) && e in Gathered(g, last, [], []) {
      var k := FromWhichRoot(g, init, e);
      SharedEntryIff(g, init[k], last);
      assert SearchesMeet(g, roots[k], last);
    }
    if k :| 0 <= k < |roots| - 1 && SearchesMeet(g, roots[k], last) {
      SharedEntryIff(g, roots[k], last);
      var e :| e in Gathered(g, roots[k], [], []) && e in Gathered(g, last, [], []);
      assert init[k] == roots[k];
      InGatheredFrom(g, init, k, e);
    }
  }

  /** The whole output is free of duplicates if and only if no type that a simple walk from a root
      reaches has two equal edges to an unvisited type, and no two roots have simple walks with equal
      labels to the same type.  In particular no root may be gathered twice. */
  lemma {:induction false} OutputDiffersIff(g: Graph, roots: seq<TypeId>)
    requires NamesTellEdges(g) && AllLabels(g)
    ensures NoDuplicates(GatheredFrom(g, roots)) <==> AllSearchesDiffer(g, roots)
  {
    if roots == [] {
    } else {
      var n := |roots| - 1;
      OutputDiffersIff(g, roots[..n]);
      EntriesDifferIff(g, roots[n]);
      LastSearchDiffers(g, roots);
      NoDuplicatesConcat(GatheredFrom(g, roots[..n]), Gathered(g, roots[n], [], []));
      LastRootDiffers(g, roots);
    }
  }

  lemma LastRootDiffers(g: Graph, roots: seq<TypeId>)
    requires roots != []
    ensures var n := |roots| - 1;
      AllSearchesDiffer(g, roots) <==>
        AllSearchesDiffer(g, roots[..n]) && !SearchRepeats(g, roots[n])
        && forall k :: 0 <= k < n ==> !SearchesMeet(g, roots[k], roots[n])
  {
    var n := |roots| - 1;
    assert forall k :: 0 <= k < n ==> roots[..n][k] == roots[k];
  }

  // ---------------------------------------------------------------------------------------------
  // The registered aggregations

  lemma {:induction false} AggregatePosition(tid: TypeId, pairs: seq<(TypeId, TypeId)>, p: nat)
    requires p < |pairs| && AggregateEdge(tid, pairs[p]) != []
    ensures |AggregateEdges(tid, pairs[..p])| < |AggregateEdges(tid, pairs)|
    ensures AggregateEdges(tid, pairs)[|AggregateEdges(tid, pairs[..p])|] == AggregateEdge(tid, pairs[p])[0]
  {
    var n := |pairs| - 1;
    if p == n {
    } else {
      AggregatePosition(tid, pairs[..n], p);
      assert pairs[..n][..p] == pairs[..p];
    }
  }

  lemma EqualAggregates(tid: TypeId, pairs: seq<(TypeId, TypeId)>, p: nat, q: nat) returns (i: nat, j: nat)
    requires p < q < |pairs| && pairs[p] == pairs[q] && AggregateEdge(tid, pairs[p]) != []
    ensures i < j < |AggregateEdges(tid, pairs)|
    ensures AggregateEdges(tid, pairs)[i] == AggregateEdges(tid, pairs)[j] == AggregateEdge(tid, pairs[p])[0]
  {
    AggregatePosition(tid, pairs, p);
    AggregatePosition(tid, pairs, q);
    AggregatePosition(tid, pairs[..q], p);
    assert pairs[..q][..p] == pairs[..p];
    i, j := |AggregateEdges(tid, pairs[..p])|, |AggregateEdges(tid, pairs[..q])|;
  }

  lemma AggregateAmongEdges(g: Graph, tid: TypeId, i: nat) returns (k: nat)
    requires i < |AggregateEdges(tid, g.aggregates)|
    ensures k == |AttributeEdges(g, g.registry.AttributesOf(tid))| + |ChildEdges(g, tid, g.registry.registered)| + i
    ensures k < |Edges(g, tid)| && Edges(g, tid)[k] == AggregateEdges(tid, g.aggregates)[i]
  {
    k := |AttributeEdges(g, g.registry.AttributesOf(tid))| + |ChildEdges(g, tid, g.registry.registered)| + i;
  }

  /** An aggregation that is registered twice repeats an entry, for every root from which a simple walk
      reaches one end and has not visited the other. */
  lemma RepeatedAggregationRepeatsEntry(g: Graph, root: TypeId, w: seq<nat>, p: nat, q: nat)
    requires SimpleWalk(g, root, w, []) && p < q < |g.aggregates| && g.aggregates[p] == g.aggregates[q]
    requires g.aggregates[p].0 == End(g, root, w) && g.aggregates[p].1 !in Visits(g, root, w)
    ensures !NoDuplicates(Gathered(g, root, [], []))
  {
    var tid := End(g, root, w);
    EndVisited(g, root, w);
    var i, j := EqualAggregates(tid, g.aggregates, p, q);
    var k := AggregateAmongEdges(g, tid, i);
    var l := AggregateAmongEdges(g, tid, j);
    RepeatedEdgeRepeatsEntry(g, root, w, k, l);
  }

  lemma {:induction false} EndVisited(g: Graph, tid: TypeId, w: seq<nat>)
    requires InGraph(g, tid, w)
    ensures End(g, tid, w) in Visits(g, tid, w)
    decreases |w|
  {
    if w == [] {
    } else {
      EndVisited(g, Edges(g, tid)[w[0]].target, w[1..]);
    }
  }

  const NODE := TypeId("ns3::Node")
  const ICMPV4 := TypeId("ns3::Icmpv4L4Protocol")

  /** The aggregations the program registers, in its order; all are with ns3::Node. */
  function TypicalAggregations(): seq<(TypeId, TypeId)> {
    [ (NODE, TypeId("ns3::TcpSocketFactory")),
      (NODE, TypeId("ns3::UdpSocketFactory")),
      (NODE, TypeId("ns3::PacketSocketFactory")),
      (NODE, TypeId("ns3::MobilityModel")),
      (NODE, TypeId("ns3::Ipv4L3Protocol")),
      (NODE, TypeId("ns3::Ipv4NixVectorRouting")),
      (NODE, ICMPV4),
      (NODE, TypeId("ns3::ArpL3Protocol")),
      (NODE, ICMPV4),
      (NODE, TypeId("ns3::UdpL4Protocol")),
      (NODE, TypeId("ns3::Ipv6L3Protocol")),
      (NODE, TypeId("ns3::Icmpv6L4Protocol")),
      (NODE, TypeId("ns3::TcpL4Protocol")),
      (NODE, TypeId("ns3::RipNg")),
      (NODE, TypeId("ns3::GlobalRouter")),
      (NODE, TypeId("ns3::aodv::RoutingProtocol")),
      (NODE, TypeId("ns3::dsdv::RoutingProtocol")),
      (NODE, TypeId("ns3::dsr::DsrRouting")),
      (NODE, TypeId("ns3::olsr::RoutingProtocol")),
      (NODE, TypeId("ns3::EnergyHarvesterContainer")),
      (NODE, TypeId("ns3::EnergySourceContainer")) ]
  }

  /** Whatever the registry holds, the program's own aggregations repeat an entry, for every gathered
      root from which a simple walk reaches ns3::Node and has not visited ns3::Icmpv4L4Protocol. */
  lemma Icmpv4RepeatsEntry(registry: Registry, roots: seq<TypeId>, k: nat, w: seq<nat>)
    requires var g := Graph(registry, TypicalAggregations());
      && k < |roots| && SimpleWalk(g, roots[k], w, [])
      && End(g, roots[k], w) == NODE && ICMPV4 !in Visits(g, roots[k], w)
    ensures !NoDuplicates(GatheredFrom(Graph(registry, TypicalAggregations()), roots))
  {
    var g := Graph(registry, TypicalAggregations());
    RepeatedAggregationRepeatsEntry(g, roots[k], w, 6, 8);
    SearchRepeatsInOutput(g, roots, k);
  }

  lemma {:induction false} SearchRepeatsInOutput(g: Graph, roots: seq<TypeId>, k: nat)
    requires k < |roots| && !NoDuplicates(Gathered(g, roots[k], [], []))
    ensures !NoDuplicates(GatheredFrom(g, roots))
  {
    var n := |roots| - 1;
    NoDuplicatesConcat(GatheredFrom(g, roots[..n]), Gathered(g, roots[n], [], []));
    if k == n {
    } else {
      SearchRepeatsInOutput(g, roots[..n], k);
    }
  }

  /** In particular when ns3::Node itself is gathered. */
  lemma Icmpv4RepeatsEntryOfNode(registry: Registry)
    ensures !NoDuplicates(Gathered(Graph(registry, TypicalAggregations()), NODE, [], []))
  {
    var g := Graph(registry, TypicalAggregations());
    assert NODE.name[5] != ICMPV4.name[5];
    assert Visits(g, NODE, []) == [NODE];
    RepeatedAggregationRepeatsEntry(g, NODE, [], 6, 8);
  }
}
