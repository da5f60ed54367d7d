/** The layout helpers of the graph view (services/ui/app/lib/graphLayout.ts):
    node sizes and sort weights chosen by the normalised node type, and the
    fallback edges drawn when a graph comes without edges of its own. The dagre
    layout itself is left out. */
module GraphLayout {
  import opened Common
  import opened UiText
  import opened GraphTypes

  datatype LayoutNode = LayoutNode(nodeId: string, nodeType: string, branch: Option<string>)

  datatype LayoutEdge = LayoutEdge(id: string, from: string, to: string, kind: Option<EdgeKind>)

  /** A node placed by the layout: top-left corner, width and height. */
  datatype PositionedNode = PositionedNode(nodeId: string, nodeType: string, branch: Option<string>,
                                           x: int, y: int, w: int, h: int)

  datatype Size = Size(w: int, h: int)

  /** The type names of the two tables differ pairwise where their lengths do
      not already tell them apart. */
  lemma TypeNamesDiffer()
    ensures "FORK" != "TASK" && "FORK" != "WAIT"
    ensures "JOIN" != "TASK" && "JOIN" != "WAIT" && "JOIN" != "FORK"
    ensures "SUCCESS" != "WAITING" && "FAILED" != "FORK"
  {
    assert "FORK"[0] != "TASK"[0] && "FORK"[0] != "WAIT"[0];
    assert "JOIN"[0] != "TASK"[0] && "JOIN"[0] != "WAIT"[0] && "JOIN"[0] != "FORK"[0];
    assert "SUCCESS"[0] != "WAITING"[0];
  }

  /** The size of a node whose normalised type is `n`: compact terminal-success
      boxes, tall wait boxes, a narrower join box, the default box otherwise. */
  function SizeOfType(n: string): (r: Size)
    ensures r == Size(180, 70) <==> n in ["START", "SUCCESS", "COMPLETED", "SUCCEEDED"]
    ensures r == Size(240, 150) <==> n in ["WAIT", "WAITING"]
    ensures r == Size(200, 120) <==> n == "JOIN"
    ensures r == Size(240, 120) <==> n !in ["START", "SUCCESS", "COMPLETED", "SUCCEEDED", "WAIT", "WAITING", "JOIN"]
  {
    TypeNamesDiffer();
    if n == "START" || n == "SUCCESS" || n == "COMPLETED" || n == "SUCCEEDED" then Size(180, 70)
    else if n == "WAIT" || n == "WAITING" then Size(240, 150)
    else if n == "JOIN" then Size(200, 120)
    else Size(240, 120)
  }

  /** `getNodeSize`. */
  function GetNodeSize(nodeType: string): Size {
    SizeOfType(NormalizeType(nodeType))
  }

  /** The fallback sort weight of normalised type `n`: start first, then tasks
      and waits, forks, unknown types, joins, and the terminal types last. */
  function WeightOfType(n: string): (w: int)
    ensures w == 10 <==> n == "START"
    ensures w == 20 <==> n in ["TASK", "WAIT", "WAITING"]
    ensures w == 30 <==> n == "FORK"
    ensures w == 40 <==> n == "JOIN"
    ensures w == 50 <==> n in ["SUCCESS", "SUCCEEDED", "COMPLETED", "FAILED", "CANCELED"]
    ensures w == 35 <==> n !in ["START", "TASK", "WAIT", "WAITING", "FORK", "JOIN",
                                "SUCCESS", "SUCCEEDED", "COMPLETED", "FAILED", "CANCELED"]
  {
    TypeNamesDiffer();
    if n == "START" then 10
    else if n == "TASK" || n == "WAIT" || n == "WAITING" then 20
    else if n == "FORK" then 30
    else if n == "JOIN" then 40
    else if n == "SUCCESS" || n == "SUCCEEDED" || n == "COMPLETED" || n == "FAILED" || n == "CANCELED" then 50
    else 35
  }

  /** `getFallbackSortWeight`. */
  function GetFallbackSortWeight(nodeType: string): int {
    WeightOfType(NormalizeType(nodeType))
  }

  /** Size and weight depend only on the normalised type. */
  lemma SizeAndWeightNormalized(t: string, u: string)
    requires NormalizeType(t) == NormalizeType(u)
    ensures GetNodeSize(t) == GetNodeSize(u)
    ensures GetFallbackSortWeight(t) == GetFallbackSortWeight(u)
    ensures GetNodeSize(NormalizeType(t)) == GetNodeSize(t)
    ensures GetFallbackSortWeight(NormalizeType(t)) == GetFallbackSortWeight(t)
  {
    NormalizeTypeIdempotent(t);
  }

  // ---------------------------------------------------------------------------
  // The stable sort by fallback weight

  /** Sorted by ascending `key`. */
  predicate SortedBy<T>(key: T -> int, s: seq<T>) {
    forall i, j :: 0 <= i < j < |s| ==> key(s[i]) <= key(s[j])
  }

  /** The elements whose key is `w`, in order. */
  function KeyClass<T>(key: T -> int, s: seq<T>, w: int): seq<T> {
    if s == [] then [] else (if key(s[0]) == w then [s[0]] else []) + KeyClass(key, s[1..], w)
  }

  /** A key class holds exactly the elements with that key. */
  lemma {:induction false} KeyClassMembers<T>(key: T -> int, s: seq<T>, w: int, x: T)
    ensures x in KeyClass(key, s, w) <==> x in s && key(x) == w
  {
    if s != [] {
      KeyClassMembers(key, s[1..], w, x);
      assert s == [s[0]] + s[1..];
    }
  }

  /** Puts `x` in front of the first element whose key is at least as large. */
  function InsertBy<T>(key: T -> int, x: T, s: seq<T>): (r: seq<T>)
    ensures |r| == |s| + 1
  {
    if s == [] || key(x) <= key(s[0]) then [x] + s
    else [s[0]] + InsertBy(key, x, s[1..])
  }

  /** Inserting adds `x` and keeps every other element. */
  lemma {:induction false} InsertByPermutes<T>(key: T -> int, x: T, s: seq<T>)
    ensures multiset(InsertBy(key, x, s)) == multiset(s) + multiset{x}
  {
    if !(s == [] || key(x) <= key(s[0])) {
      InsertByPermutes(key, x, s[1..]);
      assert s == [s[0]] + s[1..];
      assert multiset(s) == multiset{s[0]} + multiset(s[1..]);
    }
  }

  /** Inserting into a sorted sequence keeps it sorted. */
  lemma {:induction false} InsertBySorted<T>(key: T -> int, x: T, s: seq<T>)
    requires SortedBy(key, s)
    ensures SortedBy(key, InsertBy(key, x, s))
  {
    if s == [] || key(x) <= key(s[0]) {
      var r := [x] + s;
      assert r[1..] == s;
    } else {
      var t := InsertBy(key, x, s[1..]);
      InsertBySorted(key, x, s[1..]);
      InsertByPermutes(key, x, s[1..]);
      forall y | y in t ensures key(s[0]) <= key(y) {
        assert y in multiset(t);
        if y != x {
          assert y in multiset(s[1..]);
        }
      }
      InsertHeadSorted(key, s[0], t);
    }
  }

  /** A smallest element in front of a sorted sequence keeps it sorted. */
  lemma InsertHeadSorted<T>(key: T -> int, h: T, t: seq<T>)
    requires SortedBy(key, t)
    requires forall y :: y in t ==> key(h) <= key(y)
    ensures SortedBy(key, [h] + t)
  {
    var r := [h] + t;
    forall i, j | 0 <= i < j < |r| ensures key(r[i]) <= key(r[j]) {
      assert r[j] == t[j - 1];
      if i > 0 { assert r[i] == t[i - 1]; }
    }
  }

  /** A stable sort by `key`, as `Array.prototype.sort` is: a sorted
      permutation of the input. */
  function SortBy<T>(key: T -> int, s: seq<T>): (r: seq<T>)
    ensures SortedBy(key, r)
    ensures multiset(r) == multiset(s)
  {
    if s == [] then []
    else
      var t := SortBy(key, s[1..]);
      InsertBySorted(key, s[0], t);
      InsertByPermutes(key, s[0], t);
      assert s == [s[0]] + s[1..];
      InsertBy(key, s[0], t)
  }

  /** Inserting `x` adds it at the front of its key class and moves nothing
      else of that class. */
  lemma {:induction false} InsertKeyClass<T>(key: T -> int, x: T, s: seq<T>, w: int)
    requires SortedBy(key, s)
    ensures KeyClass(key, InsertBy(key, x, s), w) == (if key(x) == w then [x] else []) + KeyClass(key, s, w)
  {
    if s == [] || key(x) <= key(s[0]) {
      assert ([x] + s)[1..] == s;
    } else {
      InsertKeyClass(key, x, s[1..], w);
      InsertKeyClassLater(key, x, s, w);
    }
  }

  /** The step of `InsertKeyClass` where `x` goes past the first element. */
  lemma InsertKeyClassLater<T>(key: T -> int, x: T, s: seq<T>, w: int)
    requires SortedBy(key, s) && s != [] && key(s[0]) < key(x)
    requires KeyClass(key, InsertBy(key, x, s[1..]), w) == (if key(x) == w then [x] else []) + KeyClass(key, s[1..], w)
    ensures KeyClass(key, InsertBy(key, x, s), w) == (if key(x) == w then [x] else []) + KeyClass(key, s, w)
  {
    var t := InsertBy(key, x, s[1..]);
    var u := [s[0]] + t;
    assert InsertBy(key, x, s) == u;
    assert u[0] == s[0] && u[1..] == t;
    var rest := KeyClass(key, s[1..], w);
    if key(x) == w {
      assert KeyClass(key, u, w) == KeyClass(key, t, w);
      assert KeyClass(key, s, w) == rest;
    } else {
      var head := if key(s[0]) == w then [s[0]] else [];
      assert KeyClass(key, u, w) == head + KeyClass(key, t, w);
      assert KeyClass(key, t, w) == rest;
    }
  }

  /** The sort is stable: elements with equal keys keep their input order. */
  lemma {:induction false} SortStable<T>(key: T -> int, s: seq<T>, w: int)
    ensures KeyClass(key, SortBy(key, s), w) == KeyClass(key, s, w)
  {
    if s != [] {
      SortStable(key, s[1..], w);
      InsertKeyClass(key, s[0], SortBy(key, s[1..]), w);
    }
  }

  function Weight(n: LayoutNode): int {
    GetFallbackSortWeight(n.nodeType)
  }

  /** `[...nodes].sort(byFallbackWeight)`. */
  function SortByWeight(s: seq<LayoutNode>): (r: seq<LayoutNode>)
    ensures SortedBy(Weight, r)
    ensures multiset(r) == multiset(s)
    ensures forall w :: KeyClass(Weight, r, w) == KeyClass(Weight, s, w)
  {
    var r := SortBy(Weight, s);
    forall w ensures KeyClass(Weight, r, w) == KeyClass(Weight, s, w) {
      SortStable(Weight, s, w);
    }
    r
  }

  // ---------------------------------------------------------------------------
  // Fallback edges

  function FallbackId(a: string, b: string): string {
    "fallback-" + a + "-" + b
  }

  /** One normal edge between each pair of neighbours. */
  function ChainEdges(s: seq<LayoutNode>): (r: seq<LayoutEdge>)
    ensures |r| == if s == [] then 0 else |s| - 1
    ensures forall i :: 0 <= i < |r| ==> r[i].from == s[i].nodeId && r[i].to == s[i + 1].nodeId
    ensures forall i :: 0 <= i < |r| ==> r[i].kind == Some(Normal) && r[i].id == FallbackId(s[i].nodeId, s[i + 1].nodeId)
  {
    if |s| <= 1 then []
    else seq(|s| - 1, i requires 0 <= i < |s| - 1 =>
               LayoutEdge(FallbackId(s[i].nodeId, s[i + 1].nodeId), s[i].nodeId, s[i + 1].nodeId, Some(Normal)))
  }

  /** `normalizeType(n.nodeType) === ty`. */
  predicate HasType(n: LayoutNode, ty: string) {
    NormalizeType(n.nodeType) == ty
  }

  /** The index of the first node whose normalised type is `ty`, or -1. */
  function FirstOfType(s: seq<LayoutNode>, ty: string): (i: int)
    ensures -1 <= i < |s|
    ensures i >= 0 ==> HasType(s[i], ty)
    ensures forall j :: 0 <= j < |s| && (i < 0 || j < i) ==> !HasType(s[j], ty)
  {
    FirstOfTypeFrom(s, ty, 0)
  }

  /** The scan of `find` from index `k` on. */
  function FirstOfTypeFrom(s: seq<LayoutNode>, ty: string, k: nat): (i: int)
    requires k <= |s|
    requires forall j :: 0 <= j < k ==> !HasType(s[j], ty)
    ensures -1 <= i < |s|
    ensures i >= 0 ==> HasType(s[i], ty)
    ensures forall j :: 0 <= j < |s| && (i < 0 || j < i) ==> !HasType(s[j], ty)
    decreases |s| - k
  {
    if k == |s| then -1
    else if HasType(s[k], ty) then k
    else FirstOfTypeFrom(s, ty, k + 1)
  }

  /** The nodes whose id is not `id`, in order. */
  function OtherThan(s: seq<LayoutNode>, id: string): seq<LayoutNode> {
    if s == [] then [] else (if s[0].nodeId != id then [s[0]] else []) + OtherThan(s[1..], id)
  }

  /** The filter keeps exactly the nodes of another id. */
  lemma {:induction false} OtherThanMembers(s: seq<LayoutNode>, id: string, x: LayoutNode)
    ensures x in OtherThan(s, id) <==> x in s && x.nodeId != id
  {
    if s != [] {
      OtherThanMembers(s[1..], id, x);
      assert s == [s[0]] + s[1..];
    }
  }

  /** The filter distributes over concatenation, so it keeps the input order:
      the nodes it keeps from a prefix come first. */
  lemma {:induction false} OtherThanAppend(a: seq<LayoutNode>, b: seq<LayoutNode>, id: string)
    ensures OtherThan(a + b, id) == OtherThan(a, id) + OtherThan(b, id)
  {
    if a == [] {
      assert a + b == b;
      assert [] + OtherThan(b, id) == OtherThan(b, id);
    } else {
      var ab := a + b;
      var head := if a[0].nodeId != id then [a[0]] else [];
      var x := OtherThan(a[1..], id);
      var y := OtherThan(b, id);
      assert ab[1..] == a[1..] + b && ab[0] == a[0];
      OtherThanAppend(a[1..], b, id);
      assert OtherThan(ab, id) == head + (x + y);
      assert OtherThan(a, id) == head + x;
      AppendAssoc(head, x, y);
    }
  }

  lemma AppendAssoc<T>(x: seq<T>, y: seq<T>, z: seq<T>)
    ensures x + (y + z) == (x + y) + z
  {
  }

  function ForkEdgeTo(fork: string, b: string): LayoutEdge {
    LayoutEdge("fallback-fork-" + fork + "-" + b, fork, b, Some(ForkEdge))
  }

  function JoinEdgeFrom(b: string, join: string): LayoutEdge {
    LayoutEdge("fallback-join-" + b + "-" + join, b, join, Some(JoinEdge))
  }

  /** The fork and join edges added after the chain, given the ids of the
      first FORK and first JOIN node: none without a FORK node or without two
      nodes of another id; otherwise fork edges to the first two such nodes,
      and join edges from them when a JOIN node exists. */
  function BranchEdges(sorted: seq<LayoutNode>, fork: Option<string>, join: Option<string>): (x: seq<LayoutEdge>)
    ensures fork.None? || |OtherThan(sorted, fork.value)| < 2 ==> x == []
    ensures fork.Some? && |OtherThan(sorted, fork.value)| >= 2 ==>
              var b := OtherThan(sorted, fork.value);
              && |x| == (if join.Some? then 4 else 2)
              && x[0] == ForkEdgeTo(fork.value, b[0].nodeId) && x[1] == ForkEdgeTo(fork.value, b[1].nodeId)
              && (join.Some? ==> x[2] == JoinEdgeFrom(b[0].nodeId, join.value)
                                 && x[3] == JoinEdgeFrom(b[1].nodeId, join.value))
  {
    if fork.None? then []
    else
      var b := OtherThan(sorted, fork.value);
      if |b| < 2 then []
      else
        var forkEdges := [ForkEdgeTo(fork.value, b[0].nodeId), ForkEdgeTo(fork.value, b[1].nodeId)];
        if join.None? then forkEdges
        else forkEdges + [JoinEdgeFrom(b[0].nodeId, join.value), JoinEdgeFrom(b[1].nodeId, join.value)]
  }

  /** The id of the first node of normalised type `ty`. */
  function FirstIdOfType(sorted: seq<LayoutNode>, ty: string): (r: Option<string>)
    ensures r.Some? <==> exists i :: 0 <= i < |sorted| && HasType(sorted[i], ty)
    ensures r.Some? ==> r.value == sorted[FirstOfType(sorted, ty)].nodeId
  {
    var i := FirstOfType(sorted, ty);
    if i < 0 then None else Some(sorted[i].nodeId)
  }

  /** `buildFallbackEdges`: the chain through the weight-sorted nodes, followed
      by the branch edges of the first FORK and JOIN nodes in that order. There
      is one chain edge fewer than nodes and at most four branch edges, and
      without a FORK node among the inputs there are no branch edges. */
  function BuildFallbackEdges(nodes: seq<LayoutNode>): (r: seq<LayoutEdge>)
    ensures |nodes| - 1 <= |r| <= |nodes| + 3
    ensures (forall j :: 0 <= j < |nodes| ==> !HasType(nodes[j], "FORK")) ==>
              |r| == (if nodes == [] then 0 else |nodes| - 1)
  {
    var sorted := SortByWeight(nodes);
    assert |multiset(sorted)| == |multiset(nodes)|;
    NoForkSorted(nodes);
    ChainEdges(sorted) + BranchEdges(sorted, FirstIdOfType(sorted, "FORK"), FirstIdOfType(sorted, "JOIN"))
  }

  /** A FORK node among the sorted nodes is one of the inputs. */
  lemma NoForkSorted(nodes: seq<LayoutNode>)
    ensures (forall j :: 0 <= j < |nodes| ==> !HasType(nodes[j], "FORK")) ==>
              FirstIdOfType(SortByWeight(nodes), "FORK").None?
  {
    var sorted := SortByWeight(nodes);
    if i :| 0 <= i < |sorted| && HasType(sorted[i], "FORK") {
      assert sorted[i] in multiset(sorted);
      assert sorted[i] in nodes;
    }
  }

  /** The first edges chain the nodes in weight order: edge `i` is a normal
      edge from the `i`-th to the next sorted node, which weighs at least as
      much. */
  lemma ChainFollowsWeight(nodes: seq<LayoutNode>, i: int)
    requires 0 <= i < |nodes| - 1
    ensures var sorted := SortByWeight(nodes);
            var r := BuildFallbackEdges(nodes);
            && |sorted| == |nodes| && i < |r| && r[i].kind == Some(Normal)
            && r[i].from == sorted[i].nodeId && r[i].to == sorted[i + 1].nodeId
            && Weight(sorted[i]) <= Weight(sorted[i + 1])
  {
    SortedLength(nodes);
    FallbackStartsWithChain(nodes, i);
    SortedNeighbours(SortByWeight(nodes), i);
  }

  /** After the chain come the branch edges: with a FORK node and at least two
      nodes of another id, two fork edges from the first FORK node (in weight
      order) to the first two other nodes, then, when a JOIN node exists, join
      edges from those two to the first JOIN node; otherwise nothing. */
  lemma FallbackBranches(nodes: seq<LayoutNode>)
    ensures var sorted := SortByWeight(nodes);
            var fork := FirstIdOfType(sorted, "FORK");
            var join := FirstIdOfType(sorted, "JOIN");
            var r := BuildFallbackEdges(nodes);
            && (fork.None? || |OtherThan(sorted, fork.value)| < 2 ==> |r| == (if nodes == [] then 0 else |nodes| - 1))
            && (fork.Some? && |OtherThan(sorted, fork.value)| >= 2 ==>
                  var b := OtherThan(sorted, fork.value);
                  var n := |nodes| - 1;
                  && |r| == n + (if join.Some? then 4 else 2)
                  && r[n] == ForkEdgeTo(fork.value, b[0].nodeId) && r[n + 1] == ForkEdgeTo(fork.value, b[1].nodeId)
                  && (join.Some? ==> r[n + 2] == JoinEdgeFrom(b[0].nodeId, join.value)
                                     && r[n + 3] == JoinEdgeFrom(b[1].nodeId, join.value)))
  {
    var sorted := SortByWeight(nodes);
    SortedLength(nodes);
    var fork := FirstIdOfType(sorted, "FORK");
    var join := FirstIdOfType(sorted, "JOIN");
    var chain := ChainEdges(sorted);
    var branch := BranchEdges(sorted, fork, join);
    assert BuildFallbackEdges(nodes) == chain + branch;
  }

  lemma SortedNeighbours(sorted: seq<LayoutNode>, i: int)
    requires SortedBy(Weight, sorted) && 0 <= i < |sorted| - 1
    ensures Weight(sorted[i]) <= Weight(sorted[i + 1])
  {
    var f: LayoutNode -> int := Weight;
    assert f(sorted[i]) <= f(sorted[i + 1]);
  }

  lemma SortedLength(nodes: seq<LayoutNode>)
    ensures |SortByWeight(nodes)| == |nodes|
  {
    assert |multiset(SortByWeight(nodes))| == |multiset(nodes)|;
  }

  /** The fallback edges start with the chain edges. */
  lemma FallbackStartsWithChain(nodes: seq<LayoutNode>, i: int)
    requires 0 <= i < |SortByWeight(nodes)| - 1
    ensures i < |BuildFallbackEdges(nodes)|
    ensures BuildFallbackEdges(nodes)[i] == ChainEdges(SortByWeight(nodes))[i]
  {
    var sorted := SortByWeight(nodes);
    var chain := ChainEdges(sorted);
    assert BuildFallbackEdges(nodes) == chain + BranchEdges(sorted, FirstIdOfType(sorted, "FORK"), FirstIdOfType(sorted, "JOIN"));
  }

  /** Some input node has this id. */
  predicate IsNodeId(nodes: seq<LayoutNode>, id: string) {
    exists i :: 0 <= i < |nodes| && nodes[i].nodeId == id
  }

  /** Sorting invents no ids. */
  lemma SortedIsInput(nodes: seq<LayoutNode>, id: string)
    requires IsNodeId(SortByWeight(nodes), id)
    ensures IsNodeId(nodes, id)
  {
    var sorted := SortByWeight(nodes);
    var j :| 0 <= j < |sorted| && sorted[j].nodeId == id;
    assert sorted[j] in multiset(sorted);
    assert sorted[j] in nodes;
    var i :| 0 <= i < |nodes| && nodes[i] == sorted[j];
  }

  /** Every fallback edge joins two input nodes: the edges invent no ids. */
  lemma FallbackEndpoints(nodes: seq<LayoutNode>, k: int)
    requires 0 <= k < |BuildFallbackEdges(nodes)|
    ensures IsNodeId(nodes, BuildFallbackEdges(nodes)[k].from)
    ensures IsNodeId(nodes, BuildFallbackEdges(nodes)[k].to)
  {
    var sorted := SortByWeight(nodes);
    var fork := FirstIdOfType(sorted, "FORK");
    var join := FirstIdOfType(sorted, "JOIN");
    FirstIdIsNodeId(sorted, "FORK");
    FirstIdIsNodeId(sorted, "JOIN");
    EdgeEndpoints(sorted, fork, join, k);
    var e := BuildFallbackEdges(nodes)[k];
    SortedIsInput(nodes, e.from);
    SortedIsInput(nodes, e.to);
  }

  lemma FirstIdIsNodeId(sorted: seq<LayoutNode>, ty: string)
    ensures FirstIdOfType(sorted, ty).Some? ==> IsNodeId(sorted, FirstIdOfType(sorted, ty).value)
  {
  }

  /** The chain and branch edges over `sorted` join nodes of `sorted`. */
  lemma EdgeEndpoints(sorted: seq<LayoutNode>, fork: Option<string>, join: Option<string>, k: int)
    requires fork.Some? ==> IsNodeId(sorted, fork.value)
    requires join.Some? ==> IsNodeId(sorted, join.value)
    requires 0 <= k < |ChainEdges(sorted) + BranchEdges(sorted, fork, join)|
    ensures IsNodeId(sorted, (ChainEdges(sorted) + BranchEdges(sorted, fork, join))[k].from)
    ensures IsNodeId(sorted, (ChainEdges(sorted) + BranchEdges(sorted, fork, join))[k].to)
  {
    var chain := ChainEdges(sorted);
    var r := chain + BranchEdges(sorted, fork, join);
    if k < |chain| {
      assert r[k] == chain[k];
      assert sorted[k].nodeId == r[k].from && sorted[k + 1].nodeId == r[k].to;
    } else {
      assert r[k] == BranchEdges(sorted, fork, join)[k - |chain|];
      BranchEndpoints(sorted, fork, join, k - |chain|);
    }
  }

  lemma BranchEndpoints(sorted: seq<LayoutNode>, fork: Option<string>, join: Option<string>, k: int)
    requires fork.Some? ==> IsNodeId(sorted, fork.value)
    requires join.Some? ==> IsNodeId(sorted, join.value)
    requires 0 <= k < |BranchEdges(sorted, fork, join)|
    ensures IsNodeId(sorted, BranchEdges(sorted, fork, join)[k].from)
    ensures IsNodeId(sorted, BranchEdges(sorted, fork, join)[k].to)
  {
    var b := OtherThan(sorted, fork.value);
    OtherThanMembers(sorted, fork.value, b[0]);
    OtherThanMembers(sorted, fork.value, b[1]);
    var i0 :| 0 <= i0 < |sorted| && sorted[i0] == b[0];
    var i1 :| 0 <= i1 < |sorted| && sorted[i1] == b[1];
    assert IsNodeId(sorted, b[0].nodeId) && IsNodeId(sorted, b[1].nodeId);
    var x := BranchEdges(sorted, fork, join);
    if k == 0 {
      assert x[0] == ForkEdgeTo(fork.value, b[0].nodeId);
    } else if k == 1 {
      assert x[1] == ForkEdgeTo(fork.value, b[1].nodeId);
    } else if k == 2 {
      assert join.Some? && x[2] == JoinEdgeFrom(b[0].nodeId, join.value);
    } else {
      assert join.Some? && x[3] == JoinEdgeFrom(b[1].nodeId, join.value);
    }
  }
}
