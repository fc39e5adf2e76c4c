/**
 * The layered layout of the dependency graph a running program emits
 * (components/GraphVisualizer.tsx).
 *
 * An edge `from -> to` means "`from` depends on `to`". The layout is Kahn's
 * topological layering run on the reversed relation: a node's in-degree is
 * the number of its own dependencies, so the nodes with no dependency form
 * column 0, and a node joins the next column when the last of its
 * dependencies has been placed. Nodes that never get there (cycles,
 * self-edges, anything depending on them) are stacked in one extra column.
 */
module GraphLayout {
  import opened Wrappers
  import Text

  datatype GraphNode = GraphNode(id: string, scope: string, isProtocol: bool)
  datatype GraphEdge = GraphEdge(from: string, to: string)

  /** A decoded graph payload; either list may be missing from the decoded object. */
  datatype GraphData = GraphData(nodes: Option<seq<GraphNode>>, edges: Option<seq<GraphEdge>>)

  datatype NodeKind = Protocol | Component
  datatype Position = Position(x: int, y: int)

  /** A node as handed to the renderer: its id, kind, position and label data. */
  datatype PositionedNode = PositionedNode(id: string, kind: NodeKind, position: Position, labelText: string, scope: string)

  /** An edge as handed to the renderer. */
  datatype RenderedEdge = RenderedEdge(id: string, source: string, target: string)

  const XOffset: int := 350
  const YOffset: int := 150

  // ---------------------------------------------------------------------------
  // Identifiers
  // ---------------------------------------------------------------------------

  function Ids(nodes: seq<GraphNode>): (r: seq<string>)
    ensures |r| == |nodes|
    ensures forall i :: 0 <= i < |nodes| ==> r[i] == nodes[i].id
  {
    seq(|nodes|, i requires 0 <= i < |nodes| => nodes[i].id)
  }

  predicate Distinct(s: seq<string>)
  {
    forall i, j :: 0 <= i < j < |s| ==> s[i] != s[j]
  }

  /** The payload's promise that node ids are unique. */
  predicate UniqueIds(nodes: seq<GraphNode>)
  {
    Distinct(Ids(nodes))
  }

  /** Every edge names existing nodes at both ends. */
  predicate EndpointsKnown(nodes: seq<GraphNode>, edges: seq<GraphEdge>)
  {
    forall e :: e in edges ==> e.from in Ids(nodes) && e.to in Ids(nodes)
  }

  /** The first node carrying `id`, as `Array.prototype.find` returns it. */
  function FindNode(nodes: seq<GraphNode>, id: string): (r: Option<GraphNode>)
    ensures r.Some? ==> r.value in nodes && r.value.id == id
    ensures r.None? <==> id !in Ids(nodes)
  {
    if nodes == [] then None
    else if nodes[0].id == id then Some(nodes[0])
    else
      var r := FindNode(nodes[1..], id);
      assert Ids(nodes) == [nodes[0].id] + Ids(nodes[1..]);
      r
  }

  /** `find` returns the first node carrying the id. */
  lemma {:induction false} FindNodeFirst(nodes: seq<GraphNode>, id: string)
    ensures forall i :: 0 <= i < |nodes| && nodes[i].id == id && (forall j :: 0 <= j < i ==> nodes[j].id != id) ==>
      FindNode(nodes, id) == Some(nodes[i])
  {
    if nodes != [] && nodes[0].id != id {
      FindNodeFirst(nodes[1..], id);
      forall i | 0 <= i < |nodes| && nodes[i].id == id && (forall j :: 0 <= j < i ==> nodes[j].id != id)
        ensures FindNode(nodes, id) == Some(nodes[i])
      {
        assert i > 0 && nodes[1..][i - 1] == nodes[i];
        assert forall j :: 0 <= j < i - 1 ==> nodes[1..][j] == nodes[j + 1];
      }
    }
  }

  // ---------------------------------------------------------------------------
  // What the edge pass computes
  // ---------------------------------------------------------------------------

  /** Occurrences of `x` in `s`. */
  function Count(s: seq<string>, x: string): nat
  {
    if s == [] then 0 else Count(s[..|s| - 1], x) + (if s[|s| - 1] == x then 1 else 0)
  }

  /** The number of edges leaving `n`, i.e. how many dependencies `n` has. */
  function DependencyCount(edges: seq<GraphEdge>, n: string): nat
  {
    if edges == [] then 0
    else DependencyCount(edges[..|edges| - 1], n) + (if edges[|edges| - 1].from == n then 1 else 0)
  }

  /** The `from` end of every edge into `t`, in edge order: the nodes that wait on `t`. */
  function Dependents(edges: seq<GraphEdge>, t: string): (r: seq<string>)
    ensures forall x :: x in r ==> exists e :: e in edges && e.to == t && e.from == x
  {
    if edges == [] then []
    else
      var e := edges[|edges| - 1];
      var r := Dependents(edges[..|edges| - 1], t) + (if e.to == t then [e.from] else []);
      assert forall x :: x in r ==> x in Dependents(edges[..|edges| - 1], t) || (e.to == t && x == e.from);
      r
  }

  /** The dependencies of `n` that are not yet in `done`. */
  function Remaining(edges: seq<GraphEdge>, n: string, done: set<string>): nat
  {
    if edges == [] then 0
    else
      var e := edges[|edges| - 1];
      Remaining(edges[..|edges| - 1], n, done) + (if e.from == n && e.to !in done then 1 else 0)
  }

  lemma {:induction false} CountAppend(a: seq<string>, b: seq<string>, x: string)
    ensures Count(a + b, x) == Count(a, x) + Count(b, x)
  {
    if b != [] {
      assert (a + b)[..|a + b| - 1] == a + b[..|b| - 1];
      CountAppend(a, b[..|b| - 1], x);
    } else {
      assert a + b == a;
    }
  }

  lemma {:induction false} CountPositive(s: seq<string>, x: string)
    requires x in s
    ensures Count(s, x) > 0
  {
    if s[|s| - 1] != x {
      CountPositive(s[..|s| - 1], x);
    }
  }

  /** With nothing done yet, the remaining dependencies of `n` are all of them. */
  lemma {:induction false} RemainingNone(edges: seq<GraphEdge>, n: string)
    ensures Remaining(edges, n, {}) == DependencyCount(edges, n)
  {
    if edges != [] {
      RemainingNone(edges[..|edges| - 1], n);
    }
  }

  /** Finishing `t` takes away from `n` exactly one dependency per edge `n -> t`. */
  lemma {:induction false} RemainingStep(edges: seq<GraphEdge>, n: string, done: set<string>, t: string)
    requires t !in done
    ensures Remaining(edges, n, done) == Remaining(edges, n, done + {t}) + Count(Dependents(edges, t), n)
  {
    if edges != [] {
      var init := edges[..|edges| - 1];
      var e := edges[|edges| - 1];
      RemainingStep(init, n, done, t);
      CountAppend(Dependents(init, t), if e.to == t then [e.from] else [], n);
      assert Count([e.from], n) == Count([], n) + (if e.from == n then 1 else 0);
    }
  }

  /** No dependency of `n` remains exactly when every edge out of `n` ends in `done`. */
  lemma {:induction false} RemainingZero(edges: seq<GraphEdge>, n: string, done: set<string>)
    ensures Remaining(edges, n, done) == 0 <==> forall e :: e in edges && e.from == n ==> e.to in done
  {
    if edges != [] {
      var init := edges[..|edges| - 1];
      RemainingZero(init, n, done);
      assert forall e :: e in edges ==> e in init || e == edges[|edges| - 1];
      assert forall e :: e in init ==> e in edges;
    }
  }

  /**
   * The entries of `deps[..j]` that are released once `done` is finished:
   * those left with no dependency outside `done`, each taken at its last
   * occurrence in `deps`, in order.
   */
  function Freed(edges: seq<GraphEdge>, deps: seq<string>, j: nat, done: set<string>): seq<string>
    requires j <= |deps|
  {
    if j == 0 then []
    else
      var n := deps[j - 1];
      Freed(edges, deps, j - 1, done) + (if n !in deps[j..] && Remaining(edges, n, done) == 0 then [n] else [])
  }

  /** The ids of a sequence, as a set. */
  function IdSet(s: seq<string>): set<string>
  {
    if s == [] then {} else IdSet(s[..|s| - 1]) + {s[|s| - 1]}
  }

  lemma {:induction false} IdSetMembers(s: seq<string>)
    ensures forall x :: x in IdSet(s) <==> x in s
  {
    if s != [] {
      IdSetMembers(s[..|s| - 1]);
      assert s == s[..|s| - 1] + [s[|s| - 1]];
    }
  }

  /**
   * The column that `current` releases when its nodes are finished one by
   * one after `done`: what each node frees among the nodes waiting on it,
   * node after node, in release order.
   */
  function Released(edges: seq<GraphEdge>, current: seq<string>, done: set<string>): seq<string>
  {
    if current == [] then []
    else
      var init := current[..|current| - 1];
      var t := current[|current| - 1];
      var deps := Dependents(edges, t);
      Released(edges, init, done) + Freed(edges, deps, |deps|, done + IdSet(init) + {t})
  }

  // ---------------------------------------------------------------------------
  // The layering the loop produces
  // ---------------------------------------------------------------------------

  /**
   * `lay` assigns columns that respect every dependency: a placed node's
   * dependencies are all placed, in columns strictly to its left, and a node
   * in column L > 0 has a dependency in column L - 1 (it was released by it).
   */
  ghost predicate Layered(edges: seq<GraphEdge>, lay: map<string, nat>)
  {
    && (forall e :: e in edges && e.from in lay ==> e.to in lay && lay[e.to] < lay[e.from])
    && (forall n {:trigger ReleasedFromLeft(edges, lay, n)} :: n in lay && lay[n] > 0 ==> ReleasedFromLeft(edges, lay, n))
  }

  /** `n` has a dependency in the column just left of its own. */
  ghost predicate ReleasedFromLeft(edges: seq<GraphEdge>, lay: map<string, nat>, n: string)
  {
    n in lay && exists e :: e in edges && e.from == n && e.to in lay && lay[e.to] + 1 == lay[n]
  }

  /** Every node the layering leaves out waits on another node that is left out (a cycle or a node behind one). */
  ghost predicate Blocked(nodes: seq<GraphNode>, edges: seq<GraphEdge>, lay: map<string, nat>)
  {
    forall n :: n in Ids(nodes) && n !in lay ==> exists e :: e in edges && e.from == n && e.to !in lay
  }

  /** The nodes with no dependency, in listing order: the first column. */
  function ZeroLayer(nodes: seq<GraphNode>, edges: seq<GraphEdge>): (r: seq<string>)
    ensures forall n :: n in r <==> n in Ids(nodes) && DependencyCount(edges, n) == 0
  {
    if nodes == [] then []
    else
      var init := nodes[..|nodes| - 1];
      var n := nodes[|nodes| - 1];
      assert Ids(nodes) == Ids(init) + [n.id];
      ZeroLayer(init, edges) + (if DependencyCount(edges, n.id) == 0 then [n.id] else [])
  }

  function Flatten(layers: seq<seq<string>>): seq<string>
  {
    if layers == [] then [] else Flatten(layers[..|layers| - 1]) + layers[|layers| - 1]
  }

  // ---------------------------------------------------------------------------
  // Positions
  // ---------------------------------------------------------------------------

  function KindOf(node: GraphNode): NodeKind
  {
    if node.isProtocol then Protocol else Component
  }

  /** A node at `(x, y)`, labelled with its id and keeping its scope. */
  function Place(node: GraphNode, x: int, y: int): PositionedNode
  {
    PositionedNode(node.id, KindOf(node), Position(x, y), node.id, node.scope)
  }

  /** The vertical offset of the `i`-th of `k` nodes in a column, centring the column on 0. */
  function LayerY(i: int, k: int): int
  {
    i * YOffset - (k * YOffset) / 2 + YOffset / 2
  }

  /**
   * The `i`-th node of a column of `k` sits at `150 * i - 75 * k + 75`: the
   * column is mirrored around 0 and its nodes are 150 apart, so no two share
   * a height.
   */
  lemma LayerYCentred(i: int, j: int, k: int)
    ensures LayerY(i, k) == 150 * i - 75 * k + 75
    ensures LayerY(i, k) + LayerY(k - 1 - i, k) == 0
    ensures LayerY(j, k) - LayerY(i, k) == YOffset * (j - i)
    ensures LayerY(i, k) == LayerY(j, k) <==> i == j
  {
    assert (k * YOffset) / 2 == 75 * k;
  }

  /** The height of a column of `k` nodes is `150 * k`; the offset written with it is `LayerY`. */
  lemma LayerYOfHeight(i: int, k: int, layerHeight: int)
    requires layerHeight == k * YOffset
    ensures i * YOffset - layerHeight / 2 + YOffset / 2 == LayerY(i, k)
  {
  }

  /** The nodes of `row` in column `layer`, a column of `k` nodes; an id with no node is skipped. */
  function PlaceRow(nodes: seq<GraphNode>, row: seq<string>, k: int, layer: nat): seq<PositionedNode>
  {
    if row == [] then []
    else PlaceRow(nodes, row[..|row| - 1], k, layer) + RowEntry(nodes, row[|row| - 1], layer * XOffset, LayerY(|row| - 1, k))
  }

  /** The node carrying `id` placed at `(x, y)`, or nothing when no node carries it. */
  function RowEntry(nodes: seq<GraphNode>, id: string, x: int, y: int): seq<PositionedNode>
  {
    match FindNode(nodes, id)
    case Some(node) => [Place(node, x, y)]
    case None => []
  }

  /** All columns placed one after the other. */
  function Placement(nodes: seq<GraphNode>, layers: seq<seq<string>>): seq<PositionedNode>
  {
    if layers == [] then []
    else
      var last := layers[|layers| - 1];
      Placement(nodes, layers[..|layers| - 1]) + PlaceRow(nodes, last, |last|, |layers| - 1)
  }

  /** The ids of positioned nodes, in order: `Ids` for the layout's output type. */
  function PlacedIds(placed: seq<PositionedNode>): (r: seq<string>)
    ensures |r| == |placed|
    ensures forall i :: 0 <= i < |placed| ==> r[i] == placed[i].id
  {
    seq(|placed|, i requires 0 <= i < |placed| => placed[i].id)
  }

  /**
   * The fallback pass: each node of `pending`, in order, that is not yet
   * among `placed` is appended in column `x`, at height 150 times the
   * number of nodes positioned before it.
   */
  function FallbackPass(placed: seq<PositionedNode>, pending: seq<GraphNode>, x: int): seq<PositionedNode>
  {
    if pending == [] then placed
    else
      var p := FallbackPass(placed, pending[..|pending| - 1], x);
      var node := pending[|pending| - 1];
      if node.id in PlacedIds(p) then p else p + [Place(node, x, |p| * YOffset)]
  }

  ghost function WithLayer(lay: map<string, nat>, ns: seq<string>, layer: nat): (r: map<string, nat>)
    ensures forall n :: n in r <==> n in lay || n in ns
    ensures forall n :: n in ns ==> r[n] == layer
    ensures forall n :: n in lay && n !in ns ==> r[n] == lay[n]
  {
    lay + map n | n in ns :: layer
  }

  /** The ids of the columns before column `l`. */
  function Finished(layers: seq<seq<string>>, l: nat): set<string>
    requires l <= |layers|
  {
    IdSet(Flatten(layers[..l]))
  }

  /** The column after column `l`: the next finished one, or `current` after the last. */
  function ColumnAfter(layers: seq<seq<string>>, current: seq<string>, l: nat): seq<string>
    requires l < |layers|
  {
    if l + 1 < |layers| then layers[l + 1] else current
  }

  /** Each column is followed by exactly what it releases, in release order, once the columns before it are finished. */
  ghost predicate ReleaseOrdered(edges: seq<GraphEdge>, layers: seq<seq<string>>, current: seq<string>)
  {
    forall l {:trigger ColumnAfter(layers, current, l)} ::
      0 <= l < |layers| ==> ColumnAfter(layers, current, l) == Released(edges, layers[l], Finished(layers, l))
  }

  /**
   * What the layering loop leaves behind: `layers` are the columns in the
   * order they were peeled off, the first one being exactly the nodes with no
   * dependency in listing order, none empty, no node twice; `layerOf` gives
   * each layered node its column and respects every dependency, and every
   * node left out is blocked by another node left out. Each column after
   * the first is exactly what the column before it releases, in release order.
   */
  ghost predicate LayeringOf(nodes: seq<GraphNode>, edges: seq<GraphEdge>, layers: seq<seq<string>>, layerOf: map<string, nat>)
  {
    && (if ZeroLayer(nodes, edges) == [] then layers == [] else |layers| > 0 && layers[0] == ZeroLayer(nodes, edges))
    && (forall l :: 0 <= l < |layers| ==> layers[l] != [])
    && Distinct(Flatten(layers))
    && (forall n :: n in layerOf <==> n in Flatten(layers))
    && (forall n :: n in layerOf ==> n in Ids(nodes))
    && (forall l, k :: 0 <= l < |layers| && 0 <= k < |layers[l]| ==> layers[l][k] in layerOf && layerOf[layers[l][k]] == l)
    && Layered(edges, layerOf)
    && Blocked(nodes, edges, layerOf)
    && ReleaseOrdered(edges, layers, [])
  }

  // ---------------------------------------------------------------------------
  // Facts about the layering
  // ---------------------------------------------------------------------------

  lemma {:induction false} ZeroLayerDistinct(nodes: seq<GraphNode>, edges: seq<GraphEdge>)
    requires UniqueIds(nodes)
    ensures Distinct(ZeroLayer(nodes, edges))
  {
    if nodes != [] {
      var init := nodes[..|nodes| - 1];
      assert Ids(nodes) == Ids(init) + [nodes[|nodes| - 1].id];
      assert forall i :: 0 <= i < |init| ==> Ids(init)[i] == Ids(nodes)[i];
      ZeroLayerDistinct(init, edges);
    }
  }

  /** Unfolding aid: one more column adds its ids at the end of the flattened columns. */
  lemma FlattenSnoc(layers: seq<seq<string>>, row: seq<string>)
    ensures Flatten(layers + [row]) == Flatten(layers) + row
  {
    assert (layers + [row])[..|layers|] == layers;
  }

  // ---------------------------------------------------------------------------
  // Facts about the placement
  // ---------------------------------------------------------------------------

  /** Every id of every column names a node. */
  predicate LayersKnown(nodes: seq<GraphNode>, layers: seq<seq<string>>)
  {
    forall l, k :: 0 <= l < |layers| && 0 <= k < |layers[l]| ==> layers[l][k] in Ids(nodes)
  }

  /** A listed id contributes exactly one entry to its row: its node, placed at the given point. */
  lemma RowEntryFound(nodes: seq<GraphNode>, id: string, x: int, y: int)
    requires id in Ids(nodes)
    ensures FindNode(nodes, id).Some?
    ensures RowEntry(nodes, id, x, y) == [Place(FindNode(nodes, id).value, x, y)]
    ensures FindNode(nodes, id).value.id == id
  {
  }

  lemma {:induction false} PlaceRowAt(nodes: seq<GraphNode>, row: seq<string>, k: int, layer: nat)
    requires forall m :: 0 <= m < |row| ==> row[m] in Ids(nodes)
    ensures |PlaceRow(nodes, row, k, layer)| == |row|
    ensures forall m :: 0 <= m < |row| ==>
      FindNode(nodes, row[m]).Some? &&
      PlaceRow(nodes, row, k, layer)[m] == Place(FindNode(nodes, row[m]).value, layer * XOffset, LayerY(m, k))
  {
    if row != [] {
      var init := row[..|row| - 1];
      var last := row[|row| - 1];
      PlaceRowAt(nodes, init, k, layer);
      RowEntryFound(nodes, last, layer * XOffset, LayerY(|row| - 1, k));
      var p0 := PlaceRow(nodes, init, k, layer);
      var r := PlaceRow(nodes, row, k, layer);
      assert r == p0 + [Place(FindNode(nodes, last).value, layer * XOffset, LayerY(|row| - 1, k))];
      forall m | 0 <= m < |row|
        ensures FindNode(nodes, row[m]).Some? && r[m] == Place(FindNode(nodes, row[m]).value, layer * XOffset, LayerY(m, k))
      {
        if m < |init| {
          assert row[m] == init[m] && r[m] == p0[m];
        } else {
          assert m == |row| - 1 && row[m] == last;
          assert r[m] == Place(FindNode(nodes, last).value, layer * XOffset, LayerY(|row| - 1, k));
        }
      }
    }
  }

  /** Unfolding aid: the ids of two placed lists, one after the other. */
  lemma PlacedIdsAppend(a: seq<PositionedNode>, b: seq<PositionedNode>)
    ensures PlacedIds(a + b) == PlacedIds(a) + PlacedIds(b)
  {
  }


  lemma {:induction false} PlacementSnoc(nodes: seq<GraphNode>, layers: seq<seq<string>>)
    requires layers != []
    requires LayersKnown(nodes, layers)
    ensures LayersKnown(nodes, layers[..|layers| - 1])
    ensures var last := layers[|layers| - 1];
      Placement(nodes, layers) == Placement(nodes, layers[..|layers| - 1]) + PlaceRow(nodes, last, |last|, |layers| - 1)
    ensures var last := layers[|layers| - 1];
      Flatten(layers) == Flatten(layers[..|layers| - 1]) + last
    ensures var last := layers[|layers| - 1];
      |PlaceRow(nodes, last, |last|, |layers| - 1)| == |last| &&
      forall m :: 0 <= m < |last| ==>
        FindNode(nodes, last[m]).Some? &&
        PlaceRow(nodes, last, |last|, |layers| - 1)[m] == Place(FindNode(nodes, last[m]).value, (|layers| - 1) * XOffset, LayerY(m, |last|))
  {
    var init := layers[..|layers| - 1];
    assert forall l :: 0 <= l < |init| ==> init[l] == layers[l];
    var last := layers[|layers| - 1];
    assert forall m :: 0 <= m < |last| ==> last[m] == layers[|layers| - 1][m];
    PlaceRowAt(nodes, last, |last|, |layers| - 1);
  }

  /** The main pass places exactly the ids of the columns, column by column. */
  lemma {:induction false} PlacementIds(nodes: seq<GraphNode>, layers: seq<seq<string>>)
    requires LayersKnown(nodes, layers)
    ensures PlacedIds(Placement(nodes, layers)) == Flatten(layers)
  {
    if layers != [] {
      var init := layers[..|layers| - 1];
      var last := layers[|layers| - 1];
      assert LayersKnown(nodes, init) by {
        assert forall l :: 0 <= l < |init| ==> init[l] == layers[l];
      }
      assert forall m :: 0 <= m < |last| ==> last[m] in Ids(nodes) by {
        assert forall m :: 0 <= m < |last| ==> last[m] == layers[|layers| - 1][m];
      }
      PlacementIds(nodes, init);
      PlaceRowAt(nodes, last, |last|, |layers| - 1);
      var row := PlaceRow(nodes, last, |last|, |layers| - 1);
      assert PlacedIds(row) == last;
      PlacedIdsAppend(Placement(nodes, init), row);
    }
  }


  /** `p` is the listed node of its id, placed in the column `layerOf` gives that id. */
  ghost predicate InColumn(nodes: seq<GraphNode>, layerOf: map<string, nat>, p: PositionedNode)
  {
    && p.id in layerOf
    && p.position.x == layerOf[p.id] * XOffset
    && FindNode(nodes, p.id).Some?
    && p == Place(FindNode(nodes, p.id).value, p.position.x, p.position.y)
  }

  /** In the main pass every node is the listed node of its id, in the column the layering gives it. */
  lemma {:induction false} PlacementColumns(nodes: seq<GraphNode>, layers: seq<seq<string>>, layerOf: map<string, nat>)
    requires LayersKnown(nodes, layers)
    requires forall l, k :: 0 <= l < |layers| && 0 <= k < |layers[l]| ==> layers[l][k] in layerOf && layerOf[layers[l][k]] == l
    ensures forall k :: 0 <= k < |Placement(nodes, layers)| ==> InColumn(nodes, layerOf, Placement(nodes, layers)[k])
  {
    if layers != [] {
      var init := layers[..|layers| - 1];
      var last := layers[|layers| - 1];
      LayersKnownInit(nodes, layers);
      assert forall l, k :: 0 <= l < |init| && 0 <= k < |init[l]| ==> init[l][k] == layers[l][k];
      PlacementColumns(nodes, init, layerOf);
      assert forall k :: 0 <= k < |last| ==> last[k] == layers[|layers| - 1][k];
      RowInColumn(nodes, last, |layers| - 1, layerOf);
      var p0 := Placement(nodes, init);
      var row := PlaceRow(nodes, last, |last|, |layers| - 1);
      var all := Placement(nodes, layers);
      assert all == p0 + row;
      assert |all| == |p0| + |row|;
      forall k | 0 <= k < |all| ensures InColumn(nodes, layerOf, all[k]) {
        if k < |p0| {
          assert all[k] == p0[k];
        } else {
          var m := k - |p0|;
          assert 0 <= m < |row| && all[k] == row[m];
        }
      }
    }
  }

  /** A row laid out as column `layer` places each of its ids in that column. */
  lemma RowInColumn(nodes: seq<GraphNode>, row: seq<string>, layer: nat, layerOf: map<string, nat>)
    requires forall m :: 0 <= m < |row| ==> row[m] in Ids(nodes) && row[m] in layerOf && layerOf[row[m]] == layer
    ensures |PlaceRow(nodes, row, |row|, layer)| == |row|
    ensures forall m :: 0 <= m < |row| ==> InColumn(nodes, layerOf, PlaceRow(nodes, row, |row|, layer)[m])
  {
    PlaceRowAt(nodes, row, |row|, layer);
  }

  lemma LayersKnownInit(nodes: seq<GraphNode>, layers: seq<seq<string>>)
    requires layers != [] && LayersKnown(nodes, layers)
    ensures LayersKnown(nodes, layers[..|layers| - 1])
  {
    var init := layers[..|layers| - 1];
    assert forall l, k :: 0 <= l < |init| && 0 <= k < |init[l]| ==> init[l][k] == layers[l][k];
  }

  /** The `i`-th node of column `l`, of `k` nodes, is placed at `(350 * l, LayerY(i, k))`, after the columns before it. */
  lemma {:induction false} PlacementAt(nodes: seq<GraphNode>, layers: seq<seq<string>>, l: nat, i: nat)
    requires LayersKnown(nodes, layers)
    requires l < |layers| && i < |layers[l]|
    ensures FindNode(nodes, layers[l][i]).Some?
    ensures |Flatten(layers[..l])| + i < |Placement(nodes, layers)|
    ensures Placement(nodes, layers)[|Flatten(layers[..l])| + i] ==
      Place(FindNode(nodes, layers[l][i]).value, l * XOffset, LayerY(i, |layers[l]|))
    decreases |layers|, 1
  {
    if l < |layers| - 1 {
      PlacementAtEarlier(nodes, layers, l, i);
    } else {
      PlacementAtLast(nodes, layers, i);
    }
  }

  /** The case of `PlacementAt` for a column before the last: the last column only appends. */
  lemma {:induction false} PlacementAtEarlier(nodes: seq<GraphNode>, layers: seq<seq<string>>, l: nat, i: nat)
    requires LayersKnown(nodes, layers)
    requires l < |layers| - 1 && i < |layers[l]|
    ensures FindNode(nodes, layers[l][i]).Some?
    ensures |Flatten(layers[..l])| + i < |Placement(nodes, layers)|
    ensures Placement(nodes, layers)[|Flatten(layers[..l])| + i] ==
      Place(FindNode(nodes, layers[l][i]).value, l * XOffset, LayerY(i, |layers[l]|))
    decreases |layers|, 0
  {
    var init := layers[..|layers| - 1];
    LayersKnownInit(nodes, layers);
    assert layers[..l] == init[..l];
    assert init[l] == layers[l];
    PlacementAt(nodes, init, l, i);
    var p0 := Placement(nodes, init);
    var all := Placement(nodes, layers);
    assert all == p0 + PlaceRow(nodes, layers[|layers| - 1], |layers[|layers| - 1]|, |layers| - 1);
    var k := |Flatten(layers[..l])| + i;
    assert all[k] == p0[k];
  }

  /** The case of `PlacementAt` for the last column. */
  lemma PlacementAtLast(nodes: seq<GraphNode>, layers: seq<seq<string>>, i: nat)
    requires LayersKnown(nodes, layers)
    requires layers != [] && i < |layers[|layers| - 1]|
    ensures FindNode(nodes, layers[|layers| - 1][i]).Some?
    ensures |Flatten(layers[..|layers| - 1])| + i < |Placement(nodes, layers)|
    ensures Placement(nodes, layers)[|Flatten(layers[..|layers| - 1])| + i] ==
      Place(FindNode(nodes, layers[|layers| - 1][i]).value, (|layers| - 1) * XOffset, LayerY(i, |layers[|layers| - 1]|))
  {
    PlacementSnoc(nodes, layers);
    var init := layers[..|layers| - 1];
    var last := layers[|layers| - 1];
    PlacementIds(nodes, init);
    var p0 := Placement(nodes, init);
    var all := Placement(nodes, layers);
    var k := |Flatten(init)| + i;
    assert |p0| == |Flatten(init)|;
    assert all[k] == PlaceRow(nodes, last, |last|, |layers| - 1)[i];
  }

  // ---------------------------------------------------------------------------
  // Facts about the fallback pass
  // ---------------------------------------------------------------------------

  /** The fallback pass only appends. */
  lemma {:induction false} FallbackKeeps(placed: seq<PositionedNode>, pending: seq<GraphNode>, x: int)
    ensures |placed| <= |FallbackPass(placed, pending, x)|
    ensures FallbackPass(placed, pending, x)[..|placed|] == placed
  {
    if pending != [] {
      FallbackKeeps(placed, pending[..|pending| - 1], x);
    }
  }

  lemma {:induction false} FindNodeSnoc(init: seq<GraphNode>, node: GraphNode, id: string)
    ensures FindNode(init + [node], id) ==
      if id in Ids(init) then FindNode(init, id) else if node.id == id then Some(node) else None
  {
    if init != [] {
      assert (init + [node])[1..] == init[1..] + [node];
      assert Ids(init) == [init[0].id] + Ids(init[1..]);
      FindNodeSnoc(init[1..], node, id);
    }
  }

  /**
   * Each appended node is, in column `x` at 150 times its index, the first
   * listed node carrying its id.
   */
  lemma {:induction false} FallbackAppends(placed: seq<PositionedNode>, pending: seq<GraphNode>, x: int)
    ensures forall k :: |placed| <= k < |FallbackPass(placed, pending, x)| ==>
      && FindNode(pending, FallbackPass(placed, pending, x)[k].id).Some?
      && FallbackPass(placed, pending, x)[k] ==
           Place(FindNode(pending, FallbackPass(placed, pending, x)[k].id).value, x, k * YOffset)
  {
    if pending != [] {
      var init := pending[..|pending| - 1];
      var node := pending[|pending| - 1];
      assert pending == init + [node];
      FallbackAppends(placed, init, x);
      var p := FallbackPass(placed, init, x);
      assert forall k :: |placed| <= k < |p| ==> FindNode(init, p[k].id).Some?;
      forall k | |placed| <= k < |p|
        ensures FindNode(pending, p[k].id).Some? && p[k] == Place(FindNode(pending, p[k].id).value, x, k * YOffset)
      {
        FindNodeSnoc(init, node, p[k].id);
      }
      if node.id !in PlacedIds(p) {
        FallbackFirstOfId(placed, init, node, x);
        var r := p + [Place(node, x, |p| * YOffset)];
        assert forall k :: |placed| <= k < |p| ==> r[k] == p[k];
        assert r[|p|] == Place(node, x, |p| * YOffset);
      }
    } else {
      assert FallbackPass(placed, pending, x) == placed;
    }
  }

  /** A node the fallback pass appends is the first listed node carrying its id. */
  lemma FallbackFirstOfId(placed: seq<PositionedNode>, init: seq<GraphNode>, node: GraphNode, x: int)
    requires node.id !in PlacedIds(FallbackPass(placed, init, x))
    ensures FindNode(init + [node], node.id) == Some(node)
  {
    FallbackCovers(placed, init, x);
    FindNodeSnoc(init, node, node.id);
  }

  /** An appended node carries an id no node before it carries. */
  lemma {:induction false} FallbackFresh(placed: seq<PositionedNode>, pending: seq<GraphNode>, x: int)
    ensures forall j, k :: 0 <= j < k < |FallbackPass(placed, pending, x)| && |placed| <= k ==>
      FallbackPass(placed, pending, x)[j].id != FallbackPass(placed, pending, x)[k].id
  {
    if pending != [] {
      var init := pending[..|pending| - 1];
      var node := pending[|pending| - 1];
      FallbackFresh(placed, init, x);
      var p := FallbackPass(placed, init, x);
      var r := FallbackPass(placed, pending, x);
      assert r == if node.id in PlacedIds(p) then p else p + [Place(node, x, |p| * YOffset)];
      FallbackKeeps(placed, init, x);
      if node.id !in PlacedIds(p) {
        assert forall j :: 0 <= j < |p| ==> r[j] == p[j] && p[j].id != node.id;
        assert r[|p|].id == node.id;
      }
    } else {
      assert FallbackPass(placed, pending, x) == placed;
    }
  }

  /** After the fallback pass every listed node is placed. */
  lemma {:induction false} FallbackCovers(placed: seq<PositionedNode>, pending: seq<GraphNode>, x: int)
    ensures forall id :: id in Ids(pending) ==> id in PlacedIds(FallbackPass(placed, pending, x))
  {
    if pending != [] {
      var init := pending[..|pending| - 1];
      var node := pending[|pending| - 1];
      FallbackCovers(placed, init, x);
      var p := FallbackPass(placed, init, x);
      assert Ids(pending) == Ids(init) + [node.id];
      if node.id !in PlacedIds(p) {
        var r := p + [Place(node, x, |p| * YOffset)];
        assert PlacedIds(r) == PlacedIds(p) + [node.id];
      }
    }
  }

  /** The fallback pass keeps a duplicate-free placement duplicate-free. */
  lemma FallbackDistinct(placed: seq<PositionedNode>, pending: seq<GraphNode>, x: int)
    requires Distinct(PlacedIds(placed))
    ensures Distinct(PlacedIds(FallbackPass(placed, pending, x)))
  {
    FallbackKeeps(placed, pending, x);
    FallbackFresh(placed, pending, x);
    var r := FallbackPass(placed, pending, x);
    assert forall j :: 0 <= j < |placed| ==> r[j] == placed[j];
  }

  lemma FallbackNotPlaced(placed: seq<PositionedNode>, pending: seq<GraphNode>, x: int)
    ensures forall k :: |placed| <= k < |FallbackPass(placed, pending, x)| ==>
      FallbackPass(placed, pending, x)[k].id !in PlacedIds(placed)
  {
    FallbackKeeps(placed, pending, x);
    FallbackFresh(placed, pending, x);
    var r := FallbackPass(placed, pending, x);
    assert forall j :: 0 <= j < |placed| ==> r[j] == placed[j];
  }

  // ---------------------------------------------------------------------------
  // What the whole layout promises
  // ---------------------------------------------------------------------------

  /** The main pass followed by the fallback pass in the column after the last layer. */
  function LaidOut(nodes: seq<GraphNode>, layers: seq<seq<string>>): seq<PositionedNode>
  {
    FallbackPass(Placement(nodes, layers), nodes, |layers| * XOffset)
  }

  lemma LayeringKnown(nodes: seq<GraphNode>, edges: seq<GraphEdge>, layers: seq<seq<string>>, layerOf: map<string, nat>)
    requires LayeringOf(nodes, edges, layers, layerOf)
    ensures LayersKnown(nodes, layers)
  {
  }

  /**
   * Every laid-out node is the listed node of its id, unchanged but for its
   * position, in the column of its layer or, if it has none, in the column
   * after the last layer, stacked at 150 times its index.
   */
  lemma LaidOutColumns(nodes: seq<GraphNode>, edges: seq<GraphEdge>, layers: seq<seq<string>>, layerOf: map<string, nat>)
    requires LayeringOf(nodes, edges, layers, layerOf)
    ensures forall k :: 0 <= k < |LaidOut(nodes, layers)| ==>
      && FindNode(nodes, LaidOut(nodes, layers)[k].id).Some?
      && LaidOut(nodes, layers)[k] == Place(FindNode(nodes, LaidOut(nodes, layers)[k].id).value,
                                            LaidOut(nodes, layers)[k].position.x, LaidOut(nodes, layers)[k].position.y)
      && LaidOut(nodes, layers)[k].position.x ==
           XOffset * (if LaidOut(nodes, layers)[k].id in layerOf then layerOf[LaidOut(nodes, layers)[k].id] else |layers|)
    ensures forall k :: |Placement(nodes, layers)| <= k < |LaidOut(nodes, layers)| ==>
      LaidOut(nodes, layers)[k].position.y == k * YOffset
  {
    var main := Placement(nodes, layers);
    var r := LaidOut(nodes, layers);
    LayeringKnown(nodes, edges, layers, layerOf);
    PlacementIds(nodes, layers);
    PlacementColumns(nodes, layers, layerOf);
    FallbackKeeps(main, nodes, |layers| * XOffset);
    FallbackAppends(main, nodes, |layers| * XOffset);
    FallbackNotPlaced(main, nodes, |layers| * XOffset);
    forall k | 0 <= k < |r|
      ensures FindNode(nodes, r[k].id).Some? && r[k] == Place(FindNode(nodes, r[k].id).value, r[k].position.x, r[k].position.y)
      ensures r[k].position.x == XOffset * (if r[k].id in layerOf then layerOf[r[k].id] else |layers|)
    {
      if k < |main| {
        assert r[k] == main[k];
        assert InColumn(nodes, layerOf, main[k]);
      } else {
        assert r[k].id !in PlacedIds(main);
      }
    }
  }

  lemma {:induction false} DistinctCard(s: seq<string>)
    requires Distinct(s)
    ensures |set x | x in s| == |s|
  {
    if s != [] {
      var init := s[..|s| - 1];
      DistinctCard(init);
      assert (set x | x in s) == (set x | x in init) + {s[|s| - 1]};
      assert s[|s| - 1] !in init;
    }
  }

  /** Two duplicate-free sequences with the same elements have the same length. */
  lemma SameElementsSameLength(a: seq<string>, b: seq<string>)
    requires Distinct(a) && Distinct(b)
    requires forall x :: x in a <==> x in b
    ensures |a| == |b|
  {
    DistinctCard(a);
    DistinctCard(b);
    assert (set x | x in a) == (set x | x in b);
  }

  /** With unique ids, every listed node is laid out exactly once. */
  lemma EveryNodeLaidOutOnce(nodes: seq<GraphNode>, edges: seq<GraphEdge>, layers: seq<seq<string>>, layerOf: map<string, nat>)
    requires UniqueIds(nodes)
    requires LayeringOf(nodes, edges, layers, layerOf)
    ensures |LaidOut(nodes, layers)| == |nodes|
    ensures Distinct(PlacedIds(LaidOut(nodes, layers)))
    ensures forall id :: id in Ids(nodes) <==> id in PlacedIds(LaidOut(nodes, layers))
  {
    var main := Placement(nodes, layers);
    var r := LaidOut(nodes, layers);
    LayeringKnown(nodes, edges, layers, layerOf);
    PlacementIds(nodes, layers);
    FallbackDistinct(main, nodes, |layers| * XOffset);
    FallbackCovers(main, nodes, |layers| * XOffset);
    LaidOutColumns(nodes, edges, layers, layerOf);
    assert forall k :: 0 <= k < |r| ==> r[k].id in Ids(nodes);
    SameElementsSameLength(PlacedIds(r), Ids(nodes));
  }

  lemma {:induction false} FlattenIndex(layers: seq<seq<string>>, k: nat)
    requires k < |Flatten(layers)|
    ensures exists l, i :: 0 <= l < |layers| && 0 <= i < |layers[l]| && layers[l][i] == Flatten(layers)[k]
  {
    var init := layers[..|layers| - 1];
    var last := layers[|layers| - 1];
    if k < |Flatten(init)| {
      FlattenIndex(init, k);
      var l, i :| 0 <= l < |init| && 0 <= i < |init[l]| && init[l][i] == Flatten(init)[k];
      assert layers[l] == init[l];
    } else {
      assert last[k - |Flatten(init)|] == Flatten(layers)[k];
    }
  }

  /** Every layered node sits in a column before the fallback column. */
  lemma LayersBelowCount(nodes: seq<GraphNode>, edges: seq<GraphEdge>, layers: seq<seq<string>>, layerOf: map<string, nat>)
    requires LayeringOf(nodes, edges, layers, layerOf)
    ensures forall n :: n in layerOf ==> layerOf[n] < |layers|
  {
    forall n | n in layerOf ensures layerOf[n] < |layers| {
      var k :| 0 <= k < |Flatten(layers)| && Flatten(layers)[k] == n;
      FlattenIndex(layers, k);
    }
  }

  /**
   * A node placed by the layering lies strictly to the left of every node
   * that depends on it, wherever that one is laid out.
   */
  lemma DependenciesLeftOfDependents(nodes: seq<GraphNode>, edges: seq<GraphEdge>, layers: seq<seq<string>>, layerOf: map<string, nat>)
    requires LayeringOf(nodes, edges, layers, layerOf)
    ensures forall e, a, b ::
      && e in edges && e.to in layerOf
      && 0 <= a < |LaidOut(nodes, layers)| && LaidOut(nodes, layers)[a].id == e.from
      && 0 <= b < |LaidOut(nodes, layers)| && LaidOut(nodes, layers)[b].id == e.to
      ==> LaidOut(nodes, layers)[b].position.x < LaidOut(nodes, layers)[a].position.x
  {
    LaidOutColumns(nodes, edges, layers, layerOf);
    LayersBelowCount(nodes, edges, layers, layerOf);
  }

  // ---------------------------------------------------------------------------
  // The layout effect, step by step
  // ---------------------------------------------------------------------------

  /** The node pass: every node starts with no dependency counted and no dependent recorded. */
  method StartMaps(nodes: seq<GraphNode>) returns (inDegree: map<string, int>, adj: map<string, seq<string>>)
    ensures forall n :: n in inDegree <==> n in Ids(nodes)
    ensures forall n :: n in adj <==> n in Ids(nodes)
    ensures forall n :: n in inDegree ==> inDegree[n] == 0
    ensures forall t :: t in adj ==> adj[t] == []
  {
    inDegree, adj := map[], map[];
    for k := 0 to |nodes|
      invariant forall n :: n in inDegree <==> exists j :: 0 <= j < k && nodes[j].id == n
      invariant forall n :: n in adj <==> n in inDegree
      invariant forall n :: n in inDegree ==> inDegree[n] == 0
      invariant forall t :: t in adj ==> adj[t] == []
    {
      inDegree := inDegree[nodes[k].id := 0];
      adj := adj[nodes[k].id := []];
    }
  }

  lemma EdgeStep(edges: seq<GraphEdge>, i: nat)
    requires i < |edges|
    ensures forall n :: DependencyCount(edges[..i + 1], n) == DependencyCount(edges[..i], n) + (if edges[i].from == n then 1 else 0)
    ensures forall t :: Dependents(edges[..i + 1], t) == Dependents(edges[..i], t) + (if edges[i].to == t then [edges[i].from] else [])
  {
    assert edges[..i + 1][..i] == edges[..i];
  }

  /** The edge pass: each edge counts one dependency of its `from` end and records it as waiting on its `to` end. */
  method BuildAdjacency(nodes: seq<GraphNode>, edges: seq<GraphEdge>)
    returns (inDegree: map<string, int>, adj: map<string, seq<string>>)
    requires EndpointsKnown(nodes, edges)
    ensures forall n :: n in inDegree <==> n in Ids(nodes)
    ensures forall n :: n in adj <==> n in Ids(nodes)
    ensures forall n :: n in inDegree ==> inDegree[n] == DependencyCount(edges, n)
    ensures forall t :: t in adj ==> adj[t] == Dependents(edges, t)
  {
    inDegree, adj := StartMaps(nodes);
    for i := 0 to |edges|
      invariant forall n :: n in inDegree <==> n in Ids(nodes)
      invariant forall n :: n in adj <==> n in Ids(nodes)
      invariant forall n :: n in inDegree ==> inDegree[n] == DependencyCount(edges[..i], n)
      invariant forall t :: t in adj ==> adj[t] == Dependents(edges[..i], t)
    {
      var edge := edges[i];
      EdgeStep(edges, i);
      assert edge in edges;
      adj := adj[edge.to := adj[edge.to] + [edge.from]];
      inDegree := inDegree[edge.from := inDegree[edge.from] + 1];
    }
    assert edges[..|edges|] == edges;
  }

  /** The nodes that start out with no dependency, in listing order. */
  method FirstLayer(nodes: seq<GraphNode>, edges: seq<GraphEdge>, inDegree: map<string, int>)
    returns (layer: seq<string>)
    requires forall n :: n in inDegree <==> n in Ids(nodes)
    requires forall n :: n in inDegree ==> inDegree[n] == DependencyCount(edges, n)
    ensures layer == ZeroLayer(nodes, edges)
  {
    layer := [];
    for k := 0 to |nodes|
      invariant layer == ZeroLayer(nodes[..k], edges)
    {
      assert nodes[..k + 1][..k] == nodes[..k];
      assert Ids(nodes)[k] == nodes[k].id;
      if inDegree[nodes[k].id] == 0 {
        layer := layer + [nodes[k].id];
      }
    }
    assert nodes[..|nodes|] == nodes;
  }

  lemma {:induction false} CountAbsent(s: seq<string>, x: string)
    requires x !in s
    ensures Count(s, x) == 0
  {
    if s != [] {
      CountAbsent(s[..|s| - 1], x);
    }
  }

  /**
   * The inner loop over the nodes waiting on `t`: each one loses one
   * dependency, and joins the next column the moment it has none left, that
   * is at its last occurrence once nothing outside `done` is left. The
   * counts come down to the dependencies outside `done`. `(count || 1) - 1`
   * reads a missing or zero count as 1, a default a waiting node, whose
   * count is positive, never takes.
   */
  method ReleaseDependents(neighbors: seq<string>, inDegree: map<string, int>, next: seq<string>,
                           ghost edges: seq<GraphEdge>, ghost done: set<string>, ghost settled: set<string>)
    returns (inDegree': map<string, int>, next': seq<string>)
    requires forall n :: n in inDegree ==> inDegree[n] == Remaining(edges, n, done) + Count(neighbors, n)
    requires forall n :: n in neighbors ==> n in inDegree && n !in settled
    requires Distinct(next) && forall n :: n in next ==> n in inDegree && n !in settled
    requires forall n :: n in inDegree && n !in settled ==> (n in next <==> inDegree[n] == 0)
    ensures inDegree'.Keys == inDegree.Keys
    ensures forall n :: n in inDegree' ==> inDegree'[n] == Remaining(edges, n, done)
    ensures next' == next + Freed(edges, neighbors, |neighbors|, done)
    ensures Distinct(next') && forall n :: n in next' ==> n in inDegree && n !in settled
    ensures forall n :: n in inDegree && n !in settled ==> (n in next' <==> Remaining(edges, n, done) == 0)
    ensures forall n :: n in next' && n !in next ==> n in neighbors
  {
    inDegree', next' := inDegree, next;
    for j := 0 to |neighbors|
      invariant inDegree'.Keys == inDegree.Keys
      invariant forall n :: n in inDegree' ==> inDegree'[n] == Remaining(edges, n, done) + Count(neighbors[j..], n)
      invariant next' == next + Freed(edges, neighbors, j, done)
    {
      var neighborId := neighbors[j];
      ReleaseCount(inDegree', neighbors, j, edges, done);
      var degree := if neighborId in inDegree' && inDegree'[neighborId] != 0 then inDegree'[neighborId] else 1;
      var newDegree := degree - 1;
      inDegree' := inDegree'[neighborId := newDegree];
      if newDegree == 0 {
        AppendAssociates(next, Freed(edges, neighbors, j, done), [neighborId]);
        next' := next' + [neighborId];
      }
    }
    FreedJoinsNext(neighbors, inDegree, next, edges, done, settled);
  }

  /**
   * What the released nodes add to the next column: nodes not in it yet,
   * none twice, and together with it exactly the nodes left with no
   * dependency outside `done`.
   */
  lemma FreedJoinsNext(neighbors: seq<string>, inDegree: map<string, int>, next: seq<string>,
                       edges: seq<GraphEdge>, done: set<string>, settled: set<string>)
    requires forall n :: n in inDegree ==> inDegree[n] == Remaining(edges, n, done) + Count(neighbors, n)
    requires forall n :: n in neighbors ==> n in inDegree && n !in settled
    requires Distinct(next) && forall n :: n in next ==> n in inDegree && n !in settled
    requires forall n :: n in inDegree && n !in settled ==> (n in next <==> inDegree[n] == 0)
    ensures var next' := next + Freed(edges, neighbors, |neighbors|, done);
      && Distinct(next') && (forall n :: n in next' ==> n in inDegree && n !in settled)
      && (forall n :: n in inDegree && n !in settled ==> (n in next' <==> Remaining(edges, n, done) == 0))
      && (forall n :: n in next' && n !in next ==> n in neighbors)
  {
    var freed := Freed(edges, neighbors, |neighbors|, done);
    FreedMembers(edges, neighbors, |neighbors|, done);
    assert neighbors[..|neighbors|] == neighbors;
    forall n | n in next ensures n !in neighbors {
      if n in neighbors {
        CountPositive(neighbors, n);
      }
    }
    forall n | n in inDegree && n !in neighbors ensures Count(neighbors, n) == 0 {
      CountAbsent(neighbors, n);
    }
    DistinctAppend(next, freed);
  }

  /** Unfolding aid: regroups a concatenation, so the inner loop does not search for it. */
  lemma AppendAssociates(a: seq<string>, b: seq<string>, c: seq<string>)
    ensures (a + b) + c == a + (b + c)
  {
  }

  lemma DistinctAppend(a: seq<string>, b: seq<string>)
    requires Distinct(a) && Distinct(b) && forall x :: x in a ==> x !in b
    ensures Distinct(a + b)
  {
    forall i, j | 0 <= i < j < |a + b| ensures (a + b)[i] != (a + b)[j] {
      if i < |a| && j >= |a| {
        assert (a + b)[i] in a && (a + b)[j] == b[j - |a|];
      }
    }
  }

  /**
   * An id is freed by `deps[..j]` exactly when it occurs there for the last
   * time and has no dependency outside `done`; so none is freed twice.
   */
  lemma {:induction false} FreedMembers(edges: seq<GraphEdge>, deps: seq<string>, j: nat, done: set<string>)
    requires j <= |deps|
    ensures forall x :: x in Freed(edges, deps, j, done) <==> x in deps[..j] && x !in deps[j..] && Remaining(edges, x, done) == 0
    ensures Distinct(Freed(edges, deps, j, done))
  {
    if j > 0 {
      FreedMembers(edges, deps, j - 1, done);
      var n := deps[j - 1];
      assert deps[..j] == deps[..j - 1] + [n];
      assert deps[j - 1..] == [n] + deps[j..];
      var prior := Freed(edges, deps, j - 1, done);
      assert n !in prior;
      if n !in deps[j..] && Remaining(edges, n, done) == 0 {
        assert Freed(edges, deps, j, done) == prior + [n];
        DistinctAppend(prior, [n]);
      }
    }
  }

  /**
   * One step of the inner loop: the count of `neighbors[j]` is positive,
   * taking one from it leaves each count at its dependencies left plus its
   * occurrences after `j`, and `neighbors[j]` is freed exactly when its
   * count reaches zero.
   */
  lemma ReleaseCount(counts: map<string, int>, neighbors: seq<string>, j: nat, edges: seq<GraphEdge>, done: set<string>)
    requires j < |neighbors| && neighbors[j] in counts
    requires forall n :: n in counts ==> counts[n] == Remaining(edges, n, done) + Count(neighbors[j..], n)
    ensures counts[neighbors[j]] >= 1
    ensures var counts' := counts[neighbors[j] := counts[neighbors[j]] - 1];
      && counts'.Keys == counts.Keys
      && forall n :: n in counts' ==> counts'[n] == Remaining(edges, n, done) + Count(neighbors[j + 1..], n)
    ensures counts[neighbors[j]] == 1 ==> Freed(edges, neighbors, j + 1, done) == Freed(edges, neighbors, j, done) + [neighbors[j]]
    ensures counts[neighbors[j]] != 1 ==> Freed(edges, neighbors, j + 1, done) == Freed(edges, neighbors, j, done)
  {
    CountFront(neighbors, j);
    FreedStep(edges, neighbors, j, done);
    var counts' := counts[neighbors[j] := counts[neighbors[j]] - 1];
    forall n | n in counts'
      ensures counts'[n] == Remaining(edges, n, done) + Count(neighbors[j + 1..], n)
    {
      if n != neighbors[j] {
        assert counts'[n] == counts[n];
      }
    }
  }

  /** Position `j` adds its id to what is freed exactly when that id has nothing left, here or further on. */
  lemma FreedStep(edges: seq<GraphEdge>, deps: seq<string>, j: nat, done: set<string>)
    requires j < |deps|
    ensures Remaining(edges, deps[j], done) + Count(deps[j + 1..], deps[j]) == 0 ==>
      Freed(edges, deps, j + 1, done) == Freed(edges, deps, j, done) + [deps[j]]
    ensures Remaining(edges, deps[j], done) + Count(deps[j + 1..], deps[j]) != 0 ==>
      Freed(edges, deps, j + 1, done) == Freed(edges, deps, j, done)
  {
    CountFront(deps, j);
  }

  /** `s[j..]` holds `s[j]` once more than `s[j + 1..]` does, and no other id more; `s[j]` is absent from `s[j + 1..]` exactly when it holds none. */
  lemma CountFront(s: seq<string>, j: nat)
    requires j < |s|
    ensures forall n :: Count(s[j..], n) == Count(s[j + 1..], n) + (if s[j] == n then 1 else 0)
    ensures Count(s[j + 1..], s[j]) == 0 <==> s[j] !in s[j + 1..]
  {
    assert s[j..] == [s[j]] + s[j + 1..];
    forall n ensures Count(s[j..], n) == Count(s[j + 1..], n) + (if s[j] == n then 1 else 0) {
      CountAppend([s[j]], s[j + 1..], n);
      assert Count([s[j]], n) == Count([], n) + (if s[j] == n then 1 else 0);
    }
    if s[j] in s[j + 1..] {
      CountPositive(s[j + 1..], s[j]);
    } else {
      CountAbsent(s[j + 1..], s[j]);
    }
  }


  /**
   * Everything that happens once node `t` is placed: the nodes waiting on it
   * lose the dependency, and the ones left with none join the next column.
   */
  method ReleaseAfter(ghost edges: seq<GraphEdge>, adj: map<string, seq<string>>, inDegree: map<string, int>,
                      next: seq<string>, current: seq<string>, i: nat,
                      ghost processed: set<string>, ghost done: set<string>, ghost settled: set<string>)
    returns (inDegree': map<string, int>, next': seq<string>)
    requires i < |current| && current[i] in adj && adj[current[i]] == Dependents(edges, current[i])
    requires done == processed + IdSet(current[..i]) && current[i] !in done
    requires next == Released(edges, current[..i], processed)
    requires forall n :: n in inDegree ==> inDegree[n] == Remaining(edges, n, done)
    requires forall e :: e in edges && e.to == current[i] ==> e.from in inDegree && e.from !in settled
    requires Distinct(next) && forall n :: n in next ==> n in inDegree && n !in settled
    requires forall n :: n in inDegree && n !in settled ==> (n in next <==> inDegree[n] == 0)
    requires forall n :: n in next ==> ReleasedBy(edges, n, current)
    ensures inDegree'.Keys == inDegree.Keys
    ensures forall n :: n in inDegree' ==> inDegree'[n] == Remaining(edges, n, done + {current[i]})
    ensures next' == Released(edges, current[..i + 1], processed)
    ensures Distinct(next') && forall n :: n in next' ==> n in inDegree && n !in settled
    ensures forall n :: n in inDegree && n !in settled ==> (n in next' <==> inDegree'[n] == 0)
    ensures forall n :: n in next' ==> ReleasedBy(edges, n, current)
  {
    var t := current[i];
    var neighbors := if t in adj then adj[t] else [];
    forall n | n in inDegree
      ensures inDegree[n] == Remaining(edges, n, done + {t}) + Count(neighbors, n)
    {
      RemainingStep(edges, n, done, t);
    }
    inDegree', next' := ReleaseDependents(neighbors, inDegree, next, edges, done + {t}, settled);
    ElementsSnoc(current, i);
    forall n | n in next' ensures ReleasedBy(edges, n, current) {
      if n !in next {
        var e :| e in edges && e.from == n && e.to == t;
      }
    }
  }

  lemma PlaceRowStep(nodes: seq<GraphNode>, row: seq<string>, i: nat, k: int, layer: nat)
    requires i < |row|
    ensures PlaceRow(nodes, row[..i + 1], k, layer) == PlaceRow(nodes, row[..i], k, layer) + RowEntry(nodes, row[i], layer * XOffset, LayerY(i, k))
  {
    assert row[..i + 1][..i] == row[..i];
  }

  /**
   * The `i`-th node of the current column: looked up among the listed nodes
   * and, if found, placed in the column at its centred height.
   */
  method PlaceNode(nodes: seq<GraphNode>, row: seq<PositionedNode>, current: seq<string>, i: nat, layerIndex: nat)
    returns (row': seq<PositionedNode>)
    requires i < |current|
    requires row == PlaceRow(nodes, current[..i], |current|, layerIndex)
    ensures row' == PlaceRow(nodes, current[..i + 1], |current|, layerIndex)
  {
    PlaceRowStep(nodes, current, i, |current|, layerIndex);
    var layerHeight := |current| * YOffset;
    var x := layerIndex * XOffset;
    var y := i * YOffset - layerHeight / 2 + YOffset / 2;
    LayerYOfHeight(i, |current|, layerHeight);
    row' := row;
    var originalNode := FindNode(nodes, current[i]);
    if originalNode.Some? {
      var node := originalNode.value;
      row' := row' + [Place(node, x, y)];
    }
  }


  /** `n` waits on a node of `current`. */
  ghost predicate ReleasedBy(edges: seq<GraphEdge>, n: string, current: seq<string>)
  {
    exists e :: e in edges && e.from == n && e.to in current
  }

  /**
   * One pass over the current column: each node is placed at its centred
   * height in the column, and the nodes waiting on it are released. What
   * comes out is the next column: the nodes whose last dependency was in
   * this column.
   */
  method PlaceLayer(nodes: seq<GraphNode>, ghost edges: seq<GraphEdge>, adj: map<string, seq<string>>,
                    inDegree: map<string, int>, current: seq<string>, layerIndex: nat,
                    ghost processed: set<string>, ghost lay: map<string, nat>)
    returns (inDegree': map<string, int>, next: seq<string>, row: seq<PositionedNode>)
    requires adj.Keys == inDegree.Keys
    requires forall t :: t in adj ==> adj[t] == Dependents(edges, t)
    requires forall e :: e in edges ==> e.from in inDegree
    requires forall n :: n in inDegree ==> inDegree[n] == Remaining(edges, n, processed)
    requires Distinct(current) && forall n :: n in current ==> n in inDegree && n !in processed
    requires forall n :: n in lay <==> n in processed || n in current
    requires forall n :: n in current ==> lay[n] == layerIndex
    requires forall n :: n in lay ==> lay[n] <= layerIndex
    requires forall e :: e in edges && e.from in lay ==> e.to in lay && lay[e.to] < lay[e.from]
    requires forall n :: n in inDegree && n !in lay ==> inDegree[n] > 0
    ensures inDegree'.Keys == inDegree.Keys
    ensures forall n :: n in inDegree' ==> inDegree'[n] == Remaining(edges, n, lay.Keys)
    ensures Distinct(next) && forall n :: n in next ==> n in inDegree && n !in lay
    ensures forall n :: n in inDegree && n !in lay ==> (n in next <==> inDegree'[n] == 0)
    ensures forall n :: n in next ==> ReleasedBy(edges, n, current)
    ensures next == Released(edges, current, processed)
    ensures row == PlaceRow(nodes, current, |current|, layerIndex)
  {
    inDegree', next, row := inDegree, [], [];
    ghost var done := processed;
    for i := 0 to |current|
      invariant inDegree'.Keys == inDegree.Keys
      invariant done == processed + IdSet(current[..i])
      invariant forall n :: n in inDegree' ==> inDegree'[n] == Remaining(edges, n, done)
      invariant Distinct(next) && forall n :: n in next ==> n in inDegree && n !in lay
      invariant forall n :: n in inDegree && n !in lay ==> (n in next <==> inDegree'[n] == 0)
      invariant forall n :: n in next ==> ReleasedBy(edges, n, current)
      invariant next == Released(edges, current[..i], processed)
      invariant row == PlaceRow(nodes, current[..i], |current|, layerIndex)
    {
      row := PlaceNode(nodes, row, current, i, layerIndex);
      assert current[i] !in done by {
        IdSetMembers(current[..i]);
        assert forall k :: 0 <= k < i ==> current[k] != current[i];
      }
      inDegree', next := ReleaseAfter(edges, adj, inDegree', next, current, i, processed, done, lay.Keys);
      ElementsSnoc(current, i);
      done := done + {current[i]};
    }
    assert current[..|current|] == current;
    IdSetMembers(current);
    assert done == lay.Keys;
  }

  lemma ElementsSnoc(s: seq<string>, i: nat)
    requires i < |s|
    ensures IdSet(s[..i + 1]) == IdSet(s[..i]) + {s[i]}
    ensures s[..i + 1][..i] == s[..i] && s[..i + 1][i] == s[i]
  {
    assert s[..i + 1][..i] == s[..i];
  }

  /** The fallback pass as the source runs it: a `some` test and a push per listed node. */
  method AppendFallback(placed: seq<PositionedNode>, nodes: seq<GraphNode>, x: int) returns (result: seq<PositionedNode>)
    ensures result == FallbackPass(placed, nodes, x)
  {
    result := placed;
    for k := 0 to |nodes|
      invariant result == FallbackPass(placed, nodes[..k], x)
    {
      assert nodes[..k + 1][..k] == nodes[..k];
      var node := nodes[k];
      if node.id !in PlacedIds(result) {
        result := result + [Place(node, x, |result| * YOffset)];
      }
    }
    assert nodes[..|nodes|] == nodes;
  }

  /**
   * What holds each time the layering loop tests its condition: `processed`
   * holds the ids of the finished columns `layers`, `current` is the column
   * about to be placed, every count is the number of dependencies not yet
   * finished, and `layerOf` is a layering of everything finished or current.
   */
  ghost predicate LoopInvariant(nodes: seq<GraphNode>, edges: seq<GraphEdge>, inDegree: map<string, int>,
                                current: seq<string>, layers: seq<seq<string>>, layerOf: map<string, nat>, processed: set<string>)
  {
    && CountsInvariant(nodes, edges, inDegree, current, layerOf, processed)
    && ColumnsInvariant(edges, current, layers, layerOf)
    && LayersInvariant(nodes, edges, current, layers, layerOf, processed)
    && ReleaseOrdered(edges, layers, current)
  }

  /** The counts: one per node, each the number of dependencies outside `processed`, positive for every node not yet layered. */
  ghost predicate CountsInvariant(nodes: seq<GraphNode>, edges: seq<GraphEdge>, inDegree: map<string, int>,
                                  current: seq<string>, layerOf: map<string, nat>, processed: set<string>)
  {
    && (forall n :: n in inDegree <==> n in Ids(nodes))
    && (forall n :: n in inDegree ==> inDegree[n] == Remaining(edges, n, processed))
    && Distinct(current) && (forall n :: n in current ==> n in inDegree && n !in processed)
    && (forall n :: n in layerOf <==> n in processed || n in current)
    && (forall n :: n in layerOf ==> n in inDegree)
    && (forall n :: n in inDegree && n !in layerOf ==> inDegree[n] > 0)
  }

  /** The columns: the current column is column `|layers|`, nothing lies beyond it, and dependencies are respected. */
  ghost predicate ColumnsInvariant(edges: seq<GraphEdge>, current: seq<string>, layers: seq<seq<string>>, layerOf: map<string, nat>)
  {
    && (forall n :: n in current ==> n in layerOf && layerOf[n] == |layers|)
    && (forall n :: n in layerOf ==> layerOf[n] <= |layers|)
    && Layered(edges, layerOf)
  }

  /** The finished columns: non-empty, duplicate-free, starting with the nodes that have no dependency. */
  ghost predicate LayersInvariant(nodes: seq<GraphNode>, edges: seq<GraphEdge>, current: seq<string>,
                                  layers: seq<seq<string>>, layerOf: map<string, nat>, processed: set<string>)
  {
    && Distinct(Flatten(layers)) && (forall n :: n in processed <==> n in Flatten(layers))
    && (forall l, k :: 0 <= l < |layers| && 0 <= k < |layers[l]| ==> layers[l][k] in layerOf && layerOf[layers[l][k]] == l)
    && (forall l :: 0 <= l < |layers| ==> layers[l] != [])
    && (if layers == [] then current == ZeroLayer(nodes, edges) else |layers| > 0 && layers[0] == ZeroLayer(nodes, edges))
  }

  lemma NoDependencyNoEdge(edges: seq<GraphEdge>, n: string)
    requires DependencyCount(edges, n) == 0
    ensures forall e :: e in edges && e.from == n ==> false
  {
    RemainingNone(edges, n);
    RemainingZero(edges, n, {});
  }

  /** The loop starts with the nodes that have no dependency as column 0. */
  lemma LoopInvariantInit(nodes: seq<GraphNode>, edges: seq<GraphEdge>, inDegree: map<string, int>)
    requires UniqueIds(nodes)
    requires forall n :: n in inDegree <==> n in Ids(nodes)
    requires forall n :: n in inDegree ==> inDegree[n] == DependencyCount(edges, n)
    ensures LoopInvariant(nodes, edges, inDegree, ZeroLayer(nodes, edges), [], map n | n in ZeroLayer(nodes, edges) :: 0, {})
  {
    var zero := ZeroLayer(nodes, edges);
    var lay: map<string, nat> := map n | n in zero :: 0;
    ZeroLayerDistinct(nodes, edges);
    forall n | n in inDegree ensures inDegree[n] == Remaining(edges, n, {}) {
      RemainingNone(edges, n);
    }
    forall e | e in edges && e.from in lay ensures false {
      NoDependencyNoEdge(edges, e.from);
    }
    assert CountsInvariant(nodes, edges, inDegree, zero, lay, {});
    assert ColumnsInvariant(edges, zero, [], lay);
  }

  lemma CountsStep(nodes: seq<GraphNode>, edges: seq<GraphEdge>, inDegree: map<string, int>,
                   current: seq<string>, layerOf: map<string, nat>, processed: set<string>,
                   inDegree': map<string, int>, next: seq<string>, layer: nat)
    requires CountsInvariant(nodes, edges, inDegree, current, layerOf, processed)
    requires inDegree'.Keys == inDegree.Keys
    requires forall n :: n in inDegree' ==> inDegree'[n] == Remaining(edges, n, layerOf.Keys)
    requires Distinct(next) && forall n :: n in next ==> n in inDegree && n !in layerOf
    requires forall n :: n in inDegree && n !in layerOf ==> (n in next <==> inDegree'[n] == 0)
    ensures CountsInvariant(nodes, edges, inDegree', next, WithLayer(layerOf, next, layer), processed + set n | n in current)
  {
    assert layerOf.Keys == processed + set n | n in current;
  }

  /** A node whose count dropped to zero has every dependency finished. */
  lemma ZeroCountDone(edges: seq<GraphEdge>, inDegree': map<string, int>, done: set<string>, next: seq<string>)
    requires forall n :: n in inDegree' ==> inDegree'[n] == Remaining(edges, n, done)
    requires forall n :: n in next ==> n in inDegree' && inDegree'[n] == 0
    ensures forall n, e :: n in next && e in edges && e.from == n ==> e.to in done
  {
    forall n | n in next ensures forall e :: e in edges && e.from == n ==> e.to in done {
      RemainingZero(edges, n, done);
    }
  }

  /**
   * Giving the released nodes the next column keeps the layering: their
   * dependencies are all finished, and each was released by a node of the
   * column just placed.
   */
  lemma ColumnsStep(edges: seq<GraphEdge>, current: seq<string>, layers: seq<seq<string>>,
                    layerOf: map<string, nat>, next: seq<string>)
    requires ColumnsInvariant(edges, current, layers, layerOf)
    requires forall n :: n in next ==> n !in layerOf
    requires forall n, e :: n in next && e in edges && e.from == n ==> e.to in layerOf
    requires forall n :: n in next ==> ReleasedBy(edges, n, current)
    ensures ColumnsInvariant(edges, next, layers + [current], WithLayer(layerOf, next, |layers| + 1))
  {
    EdgesPointLeft(edges, current, layers, layerOf, next);
    ReleasedFromLeftStep(edges, current, layers, layerOf, next);
  }

  /** Dependencies of the released nodes lie in earlier columns. */
  lemma EdgesPointLeft(edges: seq<GraphEdge>, current: seq<string>, layers: seq<seq<string>>,
                       layerOf: map<string, nat>, next: seq<string>)
    requires ColumnsInvariant(edges, current, layers, layerOf)
    requires forall n :: n in next ==> n !in layerOf
    requires forall n, e :: n in next && e in edges && e.from == n ==> e.to in layerOf
    ensures forall e :: e in edges && e.from in WithLayer(layerOf, next, |layers| + 1) ==>
      e.to in WithLayer(layerOf, next, |layers| + 1) &&
      WithLayer(layerOf, next, |layers| + 1)[e.to] < WithLayer(layerOf, next, |layers| + 1)[e.from]
  {
    var lay' := WithLayer(layerOf, next, |layers| + 1);
    forall e | e in edges && e.from in lay'
      ensures e.to in lay' && lay'[e.to] < lay'[e.from]
    {
      if e.from in next {
        assert e.to in layerOf && e.to !in next;
      }
    }
  }

  /** Each released node has a dependency in the column just placed. */
  lemma ReleasedFromLeftStep(edges: seq<GraphEdge>, current: seq<string>, layers: seq<seq<string>>,
                             layerOf: map<string, nat>, next: seq<string>)
    requires ColumnsInvariant(edges, current, layers, layerOf)
    requires forall n :: n in next ==> n !in layerOf
    requires forall n :: n in next ==> ReleasedBy(edges, n, current)
    ensures forall n {:trigger ReleasedFromLeft(edges, WithLayer(layerOf, next, |layers| + 1), n)} ::
      n in WithLayer(layerOf, next, |layers| + 1) && WithLayer(layerOf, next, |layers| + 1)[n] > 0 ==>
      ReleasedFromLeft(edges, WithLayer(layerOf, next, |layers| + 1), n)
  {
    var lay' := WithLayer(layerOf, next, |layers| + 1);
    forall n {:trigger ReleasedFromLeft(edges, lay', n)} | n in lay' && lay'[n] > 0
      ensures ReleasedFromLeft(edges, lay', n)
    {
      if n in next {
        var e :| e in edges && e.from == n && e.to in current;
        assert e.to !in next;
      } else {
        assert ReleasedFromLeft(edges, layerOf, n);
        var e :| e in edges && e.from == n && e.to in layerOf && layerOf[e.to] + 1 == layerOf[n];
        assert e.to !in next;
      }
    }
  }

  lemma LayersStep(nodes: seq<GraphNode>, edges: seq<GraphEdge>, current: seq<string>, layers: seq<seq<string>>,
                   layerOf: map<string, nat>, processed: set<string>, next: seq<string>)
    requires LayersInvariant(nodes, edges, current, layers, layerOf, processed)
    requires current != [] && Distinct(current) && forall n :: n in current ==> n !in processed
    requires forall n :: n in current ==> n in layerOf && layerOf[n] == |layers|
    requires forall n :: n in next ==> n !in layerOf
    ensures LayersInvariant(nodes, edges, next, layers + [current], WithLayer(layerOf, next, |layers| + 1),
                            processed + set n | n in current)
  {
    FlattenSnoc(layers, current);
    var layers' := layers + [current];
    var layerOf' := WithLayer(layerOf, next, |layers| + 1);
    forall l, k | 0 <= l < |layers'| && 0 <= k < |layers'[l]|
      ensures layers'[l][k] in layerOf' && layerOf'[layers'[l][k]] == l
    {
      if l < |layers| {
        assert layers'[l] == layers[l];
      }
    }
    var f := Flatten(layers);
    assert forall i, j :: 0 <= i < |f| && 0 <= j < |current| ==> f[i] != current[j] by {
      assert forall i :: 0 <= i < |f| ==> f[i] in processed;
    }
  }

  /** The column `current` releases follows it. */
  lemma ReleaseOrderedStep(edges: seq<GraphEdge>, layers: seq<seq<string>>, current: seq<string>,
                           processed: set<string>, next: seq<string>)
    requires ReleaseOrdered(edges, layers, current)
    requires forall n :: n in processed <==> n in Flatten(layers)
    requires next == Released(edges, current, processed)
    ensures ReleaseOrdered(edges, layers + [current], next)
  {
    var layers' := layers + [current];
    forall l | 0 <= l < |layers'|
      ensures ColumnAfter(layers', next, l) == Released(edges, layers'[l], Finished(layers', l))
    {
      assert layers'[..l] == layers[..l];
      if l == |layers| {
        assert layers[..l] == layers;
        IdSetMembers(Flatten(layers));
        assert Finished(layers', l) == processed;
      } else {
        assert layers'[l] == layers[l];
        assert ColumnAfter(layers', next, l) == ColumnAfter(layers, current, l);
      }
    }
  }

  /** Placing column `current` and taking the released nodes as the next column keeps the invariant. */
  lemma LoopInvariantStep(nodes: seq<GraphNode>, edges: seq<GraphEdge>, inDegree: map<string, int>,
                          current: seq<string>, layers: seq<seq<string>>, layerOf: map<string, nat>, processed: set<string>,
                          inDegree': map<string, int>, next: seq<string>)
    requires LoopInvariant(nodes, edges, inDegree, current, layers, layerOf, processed)
    requires current != []
    requires inDegree'.Keys == inDegree.Keys
    requires forall n :: n in inDegree' ==> inDegree'[n] == Remaining(edges, n, layerOf.Keys)
    requires Distinct(next) && forall n :: n in next ==> n in inDegree && n !in layerOf
    requires forall n :: n in inDegree && n !in layerOf ==> (n in next <==> inDegree'[n] == 0)
    requires forall n :: n in next ==> ReleasedBy(edges, n, current)
    requires next == Released(edges, current, processed)
    ensures LoopInvariant(nodes, edges, inDegree', next, layers + [current], WithLayer(layerOf, next, |layers| + 1),
                          processed + set n | n in current)
  {
    ReleaseOrderedStep(edges, layers, current, processed, next);
    CountsStep(nodes, edges, inDegree, current, layerOf, processed, inDegree', next, |layers| + 1);
    ZeroCountDone(edges, inDegree', layerOf.Keys, next);
    ColumnsStep(edges, current, layers, layerOf, next);
    LayersStep(nodes, edges, current, layers, layerOf, processed, next);
  }

  /** When no column is left, the loop has produced a layering. */
  lemma LoopInvariantExit(nodes: seq<GraphNode>, edges: seq<GraphEdge>, inDegree: map<string, int>,
                          layers: seq<seq<string>>, layerOf: map<string, nat>, processed: set<string>)
    requires LoopInvariant(nodes, edges, inDegree, [], layers, layerOf, processed)
    ensures LayeringOf(nodes, edges, layers, layerOf)
  {
    forall n | n in Ids(nodes) && n !in layerOf
      ensures exists e :: e in edges && e.from == n && e.to !in layerOf
    {
      RemainingZero(edges, n, processed);
    }
  }

  /** Unfolding aid: what the invariant gives the column-placing pass, in the form its preconditions take. */
  lemma LoopInvariantReady(nodes: seq<GraphNode>, edges: seq<GraphEdge>, inDegree: map<string, int>,
                           current: seq<string>, layers: seq<seq<string>>, layerOf: map<string, nat>, processed: set<string>)
    requires LoopInvariant(nodes, edges, inDegree, current, layers, layerOf, processed)
    requires EndpointsKnown(nodes, edges)
    ensures forall e :: e in edges ==> e.from in inDegree
    ensures forall n :: n in inDegree ==> inDegree[n] == Remaining(edges, n, processed)
    ensures Distinct(current) && forall n :: n in current ==> n in inDegree && n !in processed
    ensures forall n :: n in layerOf <==> n in processed || n in current
    ensures forall n :: n in current ==> layerOf[n] == |layers|
    ensures forall n :: n in layerOf ==> layerOf[n] <= |layers|
    ensures forall e :: e in edges && e.from in layerOf ==> e.to in layerOf && layerOf[e.to] < layerOf[e.from]
    ensures forall n :: n in inDegree && n !in layerOf ==> inDegree[n] > 0
    ensures forall n :: n in processed + (set n | n in current) ==> n in Ids(nodes)
  {
  }

  lemma PlacementAppend(nodes: seq<GraphNode>, layers: seq<seq<string>>, row: seq<string>)
    ensures Placement(nodes, layers + [row]) == Placement(nodes, layers) + PlaceRow(nodes, row, |row|, |layers|)
  {
    assert (layers + [row])[..|layers|] == layers;
  }

  /**
   * One round of the layering loop: places column `current` after the
   * columns placed so far and collects the nodes it releases as the next
   * column.
   */
  method NextColumn(nodes: seq<GraphNode>, ghost edges: seq<GraphEdge>, adj: map<string, seq<string>>,
                    inDegree: map<string, int>, current: seq<string>, layerIndex: nat, placed: seq<PositionedNode>,
                    ghost layers: seq<seq<string>>, ghost layerOf: map<string, nat>, ghost processed: set<string>)
    returns (inDegree': map<string, int>, next: seq<string>, placed': seq<PositionedNode>,
             ghost layers': seq<seq<string>>, ghost layerOf': map<string, nat>, ghost processed': set<string>)
    requires EndpointsKnown(nodes, edges)
    requires adj.Keys == inDegree.Keys && forall t :: t in adj ==> adj[t] == Dependents(edges, t)
    requires LoopInvariant(nodes, edges, inDegree, current, layers, layerOf, processed)
    requires current != [] && layerIndex == |layers| && placed == Placement(nodes, layers)
    ensures inDegree'.Keys == inDegree.Keys
    ensures LoopInvariant(nodes, edges, inDegree', next, layers', layerOf', processed')
    ensures layers' == layers + [current] && placed' == Placement(nodes, layers')
    ensures processed <= processed' && current[0] in processed' - processed
    ensures forall n :: n in processed' ==> n in Ids(nodes)
  {
    LoopInvariantReady(nodes, edges, inDegree, current, layers, layerOf, processed);
    var row;
    inDegree', next, row := PlaceLayer(nodes, edges, adj, inDegree, current, layerIndex, processed, layerOf);
    LoopInvariantStep(nodes, edges, inDegree, current, layers, layerOf, processed, inDegree', next);
    PlacementAppend(nodes, layers, current);
    placed' := placed + row;
    layers' := layers + [current];
    layerOf' := WithLayer(layerOf, next, |layers| + 1);
    processed' := processed + set n | n in current;
  }

  /**
   * The layout effect's computation: the node and edge passes, the layering
   * loop and the fallback pass. `layers` and `layerOf` are proof-only: the
   * columns the loop peeled off and the column of each layered node.
   */
  method Layout(nodes: seq<GraphNode>, edges: seq<GraphEdge>)
    returns (placed: seq<PositionedNode>, ghost layers: seq<seq<string>>, ghost layerOf: map<string, nat>)
    requires UniqueIds(nodes) && EndpointsKnown(nodes, edges)
    ensures placed == LaidOut(nodes, layers)
    ensures LayeringOf(nodes, edges, layers, layerOf)
    ensures |placed| == |nodes| && Distinct(PlacedIds(placed))
    ensures forall id :: id in Ids(nodes) <==> id in PlacedIds(placed)
    ensures forall k :: 0 <= k < |placed| ==>
      FindNode(nodes, placed[k].id).Some? &&
      placed[k] == Place(FindNode(nodes, placed[k].id).value, placed[k].position.x, placed[k].position.y)
  {
    var inDegree, adj := BuildAdjacency(nodes, edges);
    var current := FirstLayer(nodes, edges, inDegree);
    LoopInvariantInit(nodes, edges, inDegree);
    var columns;
    placed, columns, layers, layerOf := PlaceColumns(nodes, edges, adj, inDegree, current);
    placed := AppendFallback(placed, nodes, columns * XOffset);
    EveryNodeLaidOutOnce(nodes, edges, layers, layerOf);
    LaidOutColumns(nodes, edges, layers, layerOf);
  }

  /**
   * The layering loop: places column after column, each column holding the
   * nodes whose dependencies all sit in earlier columns, until a column
   * comes out empty.
   */
  method PlaceColumns(nodes: seq<GraphNode>, ghost edges: seq<GraphEdge>, adj: map<string, seq<string>>,
                      inDegree0: map<string, int>, current0: seq<string>)
    returns (placed: seq<PositionedNode>, columns: nat, ghost layers: seq<seq<string>>, ghost layerOf: map<string, nat>)
    requires EndpointsKnown(nodes, edges)
    requires adj.Keys == inDegree0.Keys && forall t :: t in adj ==> adj[t] == Dependents(edges, t)
    requires LoopInvariant(nodes, edges, inDegree0, current0, [], map n | n in current0 :: 0, {})
    ensures placed == Placement(nodes, layers) && columns == |layers|
    ensures LayeringOf(nodes, edges, layers, layerOf)
  {
    var inDegree, current := inDegree0, current0;
    placed, columns := [], 0;
    layers, layerOf := [], map n | n in current :: 0;
    ghost var processed: set<string> := {};
    ghost var idSet := set n | n in Ids(nodes);
    while current != []
      invariant LoopInvariant(nodes, edges, inDegree, current, layers, layerOf, processed)
      invariant columns == |layers| && placed == Placement(nodes, layers)
      invariant processed <= idSet && adj.Keys == inDegree.Keys
      decreases idSet - processed
    {
      inDegree, current, placed, layers, layerOf, processed :=
        NextColumn(nodes, edges, adj, inDegree, current, columns, placed, layers, layerOf, processed);
      columns := columns + 1;
    }
    LoopInvariantExit(nodes, edges, inDegree, layers, layerOf, processed);
  }

  // ---------------------------------------------------------------------------
  // The rendered edges and the component's state
  // ---------------------------------------------------------------------------

  /** The id `e-<from>-<to>-<index>` of the `index`-th rendered edge. */
  function EdgeId(e: GraphEdge, index: nat): string
  {
    "e-" + e.from + "-" + e.to + "-" + Text.NatToString(index)
  }

  /** Every edge handed to the renderer as it is, tagged with its position in the list. */
  function RenderEdges(edges: seq<GraphEdge>): (r: seq<RenderedEdge>)
    ensures |r| == |edges|
    ensures forall i :: 0 <= i < |edges| ==> r[i].source == edges[i].from && r[i].target == edges[i].to
  {
    seq(|edges|, i requires 0 <= i < |edges| => RenderedEdge(EdgeId(edges[i], i), edges[i].from, edges[i].to))
  }

  /** Rendered edges get pairwise different ids, even when the same edge is listed twice. */
  lemma RenderedEdgeIdsDistinct(edges: seq<GraphEdge>)
    ensures forall i, j :: 0 <= i < j < |edges| ==> RenderEdges(edges)[i].id != RenderEdges(edges)[j].id
  {
    forall i, j | 0 <= i < j < |edges| ensures EdgeId(edges[i], i) != EdgeId(edges[j], j) {
      if EdgeId(edges[i], i) == EdgeId(edges[j], j) {
        EdgeIdIndex(edges[i], i, edges[j], j);
      }
    }
  }

  /** The index is the text after the last `-` of an edge id. */
  lemma EdgeIdIndex(a: GraphEdge, i: nat, b: GraphEdge, j: nat)
    requires EdgeId(a, i) == EdgeId(b, j)
    ensures i == j
  {
    var di := Text.NatToString(i);
    var dj := Text.NatToString(j);
    assert '-' !in di && '-' !in dj;
    assert EdgeId(a, i) == ("e-" + a.from + "-" + a.to) + ['-'] + di;
    assert EdgeId(b, j) == ("e-" + b.from + "-" + b.to) + ['-'] + dj;
    Text.LastSegmentUnique("e-" + a.from + "-" + a.to, di, "e-" + b.from + "-" + b.to, dj, '-');
    Text.NatToStringInjective(i, j);
  }

  /** `placed` is what the layout produces for `nodes` and `edges`, for the layering the loop finds. */
  ghost predicate IsLayout(nodes: seq<GraphNode>, edges: seq<GraphEdge>, placed: seq<PositionedNode>)
  {
    exists layers, layerOf :: LayeringOf(nodes, edges, layers, layerOf) && placed == LaidOut(nodes, layers)
  }

  /** Columns that start alike and each release the next, with none empty. */
  ghost predicate Chained(edges: seq<GraphEdge>, first: seq<string>, layers: seq<seq<string>>)
  {
    && (if first == [] then layers == [] else |layers| > 0 && layers[0] == first)
    && (forall l :: 0 <= l < |layers| ==> layers[l] != [])
    && ReleaseOrdered(edges, layers, [])
  }

  /** Unfolding aid: `ReleaseOrdered` at one column, without its quantifier in the caller's context. */
  lemma ReleaseOrderedAt(edges: seq<GraphEdge>, layers: seq<seq<string>>, current: seq<string>, l: nat)
    requires ReleaseOrdered(edges, layers, current) && l < |layers|
    ensures ColumnAfter(layers, current, l) == Released(edges, layers[l], Finished(layers, l))
  {
  }

  /** Two chains from the same first column agree on their first `l` columns. */
  lemma {:induction false} ChainedPrefix(edges: seq<GraphEdge>, first: seq<string>,
                                         layers1: seq<seq<string>>, layers2: seq<seq<string>>, l: nat)
    requires Chained(edges, first, layers1) && Chained(edges, first, layers2)
    requires l <= |layers1| && l <= |layers2|
    ensures layers1[..l] == layers2[..l]
  {
    if l == 1 {
      assert layers1[..1] == [layers1[0]] && layers2[..1] == [layers2[0]];
    } else if l > 1 {
      ChainedPrefix(edges, first, layers1, layers2, l - 1);
      assert layers1[l - 1] == layers2[l - 1] by {
        var k := l - 2;
        assert layers1[..l - 1][..k] == layers1[..k] && layers2[..l - 1][..k] == layers2[..k];
        assert layers1[..l - 1][k] == layers1[k] && layers2[..l - 1][k] == layers2[k];
        ReleaseOrderedAt(edges, layers1, [], k);
        ReleaseOrderedAt(edges, layers2, [], k);
      }
      assert layers1[..l] == layers1[..l - 1] + [layers1[l - 1]];
      assert layers2[..l] == layers2[..l - 1] + [layers2[l - 1]];
    }
  }

  /** From the same first column there is one chain: each column fixes the next, and an empty release ends it. */
  lemma ChainedUnique(edges: seq<GraphEdge>, first: seq<string>, layers1: seq<seq<string>>, layers2: seq<seq<string>>)
    requires Chained(edges, first, layers1) && Chained(edges, first, layers2)
    ensures layers1 == layers2
  {
    var short, long := layers1, layers2;
    if |layers2| < |layers1| {
      short, long := layers2, layers1;
    }
    var l := |short|;
    ChainedPrefix(edges, first, short, long, l);
    assert short[..l] == short;
    if l < |long| {
      assert l > 0;
      assert short[..l - 1] == long[..l - 1] by {
        assert short[..l][..l - 1] == short[..l - 1] && long[..l][..l - 1] == long[..l - 1];
      }
      assert short[l - 1] == long[l - 1];
      ReleaseOrderedAt(edges, short, [], l - 1);
      ReleaseOrderedAt(edges, long, [], l - 1);
      assert false;
    }
    assert long[..l] == long;
  }

  /** A graph has one layering: the first column is fixed, and each column fixes the next. */
  lemma LayeringUnique(nodes: seq<GraphNode>, edges: seq<GraphEdge>,
                       layers1: seq<seq<string>>, layerOf1: map<string, nat>,
                       layers2: seq<seq<string>>, layerOf2: map<string, nat>)
    requires LayeringOf(nodes, edges, layers1, layerOf1) && LayeringOf(nodes, edges, layers2, layerOf2)
    ensures layers1 == layers2
  {
    ChainedUnique(edges, ZeroLayer(nodes, edges), layers1, layers2);
  }

  /** The layout a graph gets is a function of the graph: two layouts of it are the same list. */
  lemma LayoutUnique(nodes: seq<GraphNode>, edges: seq<GraphEdge>, placed1: seq<PositionedNode>, placed2: seq<PositionedNode>)
    requires IsLayout(nodes, edges, placed1) && IsLayout(nodes, edges, placed2)
    ensures placed1 == placed2
  {
    var layers1, layerOf1 :| LayeringOf(nodes, edges, layers1, layerOf1) && placed1 == LaidOut(nodes, layers1);
    var layers2, layerOf2 :| LayeringOf(nodes, edges, layers2, layerOf2) && placed2 == LaidOut(nodes, layers2);
    LayeringUnique(nodes, edges, layers1, layerOf1, layers2, layerOf2);
  }

  /** The payload carries both lists. */
  predicate Complete(data: Option<GraphData>)
  {
    data.Some? && data.value.nodes.Some? && data.value.edges.Some?
  }

  /** The graph panel's node and edge state, recomputed whenever a new payload arrives. */
  class GraphView {
    var nodes: seq<PositionedNode>
    var edges: seq<RenderedEdge>

    constructor()
      ensures nodes == [] && edges == []
    {
      nodes := [];
      edges := [];
    }

    /**
     * The layout effect. A missing payload, or one without its node or edge
     * list, leaves the panel as it was; otherwise both lists are replaced.
     */
    method Refresh(data: Option<GraphData>)
      modifies this
      requires Complete(data) ==> UniqueIds(data.value.nodes.value) && EndpointsKnown(data.value.nodes.value, data.value.edges.value)
      ensures !Complete(data) ==> nodes == old(nodes) && edges == old(edges)
      ensures Complete(data) ==> IsLayout(data.value.nodes.value, data.value.edges.value, nodes)
      ensures Complete(data) ==> edges == RenderEdges(data.value.edges.value)
    {
      if data.None? || data.value.nodes.None? || data.value.edges.None? {
        return;
      }
      var dataNodes, dataEdges := data.value.nodes.value, data.value.edges.value;
      var placed;
      ghost var layers, layerOf;
      placed, layers, layerOf := Layout(dataNodes, dataEdges);
      nodes := placed;
      edges := RenderEdges(dataEdges);
    }
  }
}
