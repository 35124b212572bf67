/**
 * The directed graph as a value: a square adjacency matrix of weights, in
 * which row `src` column `dst` holds the weight of the edge `src -> dst`
 * and 0 means no edge. Vertices are the indices `0 .. |m| - 1`.
 *
 * Every mutating operation of the directed graph is given here as a
 * function from the old matrix to the new one, and every query as a
 * function of the matrix; the class in `d_graph.dfy` is proved against
 * them.
 */
module AdjacencyMatrix {

  import opened Basics
  import Traversal

  type Matrix = seq<seq<int>>

  /** An edge as the constructor takes it and `get_edges` reports it: `(src, dst, weight)`. */
  datatype Edge = Edge(src: int, dst: int, weight: int)

  ghost predicate Square(m: Matrix)
  {
    forall i :: 0 <= i < |m| ==> |m[i]| == |m|
  }

  /** What the class keeps true: square, no loops, no negative weights. */
  ghost predicate WellFormed(m: Matrix)
  {
    && Square(m)
    && (forall i :: 0 <= i < |m| ==> m[i][i] == 0)
    && (forall i, j :: 0 <= i < |m| && 0 <= j < |m| ==> m[i][j] >= 0)
  }

  /** Two square matrices with the same cells are the same matrix. */
  lemma SameCells(a: Matrix, b: Matrix)
    requires Square(a) && Square(b) && |a| == |b|
    requires forall i, j :: 0 <= i < |a| && 0 <= j < |a| ==> a[i][j] == b[i][j]
    ensures a == b
  {
    forall i | 0 <= i < |a| ensures a[i] == b[i] {
      assert |a[i]| == |b[i]|;
    }
  }

  /** `n` vertices and no edges. */
  function Zeros(n: nat): (r: Matrix)
    ensures |r| == n && WellFormed(r)
    ensures forall i, j :: 0 <= i < n && 0 <= j < n ==> r[i][j] == 0
  {
    seq(n, _ => seq(n, _ => 0))
  }

  // ---------------------------------------------------------------------
  // Mutations

  /** `add_vertex`: one more row and column, both without edges; every old cell kept. */
  function Grown(m: Matrix): (r: Matrix)
    requires Square(m)
    ensures |r| == |m| + 1 && Square(r)
    ensures forall i, j :: 0 <= i < |m| && 0 <= j < |m| ==> r[i][j] == m[i][j]
    ensures forall k :: 0 <= k <= |m| ==> r[|m|][k] == 0 && r[k][|m|] == 0
    ensures WellFormed(m) ==> WellFormed(r)
  {
    seq(|m| + 1, i requires 0 <= i <= |m| => if i < |m| then m[i] + [0] else seq(|m| + 1, _ => 0))
  }

  /** Growing the empty-edged matrix of `n` vertices gives the one of `n + 1`. */
  lemma GrownZeros(n: nat)
    ensures Grown(Zeros(n)) == Zeros(n + 1)
  {
    SameCells(Grown(Zeros(n)), Zeros(n + 1));
  }

  /** The guards of `add_edge`: both ends are vertices, they differ and the weight is positive. */
  predicate Accepts(n: nat, src: int, dst: int, weight: int)
  {
    0 <= src < n && 0 <= dst < n && src != dst && weight > 0
  }

  /** `add_edge`: sets the weight of `src -> dst` when the guards accept it, and otherwise changes nothing. */
  function WithEdge(m: Matrix, src: int, dst: int, weight: int): (r: Matrix)
    requires Square(m)
    ensures |r| == |m| && Square(r)
    ensures forall i, j :: 0 <= i < |m| && 0 <= j < |m| ==>
      r[i][j] == (if Accepts(|m|, src, dst, weight) && i == src && j == dst then weight else m[i][j])
    ensures WellFormed(m) ==> WellFormed(r)
  {
    if Accepts(|m|, src, dst, weight) then m[src := m[src][dst := weight]] else m
  }

  /** `remove_edge`: clears `src -> dst` when both ends are vertices, and otherwise changes nothing. */
  function WithoutEdge(m: Matrix, src: int, dst: int): (r: Matrix)
    requires Square(m)
    ensures |r| == |m| && Square(r)
    ensures forall i, j :: 0 <= i < |m| && 0 <= j < |m| ==>
      r[i][j] == (if i == src && j == dst then 0 else m[i][j])
    ensures WellFormed(m) ==> WellFormed(r)
  {
    if 0 <= src < |m| && 0 <= dst < |m| then m[src := m[src][dst := 0]] else m
  }

  /** Adding the same edge twice: the later call wins when it is accepted, and otherwise the earlier one stands. */
  lemma AddEdgeTwice(m: Matrix, src: int, dst: int, w1: int, w2: int)
    requires Square(m)
    ensures WithEdge(WithEdge(m, src, dst, w1), src, dst, w2)
         == if Accepts(|m|, src, dst, w2) then WithEdge(m, src, dst, w2) else WithEdge(m, src, dst, w1)
  {
    var a := WithEdge(WithEdge(m, src, dst, w1), src, dst, w2);
    var b := if Accepts(|m|, src, dst, w2) then WithEdge(m, src, dst, w2) else WithEdge(m, src, dst, w1);
    SameCells(a, b);
  }

  /** Removing an edge twice is removing it once. */
  lemma RemoveEdgeIdempotent(m: Matrix, src: int, dst: int)
    requires Square(m)
    ensures WithoutEdge(WithoutEdge(m, src, dst), src, dst) == WithoutEdge(m, src, dst)
  {
    SameCells(WithoutEdge(WithoutEdge(m, src, dst), src, dst), WithoutEdge(m, src, dst));
  }

  /** Removing an edge just added leaves the graph as if it had only been removed. */
  lemma RemoveAfterAdd(m: Matrix, src: int, dst: int, w: int)
    requires Square(m)
    ensures WithoutEdge(WithEdge(m, src, dst, w), src, dst) == WithoutEdge(m, src, dst)
  {
    SameCells(WithoutEdge(WithEdge(m, src, dst, w), src, dst), WithoutEdge(m, src, dst));
  }

  // ---------------------------------------------------------------------
  // The constructor

  /** The loop `v_count = max(v_count, u, v)` over the start edges, from 0. */
  function MaxIndex(edges: seq<Edge>): (r: int)
    ensures r >= 0
    ensures forall e :: e in edges ==> e.src <= r && e.dst <= r
    ensures r == 0 || exists e :: e in edges && (e.src == r || e.dst == r)
  {
    if edges == [] then 0
    else
      var e := edges[|edges| - 1];
      var p := MaxIndex(edges[..|edges| - 1]);
      assert edges == edges[..|edges| - 1] + [e];
      var q := if e.src > p then e.src else p;
      if e.dst > q then e.dst else q
  }

  /** The loop `add_edge(u, v, weight)` over the start edges, in order. */
  function Load(m: Matrix, edges: seq<Edge>): (r: Matrix)
    requires Square(m)
    ensures |r| == |m| && Square(r)
    ensures WellFormed(m) ==> WellFormed(r)
  {
    if edges == [] then m
    else
      var e := edges[|edges| - 1];
      WithEdge(Load(m, edges[..|edges| - 1]), e.src, e.dst, e.weight)
  }

  /** Edge `a` comes before edge `b` in row-major order. */
  predicate EdgeBefore(a: Edge, b: Edge)
  {
    a.src < b.src || (a.src == b.src && a.dst < b.dst)
  }

  /** Edge `e` is a cell of `m`: both ends are vertices and the cell holds its weight, which is not 0. */
  predicate IsCell(m: Matrix, e: Edge)
  {
    0 <= e.src < |m| && 0 <= e.dst < |m[e.src]| && m[e.src][e.dst] != 0 && e.weight == m[e.src][e.dst]
  }

  /** Loading edges that the guards all accept and that name no pair twice gives each named pair its weight. */
  lemma {:induction false} LoadListed(m: Matrix, edges: seq<Edge>)
    requires Square(m)
    requires forall e :: e in edges ==> Accepts(|m|, e.src, e.dst, e.weight)
    requires forall a, b :: 0 <= a < b < |edges| ==> EdgeBefore(edges[a], edges[b])
    ensures forall e :: e in edges ==> IsCell(Load(m, edges), e)
  {
    if edges != [] {
      var pre := edges[..|edges| - 1];
      var l := edges[|edges| - 1];
      assert edges == pre + [l];
      forall a, b | 0 <= a < b < |pre| ensures EdgeBefore(pre[a], pre[b]) {
        assert pre[a] == edges[a] && pre[b] == edges[b];
      }
      LoadListed(m, pre);
      forall e | e in pre ensures e.src != l.src || e.dst != l.dst {
        var a :| 0 <= a < |pre| && pre[a] == e;
        assert EdgeBefore(edges[a], edges[|edges| - 1]);
      }
      var lp := Load(m, pre);
      assert Load(m, edges) == WithEdge(lp, l.src, l.dst, l.weight);
      assert Accepts(|lp|, l.src, l.dst, l.weight);
    }
  }

  /** A cell that no loaded edge names keeps its value. */
  lemma {:induction false} LoadUntouched(m: Matrix, edges: seq<Edge>)
    requires Square(m)
    ensures forall i, j :: 0 <= i < |m| && 0 <= j < |m| && (forall e :: e in edges ==> e.src != i || e.dst != j) ==>
      Load(m, edges)[i][j] == m[i][j]
  {
    if edges != [] {
      var pre := edges[..|edges| - 1];
      var l := edges[|edges| - 1];
      assert edges == pre + [l];
      LoadUntouched(m, pre);
      var lp := Load(m, pre);
      assert Load(m, edges) == WithEdge(lp, l.src, l.dst, l.weight);
    }
  }

  // ---------------------------------------------------------------------
  // Queries

  /** `get_edges` restricted to row `src`, columns `0 .. k - 1`. */
  function RowEdges(m: Matrix, src: int, k: nat): seq<Edge>
    requires 0 <= src < |m| && k <= |m[src]|
  {
    if k == 0 then []
    else RowEdges(m, src, k - 1) + if m[src][k - 1] != 0 then [Edge(src, k - 1, m[src][k - 1])] else []
  }

  /** `get_edges` restricted to rows `0 .. rows - 1`. */
  function EdgesBefore(m: Matrix, rows: nat): seq<Edge>
    requires Square(m) && rows <= |m|
  {
    if rows == 0 then [] else EdgesBefore(m, rows - 1) + RowEdges(m, rows - 1, |m|)
  }

  /** A row lists its nonzero cells of columns below `k`, in column order. */
  lemma {:induction false} RowEdgesListed(m: Matrix, src: int, k: nat)
    requires 0 <= src < |m| && k <= |m[src]|
    ensures forall e :: e in RowEdges(m, src, k) <==> IsCell(m, e) && e.src == src && e.dst < k
    ensures forall a, b :: 0 <= a < b < |RowEdges(m, src, k)| ==>
      RowEdges(m, src, k)[a].src == src && RowEdges(m, src, k)[b].src == src && RowEdges(m, src, k)[a].dst < RowEdges(m, src, k)[b].dst
  {
    if k > 0 {
      RowEdgesListed(m, src, k - 1);
      var pre := RowEdges(m, src, k - 1);
      var last := if m[src][k - 1] != 0 then [Edge(src, k - 1, m[src][k - 1])] else [];
      var r := RowEdges(m, src, k);
      assert r == pre + last;
      forall a, b | 0 <= a < b < |r| ensures r[a].src == src && r[b].src == src && r[a].dst < r[b].dst {
        if b >= |pre| {
          assert r[a] == pre[a] && pre[a] in pre;
          assert r[b] == last[0] == Edge(src, k - 1, m[src][k - 1]);
        } else {
          assert r[a] == pre[a] && r[b] == pre[b];
        }
      }
      assert forall e :: e in r <==> e in pre || e in last;
    } else {
      assert RowEdges(m, src, k) == [];
    }
  }

  /** The first `rows` rows list exactly their nonzero cells. */
  lemma {:induction false} EdgesBeforeMembers(m: Matrix, rows: nat)
    requires Square(m) && rows <= |m|
    ensures forall e :: e in EdgesBefore(m, rows) <==> IsCell(m, e) && e.src < rows
  {
    if rows > 0 {
      EdgesBeforeMembers(m, rows - 1);
      RowEdgesListed(m, rows - 1, |m|);
      var pre := EdgesBefore(m, rows - 1);
      var row := RowEdges(m, rows - 1, |m|);
      assert EdgesBefore(m, rows) == pre + row;
      forall e | IsCell(m, e) && e.src < rows ensures e in pre + row {
        if e.src == rows - 1 {
          assert e in row;
        } else {
          assert e in pre;
        }
      }
    }
  }

  /** The first `rows` rows list their nonzero cells in row-major order. */
  lemma {:induction false} EdgesBeforeOrdered(m: Matrix, rows: nat)
    requires Square(m) && rows <= |m|
    ensures forall a, b :: 0 <= a < b < |EdgesBefore(m, rows)| ==> EdgeBefore(EdgesBefore(m, rows)[a], EdgesBefore(m, rows)[b])
  {
    if rows > 0 {
      EdgesBeforeOrdered(m, rows - 1);
      EdgesBeforeMembers(m, rows - 1);
      RowEdgesListed(m, rows - 1, |m|);
      var pre := EdgesBefore(m, rows - 1);
      var row := RowEdges(m, rows - 1, |m|);
      assert forall x, y :: x in pre && y in row ==> x.src < y.src;
      OrderedConcat(pre, row);
    }
  }

  /** An ordered list followed by an ordered list of edges from later rows is ordered. */
  lemma OrderedConcat(pre: seq<Edge>, row: seq<Edge>)
    requires forall a, b :: 0 <= a < b < |pre| ==> EdgeBefore(pre[a], pre[b])
    requires forall a, b :: 0 <= a < b < |row| ==> EdgeBefore(row[a], row[b])
    requires forall x, y :: x in pre && y in row ==> x.src < y.src
    ensures forall a, b :: 0 <= a < b < |pre + row| ==> EdgeBefore((pre + row)[a], (pre + row)[b])
  {
    var r := pre + row;
    forall a, b | 0 <= a < b < |r| ensures EdgeBefore(r[a], r[b]) {
      if a >= |pre| {
        assert r[a] == row[a - |pre|] && r[b] == row[b - |pre|];
      } else if b >= |pre| {
        assert r[a] == pre[a] && r[b] == row[b - |pre|];
        assert r[a] in pre && r[b] in row;
      } else {
        assert r[a] == pre[a] && r[b] == pre[b];
      }
    }
  }

  /**
   * `get_edges`: an edge is listed exactly when its cell is nonzero, with
   * that cell as its weight, and the list is in row-major order, so no
   * edge is listed twice.
   */
  function EdgeList(m: Matrix): (r: seq<Edge>)
    requires Square(m)
    ensures forall e :: e in r <==> IsCell(m, e)
    ensures forall a, b :: 0 <= a < b < |r| ==> EdgeBefore(r[a], r[b])
  {
    EdgesBeforeMembers(m, |m|);
    EdgesBeforeOrdered(m, |m|);
    EdgesBefore(m, |m|)
  }

  /** Every edge `get_edges` lists on a well-formed graph passes the guards of `add_edge` on `MaxIndex + 1` vertices. */
  lemma EdgeListAccepted(m: Matrix)
    requires WellFormed(m)
    ensures var es := EdgeList(m);
      forall e :: e in es ==> Accepts(MaxIndex(es) + 1, e.src, e.dst, e.weight)
  {
  }

  /**
   * Round trip: building a graph from `get_edges()` gives back the same
   * edges with the same weights, on `max index + 1` vertices (one vertex
   * when there are no edges).
   */
  lemma RebuildFromEdges(m: Matrix)
    requires WellFormed(m)
    ensures var n := MaxIndex(EdgeList(m)) + 1;
      var r := Load(Zeros(n), EdgeList(m));
      && |r| == n
      && (forall i, j :: 0 <= i < n && 0 <= j < n ==> r[i][j] == if i < |m| && j < |m| then m[i][j] else 0)
      && (forall i, j :: 0 <= i < |m| && 0 <= j < |m| && m[i][j] != 0 ==> i < n && j < n)
  {
    var es := EdgeList(m);
    var n := MaxIndex(es) + 1;
    var z := Zeros(n);
    RebuildAt(m, es, n, z, Load(z, es));
  }

  /** `RebuildFromEdges`, with the edge list, the vertex count and the two matrices named. */
  lemma RebuildAt(m: Matrix, es: seq<Edge>, n: nat, z: Matrix, r: Matrix)
    requires WellFormed(m) && es == EdgeList(m) && n == MaxIndex(es) + 1 && z == Zeros(n) && r == Load(z, es)
    ensures |r| == n
    ensures forall i, j :: 0 <= i < n && 0 <= j < n ==> r[i][j] == if i < |m| && j < |m| then m[i][j] else 0
    ensures forall i, j :: 0 <= i < |m| && 0 <= j < |m| && m[i][j] != 0 ==> i < n && j < n
  {
    EdgeListAccepted(m);
    LoadListed(z, es);
    LoadUntouched(z, es);
    RebuildCells(m, es, n, z, r);
    forall i, j | 0 <= i < |m| && 0 <= j < |m| && m[i][j] != 0 ensures i < n && j < n {
      assert IsCell(m, Edge(i, j, m[i][j]));
    }
  }

  /** Every cell of the rebuilt matrix, given what loading the listed edges does. */
  lemma RebuildCells(m: Matrix, es: seq<Edge>, n: nat, z: Matrix, r: Matrix)
    requires Square(m) && Square(z) && |z| == n && |r| == n && Square(r)
    requires forall e :: e in es <==> IsCell(m, e)
    requires forall e :: e in es ==> IsCell(r, e)
    requires forall i, j :: 0 <= i < |z| && 0 <= j < |z| ==> z[i][j] == 0
    requires forall i, j :: 0 <= i < |z| && 0 <= j < |z| && (forall e :: e in es ==> e.src != i || e.dst != j) ==> r[i][j] == z[i][j]
    ensures forall i, j :: 0 <= i < n && 0 <= j < n ==> r[i][j] == if i < |m| && j < |m| then m[i][j] else 0
  {
    forall i, j | 0 <= i < n && 0 <= j < n ensures r[i][j] == if i < |m| && j < |m| then m[i][j] else 0 {
      RebuildCell(m, es, z, r, i, j);
    }
  }

  lemma RebuildCell(m: Matrix, es: seq<Edge>, z: Matrix, r: Matrix, i: int, j: int)
    requires Square(m) && Square(z) && |r| == |z| && Square(r)
    requires forall e :: e in es <==> IsCell(m, e)
    requires forall e :: e in es ==> IsCell(r, e)
    requires forall i, j :: 0 <= i < |z| && 0 <= j < |z| ==> z[i][j] == 0
    requires forall i, j :: 0 <= i < |z| && 0 <= j < |z| && (forall e :: e in es ==> e.src != i || e.dst != j) ==> r[i][j] == z[i][j]
    requires 0 <= i < |z| && 0 <= j < |z|
    ensures r[i][j] == if i < |m| && j < |m| then m[i][j] else 0
  {
    if i < |m| && j < |m| && m[i][j] != 0 {
      assert IsCell(m, Edge(i, j, m[i][j]));
      assert IsCell(r, Edge(i, j, m[i][j]));
    } else {
      forall e | e in es ensures e.src != i || e.dst != j {
        assert IsCell(m, e);
      }
    }
  }

  /** `u -> v` is an edge: both are vertices and the cell is nonzero. */
  predicate HasEdge(m: Matrix, u: int, v: int)
  {
    0 <= u < |m| && 0 <= v < |m[u]| && m[u][v] != 0
  }

  /** An edge of the matrix is exactly an entry of `get_edges` with those ends. */
  lemma HasEdgeListed(m: Matrix, u: int, v: int)
    requires Square(m)
    ensures HasEdge(m, u, v) <==> exists e :: e in EdgeList(m) && e.src == u && e.dst == v
  {
    if HasEdge(m, u, v) {
      assert IsCell(m, Edge(u, v, m[u][v]));
    }
  }

  /** Every consecutive pair of `path` is an edge. */
  predicate Linked(m: Matrix, path: seq<int>)
  {
    forall i :: 0 <= i < |path| - 1 ==> HasEdge(m, path[i], path[i + 1])
  }

  /** `is_valid_path` as written: a path of at most one element is accepted whatever it holds. */
  predicate ValidPath(m: Matrix, path: seq<int>)
  {
    |path| <= 1 || Linked(m, path)
  }

  /** A one-element path naming no vertex is accepted: `[7]` on a graph without vertices. */
  lemma ValidPathAcceptsNonVertex()
    ensures var m := Zeros(0); ValidPath(m, [7]) && !(0 <= 7 < |m|)
  {
  }

  /**
   * `is_valid_path` as its comments intend: the empty path, a single
   * vertex of the graph, or a walk along edges.
   */
  predicate IntendedValidPath(m: Matrix, path: seq<int>)
  {
    |path| == 0 || (0 <= path[0] < |m| && Linked(m, path))
  }

  // ---------------------------------------------------------------------
  // Depth-first search

  /** The vertex indices `0 .. n - 1`. */
  function Vertices(n: nat): (r: set<int>)
    ensures forall v :: v in r <==> 0 <= v < n
  {
    if n == 0 then {} else Vertices(n - 1) + {n - 1}
  }

  /** The columns `0 .. k - 1` of `row` that hold an edge, ascending. */
  function Columns(row: seq<int>, k: nat): (r: seq<int>)
    requires k <= |row|
    ensures forall j :: j in r <==> 0 <= j < k && row[j] != 0
    ensures Ascending(r)
  {
    if k == 0 then []
    else
      var pre := Columns(row, k - 1);
      var r := pre + if row[k - 1] != 0 then [k - 1] else [];
      assert forall a :: 0 <= a < |pre| ==> r[a] == pre[a] && pre[a] in pre;
      r
  }

  /** The successors of `v` in ascending order; none for a non-vertex. */
  function SuccessorsOf(m: Matrix, v: int): (r: seq<int>)
    ensures forall w :: w in r <==> HasEdge(m, v, w)
    ensures Ascending(r)
  {
    if 0 <= v < |m| then Columns(m[v], |m[v]|) else []
  }

  /** The inner loop of `dfs`: the destinations of the listed edges leaving `v`, in list order. */
  function Destinations(edges: seq<Edge>, v: int): seq<int>
  {
    if edges == [] then []
    else
      var e := edges[|edges| - 1];
      Destinations(edges[..|edges| - 1], v) + if e.src == v then [e.dst] else []
  }

  /** Strictly increasing. */
  predicate Ascending(s: seq<int>)
  {
    forall a, b :: 0 <= a < b < |s| ==> s[a] < s[b]
  }

  /** Two strictly increasing sequences with the same members are equal. */
  lemma {:induction false} AscendingUnique(a: seq<int>, b: seq<int>)
    requires Ascending(a) && Ascending(b)
    requires forall x :: x in a <==> x in b
    ensures a == b
    decreases |a|
  {
    DistinctCardinality(a);
    DistinctCardinality(b);
    assert Elements(a) == Elements(b);
    if a != [] {
      assert a[0] in a && b[0] in b;
      AscendingHeadLeast(a, b[0]);
      AscendingHeadLeast(b, a[0]);
      forall x ensures x in a[1..] <==> x in b[1..] {
        TailMembers(a, x);
        TailMembers(b, x);
      }
      AscendingUnique(a[1..], b[1..]);
      assert a == [a[0]] + a[1..] && b == [b[0]] + b[1..];
    }
  }

  lemma AscendingHeadLeast(a: seq<int>, x: int)
    requires Ascending(a) && x in a
    ensures a[0] <= x
  {
    var k :| 0 <= k < |a| && a[k] == x;
    assert k == 0 || a[0] < a[k];
  }

  lemma TailMembers(a: seq<int>, x: int)
    requires Ascending(a) && a != []
    ensures x in a[1..] <==> x in a && x != a[0]
  {
    if x in a[1..] {
      var k :| 0 <= k < |a[1..]| && a[1..][k] == x;
      assert a[k + 1] == x && a[0] < a[k + 1];
    }
    if x in a && x != a[0] {
      var k :| 0 <= k < |a| && a[k] == x;
      assert a[1..][k - 1] == x;
    }
  }

  /** On a list in row-major order, the scan collects exactly the destinations of the edges leaving `v`, in increasing order. */
  lemma {:induction false} DestinationsListed(edges: seq<Edge>, v: int)
    requires forall a, b :: 0 <= a < b < |edges| ==> EdgeBefore(edges[a], edges[b])
    ensures forall w :: w in Destinations(edges, v) <==> exists e :: e in edges && e.src == v && e.dst == w
    ensures Ascending(Destinations(edges, v))
  {
    if edges != [] {
      var pre := edges[..|edges| - 1];
      var l := edges[|edges| - 1];
      var tail := if l.src == v then [l.dst] else [];
      assert edges == pre + [l];
      forall a, b | 0 <= a < b < |pre| ensures EdgeBefore(pre[a], pre[b]) {
        assert pre[a] == edges[a] && pre[b] == edges[b];
      }
      DestinationsListed(pre, v);
      var d := Destinations(pre, v);
      var r := Destinations(edges, v);
      assert r == d + tail;
      if tail != [] {
        forall x | x in d ensures x < l.dst {
          var e :| e in pre && e.src == v && e.dst == x;
          var a :| 0 <= a < |pre| && pre[a] == e;
          assert EdgeBefore(edges[a], edges[|edges| - 1]);
        }
        forall a, b | 0 <= a < b < |r| ensures r[a] < r[b] {
          if b == |d| {
            assert r[a] == d[a] && d[a] in d;
          } else {
            assert r[a] == d[a] && r[b] == d[b];
          }
        }
      } else {
        assert r == d;
      }
      forall w ensures w in r <==> exists e :: e in edges && e.src == v && e.dst == w {
        if w in r && w !in d {
          assert l in edges;
        }
      }
    } else {
      assert Destinations(edges, v) == [];
    }
  }

  /** Scanning `get_edges()` for the edges leaving `v` collects its successors in ascending order. */
  lemma DestinationsAreSuccessors(m: Matrix, v: int)
    requires Square(m)
    ensures Destinations(EdgeList(m), v) == SuccessorsOf(m, v)
  {
    var es := EdgeList(m);
    DestinationsListed(es, v);
    forall w ensures w in Destinations(es, v) <==> w in SuccessorsOf(m, v) {
      HasEdgeListed(m, v, w);
    }
    AscendingUnique(Destinations(es, v), SuccessorsOf(m, v));
  }

  /** The successors in the order `dfs` pushes them: sorted, then reversed, so the smallest is popped first. */
  function PushOrder(m: Matrix): (f: int -> seq<int>)
    requires Square(m)
    ensures Traversal.Closed(Vertices(|m|), f)
    ensures forall v :: f(v) == Reverse(SuccessorsOf(m, v))
  {
    v => Reverse(SuccessorsOf(m, v))
  }

  /** A walk along the push order is a path along edges. */
  lemma WalkIsLinked(m: Matrix, p: seq<int>)
    requires Square(m)
    ensures Traversal.IsWalk(PushOrder(m), p) <==> |p| > 0 && Linked(m, p)
  {
    var f := PushOrder(m);
    assert forall i :: 0 <= i < |p| - 1 ==> (p[i + 1] in f(p[i]) <==> HasEdge(m, p[i], p[i + 1]));
  }

  /** The intended check accepts exactly the walks along edges that start at a vertex. */
  lemma IntendedValidPathIsWalk(m: Matrix, path: seq<int>)
    requires Square(m)
    ensures IntendedValidPath(m, path) <==> path == [] || (path[0] in Vertices(|m|) && Traversal.IsWalk(PushOrder(m), path))
  {
    WalkIsLinked(m, path);
  }

  /** The check as written accepts every path the intended one does, and in addition only `[v]` for a non-vertex `v`. */
  lemma ValidPathVersusIntended(m: Matrix, path: seq<int>)
    ensures IntendedValidPath(m, path) ==> ValidPath(m, path)
    ensures ValidPath(m, path) && !IntendedValidPath(m, path) <==> |path| == 1 && !(0 <= path[0] < |m|)
  {
    if |path| >= 2 && Linked(m, path) {
      assert HasEdge(m, path[0], path[1]);
    }
  }

  /** `t` can be reached from `s` along edges. */
  ghost predicate Reaches(m: Matrix, s: int, t: int)
  {
    exists p :: |p| > 0 && p[0] == s && p[|p| - 1] == t && Linked(m, p)
  }

  lemma ReachesIsReachable(m: Matrix, s: int, t: int)
    requires Square(m)
    ensures Traversal.Reachable(PushOrder(m), s, t) <==> Reaches(m, s, t)
  {
    if Reaches(m, s, t) {
      var p :| |p| > 0 && p[0] == s && p[|p| - 1] == t && Linked(m, p);
      WalkIsLinked(m, p);
    }
    if Traversal.Reachable(PushOrder(m), s, t) {
      var p :| Traversal.IsWalk(PushOrder(m), p) && p[0] == s && p[|p| - 1] == t;
      WalkIsLinked(m, p);
    }
  }

  /** A walk in push order is a walk along nonzero cells. */
  lemma ReachableIsReaches(m: Matrix, s: int, t: int)
    requires Square(m) && Traversal.Reachable(PushOrder(m), s, t)
    ensures Reaches(m, s, t)
  {
    ReachesIsReachable(m, s, t);
  }

  /** A walk along nonzero cells is a walk in push order. */
  lemma ReachesInPushOrder(m: Matrix, s: int, t: int)
    requires Square(m) && Reaches(m, s, t)
    ensures Traversal.Reachable(PushOrder(m), s, t)
  {
    ReachesIsReachable(m, s, t);
  }

  /** The stop vertex of `dfs`: `v_end` counts only when it is truthy, so `None` and `0` both mean no target. */
  function Target(vEnd: Option<int>): (r: Option<int>)
    ensures r.Some? <==> vEnd.Some? && vEnd.value != 0
    ensures r.Some? ==> r == vEnd
  {
    if vEnd.Some? && vEnd.value != 0 then vEnd else None
  }

  /** `dfs(v_start, v_end)`: the stack traversal over the push order. */
  function DepthFirst(m: Matrix, start: int, vEnd: Option<int>): seq<int>
    requires Square(m)
  {
    Traversal.Traverse(Traversal.Lifo, Vertices(|m|), PushOrder(m), start, Target(vEnd))
  }

  /**
   * What `dfs` returns: nothing for a start that is not a vertex; otherwise
   * the start first, no vertex twice, only vertices reachable from the
   * start, the target last once it is listed, and every reachable vertex
   * when there is no (truthy) target or it was never reached.
   */
  lemma DepthFirstProperties(m: Matrix, start: int, vEnd: Option<int>)
    requires Square(m)
    ensures var r := DepthFirst(m, start, vEnd);
      && (!(0 <= start < |m|) ==> r == [])
      && (0 <= start < |m| ==> |r| > 0 && r[0] == start)
      && NoDuplicates(r)
      && (forall x :: x in r ==> 0 <= x < |m| && Reaches(m, start, x))
      && (Target(vEnd).Some? && vEnd.value in r ==> r[|r| - 1] == vEnd.value)
      && (0 <= start < |m| && (Target(vEnd).None? || vEnd.value !in r) ==>
            forall x :: Reaches(m, start, x) ==> x in r)
  {
    DepthFirstShape(m, start, vEnd);
    DepthFirstSound(m, start, vEnd);
    DepthFirstComplete(m, start, vEnd);
  }

  /** Where `dfs` starts and stops, and that it lists no vertex twice. */
  lemma DepthFirstShape(m: Matrix, start: int, vEnd: Option<int>)
    requires Square(m)
    ensures var r := DepthFirst(m, start, vEnd);
      && (!(0 <= start < |m|) ==> r == [])
      && (0 <= start < |m| ==> |r| > 0 && r[0] == start)
      && NoDuplicates(r)
      && (Target(vEnd).Some? && vEnd.value in r ==> r[|r| - 1] == vEnd.value)
  {
    Traversal.TraverseShape(Traversal.Lifo, Vertices(|m|), PushOrder(m), start, Target(vEnd));
  }

  /** `dfs` lists only vertices reachable from the start. */
  lemma DepthFirstSound(m: Matrix, start: int, vEnd: Option<int>)
    requires Square(m)
    ensures forall x :: x in DepthFirst(m, start, vEnd) ==> 0 <= x < |m| && Reaches(m, start, x)
  {
    var f := PushOrder(m);
    var r := DepthFirst(m, start, vEnd);
    forall x | x in r ensures 0 <= x < |m| && Reaches(m, start, x) {
      Traversal.TraverseSound(Traversal.Lifo, Vertices(|m|), f, start, Target(vEnd), x);
      ReachableIsReaches(m, start, x);
    }
  }

  /** Without a (truthy) target that it reaches, `dfs` lists every vertex reachable from a start vertex. */
  lemma DepthFirstComplete(m: Matrix, start: int, vEnd: Option<int>)
    requires Square(m)
    ensures var r := DepthFirst(m, start, vEnd);
      0 <= start < |m| && (Target(vEnd).None? || vEnd.value !in r) ==> forall x :: Reaches(m, start, x) ==> x in r
  {
    var f := PushOrder(m);
    var r := DepthFirst(m, start, vEnd);
    if 0 <= start < |m| && (Target(vEnd).None? || vEnd.value !in r) {
      forall x | Reaches(m, start, x) ensures x in r {
        ReachesInPushOrder(m, start, x);
        Traversal.TraverseComplete(Traversal.Lifo, Vertices(|m|), f, start, Target(vEnd), x);
      }
    }
  }

  /** A target reachable from the start ends the output. */
  lemma DepthFirstStopsAtTarget(m: Matrix, start: int, t: int)
    requires Square(m) && 0 <= start < |m| && t != 0 && Reaches(m, start, t)
    ensures var r := DepthFirst(m, start, Some(t)); |r| > 0 && r[|r| - 1] == t
  {
    var verts := Vertices(|m|);
    var f := PushOrder(m);
    ReachesInPushOrder(m, start, t);
    Traversal.TraverseStopsAtTarget(Traversal.Lifo, verts, f, start, t);
    assert DepthFirst(m, start, Some(t)) == Traversal.Traverse(Traversal.Lifo, verts, f, start, Some(t));
  }

  /** After the start, `dfs` visits the start's smallest successor, unless the start is the target. */
  lemma DepthFirstVisitsSmallestSuccessor(m: Matrix, start: int, vEnd: Option<int>, w: int)
    requires WellFormed(m) && HasEdge(m, start, w)
    requires Target(vEnd) != Some(start)
    ensures var r := DepthFirst(m, start, vEnd);
      && |r| >= 2
      && HasEdge(m, start, r[1])
      && forall k :: 0 <= k < r[1] ==> !HasEdge(m, start, k)
  {
    var f := PushOrder(m);
    var succ := SuccessorsOf(m, start);
    assert w in succ;
    assert f(start) == Reverse(succ);
    assert Traversal.Pick(Traversal.Lifo, f(start)) == succ[0];
    assert succ[0] in succ;
    Traversal.TraverseListsNext(Traversal.Lifo, Vertices(|m|), f, start, Target(vEnd));
    AscendingLeast(succ);
  }

  /** The head of a strictly increasing sequence is its least element. */
  lemma AscendingLeast(s: seq<int>)
    requires Ascending(s)
    ensures forall x :: x in s ==> s[0] <= x
  {
    forall x | x in s ensures s[0] <= x {
      AscendingHeadLeast(s, x);
    }
  }

  /** `w` is the smallest successor of `u` outside `seen`. */
  ghost predicate SmallestUnvisited(m: Matrix, u: int, seen: seq<int>, w: int)
  {
    HasEdge(m, u, w) && w !in seen && forall x :: 0 <= x < w && HasEdge(m, u, x) ==> x in seen
  }

  /** Every successor of `u` lies in `seen`. */
  ghost predicate AllVisited(m: Matrix, u: int, seen: seq<int>)
  {
    forall x :: HasEdge(m, u, x) ==> x in seen
  }

  /** The `k`-th vertex of `r` is the smallest unvisited successor of the latest vertex before it that still has one. */
  ghost predicate DepthFirstNext(m: Matrix, r: seq<int>, k: nat)
    requires k < |r|
  {
    exists j :: 0 <= j < k && SmallestUnvisited(m, r[j], r[..k], r[k]) &&
      forall i :: j < i < k ==> AllVisited(m, r[i], r[..k])
  }

  /**
   * `dfs` at every step: each vertex listed after the start is the smallest
   * unvisited successor of the latest listed vertex that still has one, and
   * unless the walk stopped at `v_end`, every successor of a listed vertex is
   * listed.
   */
  lemma DepthFirstOrder(m: Matrix, start: int, vEnd: Option<int>)
    requires Square(m) && 0 <= start < |m|
    ensures var r := DepthFirst(m, start, vEnd);
      && |r| > 0 && r[0] == start
      && (forall k :: 1 <= k < |r| ==> DepthFirstNext(m, r, k))
      && (Target(vEnd).None? || Target(vEnd).value !in r ==> forall i :: 0 <= i < |r| ==> AllVisited(m, r[i], r))
  {
    var f := PushOrder(m);
    var r := DepthFirst(m, start, vEnd);
    Traversal.TraverseInOrder(Traversal.Lifo, Vertices(|m|), f, start, Target(vEnd));
    forall k | 1 <= k < |r| ensures DepthFirstNext(m, r, k) {
      var j := DepthFirstParent(m, f, r, k);
    }
    if Target(vEnd).None? || Target(vEnd).value !in r {
      Traversal.NextVisitNone(Traversal.Lifo, f, r, Elements(r));
      forall i | 0 <= i < |r| ensures AllVisited(m, r[i], r) {
        forall x | HasEdge(m, r[i], x) ensures x in r {
          assert x in f(r[i]);
        }
      }
    }
  }

  /** The parent of the `k`-th vertex of a depth-first output, read off `NextVisit`. */
  lemma DepthFirstParent(m: Matrix, f: int -> seq<int>, r: seq<int>, k: nat) returns (j: nat)
    requires Square(m) && forall v :: f(v) == Reverse(SuccessorsOf(m, v))
    requires k < |r| && Some(r[k]) == Traversal.NextVisit(Traversal.Lifo, f, r[..k], Elements(r[..k]))
    ensures j < k && SmallestUnvisited(m, r[j], r[..k], r[k])
    ensures forall i :: j < i < k ==> AllVisited(m, r[i], r[..k])
  {
    var out := r[..k];
    var p;
    j, p := Traversal.NextVisitChoice(Traversal.Lifo, f, out, Elements(out), r[k]);
    var succ := SuccessorsOf(m, r[j]);
    assert out[j] == r[j];
    assert f(r[j]) == Reverse(succ);
    forall x | 0 <= x < r[k] && HasEdge(m, r[j], x) ensures x in out {
      var q := ReversedAscendingEarlier(succ, p, x);
      assert Traversal.TakenBefore(Traversal.Lifo, q, p);
    }
    forall i | j < i < k ensures AllVisited(m, r[i], out) {
      assert out[i] == r[i];
      forall x | HasEdge(m, r[i], x) ensures x in out {
        assert x in f(out[i]);
        assert Traversal.TakenBefore(Traversal.Lifo, i, j);
      }
    }
  }

  /** In a reversed ascending list, a member smaller than the one at `p` sits after `p`. */
  lemma ReversedAscendingEarlier(s: seq<int>, p: nat, x: int) returns (q: nat)
    requires Ascending(s) && p < |s| && x in s && x < Reverse(s)[p]
    ensures p < q < |s| && Reverse(s)[q] == x
  {
    var t :| 0 <= t < |s| && s[t] == x;
    var n := |s|;
    assert Reverse(s)[p] == s[n - 1 - p];
    assert t < n - 1 - p;
    q := n - 1 - t;
  }
}
