/**
 * The directed weighted graph: a vertex count and an adjacency matrix that
 * the methods update in place. Each method is proved against the matrix
 * functions of `AdjacencyMatrix`, whose properties are proved there.
 */
module DGraph {

  import opened Basics
  import opened AdjacencyMatrix
  import Traversal

  class DirectedGraph {
    var vCount: nat
    var adjMatrix: Matrix

    /** One row and one column per vertex, no loops, no negative weights. */
    ghost predicate Valid()
      reads this
    {
      |adjMatrix| == vCount && WellFormed(adjMatrix)
    }

    /** `DirectedGraph()`: no vertices. */
    constructor ()
      ensures Valid()
      ensures vCount == 0 && adjMatrix == []
    {
      vCount := 0;
      adjMatrix := [];
    }

    /**
     * `DirectedGraph(start_edges)`: as many vertices as the largest index
     * named plus one, then every start edge added in order, so that edges
     * the guards of `add_edge` refuse are dropped.
     */
    constructor FromEdges(startEdges: seq<Edge>)
      ensures Valid()
      ensures vCount == MaxIndex(startEdges) + 1
      ensures adjMatrix == Load(Zeros(vCount), startEdges)
    {
      vCount := 0;
      adjMatrix := [];
      new;
      var count := LargestIndex(startEdges);
      AddVertices(count + 1);
      LoadEdges(startEdges);
    }

    /** The second loop of the constructor: `add_vertex()` called `n` times on a graph without edges. */
    method AddVertices(n: nat)
      requires Valid() && adjMatrix == Zeros(vCount)
      modifies this
      ensures Valid() && vCount == old(vCount) + n && adjMatrix == Zeros(vCount)
    {
      var i := 0;
      while i < n
        invariant 0 <= i <= n
        invariant vCount == old(vCount) + i && adjMatrix == Zeros(vCount)
      {
        GrownZeros(vCount);
        var _ := AddVertex();
        i := i + 1;
      }
    }

    /** The third loop of the constructor: `add_edge(u, v, weight)` for each start edge in order. */
    method LoadEdges(startEdges: seq<Edge>)
      requires Valid()
      modifies this
      ensures Valid() && vCount == old(vCount)
      ensures adjMatrix == Load(old(adjMatrix), startEdges)
    {
      var k := 0;
      while k < |startEdges|
        invariant 0 <= k <= |startEdges|
        invariant vCount == old(vCount) && |adjMatrix| == vCount
        invariant adjMatrix == Load(old(adjMatrix), startEdges[..k])
      {
        var e := startEdges[k];
        assert startEdges[..k + 1][..k] == startEdges[..k];
        AddEdge(e.src, e.dst, e.weight);
        k := k + 1;
      }
      assert startEdges[..k] == startEdges;
    }

    /** The first loop of the constructor: the largest index the start edges name, or 0. */
    static method LargestIndex(startEdges: seq<Edge>) returns (count: int)
      ensures count == MaxIndex(startEdges)
    {
      count := 0;
      var k := 0;
      while k < |startEdges|
        invariant 0 <= k <= |startEdges|
        invariant count == MaxIndex(startEdges[..k])
      {
        var e := startEdges[k];
        assert startEdges[..k + 1][..k] == startEdges[..k];
        if e.src > count {
          count := e.src;
        }
        if e.dst > count {
          count := e.dst;
        }
        k := k + 1;
      }
      assert startEdges[..k] == startEdges;
    }

    /** `add_vertex`: a new row of zeros, a zero at the end of every old row; returns the new count. */
    method AddVertex() returns (count: nat)
      requires Valid()
      modifies this
      ensures Valid()
      ensures vCount == old(vCount) + 1 && count == vCount
      ensures adjMatrix == Grown(old(adjMatrix))
    {
      ghost var before := adjMatrix;
      vCount := vCount + 1;
      adjMatrix := adjMatrix + [seq(vCount, _ => 0)];
      var i := 0;
      while i < vCount - 1
        invariant 0 <= i <= vCount - 1 && |before| == vCount - 1
        invariant |adjMatrix| == vCount
        invariant forall k :: 0 <= k < i ==> adjMatrix[k] == before[k] + [0]
        invariant forall k :: i <= k < vCount - 1 ==> adjMatrix[k] == before[k]
        invariant adjMatrix[vCount - 1] == seq(vCount, _ => 0)
      {
        adjMatrix := adjMatrix[i := adjMatrix[i] + [0]];
        i := i + 1;
      }
      assert forall k :: 0 <= k < |adjMatrix| ==> adjMatrix[k] == Grown(before)[k];
      count := vCount;
    }

    /** `add_edge(src, dst, weight=1)`. */
    method AddEdge(src: int, dst: int, weight: int := 1)
      requires Valid()
      modifies this
      ensures Valid() && vCount == old(vCount)
      ensures adjMatrix == WithEdge(old(adjMatrix), src, dst, weight)
    {
      if src >= vCount || src < 0 {
        return;
      }
      if dst >= vCount || dst < 0 {
        return;
      }
      if src == dst {
        return;
      }
      if weight <= 0 {
        return;
      }
      adjMatrix := adjMatrix[src := adjMatrix[src][dst := weight]];
    }

    /** `remove_edge(src, dst)`. */
    method RemoveEdge(src: int, dst: int)
      requires Valid()
      modifies this
      ensures Valid() && vCount == old(vCount)
      ensures adjMatrix == WithoutEdge(old(adjMatrix), src, dst)
    {
      if src >= vCount || src < 0 {
        return;
      }
      if dst >= vCount || dst < 0 {
        return;
      }
      adjMatrix := adjMatrix[src := adjMatrix[src][dst := 0]];
    }

    /** `get_vertices`: the indices `0 .. v_count - 1` in order. */
    method GetVertices() returns (vertices: seq<int>)
      ensures |vertices| == vCount
      ensures forall i :: 0 <= i < |vertices| ==> vertices[i] == i
      ensures forall v :: v in vertices <==> 0 <= v < vCount
    {
      vertices := [];
      var num := 0;
      while num < vCount
        invariant 0 <= num <= vCount
        invariant |vertices| == num
        invariant forall i :: 0 <= i < num ==> vertices[i] == i
      {
        vertices := vertices + [num];
        num := num + 1;
      }
      forall v | 0 <= v < vCount ensures v in vertices {
        assert vertices[v] == v;
      }
    }

    /**
     * `get_edges`: one `(src, dst, weight)` per nonzero cell, row by row
     * and column by column.
     */
    method GetEdges() returns (edges: seq<Edge>)
      requires Valid()
      ensures edges == EdgeList(adjMatrix)
    {
      var vertices := GetVertices();
      edges := [];
      var s := 0;
      while s < |vertices|
        invariant 0 <= s <= |vertices|
        invariant edges == EdgesBefore(adjMatrix, s)
      {
        var src := vertices[s];
        var row := adjMatrix[src];
        var destination := 0;
        while destination < |row|
          invariant 0 <= destination <= |row|
          invariant edges == EdgesBefore(adjMatrix, s) + RowEdges(adjMatrix, src, destination)
        {
          var weight := row[destination];
          if weight != 0 {
            edges := edges + [Edge(src, destination, weight)];
          }
          destination := destination + 1;
        }
        s := s + 1;
      }
    }

    /**
     * `is_valid_path`: the empty path and a path of one element are
     * accepted; otherwise each consecutive pair is looked up in the edge
     * list.
     */
    method IsValidPath(path: seq<int>) returns (ok: bool)
      requires Valid()
      ensures ok == ValidPath(adjMatrix, path)
    {
      if |path| == 0 {
        return true;
      }
      var vertices := GetVertices();
      if |path| == 1 && path[0] in vertices {
        return true;
      }
      var edges := GetEdges();
      var index := 0;
      while index < |path| - 1
        invariant 0 <= index <= |path| - 1
        invariant forall i :: 0 <= i < index ==> HasEdge(adjMatrix, path[i], path[i + 1])
      {
        var vertexToLookFor := path[index];
        var foundMatch := false;
        var k := 0;
        while k < |edges|
          invariant 0 <= k <= |edges|
          invariant foundMatch <==> exists j :: 0 <= j < k && edges[j].src == vertexToLookFor && edges[j].dst == path[index + 1]
        {
          var edge := edges[k];
          if edge.src == vertexToLookFor {
            if edge.dst == path[index + 1] {
              foundMatch := true;
            }
          }
          k := k + 1;
        }
        HasEdgeListed(adjMatrix, vertexToLookFor, path[index + 1]);
        if !foundMatch {
          return false;
        }
        index := index + 1;
      }
      return true;
    }

    /** The edge scan inside `dfs`: the destinations of the edges that leave `vertex`, which is not yet visited. */
    static method EdgesLeaving(edges: seq<Edge>, vertex: int, visited: set<int>) returns (vertexEdges: seq<int>)
      requires vertex !in visited
      ensures vertexEdges == Destinations(edges, vertex)
    {
      vertexEdges := [];
      var k := 0;
      while k < |edges|
        invariant 0 <= k <= |edges|
        invariant vertexEdges == Destinations(edges[..k], vertex)
      {
        assert edges[..k + 1][..k] == edges[..k];
        if edges[k].src == vertex && edges[k].src !in visited {
          vertexEdges := vertexEdges + [edges[k].dst];
        }
        k := k + 1;
      }
      assert edges[..k] == edges;
    }

    /**
     * `dfs(v_start, v_end=None)`: a stack traversal that, for each newly
     * visited vertex, scans the edge list for its successors and pushes
     * them largest first. The scan already yields them in ascending order,
     * so the source's `sort()` leaves the list unchanged and is not
     * repeated here.
     */
    method Dfs(vStart: int, vEnd: Option<int> := None) returns (outputList: seq<int>)
      requires Valid()
      ensures outputList == DepthFirst(adjMatrix, vStart, vEnd)
    {
      var visited: set<int> := {};
      var checkVertex := [vStart];
      outputList := [];
      var vertexList := GetVertices();
      if vStart !in vertexList {
        return;
      }
      var edges := GetEdges();
      ghost var verts := Vertices(vCount);
      ghost var succ := PushOrder(adjMatrix);
      ghost var target := Target(vEnd);
      ghost var goal := DepthFirst(adjMatrix, vStart, vEnd);
      while checkVertex != []
        invariant Traversal.Inside(verts, Traversal.State(checkVertex, visited, outputList))
        invariant Traversal.Run(Traversal.Lifo, verts, succ, Traversal.State(checkVertex, visited, outputList), target) == goal
        decreases verts - visited, |checkVertex|
      {
        ghost var s := Traversal.State(checkVertex, visited, outputList);
        var vertex := checkVertex[|checkVertex| - 1];
        checkVertex := checkVertex[..|checkVertex| - 1];
        if vertex !in visited && vertex in vertexList {
          var vertexEdges := EdgesLeaving(edges, vertex, visited);
          DestinationsAreSuccessors(adjMatrix, vertex);
          vertexEdges := Reverse(vertexEdges);
          checkVertex := checkVertex + vertexEdges;
        }
        if vertex !in visited {
          visited := visited + {vertex};
          outputList := outputList + [vertex];
        }
        Traversal.StepInside(Traversal.Lifo, verts, succ, s);
        assert Traversal.State(checkVertex, visited, outputList) == Traversal.Step(Traversal.Lifo, succ, s);
        if vEnd.Some? && vEnd.value != 0 && vEnd.value in visited {
          return;
        }
      }
    }
  }
}
