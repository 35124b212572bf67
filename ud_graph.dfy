/**
 * The undirected graph on string labels: the adjacency-list dictionary,
 * kept as its key order and its map, which the methods update in place.
 * Each method is proved against the functions of `AdjacencyList`, whose
 * properties are proved there.
 */
module UDGraph {

  import opened Basics
  import opened Labels
  import opened AdjacencyList
  import Traversal

  class UndirectedGraph {
    var keys: seq<Label>
    var adj: map<Label, seq<Label>>

    /** `adj_list` as a value. */
    function Snapshot(): Store
      reads this
    {
      Store(keys, adj)
    }

    /** No duplicate edges, no loops, every edge listed at both ends. */
    ghost predicate Valid()
      reads this
    {
      WellFormed(Snapshot())
    }

    /** `UndirectedGraph()`: an empty dictionary. */
    constructor ()
      ensures Valid() && Snapshot() == Empty()
    {
      keys := [];
      adj := map[];
      new;
      EmptyWellFormed();
    }

    /** `UndirectedGraph(start_edges)`: `add_edge(u, v)` for each start edge in order. */
    constructor FromEdges(startEdges: seq<(Label, Label)>)
      ensures Valid() && Snapshot() == Build(startEdges)
    {
      keys := [];
      adj := map[];
      new;
      EmptyWellFormed();
      var k := 0;
      while k < |startEdges|
        invariant 0 <= k <= |startEdges|
        invariant Valid() && Snapshot() == Build(startEdges[..k])
      {
        var (u, v) := startEdges[k];
        assert startEdges[..k + 1][..k] == startEdges[..k];
        AddEdge(u, v);
        k := k + 1;
      }
      assert startEdges[..k] == startEdges;
    }

    /** `add_vertex(v)`. */
    method AddVertex(v: Label)
      requires Valid()
      modifies this
      ensures Valid()
      ensures Snapshot() == AddVertexTo(old(Snapshot()), v)
    {
      if v in adj {
        return;
      }
      adj := adj[v := []];
      keys := keys + [v];
    }

    /** `add_edge(u, v)`. */
    method AddEdge(u: Label, v: Label)
      requires Valid()
      modifies this
      ensures Valid()
      ensures Snapshot() == AddEdgeTo(old(Snapshot()), u, v)
    {
      if u == v {
        return;
      }
      ghost var s0 := Snapshot();
      if u !in adj {
        AddVertex(u);
      }
      if v !in adj {
        AddVertex(v);
      }
      ghost var s2 := Snapshot();
      assert s2 == AddVertexTo(AddVertexTo(s0, u), v);
      if u !in adj[v] {
        adj := adj[v := adj[v] + [u]];
      }
      if v !in adj[u] {
        adj := adj[u := adj[u] + [v]];
      }
      assert Snapshot() == AddEdgeTo(s0, u, v);
    }

    /** `remove_edge(v, u)`. */
    method RemoveEdge(v: Label, u: Label)
      requires Valid()
      modifies this
      ensures Valid()
      ensures Snapshot() == RemoveEdgeFrom(old(Snapshot()), v, u)
    {
      if v !in adj {
        return;
      }
      if u !in adj {
        return;
      }
      if u !in adj[v] || v !in adj[u] {
        return;
      }
      ghost var s0 := Snapshot();
      adj := adj[v := RemoveFirst(adj[v], u)];
      adj := adj[u := RemoveFirst(adj[u], v)];
      assert Snapshot() == RemoveEdgeFrom(s0, v, u);
    }

    /** `remove_vertex(v)`: `v` out of each neighbour's list, then its own entry popped. */
    method RemoveVertex(v: Label)
      requires Valid()
      modifies this
      ensures Valid()
      ensures Snapshot() == RemoveVertexFrom(old(Snapshot()), v)
    {
      if v !in adj {
        return;
      }
      ghost var s0 := Snapshot();
      assert WellFormed(s0) && v in s0.keys;
      var a := adj;
      var edgesConnectedToV := a[v];
      var i := 0;
      while i < |edgesConnectedToV|
        invariant 0 <= i <= |edgesConnectedToV| && edgesConnectedToV == s0.adj[v]
        invariant keys == s0.keys
        invariant a.Keys == s0.adj.Keys && a[v] == s0.adj[v]
        invariant forall k :: k in a && k != v ==>
          a[k] == if k in edgesConnectedToV[..i] then Detached(s0, v, k) else s0.adj[k]
      {
        var vertex := edgesConnectedToV[i];
        DetachStep(s0, v, i, a);
        a := a[vertex := RemoveFirst(a[vertex], v)];
        i := i + 1;
      }
      assert edgesConnectedToV[..i] == s0.adj[v];
      a := a - {v};
      RemoveVertexEntries(s0, v, a);
      adj := a;
      keys := RemoveFirst(keys, v);
      assert Snapshot() == RemoveVertexFrom(s0, v);
    }

    /** `get_vertices`: the keys in insertion order. */
    method GetVertices() returns (vertexList: seq<Label>)
      requires Valid()
      ensures vertexList == keys
      ensures NoDuplicates(vertexList)
      ensures forall v :: v in vertexList <==> v in adj
    {
      vertexList := [];
      var i := 0;
      while i < |keys|
        invariant 0 <= i <= |keys|
        invariant vertexList == keys[..i]
      {
        vertexList := vertexList + [keys[i]];
        i := i + 1;
      }
      assert keys[..i] == keys;
    }

    /** `get_edges`: a neighbour is listed unless it is in `checked_vertices`. */
    method GetEdges() returns (edgeList: seq<(Label, Label)>)
      requires Valid()
      ensures edgeList == EdgeList(Snapshot())
    {
      ghost var s := Snapshot();
      edgeList := [];
      var checkedVertices: set<Label> := {};
      var i := 0;
      while i < |keys|
        invariant 0 <= i <= |keys|
        invariant edgeList == EdgesBefore(s, i)
        invariant Checked(s, checkedVertices, i, i)
      {
        CheckedWiden(s, checkedVertices, i);
        edgeList, checkedVertices := ScanNeighbours(s, i, keys[i], adj[keys[i]], edgeList, checkedVertices);
        CheckedAfterKey(s, checkedVertices, i);
        i := i + 1;
      }
    }

    /** The inner loop of `get_edges`, over the list of key `i`. */
    static method ScanNeighbours(ghost s: Store, i: nat, vertex: Label, neighbours: seq<Label>,
                                 edgesIn: seq<(Label, Label)>, checkedIn: set<Label>)
      returns (edgeList: seq<(Label, Label)>, checkedVertices: set<Label>)
      requires WellFormed(s) && i < |s.keys| && vertex == s.keys[i] && neighbours == s.adj[vertex]
      requires edgesIn == EdgesBefore(s, i) && Checked(s, checkedIn, i, i + 1)
      ensures edgeList == EdgesBefore(s, i + 1)
      ensures Checked(s, checkedVertices, i, i + 1)
      ensures (exists q :: 0 <= q < |neighbours| && neighbours[q] in s.keys[i + 1..]) ==> vertex in checkedVertices
    {
      edgeList, checkedVertices := edgesIn, checkedIn;
      var p := 0;
      while p < |neighbours|
        invariant 0 <= p <= |neighbours|
        invariant edgeList == EdgesBefore(s, i) + KeyEdges(s, i, p)
        invariant Checked(s, checkedVertices, i, i + 1)
        invariant vertex in checkedVertices || forall q :: 0 <= q < p ==> neighbours[q] !in s.keys[i + 1..]
      {
        var index := neighbours[p];
        CheckedPicksLater(s, checkedVertices, i, index);
        KeyEdgesStep(s, i, p);
        if index !in checkedVertices {
          CheckedAddKey(s, checkedVertices, i);
          checkedVertices := checkedVertices + {vertex};
          edgeList := edgeList + [(vertex, index)];
        }
        p := p + 1;
      }
    }

    /** `is_valid_path(path)`; a `KeyError` raised by the loop is returned as `Raised(KeyError)`. */
    method IsValidPath(path: seq<Label>) returns (r: Outcome<bool>)
      requires Valid()
      ensures r == PathOutcome(Snapshot(), path)
    {
      if |path| == 0 {
        return Returned(true);
      }
      var prevVal := path[0];
      if prevVal !in adj {
        return Returned(false);
      }
      if |path| == 1 && prevVal in adj {
        return Returned(true);
      }
      var counter := 1;
      var nextVal := path[counter];
      var idx := 0;
      while idx < |path| - 1
        invariant 0 <= idx <= |path| - 1
        invariant 1 <= counter < |path| && nextVal == path[counter]
        invariant idx < |path| - 1 ==> counter == idx + 1
        invariant idx < |path| - 1 ==> PathOutcome(Snapshot(), path) == PairsFrom(Snapshot(), path, idx)
        invariant idx == |path| - 1 ==> PathOutcome(Snapshot(), path) == Returned(true)
      {
        var key := path[idx];
        if key !in adj {
          return Raised(KeyError);
        }
        var values := adj[key];
        var lengthOfEdges := |values| - 1;
        var q := 0;
        ghost var found := false;
        while q < |values|
          invariant 0 <= q <= |values|
          invariant lengthOfEdges == |values| - 1 - q
          invariant nextVal !in values[..q]
          invariant values != [] ==> q < |values|
          invariant !found
        {
          if values[q] == nextVal {
            found := true;
            break;
          }
          if lengthOfEdges == 0 {
            assert values[..q + 1] == values;
            return Returned(false);
          }
          lengthOfEdges := lengthOfEdges - 1;
          assert values[..q + 1] == values[..q] + [values[q]];
          q := q + 1;
        }
        assert found || values == [] || nextVal in values;
        if counter + 1 < |path| {
          counter := counter + 1;
          nextVal := path[counter];
        }
        idx := idx + 1;
      }
      return Returned(true);
    }

    /**
     * `dfs(v_start, v_end=None)`: a stack traversal. The list of each newly
     * visited vertex with neighbours is sorted and reversed in place, then
     * pushed; the graph keeps the reversed lists.
     */
    method Dfs(vStart: Label, vEnd: Option<Label> := None) returns (outputList: seq<Label>)
      requires Valid()
      modifies this
      ensures Valid() && keys == old(keys)
      ensures outputList == Search(Traversal.Lifo, old(Snapshot()), vStart, vEnd)
      ensures adj == Rearranged(Traversal.Lifo, old(adj), Elements(outputList))
    {
      ghost var s0 := Snapshot();
      assert WellFormed(s0);
      OrderClosed(Traversal.Lifo, s0);
      assert Search(Traversal.Lifo, s0, vStart, vEnd) == Traversal.Traverse(Traversal.Lifo, s0.adj.Keys, Order(Traversal.Lifo, s0.adj), vStart, Target(vEnd));
      var a;
      outputList, a := StackSearch(adj, vStart, vEnd);
      adj := a;
      RearrangedKeepsGraph(Traversal.Lifo, s0, Elements(outputList));
      assert Snapshot() == Store(s0.keys, Rearranged(Traversal.Lifo, s0.adj, Elements(outputList)));
    }

    /**
     * The loop of `dfs` on the adjacency map, which it updates: the lists
     * of the vertices it lists end up sorted and reversed.
     */
    static method StackSearch(adj0: map<Label, seq<Label>>, vStart: Label, vEnd: Option<Label>) returns (outputList: seq<Label>, adj: map<Label, seq<Label>>)
      requires Traversal.Closed(adj0.Keys, Order(Traversal.Lifo, adj0))
      ensures outputList == Traversal.Traverse(Traversal.Lifo, adj0.Keys, Order(Traversal.Lifo, adj0), vStart, Target(vEnd))
      ensures adj == Rearranged(Traversal.Lifo, adj0, Elements(outputList))
    {
      adj := adj0;
      var visited: set<Label> := {};
      var checkTheseVertices := [vStart];
      outputList := [];
      RearrangedNothing(Traversal.Lifo, adj0, Elements(outputList));
      if vStart !in adj {
        return;
      }
      ghost var verts := adj0.Keys;
      ghost var succ := Order(Traversal.Lifo, adj0);
      ghost var goal := Traversal.Traverse(Traversal.Lifo, verts, succ, vStart, Target(vEnd));
      while checkTheseVertices != []
        invariant adj == Rearranged(Traversal.Lifo, adj0, Elements(outputList))
        invariant visited == Elements(outputList)
        invariant Traversal.Inside(verts, Traversal.State(checkTheseVertices, visited, outputList))
        invariant Traversal.Run(Traversal.Lifo, verts, succ, Traversal.State(checkTheseVertices, visited, outputList), Target(vEnd)) == goal
        decreases verts - visited, |checkTheseVertices|
      {
        ghost var st := Traversal.State(checkTheseVertices, visited, outputList);
        Traversal.StepInside(Traversal.Lifo, verts, succ, st);
        var key := checkTheseVertices[|checkTheseVertices| - 1];
        checkTheseVertices := checkTheseVertices[..|checkTheseVertices| - 1];
        if key !in visited {
          RearrangedVisit(Traversal.Lifo, adj0, visited, key);
        }
        if |adj[key]| > 0 && key !in visited {
          var keyEdges := Sort(adj[key]);
          keyEdges := Reverse(keyEdges);
          adj := adj[key := keyEdges];
          checkTheseVertices := checkTheseVertices + keyEdges;
        } else if key !in visited {
          RearrangedVisitEmpty(Traversal.Lifo, adj0, visited, key);
          assert checkTheseVertices + succ(key) == checkTheseVertices;
        }
        if key !in visited {
          ElementsAppend(outputList, key);
          visited := visited + {key};
          outputList := outputList + [key];
        }
        assert Traversal.State(checkTheseVertices, visited, outputList) == Traversal.Step(Traversal.Lifo, succ, st);
        if vEnd.Some? && vEnd.value != "" && vEnd.value in visited {
          return;
        }
      }
    }

    /**
     * `bfs(v_start, v_end=None)`: a queue traversal. The list of each newly
     * visited vertex with neighbours is sorted in place, then appended
     * item by item; the graph keeps the sorted lists.
     */
    method Bfs(vStart: Label, vEnd: Option<Label> := None) returns (outputList: seq<Label>)
      requires Valid()
      modifies this
      ensures Valid() && keys == old(keys)
      ensures outputList == Search(Traversal.Fifo, old(Snapshot()), vStart, vEnd)
      ensures adj == Rearranged(Traversal.Fifo, old(adj), Elements(outputList))
    {
      ghost var s0 := Snapshot();
      assert WellFormed(s0);
      OrderClosed(Traversal.Fifo, s0);
      assert Search(Traversal.Fifo, s0, vStart, vEnd) == Traversal.Traverse(Traversal.Fifo, s0.adj.Keys, Order(Traversal.Fifo, s0.adj), vStart, Target(vEnd));
      var a;
      outputList, a := QueueSearch(adj, vStart, vEnd);
      adj := a;
      RearrangedKeepsGraph(Traversal.Fifo, s0, Elements(outputList));
      assert Snapshot() == Store(s0.keys, Rearranged(Traversal.Fifo, s0.adj, Elements(outputList)));
    }

    /**
     * The loop of `bfs` on the adjacency map, which it updates: the lists
     * of the vertices it lists end up sorted.
     */
    static method QueueSearch(adj0: map<Label, seq<Label>>, vStart: Label, vEnd: Option<Label>) returns (outputList: seq<Label>, adj: map<Label, seq<Label>>)
      requires Traversal.Closed(adj0.Keys, Order(Traversal.Fifo, adj0))
      ensures outputList == Traversal.Traverse(Traversal.Fifo, adj0.Keys, Order(Traversal.Fifo, adj0), vStart, Target(vEnd))
      ensures adj == Rearranged(Traversal.Fifo, adj0, Elements(outputList))
    {
      adj := adj0;
      var visited: set<Label> := {};
      var checkTheseVertices := [vStart];
      outputList := [];
      RearrangedNothing(Traversal.Fifo, adj0, Elements(outputList));
      if vStart !in adj {
        return;
      }
      ghost var verts := adj0.Keys;
      ghost var succ := Order(Traversal.Fifo, adj0);
      ghost var goal := Traversal.Traverse(Traversal.Fifo, verts, succ, vStart, Target(vEnd));
      while checkTheseVertices != []
        invariant adj == Rearranged(Traversal.Fifo, adj0, Elements(outputList))
        invariant visited == Elements(outputList)
        invariant Traversal.Inside(verts, Traversal.State(checkTheseVertices, visited, outputList))
        invariant Traversal.Run(Traversal.Fifo, verts, succ, Traversal.State(checkTheseVertices, visited, outputList), Target(vEnd)) == goal
        decreases verts - visited, |checkTheseVertices|
      {
        ghost var st := Traversal.State(checkTheseVertices, visited, outputList);
        Traversal.StepInside(Traversal.Fifo, verts, succ, st);
        var key := checkTheseVertices[0];
        checkTheseVertices := checkTheseVertices[1..];
        if key !in visited {
          RearrangedVisit(Traversal.Fifo, adj0, visited, key);
        }
        if |adj[key]| > 0 && key !in visited {
          var keyEdges := Sort(adj[key]);
          adj := adj[key := keyEdges];
          checkTheseVertices := AppendAll(checkTheseVertices, keyEdges);
        } else if key !in visited {
          RearrangedVisitEmpty(Traversal.Fifo, adj0, visited, key);
          assert checkTheseVertices + succ(key) == checkTheseVertices;
        }
        if key !in visited {
          ElementsAppend(outputList, key);
          visited := visited + {key};
          outputList := outputList + [key];
        }
        assert Traversal.State(checkTheseVertices, visited, outputList) == Traversal.Step(Traversal.Fifo, succ, st);
        if vEnd.Some? && vEnd.value != "" && vEnd.value in visited {
          return;
        }
      }
    }

    /**
     * `count_connected_components`: one `dfs` from every vertex in key
     * order, collecting the set each one lists. The searches rearrange
     * the lists they read; the count is unaffected.
     */
    method CountConnectedComponents() returns (count: nat)
      requires Valid()
      modifies this
      ensures Valid() && keys == old(keys)
      ensures count == |Components(old(Snapshot()))|
      ensures adj == Rearranged(Traversal.Lifo, old(adj), Elements(old(keys)))
    {
      ghost var s0 := Snapshot();
      assert WellFormed(s0);
      var vertices := GetVertices();
      var connectedComponents: set<set<Label>> := {};
      ghost var covered: set<Label> := {};
      RearrangedNothing(Traversal.Lifo, s0.adj, covered);
      var i := 0;
      while i < |vertices|
        invariant 0 <= i <= |vertices| && vertices == s0.keys && keys == s0.keys
        invariant covered == Covered(s0, vertices[..i])
        invariant adj == Rearranged(Traversal.Lifo, s0.adj, covered)
        invariant connectedComponents == ComponentsAmong(s0, vertices[..i])
      {
        var vertex := vertices[i];
        var key := SearchKey(vertex, s0, covered);
        CoveredAppend(s0, vertices, i);
        covered := covered + key;
        ComponentsAmongAppend(s0, vertices, i);
        if key !in connectedComponents {
          connectedComponents := connectedComponents + {key};
        }
        i := i + 1;
      }
      assert vertices[..i] == s0.keys;
      SearchedFromAll(s0);
      assert Snapshot() == Store(s0.keys, Rearranged(Traversal.Lifo, s0.adj, Elements(s0.keys)));
      count := |connectedComponents|;
    }

    /** `has_cycle`: False below three vertices; beyond, the loop body raises `NameError`. */
    method HasCycle() returns (r: Outcome<bool>)
      requires Valid()
      ensures r == CycleOutcome(Snapshot())
    {
      var vertices := GetVertices();
      if |vertices| < 3 {
        return Returned(false);
      }
      return Raised(NameError);
    }

    /**
     * The key of one vertex in `count_connected_components`: a `dfs` from
     * it on the lists the earlier searches left, sorted and joined. The
     * search lists the vertex's component and rearranges those lists too.
     */
    method SearchKey(vertex: Label, ghost s0: Store, ghost covered: set<Label>) returns (key: set<Label>)
      requires WellFormed(s0) && keys == s0.keys && adj == Rearranged(Traversal.Lifo, s0.adj, covered)
      modifies this
      ensures keys == s0.keys
      ensures key == ComponentOf(s0, vertex)
      ensures adj == Rearranged(Traversal.Lifo, s0.adj, covered + key)
    {
      SearchAfterRearranging(Traversal.Lifo, Traversal.Lifo, s0, covered, vertex, None);
      assert Snapshot() == Store(s0.keys, Rearranged(Traversal.Lifo, s0.adj, covered));
      var dfs := Dfs(vertex);
      assert dfs == Search(Traversal.Lifo, s0, vertex, None);
      RearrangedTwice(Traversal.Lifo, s0.adj, covered, Elements(dfs));
      key := JoinedKey(dfs);
    }

    /**
     * `dfs.sort()` then `''.join(dfs)`: the key stands for the set of
     * vertices listed (two different vertex sets can join to the same
     * string; the key is modelled as the set itself).
     */
    static method JoinedKey(dfs: seq<Label>) returns (key: set<Label>)
      ensures key == Elements(dfs)
    {
      var sorted := Sort(dfs);
      SortKeepsSet(dfs);
      key := Elements(sorted);
    }

    /** The item-by-item `append` loop of `bfs`. */
    static method AppendAll(queue: seq<Label>, items: seq<Label>) returns (r: seq<Label>)
      ensures r == queue + items
    {
      r := queue;
      var j := 0;
      while j < |items|
        invariant 0 <= j <= |items|
        invariant r == queue + items[..j]
      {
        r := r + [items[j]];
        assert items[..j + 1] == items[..j] + [items[j]];
        j := j + 1;
      }
      assert items[..j] == items;
    }
  }
}
