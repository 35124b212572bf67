/**
 * The adjacency-list dictionary of the undirected graph, as a value: the
 * keys in insertion order (a Python `dict` iterates its keys in the
 * order they were added) and, for each key, its list of neighbours. The
 * functions here say what each method of `UndirectedGraph` leaves behind
 * and what each query answers; the lemmas state the properties the graph
 * promises of them.
 */
module AdjacencyList {

  import opened Basics
  import opened Labels
  import Traversal

  /** `adj_list`: `keys` are its keys in insertion order, `adj` maps each to its list. */
  datatype Store = Store(keys: seq<Label>, adj: map<Label, seq<Label>>)

  /** The exceptions the graph's methods can raise. */
  datatype PyError = KeyError | NameError

  /** The result of a call that either returns a value or raises. */
  datatype Outcome<T> = Returned(value: T) | Raised(error: PyError)

  /** A dictionary with no keys. */
  function Empty(): Store
  {
    Store([], map[])
  }

  /** Every key in the key order has a list. */
  predicate KeysListed(s: Store)
  {
    forall k :: k in s.keys ==> k in s.adj
  }

  /**
   * The invariant of the graph: each key once in the key order and exactly
   * the keys of the map there; no list repeats a neighbour or holds its own
   * key (no duplicate edges, no loops); and every edge is listed at both
   * ends, each end being a key.
   */
  ghost predicate WellFormed(s: Store)
  {
    && NoDuplicates(s.keys)
    && KeysListed(s)
    && (forall k :: k in s.adj ==> k in s.keys)
    && (forall u :: u in s.adj ==> NoDuplicates(s.adj[u]) && u !in s.adj[u])
    && (forall u, v :: u in s.adj && v in s.adj[u] ==> v in s.adj && u in s.adj[v])
  }

  lemma EmptyWellFormed()
    ensures WellFormed(Empty())
  {
  }

  /** `u` and `v` are joined by an edge. */
  predicate Adjacent(s: Store, u: Label, v: Label)
  {
    u in s.adj && v in s.adj[u]
  }

  // ---------------------------------------------------------------------
  // Updates

  /** `add_vertex(v)`: a new key with an empty list; nothing happens if `v` is already a key. */
  function AddVertexTo(s: Store, v: Label): (r: Store)
    ensures v in r.adj
    ensures v !in s.adj ==> r.adj[v] == [] && r.keys == s.keys + [v]
    ensures forall k :: k in s.adj ==> k in r.adj && r.adj[k] == s.adj[k]
    ensures forall k :: k in r.adj ==> k in s.adj || k == v
    ensures WellFormed(s) ==> WellFormed(r)
  {
    if v in s.adj then s else Store(s.keys + [v], s.adj[v := []])
  }

  /**
   * `add_edge(u, v)`: nothing for `u == v`; otherwise each missing end
   * becomes a vertex, `u` is appended to the list of `v` unless already
   * there, and then `v` to the list of `u`.
   */
  function AddEdgeTo(s: Store, u: Label, v: Label): (r: Store)
    ensures u == v ==> r == s
    ensures u != v ==> Adjacent(r, u, v) && Adjacent(r, v, u)
    ensures forall k :: k in s.adj ==> k in r.adj
    ensures forall k :: k in r.adj ==> k in s.adj || k == u || k == v
    ensures forall k :: k in s.adj && k != u && k != v ==> r.adj[k] == s.adj[k]
    ensures WellFormed(s) ==> WellFormed(r)
  {
    if u == v then s
    else
      var s2 := AddVertexTo(AddVertexTo(s, u), v);
      var a := s2.adj;
      var a1 := if u !in a[v] then a[v := a[v] + [u]] else a;
      var a2 := if v !in a1[u] then a1[u := a1[u] + [v]] else a1;
      AddEdgeWellFormed(s, u, v, s2, a1, a2);
      Store(s2.keys, a2)
  }

  lemma AddEdgeWellFormed(s: Store, u: Label, v: Label, s2: Store, a1: map<Label, seq<Label>>, a2: map<Label, seq<Label>>)
    requires u != v && s2 == AddVertexTo(AddVertexTo(s, u), v)
    requires a1 == if u !in s2.adj[v] then s2.adj[v := s2.adj[v] + [u]] else s2.adj
    requires a2 == if v !in a1[u] then a1[u := a1[u] + [v]] else a1
    ensures WellFormed(s) ==> WellFormed(Store(s2.keys, a2))
  {
    if WellFormed(s) {
      assert WellFormed(s2);
      AddArc(s2.adj, v, u, a1);
      AddArc(a1, u, v, a2);
      ArcsWellFormed(s2, u, v, a2);
    }
  }

  /** A well-formed dictionary with the arcs `u -> v` and `v -> u` added, lists kept free of repetitions, is well formed. */
  lemma ArcsWellFormed(s2: Store, u: Label, v: Label, a2: map<Label, seq<Label>>)
    requires WellFormed(s2) && u != v && u in s2.adj && v in s2.adj
    requires a2.Keys == s2.adj.Keys
    requires forall k :: k in s2.adj && k != u && k != v ==> a2[k] == s2.adj[k]
    requires forall a, b :: a in a2 && b in a2[a] <==> (a in s2.adj && b in s2.adj[a]) || (a == u && b == v) || (a == v && b == u)
    requires NoDuplicates(a2[u]) && NoDuplicates(a2[v])
    ensures WellFormed(Store(s2.keys, a2))
  {
    var r := Store(s2.keys, a2);
    forall k | k in a2 ensures NoDuplicates(a2[k]) && k !in a2[k] {
      if k != u && k != v {
        assert a2[k] == s2.adj[k];
      }
    }
    WellFormedIntro(r);
  }

  /** Appending `y` to the list of `x` unless it is there already: the arc `x -> y` is added and nothing else changes. */
  lemma AddArc(m: map<Label, seq<Label>>, x: Label, y: Label, m2: map<Label, seq<Label>>)
    requires x in m
    requires m2 == if y !in m[x] then m[x := m[x] + [y]] else m
    ensures m2.Keys == m.Keys
    ensures forall k :: k in m && k != x ==> m2[k] == m[k]
    ensures forall a, b :: a in m2 && b in m2[a] <==> (a in m && b in m[a]) || (a == x && b == y)
    ensures NoDuplicates(m[x]) ==> NoDuplicates(m2[x])
  {
    if y !in m[x] && NoDuplicates(m[x]) {
      NoDuplicatesConcat(m[x], [y]);
    }
  }

  /**
   * `remove_edge(v, u)`: nothing unless both are keys and each lists the
   * other; then `u` is removed from the list of `v` and `v` from the list
   * of `u`.
   */
  function RemoveEdgeFrom(s: Store, v: Label, u: Label): (r: Store)
    requires WellFormed(s)
    ensures !(Adjacent(s, v, u) && Adjacent(s, u, v)) ==> r == s
    ensures r.keys == s.keys && r.adj.Keys == s.adj.Keys
    ensures !Adjacent(r, v, u) && !Adjacent(r, u, v)
    ensures Adjacent(s, v, u) ==> multiset(r.adj[v]) == multiset(s.adj[v]) - multiset{u}
    ensures Adjacent(s, v, u) ==> multiset(r.adj[u]) == multiset(s.adj[u]) - multiset{v}
    ensures forall k :: k in s.adj && k != u && k != v ==> r.adj[k] == s.adj[k]
    ensures forall a, b :: Adjacent(r, a, b) <==> Adjacent(s, a, b) && !((a == v && b == u) || (a == u && b == v))
    ensures WellFormed(r)
  {
    if v !in s.adj then s
    else if u !in s.adj then s
    else if u !in s.adj[v] || v !in s.adj[u] then s
    else
      var a1 := s.adj[v := RemoveFirst(s.adj[v], u)];
      var a2 := a1[u := RemoveFirst(a1[u], v)];
      RemoveFirstDistinct(s.adj[v], u);
      RemoveFirstDistinct(s.adj[u], v);
      RemoveEdgeWellFormed(s, v, u, a2);
      Store(s.keys, a2)
  }

  lemma RemoveEdgeWellFormed(s: Store, v: Label, u: Label, a2: map<Label, seq<Label>>)
    requires WellFormed(s) && Adjacent(s, v, u) && Adjacent(s, u, v)
    requires a2 == s.adj[v := RemoveFirst(s.adj[v], u)][u := RemoveFirst(s.adj[u], v)]
    ensures forall a, b :: Adjacent(Store(s.keys, a2), a, b) <==> Adjacent(s, a, b) && !((a == v && b == u) || (a == u && b == v))
    ensures WellFormed(Store(s.keys, a2))
  {
    RemoveFirstDistinct(s.adj[v], u);
    RemoveFirstDistinct(s.adj[u], v);
    var r := Store(s.keys, a2);
    forall x, y | x in r.adj && y in r.adj[x] ensures y in r.adj && x in r.adj[y] {
      assert y in s.adj[x];
      if y == v {
        assert x != u;
      } else if y == u {
        assert x != v;
      }
    }
  }

  /**
   * `remove_vertex(v)`: nothing if `v` is not a key; otherwise `v` is
   * removed from the list of each of its neighbours and its own entry
   * popped, the other keys keeping their order.
   */
  function RemoveVertexFrom(s: Store, v: Label): (r: Store)
    requires WellFormed(s)
    ensures v !in s.adj ==> r == s
    ensures v in s.adj ==> r.keys == RemoveFirst(s.keys, v)
    ensures v !in r.adj && v !in r.keys
    ensures forall k :: k in r.adj <==> k in s.adj && k != v
    ensures forall k :: k in r.adj ==> v !in r.adj[k]
    ensures forall a, b :: Adjacent(s, a, b) && a != v && b != v ==> Adjacent(r, a, b)
    ensures forall a, b :: Adjacent(r, a, b) ==> Adjacent(s, a, b)
    ensures WellFormed(r)
  {
    if v !in s.adj then s
    else
      var a := map k | k in s.adj && k != v :: Detached(s, v, k);
      RemoveFirstDistinct(s.keys, v);
      assert forall k :: k in RemoveFirst(s.keys, v) <==> k in s.keys && k != v;
      assert forall k, y :: k in a ==> (y in a[k] <==> y in s.adj[k] && y != v);
      RemoveVertexWellFormed(s, v, Store(RemoveFirst(s.keys, v), a));
      Store(RemoveFirst(s.keys, v), a)
  }

  lemma Symmetric(s: Store, x: Label, y: Label)
    requires WellFormed(s) && Adjacent(s, x, y)
    ensures Adjacent(s, y, x)
  {
  }

  /** The list key `k` is left with once `v` is removed: `v` is taken out of it if `k` is a neighbour of `v`. */
  function Detached(s: Store, v: Label, k: Label): (l: seq<Label>)
    requires WellFormed(s) && v in s.adj && k in s.adj && k != v
    ensures v !in l && NoDuplicates(l) && k !in l
    ensures forall y :: y in l <==> y in s.adj[k] && y != v
  {
    if k in s.adj[v] then
      RemoveFirstDistinct(s.adj[k], v);
      RemoveFirst(s.adj[k], v)
    else s.adj[k]
  }

  /** Dropping `v` from the key order and from every list keeps the dictionary well formed. */
  lemma RemoveVertexWellFormed(s: Store, v: Label, r: Store)
    requires WellFormed(s) && v in s.adj
    requires NoDuplicates(r.keys) && forall k :: k in r.keys <==> k in s.keys && k != v
    requires forall k :: k in r.adj <==> k in s.adj && k != v
    requires forall k :: k in r.adj ==> NoDuplicates(r.adj[k]) && k !in r.adj[k]
    requires forall k, y :: k in r.adj ==> (y in r.adj[k] <==> y in s.adj[k] && y != v)
    ensures WellFormed(r)
  {
    forall x, y | x in r.adj && y in r.adj[x] ensures y in r.adj && x in r.adj[y] {
      Symmetric(s, x, y);
    }
    WellFormedIntro(r);
  }

  lemma WellFormedIntro(r: Store)
    requires NoDuplicates(r.keys) && KeysListed(r)
    requires forall k :: k in r.adj ==> k in r.keys
    requires forall u :: u in r.adj ==> NoDuplicates(r.adj[u]) && u !in r.adj[u]
    requires forall x, y :: x in r.adj && y in r.adj[x] ==> y in r.adj && x in r.adj[y]
    ensures WellFormed(r)
  {
  }

  /**
   * One pass of the loop of `remove_vertex(v)`: with the first `i`
   * neighbours of `v` already detached, the next one still lists `v`, and
   * removing it there detaches the first `i + 1`.
   */
  lemma DetachStep(s: Store, v: Label, i: nat, a: map<Label, seq<Label>>)
    requires WellFormed(s) && v in s.adj && i < |s.adj[v]|
    requires a.Keys == s.adj.Keys && a[v] == s.adj[v]
    requires forall k :: k in a && k != v ==> a[k] == if k in s.adj[v][..i] then Detached(s, v, k) else s.adj[k]
    ensures s.adj[v][i] in a && v in a[s.adj[v][i]]
    ensures var a2 := a[s.adj[v][i] := RemoveFirst(a[s.adj[v][i]], v)];
      && a2.Keys == s.adj.Keys && a2[v] == s.adj[v]
      && forall k :: k in a2 && k != v ==> a2[k] == if k in s.adj[v][..i + 1] then Detached(s, v, k) else s.adj[k]
  {
    var l := s.adj[v];
    var w := l[i];
    Symmetric(s, v, w);
    assert w !in l[..i] by {
      forall q | 0 <= q < i ensures l[q] != w {
        assert NoDuplicates(l);
      }
    }
    PrefixAppend(l, i);
    assert a[w] == s.adj[w] && w != v;
    assert RemoveFirst(a[w], v) == Detached(s, v, w);
  }

  /** A map holding, for every other key, the list `Detached` gives is what `remove_vertex` leaves. */
  lemma RemoveVertexEntries(s: Store, v: Label, a: map<Label, seq<Label>>)
    requires WellFormed(s) && v in s.adj
    requires forall k :: k in a <==> k in s.adj && k != v
    requires forall k :: k in a ==> a[k] == Detached(s, v, k)
    ensures RemoveVertexFrom(s, v) == Store(RemoveFirst(s.keys, v), a)
  {
    var b := map k | k in s.adj && k != v :: Detached(s, v, k);
    assert a == b;
  }

  /** `UndirectedGraph(start_edges)`: every start edge added in order to an empty dictionary. */
  function Build(edges: seq<(Label, Label)>): (r: Store)
    ensures WellFormed(r)
  {
    if edges == [] then EmptyWellFormed(); Empty()
    else
      var e := edges[|edges| - 1];
      AddEdgeTo(Build(edges[..|edges| - 1]), e.0, e.1)
  }

  // ---------------------------------------------------------------------
  // What the updates promise

  /** Adding a vertex twice is adding it once. */
  lemma AddVertexIdempotent(s: Store, v: Label)
    ensures AddVertexTo(AddVertexTo(s, v), v) == AddVertexTo(s, v)
  {
  }

  /** Adding an edge twice is adding it once. */
  lemma AddEdgeIdempotent(s: Store, u: Label, v: Label)
    ensures AddEdgeTo(AddEdgeTo(s, u, v), u, v) == AddEdgeTo(s, u, v)
  {
  }

  /** An edge is the same edge read from either end. */
  lemma AddEdgeSymmetric(s: Store, u: Label, v: Label)
    requires WellFormed(s)
    ensures forall a, b :: Adjacent(AddEdgeTo(s, u, v), a, b) <==> Adjacent(AddEdgeTo(s, v, u), a, b)
  {
    AddEdgeAdjacency(s, u, v);
    AddEdgeAdjacency(s, v, u);
  }

  /** Adding an edge joins exactly its two ends and keeps every other edge. */
  lemma AddEdgeAdjacency(s: Store, u: Label, v: Label)
    requires WellFormed(s)
    ensures forall a, b :: Adjacent(AddEdgeTo(s, u, v), a, b) <==> Adjacent(s, a, b) || (u != v && ((a == u && b == v) || (a == v && b == u)))
  {
    if u != v {
      var s2 := AddVertexTo(AddVertexTo(s, u), v);
      var a1 := if u !in s2.adj[v] then s2.adj[v := s2.adj[v] + [u]] else s2.adj;
      var a2 := if v !in a1[u] then a1[u := a1[u] + [v]] else a1;
      assert AddEdgeTo(s, u, v) == Store(s2.keys, a2);
      AddArc(s2.adj, v, u, a1);
      AddArc(a1, u, v, a2);
    }
  }

  /** Removing an edge that was just added, between two vertices not joined before, leaves only the vertices it created. */
  lemma RemoveAfterAdd(s: Store, u: Label, v: Label)
    requires WellFormed(s) && u != v && !Adjacent(s, u, v)
    ensures forall a, b :: Adjacent(RemoveEdgeFrom(AddEdgeTo(s, u, v), u, v), a, b) <==> Adjacent(s, a, b)
  {
    AddEdgeAdjacency(s, u, v);
  }

  // ---------------------------------------------------------------------
  // get_edges

  /** `u` comes before `w` in the key order. */
  ghost predicate Earlier(keys: seq<Label>, u: Label, w: Label)
  {
    exists i, j :: 0 <= i < j < |keys| && keys[i] == u && keys[j] == w
  }

  /**
   * The pairs `get_edges` appends while it reads the first `p` neighbours
   * of key `i`: a neighbour is taken when it is a later key.
   */
  function KeyEdges(s: Store, i: nat, p: nat): seq<(Label, Label)>
    requires KeysListed(s) && i < |s.keys| && p <= |s.adj[s.keys[i]]|
  {
    if p == 0 then []
    else
      var w := s.adj[s.keys[i]][p - 1];
      KeyEdges(s, i, p - 1) + (if w in s.keys[i + 1..] then [(s.keys[i], w)] else [])
  }

  /** Reading one more neighbour of key `i` appends at most one pair. */
  lemma KeyEdgesStep(s: Store, i: nat, p: nat)
    requires KeysListed(s) && i < |s.keys| && p < |s.adj[s.keys[i]]|
    ensures var w := s.adj[s.keys[i]][p];
      EdgesBefore(s, i) + KeyEdges(s, i, p + 1)
        == EdgesBefore(s, i) + KeyEdges(s, i, p) + if w in s.keys[i + 1..] then [(s.keys[i], w)] else []
  {
  }

  /** The pairs `get_edges` appends for the first `i` keys. */
  function EdgesBefore(s: Store, i: nat): seq<(Label, Label)>
    requires KeysListed(s) && i <= |s.keys|
  {
    if i == 0 then [] else EdgesBefore(s, i - 1) + KeyEdges(s, i - 1, |s.adj[s.keys[i - 1]]|)
  }

  /** `get_edges()`. */
  function EdgeList(s: Store): seq<(Label, Label)>
    requires KeysListed(s)
  {
    EdgesBefore(s, |s.keys|)
  }

  lemma {:induction false} KeyEdgesListed(s: Store, i: nat, p: nat)
    requires WellFormed(s) && i < |s.keys| && p <= |s.adj[s.keys[i]]|
    ensures forall e :: e in KeyEdges(s, i, p) <==>
      e.0 == s.keys[i] && e.1 in s.adj[s.keys[i]][..p] && e.1 in s.keys[i + 1..]
    ensures NoDuplicates(KeyEdges(s, i, p))
  {
    var l := s.adj[s.keys[i]];
    if p == 0 {
      assert KeyEdges(s, i, p) == [];
    } else {
      KeyEdgesListed(s, i, p - 1);
      var w := l[p - 1];
      assert l[..p] == l[..p - 1] + [w];
      assert w !in l[..p - 1] by {
        forall q | 0 <= q < p - 1 ensures l[q] != w {
          assert NoDuplicates(l);
        }
      }
      var extra := if w in s.keys[i + 1..] then [(s.keys[i], w)] else [];
      assert forall e :: e in extra ==> e !in KeyEdges(s, i, p - 1);
      NoDuplicatesConcat(KeyEdges(s, i, p - 1), extra);
    }
  }

  /** The pairs listed for the first `i` keys: each neighbour of a key that is a later key. */
  lemma {:induction false} EdgesBeforeMembers(s: Store, i: nat)
    requires WellFormed(s) && i <= |s.keys|
    ensures forall e :: e in EdgesBefore(s, i) <==>
      exists j :: 0 <= j < i && e.0 == s.keys[j] && e.1 in s.adj[s.keys[j]] && e.1 in s.keys[j + 1..]
  {
    if i > 0 {
      EdgesBeforeMembers(s, i - 1);
      var l := s.adj[s.keys[i - 1]];
      KeyEdgesListed(s, i - 1, |l|);
      assert l[..|l|] == l;
      var pre := EdgesBefore(s, i - 1);
      var block := KeyEdges(s, i - 1, |l|);
      assert forall e :: e in block <==> e.0 == s.keys[i - 1] && e.1 in l && e.1 in s.keys[i..];
      assert EdgesBefore(s, i) == pre + block;
      forall e: (Label, Label) ensures e in pre + block <==>
        exists j :: 0 <= j < i && e.0 == s.keys[j] && e.1 in s.adj[s.keys[j]] && e.1 in s.keys[j + 1..]
      {
        MembersStep(s, i, pre, block, e);
      }
    }
  }

  /** One key more: the pairs listed for it join those listed before. */
  lemma MembersStep(s: Store, i: nat, pre: seq<(Label, Label)>, block: seq<(Label, Label)>, e: (Label, Label))
    requires KeysListed(s) && 0 < i <= |s.keys|
    requires forall e :: e in pre <==>
      exists j :: 0 <= j < i - 1 && e.0 == s.keys[j] && e.1 in s.adj[s.keys[j]] && e.1 in s.keys[j + 1..]
    requires forall e :: e in block <==>
      e.0 == s.keys[i - 1] && e.1 in s.adj[s.keys[i - 1]] && e.1 in s.keys[i..]
    ensures e in pre + block <==>
      exists j :: 0 <= j < i && e.0 == s.keys[j] && e.1 in s.adj[s.keys[j]] && e.1 in s.keys[j + 1..]
  {
    if e in block {
      assert e.0 == s.keys[i - 1] && e.1 in s.adj[s.keys[i - 1]] && e.1 in s.keys[i..];
    } else if e in pre {
      var j :| 0 <= j < i - 1 && e.0 == s.keys[j] && e.1 in s.adj[s.keys[j]] && e.1 in s.keys[j + 1..];
      assert j < i;
    }
    if exists j :: 0 <= j < i && e.0 == s.keys[j] && e.1 in s.adj[s.keys[j]] && e.1 in s.keys[j + 1..] {
      var j :| 0 <= j < i && e.0 == s.keys[j] && e.1 in s.adj[s.keys[j]] && e.1 in s.keys[j + 1..];
      if j == i - 1 {
        assert e in block;
      } else {
        assert e in pre;
      }
    }
  }

  /** The pairs listed for key `i - 1` all start at that key, so none was listed for an earlier key. */
  lemma DisjointStep(s: Store, i: nat, pre: seq<(Label, Label)>, block: seq<(Label, Label)>)
    requires NoDuplicates(s.keys) && KeysListed(s) && 0 < i <= |s.keys|
    requires forall e :: e in pre <==>
      exists j :: 0 <= j < i - 1 && e.0 == s.keys[j] && e.1 in s.adj[s.keys[j]] && e.1 in s.keys[j + 1..]
    requires forall e :: e in block ==> e.0 == s.keys[i - 1]
    ensures forall e :: e in pre ==> e !in block
  {
    forall e | e in pre ensures e !in block {
      var j :| 0 <= j < i - 1 && e.0 == s.keys[j] && e.1 in s.adj[s.keys[j]] && e.1 in s.keys[j + 1..];
      assert s.keys[j] != s.keys[i - 1];
    }
  }

  /** No pair is listed twice for the first `i` keys. */
  lemma {:induction false} EdgesBeforeDistinct(s: Store, i: nat)
    requires WellFormed(s) && i <= |s.keys|
    ensures NoDuplicates(EdgesBefore(s, i))
  {
    if i > 0 {
      EdgesBeforeDistinct(s, i - 1);
      EdgesBeforeMembers(s, i - 1);
      var l := s.adj[s.keys[i - 1]];
      KeyEdgesListed(s, i - 1, |l|);
      var block := KeyEdges(s, i - 1, |l|);
      DisjointStep(s, i, EdgesBefore(s, i - 1), block);
      NoDuplicatesConcat(EdgesBefore(s, i - 1), block);
    }
  }

  /**
   * `get_edges` lists each edge exactly once, as the pair whose first
   * vertex is the earlier key, and lists nothing else.
   */
  lemma EdgeListMembers(s: Store)
    requires WellFormed(s)
    ensures forall u, w :: (u, w) in EdgeList(s) <==> Adjacent(s, u, w) && Earlier(s.keys, u, w)
    ensures NoDuplicates(EdgeList(s))
  {
    EdgesBeforeMembers(s, |s.keys|);
    EdgesBeforeDistinct(s, |s.keys|);
    var es := EdgeList(s);
    forall u, w | (u, w) in es ensures Adjacent(s, u, w) && Earlier(s.keys, u, w) {
      var j :| 0 <= j < |s.keys| && u == s.keys[j] && w in s.adj[s.keys[j]] && w in s.keys[j + 1..];
      LaterIsEarlier(s.keys, j, w);
    }
    forall u, w | Adjacent(s, u, w) && Earlier(s.keys, u, w) ensures (u, w) in es {
      var i, j :| 0 <= i < j < |s.keys| && s.keys[i] == u && s.keys[j] == w;
      EarlierIsLater(s.keys, i, j);
    }
  }

  /** A key found after position `j` comes later than the key at `j`. */
  lemma LaterIsEarlier(keys: seq<Label>, j: nat, w: Label)
    requires j < |keys| && w in keys[j + 1..]
    ensures Earlier(keys, keys[j], w)
  {
    var k :| 0 <= k < |keys[j + 1..]| && keys[j + 1..][k] == w;
    assert keys[j + 1 + k] == w;
  }

  /** A later key is found after the position of an earlier one. */
  lemma EarlierIsLater(keys: seq<Label>, i: nat, j: nat)
    requires i < j < |keys|
    ensures keys[j] in keys[i + 1..]
  {
    assert keys[i + 1..][j - i - 1] == keys[j];
  }

  /** Each edge appears in exactly one orientation. */
  lemma EdgeListOneWay(s: Store, u: Label, w: Label)
    requires WellFormed(s) && Adjacent(s, u, w)
    ensures (u, w) in EdgeList(s) <==> (w, u) !in EdgeList(s)
  {
    EdgeListMembers(s);
    assert u in s.keys && w in s.keys && u != w;
    var i :| 0 <= i < |s.keys| && s.keys[i] == u;
    var j :| 0 <= j < |s.keys| && s.keys[j] == w;
    if i < j {
      OrderOfKeys(s.keys, i, j);
    } else {
      OrderOfKeys(s.keys, j, i);
    }
  }

  /** Of two distinct keys, exactly one comes first. */
  lemma OrderOfKeys(keys: seq<Label>, i: nat, j: nat)
    requires NoDuplicates(keys) && i < j < |keys|
    ensures Earlier(keys, keys[i], keys[j]) && !Earlier(keys, keys[j], keys[i])
  {
    forall c, d | 0 <= c < d < |keys| && keys[c] == keys[j] ensures keys[d] != keys[i] {
      assert c == j;
      assert d != i;
    }
  }

  /**
   * What the set `checked_vertices` of `get_edges` holds before key `i` is
   * read to its end: only keys up to `i`, and every earlier key that has a
   * later neighbour.
   */
  ghost predicate Checked(s: Store, checked: set<Label>, i: nat, upto: nat)
    requires KeysListed(s) && upto <= |s.keys|
  {
    && (forall x :: x in checked ==> x in s.keys[..upto])
    && (forall j, l :: 0 <= j < i && j < l < |s.keys| && s.keys[l] in s.adj[s.keys[j]] ==> s.keys[j] in checked)
  }

  /** The test `index not in checked_vertices` takes a neighbour of key `i` exactly when it is a later key. */
  lemma CheckedPicksLater(s: Store, checked: set<Label>, i: nat, w: Label)
    requires WellFormed(s) && i < |s.keys| && Checked(s, checked, i, i + 1)
    requires w in s.adj[s.keys[i]]
    ensures w !in checked <==> w in s.keys[i + 1..]
  {
    assert w in s.keys;
    var l :| 0 <= l < |s.keys| && s.keys[l] == w;
    assert l != i;
    if l > i {
      assert s.keys[i + 1..][l - i - 1] == w;
      var before := s.keys[..i + 1];
      forall q | 0 <= q < |before| ensures before[q] != w {
        assert before[q] == s.keys[q] != s.keys[l];
      }
    } else {
      Symmetric(s, s.keys[i], w);
      assert s.keys[l] in checked;
      var after := s.keys[i + 1..];
      forall q | 0 <= q < |after| ensures after[q] != w {
        assert after[q] == s.keys[i + 1 + q] != s.keys[l];
      }
    }
  }

  /** Marking key `i` as checked keeps `Checked`. */
  lemma CheckedAddKey(s: Store, checked: set<Label>, i: nat)
    requires KeysListed(s) && i < |s.keys| && Checked(s, checked, i, i + 1)
    ensures Checked(s, checked + {s.keys[i]}, i, i + 1)
  {
    assert s.keys[..i + 1][i] == s.keys[i];
  }

  lemma CheckedWiden(s: Store, checked: set<Label>, i: nat)
    requires KeysListed(s) && i < |s.keys| && Checked(s, checked, i, i)
    ensures Checked(s, checked, i, i + 1)
  {
    forall x | x in checked ensures x in s.keys[..i + 1] {
      var q :| 0 <= q < i && s.keys[..i][q] == x;
      assert s.keys[..i + 1][q] == x;
    }
  }

  /** Once key `i` is read to its end, it is in `checked_vertices` if it has a later neighbour. */
  lemma CheckedAfterKey(s: Store, checked: set<Label>, i: nat)
    requires WellFormed(s) && i < |s.keys| && Checked(s, checked, i, i + 1)
    requires (exists q :: 0 <= q < |s.adj[s.keys[i]]| && s.adj[s.keys[i]][q] in s.keys[i + 1..]) ==> s.keys[i] in checked
    ensures Checked(s, checked, i + 1, i + 1)
  {
    var l := s.adj[s.keys[i]];
    forall j, m | 0 <= j < i + 1 && j < m < |s.keys| && s.keys[m] in s.adj[s.keys[j]] ensures s.keys[j] in checked {
      if j == i {
        var q :| 0 <= q < |l| && l[q] == s.keys[m];
        assert s.keys[i + 1..][m - i - 1] == s.keys[m];
      }
    }
  }

  // ---------------------------------------------------------------------
  // is_valid_path

  /**
   * `is_valid_path(path)` as written: `[]` is valid; a path whose first
   * vertex is not a key is not; a path of one key is. Otherwise the pairs
   * are checked in order from the first.
   */
  function PathOutcome(s: Store, path: seq<Label>): Outcome<bool>
  {
    if |path| == 0 then Returned(true)
    else if path[0] !in s.adj then Returned(false)
    else if |path| == 1 then Returned(true)
    else PairsFrom(s, path, 0)
  }

  /**
   * The pair `path[i], path[i + 1]` and those after it: looking up the list
   * of `path[i]` raises `KeyError` when `path[i]` is not a key; the inner
   * loop answers False only when that list is nonempty and lacks
   * `path[i + 1]`, so an empty list lets any next vertex through.
   */
  function PairsFrom(s: Store, path: seq<Label>, i: nat): Outcome<bool>
    requires i < |path| - 1
    decreases |path| - i
  {
    if path[i] !in s.adj then Raised(KeyError)
    else if s.adj[path[i]] != [] && path[i + 1] !in s.adj[path[i]] then Returned(false)
    else if i + 2 < |path| then PairsFrom(s, path, i + 1)
    else Returned(true)
  }

  /** A walk: the empty path, or a first key from which each vertex is a neighbour of the one before. */
  ghost predicate IsWalk(s: Store, path: seq<Label>)
  {
    |path| == 0 || (path[0] in s.adj && forall i :: 0 <= i < |path| - 1 ==> Adjacent(s, path[i], path[i + 1]))
  }

  lemma {:induction false} PairsFromWalk(s: Store, path: seq<Label>, i: nat)
    requires WellFormed(s) && i < |path| - 1
    requires forall k :: i <= k < |path| - 1 ==> Adjacent(s, path[k], path[k + 1])
    ensures PairsFrom(s, path, i) == Returned(true)
    decreases |path| - i
  {
    assert Adjacent(s, path[i], path[i + 1]);
    if i + 2 < |path| {
      PairsFromWalk(s, path, i + 1);
    }
  }

  /** Every walk is accepted. */
  lemma WalkAccepted(s: Store, path: seq<Label>)
    requires WellFormed(s) && IsWalk(s, path)
    ensures PathOutcome(s, path) == Returned(true)
  {
    if |path| > 1 {
      PairsFromWalk(s, path, 0);
    }
  }

  lemma {:induction false} PairsFromAccepted(s: Store, path: seq<Label>, i: nat)
    requires WellFormed(s) && i < |path| - 1
    requires PairsFrom(s, path, i) == Returned(true)
    requires forall k :: i <= k < |path| - 1 && path[k] in s.adj ==> s.adj[path[k]] != []
    ensures forall k :: i <= k < |path| - 1 ==> Adjacent(s, path[k], path[k + 1])
    decreases |path| - i
  {
    if i + 2 < |path| {
      PairsFromAccepted(s, path, i + 1);
    }
  }

  /** An accepted path none of whose vertices before the last is isolated is a walk. */
  lemma AcceptedIsWalk(s: Store, path: seq<Label>)
    requires WellFormed(s) && PathOutcome(s, path) == Returned(true)
    requires forall k :: 0 <= k < |path| - 1 && path[k] in s.adj ==> s.adj[path[k]] != []
    ensures IsWalk(s, path)
  {
    if |path| > 1 {
      PairsFromAccepted(s, path, 0);
    }
  }

  /** The intended check of the pairs from `path[i], path[i + 1]` on: each is an edge. */
  function IntendedPairsFrom(s: Store, path: seq<Label>, i: nat): (r: bool)
    requires i < |path| - 1
    ensures r <==> forall k :: i <= k < |path| - 1 ==> Adjacent(s, path[k], path[k + 1])
    decreases |path| - i
  {
    Adjacent(s, path[i], path[i + 1]) && (i + 2 < |path| ==> IntendedPairsFrom(s, path, i + 1))
  }

  /**
   * `is_valid_path` as its comments intend: the empty path, or a first key
   * followed by a neighbour at every step; it neither lets an isolated
   * vertex through nor raises.
   */
  function IntendedPathOutcome(s: Store, path: seq<Label>): (r: bool)
    ensures r <==> IsWalk(s, path)
  {
    |path| == 0 || (path[0] in s.adj && (|path| == 1 || IntendedPairsFrom(s, path, 0)))
  }

  /**
   * The check as written answers True wherever the intended one does, and
   * the two agree on True unless a vertex before the last is isolated.
   */
  lemma PathOutcomeVersusIntended(s: Store, path: seq<Label>)
    requires WellFormed(s)
    ensures IntendedPathOutcome(s, path) ==> PathOutcome(s, path) == Returned(true)
    ensures PathOutcome(s, path) == Returned(true) && (forall k :: 0 <= k < |path| - 1 && path[k] in s.adj ==> s.adj[path[k]] != [])
      ==> IntendedPathOutcome(s, path)
  {
    if IntendedPathOutcome(s, path) {
      WalkAccepted(s, path);
    }
    if PathOutcome(s, path) == Returned(true) && (forall k :: 0 <= k < |path| - 1 && path[k] in s.adj ==> s.adj[path[k]] != []) {
      AcceptedIsWalk(s, path);
    }
  }

  lemma {:induction false} PairsFromRaises(s: Store, path: seq<Label>, i: nat)
    requires i < |path| - 1 && PairsFrom(s, path, i) == Raised(KeyError)
    ensures exists k :: i <= k < |path| - 1 && path[k] !in s.adj
    decreases |path| - i
  {
    if path[i] in s.adj {
      PairsFromRaises(s, path, i + 1);
    }
  }

  /**
   * `KeyError` is raised only when a vertex strictly inside the path is not
   * a key; `False` is answered only when some step is not an edge.
   */
  lemma PathOutcomeFailures(s: Store, path: seq<Label>)
    ensures PathOutcome(s, path) == Raised(KeyError) ==>
      exists k :: 1 <= k < |path| - 1 && path[k] !in s.adj
    ensures PathOutcome(s, path) == Returned(false) ==>
      path[0] !in s.adj || exists k :: 0 <= k < |path| - 1 && !Adjacent(s, path[k], path[k + 1])
  {
    if |path| > 1 && path[0] in s.adj {
      if PathOutcome(s, path) == Raised(KeyError) {
        PairsFromRaises(s, path, 0);
      }
      if PathOutcome(s, path) == Returned(false) {
        PairsFromRejects(s, path, 0);
      }
    }
  }

  lemma {:induction false} PairsFromRejects(s: Store, path: seq<Label>, i: nat)
    requires i < |path| - 1 && PairsFrom(s, path, i) == Returned(false)
    ensures exists k :: i <= k < |path| - 1 && !Adjacent(s, path[k], path[k + 1])
    decreases |path| - i
  {
    if path[i] in s.adj && !(s.adj[path[i]] != [] && path[i + 1] !in s.adj[path[i]]) {
      PairsFromRejects(s, path, i + 1);
    }
  }

  /** From an isolated key any next vertex is let through: `["a", "b"]` is answered True with no edge `a`-`b`. */
  lemma IsolatedVertexAccepted()
    ensures var s := Store(["a", "b"], map["a" := [], "b" := []]);
      WellFormed(s) && PathOutcome(s, ["a", "b"]) == Returned(true) && !IsWalk(s, ["a", "b"])
  {
    var s := Store(["a", "b"], map["a" := [], "b" := []]);
    assert !Adjacent(s, "a", "b");
  }

  /** A non-vertex after an isolated key raises instead of answering False: `["a", "z", "b"]`. */
  lemma NonVertexRaises()
    ensures var s := Store(["a", "b"], map["a" := [], "b" := []]);
      WellFormed(s) && PathOutcome(s, ["a", "z", "b"]) == Raised(KeyError)
  {
  }

  // ---------------------------------------------------------------------
  // dfs and bfs

  /** How a traversal leaves a list it reads: `sort()` then `reverse()` in `dfs`, `sort()` in `bfs`. */
  function Arranged(d: Traversal.Discipline, l: seq<Label>): (r: seq<Label>)
    ensures multiset(r) == multiset(l)
    ensures forall x :: x in r <==> x in l
    ensures NoDuplicates(l) ==> NoDuplicates(r)
    ensures l == [] ==> r == []
  {
    SortKeepsElements(l);
    SortDistinct(l);
    if d == Traversal.Lifo then
      ReverseKeepsElements(Sort(l));
      Reverse(Sort(l))
    else Sort(l)
  }

  /** Lists with the same elements are arranged alike. */
  lemma ArrangedPermutation(d: Traversal.Discipline, l1: seq<Label>, l2: seq<Label>)
    requires multiset(l1) == multiset(l2)
    ensures Arranged(d, l1) == Arranged(d, l2)
  {
    SortedUnique(Sort(l1), Sort(l2));
  }

  /** Arranging a list a second time changes nothing. */
  lemma ArrangedIdempotent(d: Traversal.Discipline, l: seq<Label>)
    ensures Arranged(d, Arranged(d, l)) == Arranged(d, l)
  {
    ArrangedPermutation(d, Arranged(d, l), l);
  }

  /** The neighbours of each vertex in the order the traversal pushes them. */
  function Order(d: Traversal.Discipline, adj: map<Label, seq<Label>>): (f: Label -> seq<Label>)
    ensures forall v :: v in adj ==> f(v) == Arranged(d, adj[v])
    ensures forall v :: v !in adj ==> f(v) == []
  {
    v => if v in adj then Arranged(d, adj[v]) else []
  }

  /** The neighbours of each vertex, as listed. */
  function Neighbours(adj: map<Label, seq<Label>>): (f: Label -> seq<Label>)
    ensures forall v :: v in adj ==> f(v) == adj[v]
    ensures forall v :: v !in adj ==> f(v) == []
  {
    v => if v in adj then adj[v] else []
  }

  lemma OrderClosed(d: Traversal.Discipline, s: Store)
    requires WellFormed(s)
    ensures Traversal.Closed(s.adj.Keys, Order(d, s.adj))
  {
    var f := Order(d, s.adj);
    forall v, w | v in s.adj.Keys && w in f(v) ensures w in s.adj.Keys {
      assert f(v) == Arranged(d, s.adj[v]);
      Symmetric(s, v, w);
    }
  }

  /** `u` and `w` are joined by a walk. */
  ghost predicate Connected(s: Store, u: Label, w: Label)
  {
    Traversal.Reachable(Neighbours(s.adj), u, w)
  }

  lemma OrderConnects(d: Traversal.Discipline, s: Store, u: Label, w: Label)
    ensures Traversal.Reachable(Order(d, s.adj), u, w) <==> Connected(s, u, w)
  {
    Traversal.ReachableSameNeighbours(Order(d, s.adj), Neighbours(s.adj), u, w);
  }

  /** A walk along the rearranged lists is a walk of the graph. */
  lemma OrderedIsConnected(d: Traversal.Discipline, s: Store, u: Label, w: Label)
    requires Traversal.Reachable(Order(d, s.adj), u, w)
    ensures Connected(s, u, w)
  {
    OrderConnects(d, s, u, w);
  }

  /** A walk of the graph is a walk along the rearranged lists. */
  lemma ConnectedIsOrdered(d: Traversal.Discipline, s: Store, u: Label, w: Label)
    requires Connected(s, u, w)
    ensures Traversal.Reachable(Order(d, s.adj), u, w)
  {
    OrderConnects(d, s, u, w);
  }

  /** The stop test `if v_end and v_end in visited`: an empty string is falsy. */
  function Target(vEnd: Option<Label>): (t: Option<Label>)
    ensures t.Some? <==> vEnd.Some? && vEnd.value != ""
    ensures t.Some? ==> t == vEnd
  {
    if vEnd.Some? && vEnd.value != "" then vEnd else None
  }

  /** `dfs(v_start, v_end)` (stack, `d == Lifo`) and `bfs(v_start, v_end)` (queue, `d == Fifo`). */
  function Search(d: Traversal.Discipline, s: Store, start: Label, vEnd: Option<Label>): seq<Label>
    requires WellFormed(s)
  {
    OrderClosed(d, s);
    Traversal.Traverse(d, s.adj.Keys, Order(d, s.adj), start, Target(vEnd))
  }

  /**
   * What `dfs` and `bfs` promise: nothing for a start that is not a
   * vertex; otherwise the start first, no vertex twice, only vertices
   * joined to the start, the target last once it is reached, and every
   * vertex joined to the start unless the search stopped at the target.
   */
  lemma SearchProperties(d: Traversal.Discipline, s: Store, start: Label, vEnd: Option<Label>)
    requires WellFormed(s)
    ensures var r := Search(d, s, start, vEnd);
      && (start !in s.adj ==> r == [])
      && (start in s.adj ==> |r| > 0 && r[0] == start)
      && NoDuplicates(r)
      && (forall x :: x in r ==> x in s.adj && Connected(s, start, x))
      && (Target(vEnd).Some? && vEnd.value in r ==> r[|r| - 1] == vEnd.value)
      && (start in s.adj && (Target(vEnd).None? || vEnd.value !in r) ==>
            forall x :: Connected(s, start, x) ==> x in r)
  {
    SearchShape(d, s, start, vEnd);
    SearchSound(d, s, start, vEnd);
    SearchComplete(d, s, start, vEnd);
  }

  /** Where `dfs` and `bfs` start and stop, and that they list no vertex twice. */
  lemma SearchShape(d: Traversal.Discipline, s: Store, start: Label, vEnd: Option<Label>)
    requires WellFormed(s)
    ensures var r := Search(d, s, start, vEnd);
      && (start !in s.adj ==> r == [])
      && (start in s.adj ==> |r| > 0 && r[0] == start)
      && NoDuplicates(r)
      && (Target(vEnd).Some? && vEnd.value in r ==> r[|r| - 1] == vEnd.value)
  {
    OrderClosed(d, s);
    ShapeWithTarget(d, s.adj.Keys, Order(d, s.adj), start, vEnd);
  }

  /** `Traversal.TraverseShape` with the target given as `dfs` and `bfs` receive it. */
  lemma ShapeWithTarget(d: Traversal.Discipline, verts: set<Label>, f: Label -> seq<Label>, start: Label, vEnd: Option<Label>)
    requires Traversal.Closed(verts, f)
    ensures var r := Traversal.Traverse(d, verts, f, start, Target(vEnd));
      && (start !in verts ==> r == [])
      && (start in verts ==> |r| > 0 && r[0] == start)
      && NoDuplicates(r)
      && (Target(vEnd).Some? && vEnd.value in r ==> r[|r| - 1] == vEnd.value)
  {
    Traversal.TraverseShape(d, verts, f, start, Target(vEnd));
  }

  /** `dfs` and `bfs` list only vertices connected to the start. */
  lemma SearchSound(d: Traversal.Discipline, s: Store, start: Label, vEnd: Option<Label>)
    requires WellFormed(s)
    ensures forall x :: x in Search(d, s, start, vEnd) ==> x in s.adj && Connected(s, start, x)
  {
    var r := Search(d, s, start, vEnd);
    var f := Order(d, s.adj);
    OrderClosed(d, s);
    forall x | x in r ensures x in s.adj && Connected(s, start, x) {
      Traversal.TraverseSound(d, s.adj.Keys, f, start, Target(vEnd), x);
      OrderedIsConnected(d, s, start, x);
    }
  }

  /** Without a target that they reach, `dfs` and `bfs` list every vertex connected to a start vertex. */
  lemma SearchComplete(d: Traversal.Discipline, s: Store, start: Label, vEnd: Option<Label>)
    requires WellFormed(s)
    ensures var r := Search(d, s, start, vEnd);
      start in s.adj && (Target(vEnd).None? || vEnd.value !in r) ==> forall x :: Connected(s, start, x) ==> x in r
  {
    var r := Search(d, s, start, vEnd);
    var f := Order(d, s.adj);
    OrderClosed(d, s);
    if start in s.adj && (Target(vEnd).None? || vEnd.value !in r) {
      forall x | Connected(s, start, x) ensures x in r {
        ConnectedIsOrdered(d, s, start, x);
        Traversal.TraverseComplete(d, s.adj.Keys, f, start, Target(vEnd), x);
      }
    }
  }

  /** A nonempty target joined to the start ends the output. */
  lemma SearchStopsAtTarget(d: Traversal.Discipline, s: Store, start: Label, t: Label)
    requires WellFormed(s) && start in s.adj && t != "" && Connected(s, start, t)
    ensures var r := Search(d, s, start, Some(t)); |r| > 0 && r[|r| - 1] == t
  {
    SearchComplete(d, s, start, Some(t));
    SearchShape(d, s, start, Some(t));
  }

  /** `dfs` goes first to the smallest neighbour of the start ("vertices are picked in alphabetical order"). */
  lemma DfsVisitsSmallestNeighbour(s: Store, start: Label, vEnd: Option<Label>)
    requires WellFormed(s) && start in s.adj && s.adj[start] != []
    requires Target(vEnd) != Some(start)
    ensures var r := Search(Traversal.Lifo, s, start, vEnd);
      && |r| >= 2 && r[1] in s.adj[start]
      && forall w :: w in s.adj[start] ==> LessOrEqual(r[1], w)
  {
    var l := s.adj[start];
    var sorted := Sort(l);
    SortedFirstLeast(l);
    var f := Order(Traversal.Lifo, s.adj);
    OrderClosed(Traversal.Lifo, s);
    assert f(start) == Reverse(sorted);
    assert Traversal.Pick(Traversal.Lifo, f(start)) == Reverse(sorted)[|sorted| - 1] == sorted[0];
    assert sorted[0] != start;
    Traversal.TraverseListsNext(Traversal.Lifo, s.adj.Keys, f, start, Target(vEnd));
  }

  /** The first element of a sorted nonempty list is one of its elements and the least. */
  lemma SortedFirstLeast(l: seq<Label>)
    requires l != []
    ensures |Sort(l)| == |l| && Sort(l)[0] in l
    ensures forall w :: w in l ==> LessOrEqual(Sort(l)[0], w)
  {
    var sorted := Sort(l);
    SortKeepsElements(l);
    assert sorted[0] in sorted;
    forall w | w in l ensures LessOrEqual(sorted[0], w) {
      var k :| 0 <= k < |sorted| && sorted[k] == w;
      if k > 0 {
        assert LessOrEqual(sorted[0], sorted[k]);
      }
    }
  }

  /** With no target, `bfs` lists the start and then all its neighbours in alphabetical order. */
  lemma BfsListsNeighboursFirst(s: Store, start: Label)
    requires WellFormed(s) && start in s.adj
    ensures var r := Search(Traversal.Fifo, s, start, None);
      && |r| >= 1 + |s.adj[start]|
      && r[..1 + |s.adj[start]|] == [start] + Sort(s.adj[start])
  {
    var l := s.adj[start];
    var a := Sort(l);
    SortKeepsElements(l);
    SortDistinct(l);
    var f := Order(Traversal.Fifo, s.adj);
    OrderClosed(Traversal.Fifo, s);
    assert f(start) == a;
    var verts := s.adj.Keys;
    Traversal.TraverseFirstStep(Traversal.Fifo, verts, f, start, None);
    var s1 := Traversal.State(a, {start}, [start]);
    assert a == a + [];
    Traversal.FifoListsQueueInOrder(verts, f, s1, a, []);
  }

  /** `w` is the alphabetically first neighbour of `u` outside `seen`. */
  ghost predicate LeastUnvisited(s: Store, u: Label, seen: seq<Label>, w: Label)
  {
    u in s.adj && w in s.adj[u] && w !in seen &&
    forall x :: x in s.adj[u] && x !in seen ==> LessOrEqual(w, x)
  }

  /** Every neighbour of `u` lies in `seen`. */
  ghost predicate AllVisited(s: Store, u: Label, seen: seq<Label>)
  {
    u in s.adj ==> forall x :: x in s.adj[u] ==> x in seen
  }

  /** `r[j]` gives `r[k]` in depth-first order: the latest vertex before position `k` that still has an unvisited neighbour, and `r[k]` the least of those. */
  ghost predicate DfsParent(s: Store, r: seq<Label>, k: nat, j: nat)
  {
    j < k < |r| && LeastUnvisited(s, r[j], r[..k], r[k]) &&
    forall i :: j < i < k ==> AllVisited(s, r[i], r[..k])
  }

  /** `r[j]` gives `r[k]` in breadth-first order: the earliest vertex before position `k` that still has an unvisited neighbour, and `r[k]` the least of those. */
  ghost predicate BfsParent(s: Store, r: seq<Label>, k: nat, j: nat)
  {
    j < k < |r| && LeastUnvisited(s, r[j], r[..k], r[k]) &&
    forall i :: 0 <= i < j ==> AllVisited(s, r[i], r[..k])
  }

  /** The `k`-th vertex of `r` follows the depth-first rule: some `r[j]` before it is its parent in the sense of `DfsParent`. */
  ghost predicate DfsNext(s: Store, r: seq<Label>, k: nat)
    requires k < |r|
  {
    exists j :: 0 <= j < k && LeastUnvisited(s, r[j], r[..k], r[k]) &&
      forall i :: j < i < k ==> AllVisited(s, r[i], r[..k])
  }

  /** The `k`-th vertex of `r` follows the breadth-first rule: some `r[j]` before it is its parent in the sense of `BfsParent`. */
  ghost predicate BfsNext(s: Store, r: seq<Label>, k: nat)
    requires k < |r|
  {
    exists j :: 0 <= j < k && LeastUnvisited(s, r[j], r[..k], r[k]) &&
      forall i :: 0 <= i < j ==> AllVisited(s, r[i], r[..k])
  }

  /**
   * `dfs` at every step: after the start, each vertex listed is the least
   * unvisited neighbour of the latest listed vertex that still has one; unless
   * the search stopped at `v_end`, every neighbour of a listed vertex is listed.
   */
  lemma DfsOrder(s: Store, start: Label, vEnd: Option<Label>)
    requires WellFormed(s) && start in s.adj
    ensures var r := Search(Traversal.Lifo, s, start, vEnd);
      && |r| > 0 && r[0] == start
      && (forall k :: 1 <= k < |r| ==> DfsNext(s, r, k))
      && (Target(vEnd).None? || Target(vEnd).value !in r ==> forall i :: 0 <= i < |r| ==> AllVisited(s, r[i], r))
  {
    var r := SearchInOrder(Traversal.Lifo, s, start, vEnd);
    forall k | 1 <= k < |r| ensures DfsNext(s, r, k) {
      var j := SearchParent(Traversal.Lifo, s, r, k);
      assert DfsParent(s, r, k, j);
    }
  }

  /**
   * `bfs` at every step: after the start, each vertex listed is the least
   * unvisited neighbour of the earliest listed vertex that still has one; unless
   * the search stopped at `v_end`, every neighbour of a listed vertex is listed.
   */
  lemma BfsOrder(s: Store, start: Label, vEnd: Option<Label>)
    requires WellFormed(s) && start in s.adj
    ensures var r := Search(Traversal.Fifo, s, start, vEnd);
      && |r| > 0 && r[0] == start
      && (forall k :: 1 <= k < |r| ==> BfsNext(s, r, k))
      && (Target(vEnd).None? || Target(vEnd).value !in r ==> forall i :: 0 <= i < |r| ==> AllVisited(s, r[i], r))
  {
    var r := SearchInOrder(Traversal.Fifo, s, start, vEnd);
    forall k | 1 <= k < |r| ensures BfsNext(s, r, k) {
      var j := SearchParent(Traversal.Fifo, s, r, k);
      assert BfsParent(s, r, k, j);
    }
  }

  /**
   * Breadth-first order is level order: a later vertex never has an earlier
   * parent, and two children of one parent are listed alphabetically.
   */
  lemma BfsParentsInOrder(s: Store, r: seq<Label>, k1: nat, j1: nat, k2: nat, j2: nat)
    requires BfsParent(s, r, k1, j1) && BfsParent(s, r, k2, j2) && k1 < k2
    ensures j1 <= j2
    ensures j1 == j2 ==> LessOrEqual(r[k1], r[k2])
  {
    assert r[k2] !in r[..k1] by {
      assert forall x :: x in r[..k1] ==> x in r[..k2];
    }
  }

  /** The search in its traversal form, with the order facts of `Traversal.TraverseInOrder`. */
  lemma SearchInOrder(d: Traversal.Discipline, s: Store, start: Label, vEnd: Option<Label>) returns (r: seq<Label>)
    requires WellFormed(s) && start in s.adj
    ensures r == Search(d, s, start, vEnd)
    ensures |r| > 0 && r[0] == start
    ensures Traversal.ListedInOrder(d, Order(d, s.adj), r, 1)
    ensures Target(vEnd).None? || Target(vEnd).value !in r ==> forall i :: 0 <= i < |r| ==> AllVisited(s, r[i], r)
  {
    var f := Order(d, s.adj);
    OrderClosed(d, s);
    r := Search(d, s, start, vEnd);
    Traversal.TraverseInOrder(d, s.adj.Keys, f, start, Target(vEnd));
    if Target(vEnd).None? || Target(vEnd).value !in r {
      Traversal.NextVisitNone(d, f, r, Elements(r));
      forall i | 0 <= i < |r| ensures AllVisited(s, r[i], r) {
        forall x | r[i] in s.adj && x in s.adj[r[i]] ensures x in r {
          assert x in f(r[i]);
        }
      }
    }
  }

  /** The parent of the `k`-th vertex of a search output, read off `NextVisit`. */
  lemma SearchParent(d: Traversal.Discipline, s: Store, r: seq<Label>, k: nat) returns (j: nat)
    requires k < |r| && Traversal.ListedInOrder(d, Order(d, s.adj), r, 1) && 1 <= k
    ensures j < k && LeastUnvisited(s, r[j], r[..k], r[k])
    ensures forall i :: 0 <= i < k && Traversal.TakenBefore(d, i, j) ==> AllVisited(s, r[i], r[..k])
  {
    var f := Order(d, s.adj);
    var out := r[..k];
    var p;
    j, p := Traversal.NextVisitChoice(d, f, out, Elements(out), r[k]);
    assert out[j] == r[j];
    assert r[j] in s.adj;
    ArrangedLeast(d, s.adj[r[j]], Elements(out), p);
    forall i | 0 <= i < k && Traversal.TakenBefore(d, i, j) ensures AllVisited(s, r[i], out) {
      assert out[i] == r[i];
      forall x | r[i] in s.adj && x in s.adj[r[i]] ensures x in out {
        assert x in f(out[i]);
      }
    }
  }

  /** The entry at `p` of an arranged list, when everything given up before it is seen, is the alphabetically least unseen entry. */
  lemma ArrangedLeast(d: Traversal.Discipline, l: seq<Label>, seen: set<Label>, p: nat)
    requires p < |Arranged(d, l)|
    requires forall q :: 0 <= q < |Arranged(d, l)| && Traversal.TakenBefore(d, q, p) ==> Arranged(d, l)[q] in seen
    ensures forall x :: x in l && x !in seen ==> LessOrEqual(Arranged(d, l)[p], x)
  {
    var a := Arranged(d, l);
    forall x | x in l && x !in seen ensures LessOrEqual(a[p], x) {
      var q :| 0 <= q < |a| && a[q] == x;
      assert !Traversal.TakenBefore(d, q, p);
      ArrangedPositions(d, l, p, q);
    }
  }

  /** Positions of an arranged list that are given up later hold alphabetically later labels. */
  lemma ArrangedPositions(d: Traversal.Discipline, l: seq<Label>, p: nat, q: nat)
    requires p < |Arranged(d, l)| && q < |Arranged(d, l)| && !Traversal.TakenBefore(d, q, p)
    ensures LessOrEqual(Arranged(d, l)[p], Arranged(d, l)[q])
  {
    var sorted := Sort(l);
    var a := Arranged(d, l);
    if d == Traversal.Lifo {
      assert a == Reverse(sorted);
      if q < p {
        ReversedSortedPair(sorted, p, q);
      }
    } else {
      assert a == sorted;
      if p < q {
        SortedPair(sorted, p, q);
      }
    }
  }

  lemma ReversedSortedPair(s: seq<Label>, p: nat, q: nat)
    requires Sorted(s) && q < p < |s|
    ensures LessOrEqual(Reverse(s)[p], Reverse(s)[q])
  {
    var n := |s|;
    SortedPair(s, n - 1 - p, n - 1 - q);
  }

  lemma SortedPair(s: seq<Label>, i: nat, j: nat)
    requires Sorted(s) && i < j < |s|
    ensures LessOrEqual(s[i], s[j])
  {
  }

  /** A search from a vertex lists that vertex and lists vertices only. */
  lemma SearchInsideGraph(d: Traversal.Discipline, s: Store, start: Label, vEnd: Option<Label>)
    requires WellFormed(s) && start in s.adj
    ensures start in Search(d, s, start, vEnd)
    ensures Elements(Search(d, s, start, vEnd)) <= s.adj.Keys
  {
    SearchProperties(d, s, start, vEnd);
  }

  /**
   * The map `dfs` or `bfs` leaves behind: the list of every vertex in
   * `done` (the vertices it listed) arranged, the others untouched.
   */
  function Rearranged(d: Traversal.Discipline, adj: map<Label, seq<Label>>, done: set<Label>): (r: map<Label, seq<Label>>)
    ensures r.Keys == adj.Keys
    ensures forall k :: k in adj ==> r[k] == if k in done then Arranged(d, adj[k]) else adj[k]
  {
    map k | k in adj :: if k in done then Arranged(d, adj[k]) else adj[k]
  }

  /** Before any vertex is visited no list is rearranged. */
  lemma RearrangedNothing(d: Traversal.Discipline, adj: map<Label, seq<Label>>, done: set<Label>)
    requires done == {}
    ensures Rearranged(d, adj, done) == adj
  {
  }

  /** Visiting one more vertex arranges its list and leaves the others as they were. */
  lemma RearrangedVisit(d: Traversal.Discipline, adj: map<Label, seq<Label>>, done: set<Label>, key: Label)
    requires key in adj && key !in done
    ensures Rearranged(d, adj, done)[key] == adj[key]
    ensures Rearranged(d, adj, done)[key := Arranged(d, adj[key])] == Rearranged(d, adj, done + {key})
  {
    var r := Rearranged(d, adj, done);
    var t := Rearranged(d, adj, done + {key});
    var u := r[key := Arranged(d, adj[key])];
    assert u.Keys == t.Keys;
    forall k | k in u ensures u[k] == t[k] {
      if k != key {
        assert u[k] == r[k];
      }
    }
  }

  /** Visiting a vertex with no neighbours changes no list. */
  lemma RearrangedVisitEmpty(d: Traversal.Discipline, adj: map<Label, seq<Label>>, done: set<Label>, key: Label)
    requires key in adj && adj[key] == []
    ensures Rearranged(d, adj, done) == Rearranged(d, adj, done + {key})
  {
    var r := Rearranged(d, adj, done);
    var t := Rearranged(d, adj, done + {key});
    forall k | k in adj ensures r[k] == t[k] {
    }
  }

  /** Rearranging keeps every list's contents, so the graph and its invariant are unchanged. */
  lemma RearrangedKeepsGraph(d: Traversal.Discipline, s: Store, done: set<Label>)
    requires WellFormed(s)
    ensures var t := Store(s.keys, Rearranged(d, s.adj, done));
      && WellFormed(t)
      && (forall u, w :: Adjacent(t, u, w) <==> Adjacent(s, u, w))
      && (forall k :: k in s.adj ==> multiset(t.adj[k]) == multiset(s.adj[k]))
  {
    var r := Rearranged(d, s.adj, done);
    var t := Store(s.keys, r);
    forall k | k in s.adj ensures multiset(r[k]) == multiset(s.adj[k]) && (forall w :: w in r[k] <==> w in s.adj[k]) && NoDuplicates(r[k]) {
      assert r[k] == if k in done then Arranged(d, s.adj[k]) else s.adj[k];
    }
    SameNeighbours(s, t);
  }

  /** A dictionary whose lists hold, without repetitions, the same neighbours as a well-formed one is well formed and has the same edges. */
  lemma SameNeighbours(s: Store, t: Store)
    requires WellFormed(s) && t.keys == s.keys && t.adj.Keys == s.adj.Keys
    requires forall k :: k in s.adj ==> (forall w :: w in t.adj[k] <==> w in s.adj[k]) && NoDuplicates(t.adj[k])
    ensures WellFormed(t)
    ensures forall u, w :: Adjacent(t, u, w) <==> Adjacent(s, u, w)
  {
    WellFormedIntro(t);
  }

  /** Rearranging twice is rearranging once, for the union of the two sets. */
  lemma RearrangedTwice(d: Traversal.Discipline, adj: map<Label, seq<Label>>, a: set<Label>, b: set<Label>)
    ensures Rearranged(d, Rearranged(d, adj, a), b) == Rearranged(d, adj, a + b)
  {
    forall k | k in adj ensures Rearranged(d, Rearranged(d, adj, a), b)[k] == Rearranged(d, adj, a + b)[k] {
      ArrangedIdempotent(d, adj[k]);
    }
  }

  /** The order in which lists happen to be kept does not change what `dfs` or `bfs` return. */
  lemma SearchIgnoresListOrder(d: Traversal.Discipline, s: Store, t: Store, start: Label, vEnd: Option<Label>)
    requires WellFormed(s) && WellFormed(t) && s.adj.Keys == t.adj.Keys
    requires forall k :: k in s.adj ==> multiset(s.adj[k]) == multiset(t.adj[k])
    ensures Search(d, s, start, vEnd) == Search(d, t, start, vEnd)
  {
    var f := Order(d, s.adj);
    var g := Order(d, t.adj);
    forall v ensures f(v) == g(v) {
      if v in s.adj {
        ArrangedPermutation(d, s.adj[v], t.adj[v]);
      }
    }
    OrderClosed(d, s);
    OrderClosed(d, t);
    if start in s.adj {
      Traversal.RunSameSucc(d, s.adj.Keys, f, g, Traversal.State([start], {}, []), Target(vEnd));
    }
  }

  /** A search leaves the graph's lists as they would be after an earlier search: its result does not depend on earlier ones. */
  lemma SearchAfterRearranging(d: Traversal.Discipline, e: Traversal.Discipline, s: Store, done: set<Label>, start: Label, vEnd: Option<Label>)
    requires WellFormed(s)
    ensures WellFormed(Store(s.keys, Rearranged(e, s.adj, done)))
    ensures Search(d, Store(s.keys, Rearranged(e, s.adj, done)), start, vEnd) == Search(d, s, start, vEnd)
  {
    RearrangedKeepsGraph(e, s, done);
    SearchIgnoresListOrder(d, Store(s.keys, Rearranged(e, s.adj, done)), s, start, vEnd);
  }

  // ---------------------------------------------------------------------
  // count_connected_components and has_cycle

  /** The vertices `dfs(v)` lists, as the set its joined, sorted output stands for. */
  function ComponentOf(s: Store, v: Label): set<Label>
    requires WellFormed(s)
  {
    Elements(Search(Traversal.Lifo, s, v, None))
  }

  /** The distinct keys `count_connected_components` collects, one per vertex. */
  function Components(s: Store): set<set<Label>>
    requires WellFormed(s)
  {
    set v | v in s.keys :: ComponentOf(s, v)
  }

  /** The distinct keys collected after a `dfs` from each vertex of `vs` in turn. */
  function ComponentsAmong(s: Store, vs: seq<Label>): set<set<Label>>
    requires WellFormed(s)
    decreases |vs|
  {
    if vs == [] then {} else ComponentsAmong(s, vs[..|vs| - 1]) + {ComponentOf(s, vs[|vs| - 1])}
  }

  /** One more `dfs` adds its key. */
  lemma ComponentsAmongAppend(s: Store, vs: seq<Label>, i: nat)
    requires WellFormed(s) && i < |vs|
    ensures ComponentsAmong(s, vs[..i + 1]) == ComponentsAmong(s, vs[..i]) + {ComponentOf(s, vs[i])}
  {
    assert vs[..i + 1][..i] == vs[..i];
  }

  /** Collecting the keys one vertex at a time gives the key of every vertex. */
  lemma {:induction false} ComponentsAmongAll(s: Store, vs: seq<Label>)
    requires WellFormed(s)
    ensures ComponentsAmong(s, vs) == set v | v in vs :: ComponentOf(s, v)
    decreases |vs|
  {
    if vs != [] {
      var init := vs[..|vs| - 1];
      var last := vs[|vs| - 1];
      assert vs == init + [last];
      ComponentsAmongAll(s, init);
      assert ComponentsAmong(s, vs) == ComponentsAmong(s, init) + {ComponentOf(s, last)};
      ComponentsOfAppend(s, init, last);
    }
  }

  /** The keys of the vertices of `init + [last]` are those of `init` and the key of `last`. */
  lemma ComponentsOfAppend(s: Store, init: seq<Label>, last: Label)
    requires WellFormed(s)
    ensures (set v | v in init + [last] :: ComponentOf(s, v)) == (set v | v in init :: ComponentOf(s, v)) + {ComponentOf(s, last)}
  {
    var vs := init + [last];
    var c := ComponentOf(s, last);
    var before := set v | v in init :: ComponentOf(s, v);
    var after := set v | v in vs :: ComponentOf(s, v);
    forall k | k in after ensures k in before + {c} {
      var v :| v in vs && k == ComponentOf(s, v);
      if v != last {
        assert v in init;
      }
    }
    forall k | k in before ensures k in after {
      var v :| v in init && k == ComponentOf(s, v);
      assert v in vs;
    }
    assert last in vs;
  }

  /** The vertices listed by a `dfs` from some vertex of `vs`: those whose lists the searches rearranged. */
  function Covered(s: Store, vs: seq<Label>): set<Label>
    requires WellFormed(s)
    decreases |vs|
  {
    if vs == [] then {} else Covered(s, vs[..|vs| - 1]) + ComponentOf(s, vs[|vs| - 1])
  }

  /** One more `dfs` covers what it lists. */
  lemma CoveredAppend(s: Store, vs: seq<Label>, i: nat)
    requires WellFormed(s) && i < |vs|
    ensures Covered(s, vs[..i + 1]) == Covered(s, vs[..i]) + ComponentOf(s, vs[i])
  {
    assert vs[..i + 1][..i] == vs[..i];
  }

  /** Searches from vertices cover those vertices and nothing but vertices. */
  lemma {:induction false} CoveredBetween(s: Store, vs: seq<Label>)
    requires WellFormed(s)
    requires forall v :: v in vs ==> v in s.adj
    ensures Elements(vs) <= Covered(s, vs) <= s.adj.Keys
    decreases |vs|
  {
    if vs != [] {
      var last := vs[|vs| - 1];
      var init := vs[..|vs| - 1];
      assert vs == init + [last];
      CoveredBetween(s, init);
      SearchInsideGraph(Traversal.Lifo, s, last, None);
    }
  }

  /** A `dfs` from every vertex covers exactly the vertices. */
  lemma CoveredAll(s: Store)
    requires WellFormed(s)
    ensures Covered(s, s.keys) == Elements(s.keys)
  {
    CoveredBetween(s, s.keys);
  }

  /**
   * After a `dfs` from every vertex, every list has been rearranged once
   * and the keys collected are the components.
   */
  lemma SearchedFromAll(s: Store)
    requires WellFormed(s)
    ensures ComponentsAmong(s, s.keys) == Components(s)
    ensures Rearranged(Traversal.Lifo, s.adj, Covered(s, s.keys)) == Rearranged(Traversal.Lifo, s.adj, Elements(s.keys))
    ensures WellFormed(Store(s.keys, Rearranged(Traversal.Lifo, s.adj, Elements(s.keys))))
  {
    ComponentsAmongAll(s, s.keys);
    CoveredAll(s);
    RearrangedKeepsGraph(Traversal.Lifo, s, Elements(s.keys));
  }

  /** The vertices joined to `v`. */
  ghost function ConnectedSet(s: Store, v: Label): set<Label>
  {
    set x | x in s.adj.Keys && Connected(s, v, x)
  }

  /** `dfs(v)` from a vertex lists exactly the vertices joined to it. */
  lemma ComponentIsConnectedSet(s: Store, v: Label)
    requires WellFormed(s) && v in s.adj
    ensures ComponentOf(s, v) == ConnectedSet(s, v)
  {
    SearchProperties(Traversal.Lifo, s, v, None);
    forall x | x in ConnectedSet(s, v) ensures x in ComponentOf(s, v) {
      assert x in Search(Traversal.Lifo, s, v, None);
    }
  }

  /** The count is the number of different sets of vertices joined to some vertex: the number of connected components. */
  lemma ComponentsAreConnectedSets(s: Store)
    requires WellFormed(s)
    ensures Components(s) == set v | v in s.keys :: ConnectedSet(s, v)
  {
    forall v | v in s.keys ensures ComponentOf(s, v) == ConnectedSet(s, v) {
      ComponentIsConnectedSet(s, v);
    }
  }

  /** A graph with no vertices has no components. */
  lemma NoVerticesNoComponents(s: Store)
    requires WellFormed(s) && s.keys == []
    ensures |Components(s)| == 0
  {
    assert Components(s) == {};
  }

  /** In a graph without edges each vertex is a component of its own. */
  lemma IsolatedVerticesAreComponents(s: Store)
    requires WellFormed(s)
    requires forall k :: k in s.adj ==> s.adj[k] == []
    ensures |Components(s)| == |s.keys|
  {
    var f := Neighbours(s.adj);
    forall v | v in s.keys ensures ComponentOf(s, v) == {v} {
      ComponentIsConnectedSet(s, v);
      Traversal.ReachableSelf(f, v);
      forall x | Connected(s, v, x) ensures x == v {
        Traversal.ClosedHoldsReachable(f, {v}, v, x);
      }
    }
    assert Components(s) == set v | v in Elements(s.keys) :: {v};
    SingletonsCount(Elements(s.keys));
    DistinctCardinality(s.keys);
  }

  lemma {:induction false} SingletonsCount(a: set<Label>)
    ensures |set v | v in a :: {v}| == |a|
    decreases |a|
  {
    if a != {} {
      var x :| x in a;
      var b := a - {x};
      SingletonsCount(b);
      assert (set v | v in a :: {v}) == (set v | v in b :: {v}) + {{x}};
      forall v | v in b ensures {v} != {x} {
        assert v in {v};
      }
    }
  }

  /** A cycle: at least three different vertices, each joined to the next and the last to the first. */
  ghost predicate IsCycle(s: Store, c: seq<Label>)
  {
    && |c| >= 3
    && NoDuplicates(c)
    && (forall i :: 0 <= i < |c| - 1 ==> Adjacent(s, c[i], c[i + 1]))
    && Adjacent(s, c[|c| - 1], c[0])
  }

  lemma CycleVerticesAreKeys(s: Store, c: seq<Label>)
    ensures IsCycle(s, c) ==> forall i :: 0 <= i < |c| ==> c[i] in s.adj
  {
    if IsCycle(s, c) {
      forall i | 0 <= i < |c| ensures c[i] in s.adj {
        if i < |c| - 1 {
          assert Adjacent(s, c[i], c[i + 1]);
        } else {
          assert Adjacent(s, c[|c| - 1], c[0]);
        }
      }
    }
  }

  /** Distinct vertices are no more than the keys. */
  lemma DistinctVerticesBound(s: Store, c: seq<Label>)
    requires WellFormed(s) && NoDuplicates(c)
    requires forall i :: 0 <= i < |c| ==> c[i] in s.adj
    ensures |c| <= |s.keys|
  {
    DistinctCardinality(c);
    DistinctCardinality(s.keys);
    assert Elements(c) <= Elements(s.keys);
    SubsetCardinality(Elements(c), Elements(s.keys));
  }

  lemma {:induction false} SubsetCardinality(a: set<Label>, b: set<Label>)
    requires a <= b
    ensures |a| <= |b|
    decreases |a|
  {
    if a != {} {
      var x :| x in a;
      SubsetCardinality(a - {x}, b - {x});
    }
  }

  /** With fewer than three vertices there is no cycle: the answer `has_cycle` gives there. */
  lemma FewVerticesNoCycle(s: Store, c: seq<Label>)
    requires WellFormed(s) && |s.keys| < 3
    ensures !IsCycle(s, c)
  {
    CycleVerticesAreKeys(s, c);
    if NoDuplicates(c) && forall i :: 0 <= i < |c| ==> c[i] in s.adj {
      DistinctVerticesBound(s, c);
    }
  }

  /**
   * `has_cycle()` as written: False for fewer than three vertices;
   * otherwise its loop names the undefined variable `idx`, so the call
   * raises `NameError`.
   */
  function CycleOutcome(s: Store): Outcome<bool>
  {
    if |s.keys| < 3 then Returned(false) else Raised(NameError)
  }

  /** Whenever `has_cycle` answers, the answer is right. */
  lemma CycleOutcomeSound(s: Store)
    requires WellFormed(s)
    ensures CycleOutcome(s) == Returned(true) ==> exists c :: IsCycle(s, c)
    ensures CycleOutcome(s) == Returned(false) ==> forall c :: !IsCycle(s, c)
    ensures CycleOutcome(s).Raised? <==> |s.keys| >= 3
  {
    if |s.keys| < 3 {
      forall c ensures !IsCycle(s, c) {
        FewVerticesNoCycle(s, c);
      }
    }
  }
}
