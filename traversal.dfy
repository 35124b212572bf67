/**
 * The worklist traversal both graphs use for `dfs` and `bfs`.
 *
 * One step takes a vertex off the worklist (the top of a stack for DFS,
 * the front of a queue for BFS); a vertex already visited is skipped,
 * otherwise its neighbours, in the order the graph lists them, go on the
 * end of the worklist and the vertex is recorded as visited. After every
 * step the traversal stops if the target vertex has been visited.
 *
 * `succ` gives the neighbours of a vertex already in push order; `verts`
 * is the finite vertex set they all lie in.
 */
module Traversal {

  import opened Basics

  /** Stack (`list.pop()`, depth first) or queue (`deque.popleft()`, breadth first). */
  datatype Discipline = Lifo | Fifo

  /** The loop variables of a traversal: the worklist, the visited set and the output list. */
  datatype State<T> = State(pending: seq<T>, visited: set<T>, out: seq<T>)

  /** The vertex the next step takes off the worklist. */
  function Pick<T(!new)>(d: Discipline, pending: seq<T>): T
    requires pending != []
  {
    if d == Lifo then pending[|pending| - 1] else pending[0]
  }

  /** The worklist once that vertex is taken off. */
  function Rest<T(!new)>(d: Discipline, pending: seq<T>): (r: seq<T>)
    requires pending != []
    ensures |r| == |pending| - 1
    ensures forall x :: x in r ==> x in pending
    ensures forall x :: x in pending && x != Pick(d, pending) ==> x in r
  {
    if d == Lifo then pending[..|pending| - 1] else pending[1..]
  }

  /** The neighbours of a vertex of `verts` lie in `verts`. */
  ghost predicate Closed<T(!new)>(verts: set<T>, succ: T -> seq<T>)
  {
    forall v, w :: v in verts && w in succ(v) ==> w in verts
  }

  /** Everything on the worklist and everything visited lies in `verts`. */
  ghost predicate Inside<T(!new)>(verts: set<T>, s: State<T>)
  {
    (forall x :: x in s.pending ==> x in verts) && s.visited <= verts
  }

  /** One iteration of the traversal loop, without the stop test. */
  function Step<T(!new)>(d: Discipline, succ: T -> seq<T>, s: State<T>): (r: State<T>)
    requires s.pending != []
    ensures Pick(d, s.pending) in r.visited
  {
    var v := Pick(d, s.pending);
    var rest := Rest(d, s.pending);
    if v in s.visited then State(rest, s.visited, s.out)
    else State(rest + succ(v), s.visited + {v}, s.out + [v])
  }

  /** The stop test `if v_end and v_end in visited`, with a falsy `v_end` given as `None`. */
  predicate Stops<T(!new)>(target: Option<T>, visited: set<T>)
  {
    target.Some? && target.value in visited
  }

  lemma StepInside<T(!new)>(d: Discipline, verts: set<T>, succ: T -> seq<T>, s: State<T>)
    requires Closed(verts, succ) && Inside(verts, s) && s.pending != []
    ensures Inside(verts, Step(d, succ, s))
  {
    assert Pick(d, s.pending) in s.pending;
  }

  /** The output of the traversal loop run from state `s` until the worklist empties or the target is visited. */
  function Run<T(!new)>(d: Discipline, verts: set<T>, succ: T -> seq<T>, s: State<T>, target: Option<T>): seq<T>
    requires Closed(verts, succ) && Inside(verts, s)
    decreases verts - s.visited, |s.pending|
  {
    if s.pending == [] then s.out
    else
      var s' := Step(d, succ, s);
      StepInside(d, verts, succ, s);
      assert Pick(d, s.pending) in verts;
      if Stops(target, s'.visited) then s'.out else Run(d, verts, succ, s', target)
  }

  /** `dfs`/`bfs` from `start`: nothing when `start` is not a vertex, otherwise the loop from `[start]`. */
  function Traverse<T(!new)>(d: Discipline, verts: set<T>, succ: T -> seq<T>, start: T, target: Option<T>): seq<T>
    requires Closed(verts, succ)
  {
    if start in verts then Run(d, verts, succ, State([start], {}, []), target) else []
  }

  /** Unless the start is the target, the traversal goes on from the state in which the start is listed and its neighbours are pending. */
  lemma TraverseFirstStep<T(!new)>(d: Discipline, verts: set<T>, succ: T -> seq<T>, start: T, target: Option<T>)
    requires Closed(verts, succ) && start in verts && target != Some(start)
    ensures Inside(verts, State(succ(start), {start}, [start]))
    ensures Traverse(d, verts, succ, start, target) == Run(d, verts, succ, State(succ(start), {start}, [start]), target)
  {
    var s0 := State([start], {}, []);
    StepInside(d, verts, succ, s0);
    assert Rest(d, s0.pending) == [];
    assert Step(d, succ, s0) == State(succ(start), {start}, [start]);
  }

  // ---------------------------------------------------------------------
  // Reachability

  /** A walk: every vertex after the first is a neighbour of the one before. */
  ghost predicate IsWalk<T(!new)>(succ: T -> seq<T>, p: seq<T>)
  {
    |p| > 0 && forall i :: 0 <= i < |p| - 1 ==> p[i + 1] in succ(p[i])
  }

  ghost predicate Reachable<T(!new)>(succ: T -> seq<T>, s: T, t: T)
  {
    exists p :: IsWalk(succ, p) && p[0] == s && p[|p| - 1] == t
  }

  lemma ReachableSelf<T(!new)>(succ: T -> seq<T>, s: T)
    ensures Reachable(succ, s, s)
  {
    assert IsWalk(succ, [s]);
  }

  lemma ReachableStep<T(!new)>(succ: T -> seq<T>, s: T, u: T, w: T)
    requires Reachable(succ, s, u) && w in succ(u)
    ensures Reachable(succ, s, w)
  {
    var p :| IsWalk(succ, p) && p[0] == s && p[|p| - 1] == u;
    var q := p + [w];
    forall i | 0 <= i < |q| - 1 ensures q[i + 1] in succ(q[i]) {
      if i < |p| - 1 {
        assert q[i] == p[i] && q[i + 1] == p[i + 1];
      }
    }
    assert IsWalk(succ, q);
  }

  /** A set that holds `s` and is closed under `succ` holds everything reachable from `s`. */
  lemma ClosedHoldsReachable<T(!new)>(succ: T -> seq<T>, c: set<T>, s: T, t: T)
    requires s in c
    requires forall u, w :: u in c && w in succ(u) ==> w in c
    requires Reachable(succ, s, t)
    ensures t in c
  {
    var p :| IsWalk(succ, p) && p[0] == s && p[|p| - 1] == t;
    var i := 0;
    while i < |p| - 1
      invariant 0 <= i <= |p| - 1
      invariant p[i] in c
    {
      assert p[i + 1] in succ(p[i]);
      i := i + 1;
    }
  }

  /** Reachability depends only on which vertices are neighbours, not on their order. */
  lemma ReachableSameNeighbours<T(!new)>(succ1: T -> seq<T>, succ2: T -> seq<T>, s: T, t: T)
    requires forall u, w :: w in succ1(u) <==> w in succ2(u)
    ensures Reachable(succ1, s, t) <==> Reachable(succ2, s, t)
  {
    if Reachable(succ1, s, t) {
      var p :| IsWalk(succ1, p) && p[0] == s && p[|p| - 1] == t;
      assert IsWalk(succ2, p);
    }
    if Reachable(succ2, s, t) {
      var p :| IsWalk(succ2, p) && p[0] == s && p[|p| - 1] == t;
      assert IsWalk(succ1, p);
    }
  }

  // ---------------------------------------------------------------------
  // The loop invariant and what it gives

  /**
   * What holds of every state the loop reaches from `[start]`: the output
   * lists the visited set once each; everything visited or pending is
   * reachable from `start`; and every neighbour of a visited vertex is
   * visited or still pending.
   */
  ghost predicate Inv<T(!new)>(verts: set<T>, succ: T -> seq<T>, start: T, s: State<T>)
  {
    && Closed(verts, succ)
    && Inside(verts, s)
    && NoDuplicates(s.out)
    && (forall x :: x in s.out ==> x in s.visited)
    && (forall x :: x in s.visited ==> x in s.out)
    && (forall x :: x in s.visited ==> Reachable(succ, start, x))
    && (forall x :: x in s.pending ==> Reachable(succ, start, x))
    && (start in s.visited || start in s.pending)
    && (forall u, w :: u in s.visited && w in succ(u) ==> w in s.visited || w in s.pending)
  }

  lemma InitialInv<T(!new)>(verts: set<T>, succ: T -> seq<T>, start: T)
    requires Closed(verts, succ) && start in verts
    ensures Inv(verts, succ, start, State([start], {}, []))
  {
    ReachableSelf(succ, start);
  }

  lemma StepInv<T(!new)>(d: Discipline, verts: set<T>, succ: T -> seq<T>, start: T, s: State<T>)
    requires Inv(verts, succ, start, s) && s.pending != []
    ensures Inv(verts, succ, start, Step(d, succ, s))
  {
    var v := Pick(d, s.pending);
    var rest := Rest(d, s.pending);
    var s' := Step(d, succ, s);
    StepInside(d, verts, succ, s);
    assert v in s.pending;
    if v !in s.visited {
      forall w | w in succ(v) ensures Reachable(succ, start, w) {
        ReachableStep(succ, start, v, w);
      }
      assert NoDuplicates(s'.out) by {
        forall i, j | 0 <= i < j < |s'.out| ensures s'.out[i] != s'.out[j] {
          if j == |s.out| {
            assert s'.out[i] == s.out[i];
          } else {
            assert s'.out[i] == s.out[i] && s'.out[j] == s.out[j];
          }
        }
      }
    }
  }

  /** The output only grows: the current output is a prefix of the final one. */
  lemma {:induction false} RunExtends<T(!new)>(d: Discipline, verts: set<T>, succ: T -> seq<T>, s: State<T>, target: Option<T>)
    requires Closed(verts, succ) && Inside(verts, s)
    ensures var r := Run(d, verts, succ, s, target); |s.out| <= |r| && r[..|s.out|] == s.out
    decreases verts - s.visited, |s.pending|
  {
    if s.pending != [] {
      var s' := Step(d, succ, s);
      StepInside(d, verts, succ, s);
      assert Pick(d, s.pending) in verts;
      if !Stops(target, s'.visited) {
        RunExtends(d, verts, succ, s', target);
        assert s'.out[..|s.out|] == s.out;
      }
    }
  }

  /**
   * The properties of the output, from any state satisfying the invariant
   * in which the target has not been visited yet.
   */
  lemma {:induction false} RunProperties<T(!new)>(d: Discipline, verts: set<T>, succ: T -> seq<T>, start: T, s: State<T>, target: Option<T>)
    requires Inv(verts, succ, start, s)
    requires !Stops(target, s.visited)
    ensures var r := Run(d, verts, succ, s, target);
      && NoDuplicates(r)
      && (forall x :: x in r ==> x in verts && Reachable(succ, start, x))
      && (target.Some? && target.value in r ==> r[|r| - 1] == target.value)
      && (target.None? || target.value !in r ==> forall x :: Reachable(succ, start, x) ==> x in r)
    decreases verts - s.visited, |s.pending|
  {
    var r := Run(d, verts, succ, s, target);
    if s.pending == [] {
      forall x | Reachable(succ, start, x) ensures x in r {
        ClosedHoldsReachable(succ, s.visited, start, x);
      }
    } else {
      var s' := Step(d, succ, s);
      StepInv(d, verts, succ, start, s);
      assert Pick(d, s.pending) in verts;
      if Stops(target, s'.visited) {
        assert r == s'.out == s.out + [target.value];
      } else {
        RunProperties(d, verts, succ, start, s', target);
      }
    }
  }

  /**
   * What `dfs` and `bfs` promise: no output for a start that is not a
   * vertex; otherwise the output begins with the start, lists no vertex
   * twice, lists only vertices reachable from the start, ends with the
   * target once the target is listed, and lists every reachable vertex
   * unless it stopped at the target.
   */
  lemma TraverseProperties<T(!new)>(d: Discipline, verts: set<T>, succ: T -> seq<T>, start: T, target: Option<T>)
    requires Closed(verts, succ)
    ensures var r := Traverse(d, verts, succ, start, target);
      && (start !in verts ==> r == [])
      && (start in verts ==> |r| > 0 && r[0] == start)
      && NoDuplicates(r)
      && (forall x :: x in r ==> x in verts && Reachable(succ, start, x))
      && (target.Some? && target.value in r ==> r[|r| - 1] == target.value)
      && (start in verts && (target.None? || target.value !in r) ==>
            forall x :: Reachable(succ, start, x) ==> x in r)
  {
    if start in verts {
      var s0 := State([start], {}, []);
      InitialInv(verts, succ, start);
      RunProperties(d, verts, succ, start, s0, target);
      var s1 := Step(d, succ, s0);
      StepInside(d, verts, succ, s0);
      assert s1.out == [start];
      if !Stops(target, s1.visited) {
        RunExtends(d, verts, succ, s1, target);
      }
    }
  }

  /** The part of `TraverseProperties` about where the output starts and stops, and that it has no repetitions. */
  lemma TraverseShape<T(!new)>(d: Discipline, verts: set<T>, succ: T -> seq<T>, start: T, target: Option<T>)
    requires Closed(verts, succ)
    ensures var r := Traverse(d, verts, succ, start, target);
      && (start !in verts ==> r == [])
      && (start in verts ==> |r| > 0 && r[0] == start)
      && NoDuplicates(r)
      && (target.Some? && target.value in r ==> r[|r| - 1] == target.value)
  {
    TraverseProperties(d, verts, succ, start, target);
  }

  /** The part of `TraverseProperties` saying that only reachable vertices are listed. */
  lemma TraverseSound<T(!new)>(d: Discipline, verts: set<T>, succ: T -> seq<T>, start: T, target: Option<T>, x: T)
    requires Closed(verts, succ)
    requires x in Traverse(d, verts, succ, start, target)
    ensures x in verts && Reachable(succ, start, x)
  {
    TraverseProperties(d, verts, succ, start, target);
  }

  /** The part of `TraverseProperties` saying that, without an early exit, every reachable vertex is listed. */
  lemma TraverseComplete<T(!new)>(d: Discipline, verts: set<T>, succ: T -> seq<T>, start: T, target: Option<T>, x: T)
    requires Closed(verts, succ) && start in verts
    requires target.None? || target.value !in Traverse(d, verts, succ, start, target)
    requires Reachable(succ, start, x)
    ensures x in Traverse(d, verts, succ, start, target)
  {
    TraverseProperties(d, verts, succ, start, target);
  }

  /** When the target is reachable from a start vertex, the output ends with it: the early exit. */
  lemma TraverseStopsAtTarget<T(!new)>(d: Discipline, verts: set<T>, succ: T -> seq<T>, start: T, t: T)
    requires Closed(verts, succ) && start in verts && Reachable(succ, start, t)
    ensures var r := Traverse(d, verts, succ, start, Some(t)); |r| > 0 && r[|r| - 1] == t
  {
    TraverseProperties(d, verts, succ, start, Some(t));
  }

  // ---------------------------------------------------------------------
  // Visiting order

  /** A step that takes an unvisited vertex lists it next. */
  lemma RunListsPickNext<T(!new)>(d: Discipline, verts: set<T>, succ: T -> seq<T>, s: State<T>, target: Option<T>)
    requires Closed(verts, succ) && Inside(verts, s) && s.pending != []
    requires Pick(d, s.pending) !in s.visited
    ensures var r := Run(d, verts, succ, s, target);
      |s.out| < |r| && r[..|s.out| + 1] == s.out + [Pick(d, s.pending)]
  {
    var s' := Step(d, succ, s);
    StepInside(d, verts, succ, s);
    assert Pick(d, s.pending) in verts;
    if !Stops(target, s'.visited) {
      RunExtends(d, verts, succ, s', target);
    }
  }

  /** The second vertex listed is the first neighbour of the start taken off the worklist, when it differs from the start. */
  lemma TraverseListsNext<T(!new)>(d: Discipline, verts: set<T>, succ: T -> seq<T>, start: T, target: Option<T>)
    requires Closed(verts, succ) && start in verts && target != Some(start)
    requires succ(start) != [] && Pick(d, succ(start)) != start
    ensures var r := Traverse(d, verts, succ, start, target);
      |r| >= 2 && r[0] == start && r[1] == Pick(d, succ(start))
  {
    TraverseFirstStep(d, verts, succ, start, target);
    var s1 := State(succ(start), {start}, [start]);
    RunListsPickNext(d, verts, succ, s1, target);
    var r := Traverse(d, verts, succ, start, target);
    assert r[..2] == [start, Pick(d, succ(start))];
  }

  /**
   * A queue lists the fresh vertices at its front in queue order: if the
   * queue starts with `a`, whose vertices are distinct and unvisited, and
   * there is no target, the output continues with `a`.
   */
  lemma {:induction false} FifoListsQueueInOrder<T(!new)>(verts: set<T>, succ: T -> seq<T>, s: State<T>, a: seq<T>, b: seq<T>)
    requires Closed(verts, succ) && Inside(verts, s)
    requires s.pending == a + b && NoDuplicates(a)
    requires forall x :: x in a ==> x !in s.visited
    ensures var r := Run(Fifo, verts, succ, s, None);
      |s.out| + |a| <= |r| && r[..|s.out| + |a|] == s.out + a
    decreases |a|
  {
    if a == [] {
      RunExtends(Fifo, verts, succ, s, None);
      assert s.out + a == s.out;
    } else {
      var s' := Step(Fifo, succ, s);
      StepInside(Fifo, verts, succ, s);
      assert Pick(Fifo, s.pending) == a[0];
      assert Rest(Fifo, s.pending) == a[1..] + b;
      assert s'.pending == a[1..] + (b + succ(a[0]));
      assert NoDuplicates(a[1..]) by {
        forall i, j | 0 <= i < j < |a[1..]| ensures a[1..][i] != a[1..][j] {
          assert a[1..][i] == a[i + 1] && a[1..][j] == a[j + 1];
        }
      }
      forall x | x in a[1..] ensures x !in s'.visited {
        var k :| 0 <= k < |a[1..]| && a[1..][k] == x;
        assert a[k + 1] == x;
      }
      assert a[0] in verts;
      FifoListsQueueInOrder(verts, succ, s', a[1..], b + succ(a[0]));
      assert s'.out + a[1..] == s.out + a;
    }
  }

  /** The traversal depends only on the lists `succ` gives, not on how `succ` is written. */
  lemma {:induction false} RunSameSucc<T(!new)>(d: Discipline, verts: set<T>, succ1: T -> seq<T>, succ2: T -> seq<T>, s: State<T>, target: Option<T>)
    requires Closed(verts, succ1) && Closed(verts, succ2) && Inside(verts, s)
    requires forall v :: succ1(v) == succ2(v)
    ensures Run(d, verts, succ1, s, target) == Run(d, verts, succ2, s, target)
    decreases verts - s.visited, |s.pending|
  {
    if s.pending != [] {
      var s' := Step(d, succ1, s);
      assert s' == Step(d, succ2, s);
      StepInside(d, verts, succ1, s);
      assert Pick(d, s.pending) in verts;
      if !Stops(target, s'.visited) {
        RunSameSucc(d, verts, succ1, succ2, s', target);
      }
    }
  }

  // ---------------------------------------------------------------------
  // Visiting order at every step

  /** Whether the worklist gives up position `q` before position `p`: later positions first on a stack, earlier ones first on a queue. */
  predicate TakenBefore(d: Discipline, q: int, p: int)
  {
    if d == Lifo then q > p else q < p
  }

  /** The first vertex of `l` outside `seen`, in the order the worklist gives them up. */
  function Fresh<T(!new)>(d: Discipline, l: seq<T>, seen: set<T>): (r: Option<T>)
    ensures r.None? <==> forall x :: x in l ==> x in seen
    ensures r.Some? ==> r.value in l && r.value !in seen
    decreases |l|
  {
    if l == [] then None
    else if Pick(d, l) !in seen then Some(Pick(d, l))
    else Fresh(d, Rest(d, l), seen)
  }

  /** `Fresh` names a position of `l` that holds an unseen vertex, all positions given up before it holding seen ones. */
  lemma {:induction false} FreshPosition<T(!new)>(d: Discipline, l: seq<T>, seen: set<T>)
    requires Fresh(d, l, seen).Some?
    ensures exists p :: (0 <= p < |l| && l[p] == Fresh(d, l, seen).value &&
      forall q :: 0 <= q < |l| && TakenBefore(d, q, p) ==> l[q] in seen)
    decreases |l|
  {
    var n := |l|;
    if Pick(d, l) !in seen {
      var p := if d == Lifo then n - 1 else 0;
      assert l[p] == Pick(d, l);
    } else {
      var rest := Rest(d, l);
      FreshPosition(d, rest, seen);
      var p' :| (0 <= p' < |rest| && rest[p'] == Fresh(d, rest, seen).value &&
        forall q :: 0 <= q < |rest| && TakenBefore(d, q, p') ==> rest[q] in seen);
      var p := if d == Lifo then p' else p' + 1;
      assert l[p] == rest[p'];
      forall q | 0 <= q < n && TakenBefore(d, q, p) ensures l[q] in seen {
        if d == Lifo {
          if q < n - 1 { assert l[q] == rest[q]; }
        } else {
          if q > 0 { assert l[q] == rest[q - 1]; }
        }
      }
    }
  }

  /** The candidate a worklist gives up first: the newer one on a stack, the older one on a queue. */
  function Prefer<T>(d: Discipline, older: Option<T>, newer: Option<T>): Option<T>
  {
    if d == Lifo then (if newer.Some? then newer else older)
    else (if older.Some? then older else newer)
  }

  /** Appending `b` to the worklist behind `a`: the first unseen vertex is the preferred one of the two parts. */
  lemma {:induction false} FreshConcat<T(!new)>(d: Discipline, a: seq<T>, b: seq<T>, seen: set<T>)
    ensures Fresh(d, a + b, seen) == Prefer(d, Fresh(d, a, seen), Fresh(d, b, seen))
    decreases |a| + |b|
  {
    if d == Lifo {
      if b == [] {
        assert a + b == a;
      } else {
        assert Pick(d, a + b) == Pick(d, b);
        assert Rest(d, a + b) == a + Rest(d, b);
        FreshConcat(d, a, Rest(d, b), seen);
      }
    } else {
      if a == [] {
        assert a + b == b;
      } else {
        assert Pick(d, a + b) == Pick(d, a);
        assert Rest(d, a + b) == Rest(d, a) + b;
        FreshConcat(d, Rest(d, a), b, seen);
      }
    }
  }

  /**
   * The vertex listed next after `out` with `seen` visited: the first unseen
   * neighbour, in worklist order, of the latest listed vertex that still has
   * one (stack) or of the earliest (queue).
   */
  function NextVisit<T(!new)>(d: Discipline, succ: T -> seq<T>, out: seq<T>, seen: set<T>): Option<T>
    decreases |out|
  {
    if out == [] then None
    else Prefer(d, NextVisit(d, succ, out[..|out| - 1], seen), Fresh(d, succ(out[|out| - 1]), seen))
  }

  /** `NextVisit` spelled out: which listed vertex is the parent, and that every vertex given up before it has no unseen neighbour. */
  lemma {:induction false} NextVisitParent<T(!new)>(d: Discipline, succ: T -> seq<T>, out: seq<T>, seen: set<T>)
    ensures NextVisit(d, succ, out, seen).None? ==>
      forall i :: 0 <= i < |out| ==> Fresh(d, succ(out[i]), seen).None?
    ensures NextVisit(d, succ, out, seen).Some? ==>
      exists j :: (0 <= j < |out| && Fresh(d, succ(out[j]), seen) == NextVisit(d, succ, out, seen) &&
        forall i :: 0 <= i < |out| && TakenBefore(d, i, j) ==> Fresh(d, succ(out[i]), seen).None?)
    decreases |out|
  {
    if out != [] {
      var n := |out|;
      var pre := out[..n - 1];
      NextVisitParent(d, succ, pre, seen);
      assert forall i :: 0 <= i < n - 1 ==> pre[i] == out[i];
    }
  }

  /** While the traversal runs, the worklist gives up its unvisited vertices in the order `NextVisit` predicts. */
  ghost predicate InOrder<T(!new)>(d: Discipline, succ: T -> seq<T>, s: State<T>)
  {
    && s.visited == Elements(s.out)
    && forall seen :: s.visited <= seen ==> Fresh(d, s.pending, seen) == NextVisit(d, succ, s.out, seen)
  }

  lemma StepInOrder<T(!new)>(d: Discipline, succ: T -> seq<T>, s: State<T>)
    requires InOrder(d, succ, s) && s.pending != []
    ensures InOrder(d, succ, Step(d, succ, s))
  {
    var v := Pick(d, s.pending);
    var rest := Rest(d, s.pending);
    var s' := Step(d, succ, s);
    if v in s.visited {
      forall seen | s'.visited <= seen
        ensures Fresh(d, s'.pending, seen) == NextVisit(d, succ, s'.out, seen)
      {
        assert Fresh(d, s.pending, seen) == Fresh(d, rest, seen);
      }
    } else {
      ElementsAppend(s.out, v);
      forall seen | s'.visited <= seen
        ensures Fresh(d, s'.pending, seen) == NextVisit(d, succ, s'.out, seen)
      {
        assert Fresh(d, s.pending, seen) == Fresh(d, rest, seen);
        FreshConcat(d, rest, succ(v), seen);
        assert s'.out[..|s.out|] == s.out;
      }
    }
  }

  /** Every vertex of `r` from position `from` on is the `NextVisit` of what comes before it. */
  ghost predicate ListedInOrder<T(!new)>(d: Discipline, succ: T -> seq<T>, r: seq<T>, from: nat)
  {
    forall k :: from <= k < |r| ==> Some(r[k]) == NextVisit(d, succ, r[..k], Elements(r[..k]))
  }

  lemma ListedInOrderBack<T(!new)>(d: Discipline, succ: T -> seq<T>, r: seq<T>, n: nat)
    requires n < |r| && Some(r[n]) == NextVisit(d, succ, r[..n], Elements(r[..n]))
    requires ListedInOrder(d, succ, r, n + 1)
    ensures ListedInOrder(d, succ, r, n)
  {
  }

  /** From a state in order, a step that takes an unvisited vertex lists the `NextVisit` of the output so far. */
  lemma RunListsNextVisit<T(!new)>(d: Discipline, verts: set<T>, succ: T -> seq<T>, s: State<T>, target: Option<T>)
    requires Closed(verts, succ) && Inside(verts, s) && InOrder(d, succ, s)
    requires s.pending != [] && Pick(d, s.pending) !in s.visited
    ensures var r := Run(d, verts, succ, s, target); var n := |s.out|;
      n < |r| && Some(r[n]) == NextVisit(d, succ, r[..n], Elements(r[..n]))
  {
    var r := Run(d, verts, succ, s, target);
    var n := |s.out|;
    assert Fresh(d, s.pending, s.visited) == Some(Pick(d, s.pending));
    RunListsPickNext(d, verts, succ, s, target);
    assert r[..n] == r[..n + 1][..n] == s.out;
    assert r[n] == r[..n + 1][n];
  }

  /**
   * From a state in order, every vertex the run lists after `s.out` is the
   * `NextVisit` of what was listed before it, and a run that does not stop
   * at its target leaves no listed vertex with an unvisited neighbour.
   */
  lemma {:induction false} RunInOrder<T(!new)>(d: Discipline, verts: set<T>, succ: T -> seq<T>, s: State<T>, target: Option<T>)
    requires Closed(verts, succ) && Inside(verts, s) && InOrder(d, succ, s)
    requires !Stops(target, s.visited)
    ensures var r := Run(d, verts, succ, s, target);
      && ListedInOrder(d, succ, r, |s.out|)
      && (target.None? || target.value !in r ==> NextVisit(d, succ, r, Elements(r)).None?)
    decreases verts - s.visited, |s.pending|
  {
    var r := Run(d, verts, succ, s, target);
    if s.pending == [] {
      assert Fresh(d, s.pending, s.visited).None?;
    } else {
      var v := Pick(d, s.pending);
      var s' := Step(d, succ, s);
      StepInside(d, verts, succ, s);
      StepInOrder(d, succ, s);
      assert v in verts;
      if v in s.visited {
        RunInOrder(d, verts, succ, s', target);
      } else {
        var n := |s.out|;
        RunListsNextVisit(d, verts, succ, s, target);
        if !Stops(target, s'.visited) {
          RunInOrder(d, verts, succ, s', target);
        } else {
          assert r == s'.out;
        }
        ListedInOrderBack(d, succ, r, n);
      }
    }
  }

  /**
   * The order of the whole output: the start first, then each vertex is the
   * first unvisited neighbour, in worklist order, of the latest listed vertex
   * that still has one (stack) or of the earliest (queue); unless the
   * traversal stopped at its target, no listed vertex keeps an unvisited
   * neighbour.
   */
  lemma TraverseInOrder<T(!new)>(d: Discipline, verts: set<T>, succ: T -> seq<T>, start: T, target: Option<T>)
    requires Closed(verts, succ) && start in verts
    ensures var r := Traverse(d, verts, succ, start, target);
      && |r| > 0 && r[0] == start
      && ListedInOrder(d, succ, r, 1)
      && (target.None? || target.value !in r ==> NextVisit(d, succ, r, Elements(r)).None?)
  {
    if target == Some(start) {
      TraverseStartIsTarget(d, verts, succ, start);
    } else {
      TraverseFirstStep(d, verts, succ, start, target);
      var s1 := State(succ(start), {start}, [start]);
      RunExtends(d, verts, succ, s1, target);
      var r := Run(d, verts, succ, s1, target);
      assert r[0] == r[..1][0] == start;
      FirstStepInOrder(d, succ, start);
      RunInOrder(d, verts, succ, s1, target);
    }
  }

  /** A traversal whose target is its start lists the start alone. */
  lemma TraverseStartIsTarget<T(!new)>(d: Discipline, verts: set<T>, succ: T -> seq<T>, start: T)
    requires Closed(verts, succ) && start in verts
    ensures Traverse(d, verts, succ, start, Some(start)) == [start]
  {
    var s0 := State([start], {}, []);
    StepInside(d, verts, succ, s0);
    assert Step(d, succ, s0).out == [start];
  }

  /** Once the start is listed and its neighbours are pending, the traversal is in order. */
  lemma FirstStepInOrder<T(!new)>(d: Discipline, succ: T -> seq<T>, start: T)
    ensures InOrder(d, succ, State(succ(start), {start}, [start]))
  {
    var s1 := State(succ(start), {start}, [start]);
    assert Elements([start]) == {start};
    forall seen | s1.visited <= seen
      ensures Fresh(d, s1.pending, seen) == NextVisit(d, succ, s1.out, seen)
    {
      assert [start][..0] == [];
    }
  }

  /**
   * `NextVisit` spelled out on positions: it gives up `w`, found at position
   * `p` of the list of the listed vertex `out[j]`, every position of that list
   * given up earlier holding a seen vertex, and every listed vertex given up
   * before `out[j]` having only seen neighbours.
   */
  lemma NextVisitChoice<T(!new)>(d: Discipline, succ: T -> seq<T>, out: seq<T>, seen: set<T>, w: T) returns (j: nat, p: nat)
    requires NextVisit(d, succ, out, seen) == Some(w)
    ensures j < |out| && p < |succ(out[j])| && succ(out[j])[p] == w && w !in seen
    ensures forall q :: 0 <= q < |succ(out[j])| && TakenBefore(d, q, p) ==> succ(out[j])[q] in seen
    ensures forall i, x :: 0 <= i < |out| && TakenBefore(d, i, j) && x in succ(out[i]) ==> x in seen
  {
    NextVisitParent(d, succ, out, seen);
    j :| (0 <= j < |out| && Fresh(d, succ(out[j]), seen) == NextVisit(d, succ, out, seen) &&
      forall i :: 0 <= i < |out| && TakenBefore(d, i, j) ==> Fresh(d, succ(out[i]), seen).None?);
    FreshPosition(d, succ(out[j]), seen);
    p :| (0 <= p < |succ(out[j])| && succ(out[j])[p] == w &&
      forall q :: 0 <= q < |succ(out[j])| && TakenBefore(d, q, p) ==> succ(out[j])[q] in seen);
  }

  /** No next vertex means every neighbour of every listed vertex is seen. */
  lemma NextVisitNone<T(!new)>(d: Discipline, succ: T -> seq<T>, out: seq<T>, seen: set<T>)
    requires NextVisit(d, succ, out, seen).None?
    ensures forall i, x :: 0 <= i < |out| && x in succ(out[i]) ==> x in seen
  {
    NextVisitParent(d, succ, out, seen);
  }
}
