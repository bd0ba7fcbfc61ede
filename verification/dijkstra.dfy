/** Single-source shortest paths over non-negative edge costs. The library's
    distances are `usize`, with `usize::MAX` standing for "not reached". */
module Dijkstra {

  const MAX: nat := 0xffff_ffff_ffff_ffff

  datatype Edge = Edge(to: nat, cost: nat)

  /** `graph[u]` lists the edges leaving u; `distance[v]` is the best cost
      found so far from the start. */
  datatype Dijkstra = Dijkstra(graph: seq<seq<Edge>>, distance: seq<nat>)

  /** Every edge ends at a node of the graph. */
  predicate Closed(graph: seq<seq<Edge>>) {
    forall u, k :: 0 <= u < |graph| && 0 <= k < |graph[u]| ==> graph[u][k].to < |graph|
  }

  predicate Fresh(distance: seq<nat>) {
    forall v :: 0 <= v < |distance| ==> distance[v] == MAX
  }

  // ---------------------------------------------------------------------
  // Walks: the reference the computed distances are compared with.

  /** One step of a walk: leaving `from` along `edge`. */
  datatype Hop = Hop(from: nat, edge: Edge)

  /** `w` leads from s to t along edges of the graph. */
  ghost predicate IsWalk(graph: seq<seq<Edge>>, s: nat, t: nat, w: seq<Hop>)
    decreases |w|
  {
    if |w| == 0 then s == t
    else
      var h := w[|w| - 1];
      && h.from < |graph| && h.edge in graph[h.from] && h.edge.to == t
      && IsWalk(graph, s, h.from, w[..|w| - 1])
  }

  function Cost(w: seq<Hop>): nat
    decreases |w|
  {
    if |w| == 0 then 0 else Cost(w[..|w| - 1]) + w[|w| - 1].edge.cost
  }

  /** Some walk from s to t costs exactly c. */
  ghost predicate Reachable(graph: seq<seq<Edge>>, s: nat, t: nat, c: nat) {
    exists w :: IsWalk(graph, s, t, w) && Cost(w) == c
  }

  /** Extending a walk to u by an edge leaving u. */
  lemma Extend(graph: seq<seq<Edge>>, s: nat, u: nat, w: seq<Hop>, e: Edge)
    requires IsWalk(graph, s, u, w) && u < |graph| && e in graph[u]
    ensures IsWalk(graph, s, e.to, w + [Hop(u, e)])
    ensures Cost(w + [Hop(u, e)]) == Cost(w) + e.cost
  {
    assert (w + [Hop(u, e)])[..|w|] == w;
  }

  /** No edge leaving u can improve on the distance of u. */
  ghost predicate RelaxedAt(graph: seq<seq<Edge>>, dist: seq<nat>, u: nat)
    requires Closed(graph) && |dist| == |graph| && u < |graph|
  {
    forall e :: e in graph[u] ==> dist[e.to] <= dist[u] + e.cost
  }

  /** Every edge leaving a reached node is relaxed. */
  ghost predicate Relaxed(graph: seq<seq<Edge>>, dist: seq<nat>)
    requires Closed(graph) && |dist| == |graph|
  {
    forall u :: 0 <= u < |graph| && dist[u] < MAX ==> RelaxedAt(graph, dist, u)
  }

  /** Relaxed distances are lower bounds: a walk from s to t that stays
      below MAX costs at least the difference of their distances. */
  lemma {:induction false} RelaxedIsLowerBound(graph: seq<seq<Edge>>, dist: seq<nat>, s: nat, t: nat, w: seq<Hop>)
    requires Closed(graph) && |dist| == |graph| && s < |graph|
    requires Relaxed(graph, dist) && IsWalk(graph, s, t, w)
    ensures t < |graph|
    ensures dist[s] + Cost(w) < MAX ==> dist[t] <= dist[s] + Cost(w)
    decreases |w|
  {
    if |w| > 0 {
      var h := w[|w| - 1];
      RelaxedIsLowerBound(graph, dist, s, h.from, w[..|w| - 1]);
      var k :| 0 <= k < |graph[h.from]| && graph[h.from][k] == h.edge;
    }
  }

  // ---------------------------------------------------------------------
  // Operations.

  /** `new(size)`: no edges, every distance `usize::MAX`. */
  function New(size: nat): (d: Dijkstra)
    ensures |d.graph| == size && |d.distance| == size
    ensures Closed(d.graph) && Fresh(d.distance)
    ensures forall u :: 0 <= u < size ==> d.graph[u] == []
  {
    Dijkstra(seq(size, _ => []), seq(size, _ => MAX))
  }

  /** `add_edge(from, to, cost)`: one edge appended to the list of `from`;
      nothing else changes. `from` out of range panics in the library. */
  function AddEdge(d: Dijkstra, from: nat, to: nat, cost: nat): (r: Dijkstra)
    requires from < |d.graph|
    ensures r.distance == d.distance && |r.graph| == |d.graph|
    ensures r.graph[from] == d.graph[from] + [Edge(to, cost)]
    ensures forall u :: 0 <= u < |d.graph| && u != from ==> r.graph[u] == d.graph[u]
    ensures Closed(d.graph) && to < |d.graph| ==> Closed(r.graph)
  {
    Dijkstra(d.graph[from := d.graph[from] + [Edge(to, cost)]], d.distance)
  }

  /** `distance(to)`. */
  function Distance(d: Dijkstra, to: nat): nat
    requires to < |d.distance|
  {
    d.distance[to]
  }

  // ---------------------------------------------------------------------
  // The priority queue: `BinaryHeap<Reverse<(usize, usize)>>` pops the
  // entry that is least by cost, then by node.

  predicate LexLe(a: (nat, nat), b: (nat, nat)) {
    a.0 < b.0 || (a.0 == b.0 && a.1 <= b.1)
  }

  lemma {:induction false} LeastEntryExists(q: multiset<(nat, nat)>)
    requires q != multiset{}
    ensures exists e :: e in q && forall e' :: e' in q ==> LexLe(e, e')
    decreases |q|
  {
    var x :| x in q;
    var rest := q - multiset{x};
    if rest == multiset{} {
      assert q == multiset{x};
    } else {
      LeastEntryExists(rest);
      var m :| m in rest && forall e' :: e' in rest ==> LexLe(m, e');
      var least := if LexLe(m, x) then m else x;
      assert least in q;
      forall e' | e' in q
        ensures LexLe(least, e')
      {
        if e' != x {
          assert e' in rest;
        }
      }
    }
  }

  function Sum(s: seq<nat>): nat
    decreases |s|
  {
    if |s| == 0 then 0 else Sum(s[..|s| - 1]) + s[|s| - 1]
  }

  lemma {:induction false} SumUpdate(s: seq<nat>, i: nat, x: nat)
    requires i < |s|
    ensures Sum(s[i := x]) + s[i] == Sum(s) + x
    decreases |s|
  {
    var n := |s| - 1;
    if i < n {
      assert s[i := x][..n] == s[..n][i := x];
      SumUpdate(s[..n], i, x);
    } else {
      assert s[i := x][..n] == s[..n];
    }
  }

  /** v was set by this run: it is the start, or its distance went down. */
  predicate Touched(before: seq<nat>, dist: seq<nat>, start: nat, v: nat)
    requires v < |before| && v < |dist|
  {
    v == start || dist[v] < before[v]
  }

  /** The loop invariant of `solve`, started from distances `before`:
      distances only went down and the start's is 0; every queue entry is at
      least the current distance of a node this run set; every node this run
      set has a walk of exactly its distance and, unless it is `except` (the
      node whose edges are being relaxed), either a current queue entry or
      all its edges relaxed. */
  ghost predicate Inv(graph: seq<seq<Edge>>, before: seq<nat>, start: nat,
                      dist: seq<nat>, q: multiset<(nat, nat)>, walks: seq<seq<Hop>>, except: int)
    requires Closed(graph) && |before| == |graph|
  {
    && |dist| == |graph| && |walks| == |graph| && start < |graph| && dist[start] == 0
    && (forall v :: 0 <= v < |graph| ==> dist[v] <= before[v])
    && QueueSound(before, start, dist, q)
    && Witnessed(graph, before, start, dist, walks)
    && Pending(graph, before, start, dist, q, except)
  }

  /** Every queue entry is at least the current distance of a node this run set. */
  ghost predicate QueueSound(before: seq<nat>, start: nat, dist: seq<nat>, q: multiset<(nat, nat)>)
    requires |dist| == |before|
  {
    forall e :: e in q ==> e.1 < |dist| && dist[e.1] <= e.0 && Touched(before, dist, start, e.1)
  }

  /** Every node this run set has a walk from the start of exactly its distance. */
  ghost predicate Witnessed(graph: seq<seq<Edge>>, before: seq<nat>, start: nat, dist: seq<nat>, walks: seq<seq<Hop>>)
    requires |before| == |graph| && |dist| == |graph| && |walks| == |graph|
  {
    forall v :: 0 <= v < |graph| && Touched(before, dist, start, v) ==>
      IsWalk(graph, start, v, walks[v]) && Cost(walks[v]) == dist[v]
  }

  /** Every node this run set, other than `except`, is queued at its current
      distance or has all its edges relaxed. */
  ghost predicate Pending(graph: seq<seq<Edge>>, before: seq<nat>, start: nat,
                          dist: seq<nat>, q: multiset<(nat, nat)>, except: int)
    requires Closed(graph) && |before| == |graph| && |dist| == |graph|
  {
    forall v :: 0 <= v < |graph| && v != except && Touched(before, dist, start, v) ==>
      (dist[v], v) in q || RelaxedAt(graph, dist, v)
  }

  lemma InvInit(graph: seq<seq<Edge>>, before: seq<nat>, start: nat)
    requires Closed(graph) && |before| == |graph| && start < |graph|
    ensures Inv(graph, before, start, before[start := 0], multiset{(0, start)}, seq(|graph|, _ => []), -1)
  {
  }

  /** Popping an entry: a stale one leaves the invariant as it was; a
      current one leaves its node to be relaxed. */
  lemma InvPop(graph: seq<seq<Edge>>, before: seq<nat>, start: nat,
               dist: seq<nat>, q: multiset<(nat, nat)>, walks: seq<seq<Hop>>, e: (nat, nat))
    requires Closed(graph) && |before| == |graph| && Inv(graph, before, start, dist, q, walks, -1)
    requires e in q
    ensures e.1 < |graph| && dist[e.1] <= e.0 && Touched(before, dist, start, e.1)
    ensures Inv(graph, before, start, dist, q - multiset{e}, walks, if dist[e.1] < e.0 then -1 else e.1)
  {
    var q' := q - multiset{e};
    forall e' | e' in q'
      ensures e' in q
    {
    }
    forall v | 0 <= v < |graph| && v != (if dist[e.1] < e.0 then -1 else e.1) && Touched(before, dist, start, v)
      ensures (dist[v], v) in q' || RelaxedAt(graph, dist, v)
    {
      if (dist[v], v) in q && (dist[v], v) != e {
        assert (dist[v], v) in q';
      }
    }
  }

  /** Writing a strictly better candidate for `next.to` through u and
      queueing it. */
  lemma InvWrite(graph: seq<seq<Edge>>, before: seq<nat>, start: nat,
                 dist: seq<nat>, q: multiset<(nat, nat)>, walks: seq<seq<Hop>>, u: nat, next: Edge)
    requires Closed(graph) && |before| == |graph| && Inv(graph, before, start, dist, q, walks, u)
    requires u < |graph| && Touched(before, dist, start, u) && next in graph[u]
    requires dist[next.to] > dist[u] + next.cost
    ensures next.to != u
    ensures Inv(graph, before, start, dist[next.to := dist[u] + next.cost],
                q + multiset{(dist[u] + next.cost, next.to)},
                walks[next.to := walks[u] + [Hop(u, next)]], u)
  {
    var c := dist[u] + next.cost;
    var t := next.to;
    assert t != u && t < |graph| && t != start;
    var dist' := dist[t := c];
    var q' := q + multiset{(c, t)};
    var walks' := walks[t := walks[u] + [Hop(u, next)]];
    assert |dist'| == |graph| && |walks'| == |graph| && dist'[start] == 0;
    forall v | 0 <= v < |graph|
      ensures dist'[v] <= before[v]
    {
    }
    QueueSoundWrite(before, start, dist, q, t, c);
    WitnessedWrite(graph, before, start, dist, walks, u, next);
    PendingWrite(graph, before, start, dist, q, u, t, c);
    assert Inv(graph, before, start, dist', q', walks', u);
  }

  lemma QueueSoundWrite(before: seq<nat>, start: nat, dist: seq<nat>, q: multiset<(nat, nat)>, t: nat, c: nat)
    requires |dist| == |before| && QueueSound(before, start, dist, q)
    requires t < |dist| && c < dist[t] <= before[t]
    requires forall v :: 0 <= v < |dist| ==> dist[v] <= before[v]
    ensures QueueSound(before, start, dist[t := c], q + multiset{(c, t)})
  {
    var dist' := dist[t := c];
    forall e | e in q + multiset{(c, t)}
      ensures e.1 < |dist'| && dist'[e.1] <= e.0 && Touched(before, dist', start, e.1)
    {
      if e != (c, t) {
        assert e in q;
      }
    }
  }

  lemma WitnessedWrite(graph: seq<seq<Edge>>, before: seq<nat>, start: nat, dist: seq<nat>,
                       walks: seq<seq<Hop>>, u: nat, next: Edge)
    requires |before| == |graph| && |dist| == |graph| && |walks| == |graph|
    requires Witnessed(graph, before, start, dist, walks)
    requires u < |graph| && Touched(before, dist, start, u) && next in graph[u]
    requires next.to < |graph| && next.to != u && dist[u] + next.cost < dist[next.to]
    ensures Witnessed(graph, before, start, dist[next.to := dist[u] + next.cost],
                      walks[next.to := walks[u] + [Hop(u, next)]])
  {
    var t := next.to;
    var dist' := dist[t := dist[u] + next.cost];
    var walks' := walks[t := walks[u] + [Hop(u, next)]];
    Extend(graph, start, u, walks[u], next);
    forall v | 0 <= v < |graph| && Touched(before, dist', start, v)
      ensures IsWalk(graph, start, v, walks'[v]) && Cost(walks'[v]) == dist'[v]
    {
      if v != t {
        assert Touched(before, dist, start, v);
      }
    }
  }

  lemma PendingWrite(graph: seq<seq<Edge>>, before: seq<nat>, start: nat, dist: seq<nat>,
                     q: multiset<(nat, nat)>, u: nat, t: nat, c: nat)
    requires Closed(graph) && |before| == |graph| && |dist| == |graph|
    requires Pending(graph, before, start, dist, q, u)
    requires u < |graph| && t < |graph| && t != u && c < dist[t]
    ensures Pending(graph, before, start, dist[t := c], q + multiset{(c, t)}, u)
  {
    var dist' := dist[t := c];
    var q' := q + multiset{(c, t)};
    forall v | 0 <= v < |graph| && v != u && Touched(before, dist', start, v)
      ensures (dist'[v], v) in q' || RelaxedAt(graph, dist', v)
    {
      if v != t && !((dist[v], v) in q) {
        assert Touched(before, dist, start, v);
        assert RelaxedAt(graph, dist, v);
        forall e | e in graph[v]
          ensures dist'[e.to] <= dist'[v] + e.cost
        {
        }
      }
    }
  }

  /** The first k edges of u are relaxed. */
  ghost predicate RelaxedUpTo(graph: seq<seq<Edge>>, dist: seq<nat>, u: nat, k: nat)
    requires Closed(graph) && |dist| == |graph| && u < |graph| && k <= |graph[u]|
  {
    forall j :: 0 <= j < k ==> dist[graph[u][j].to] <= dist[u] + graph[u][j].cost
  }

  /** An edge that is already relaxed extends the relaxed prefix. */
  lemma RelaxedUpToNext(graph: seq<seq<Edge>>, dist: seq<nat>, u: nat, k: nat)
    requires Closed(graph) && |dist| == |graph| && u < |graph| && k < |graph[u]|
    requires RelaxedUpTo(graph, dist, u, k)
    requires dist[graph[u][k].to] <= dist[u] + graph[u][k].cost
    ensures RelaxedUpTo(graph, dist, u, k + 1)
  {
  }

  /** Writing the candidate through the k-th edge of u relaxes one more edge. */
  lemma RelaxedUpToWrite(graph: seq<seq<Edge>>, dist: seq<nat>, u: nat, k: nat, c: nat)
    requires Closed(graph) && |dist| == |graph| && u < |graph| && k < |graph[u]|
    requires RelaxedUpTo(graph, dist, u, k) && graph[u][k].to != u
    requires c == dist[u] + graph[u][k].cost && c < dist[graph[u][k].to]
    ensures RelaxedUpTo(graph, dist[graph[u][k].to := c], u, k + 1)
  {
  }

  /** Lowering one distance lowers the sum. */
  lemma SumDecreases(s: seq<nat>, i: nat, x: nat)
    requires i < |s| && x < s[i]
    ensures Sum(s[i := x]) < Sum(s)
  {
    SumUpdate(s, i, x);
  }

  /** The invariant of the relaxation loop over the edges of u, started from
      distances `dist0` and queue `q0`, after its first k edges. */
  ghost predicate RelaxInv(graph: seq<seq<Edge>>, before: seq<nat>, start: nat,
                           dist0: seq<nat>, q0: multiset<(nat, nat)>,
                           dist: seq<nat>, q: multiset<(nat, nat)>, walks: seq<seq<Hop>>, u: nat, k: nat)
    requires Closed(graph) && |before| == |graph| && |dist0| == |graph| && u < |graph|
  {
    && Inv(graph, before, start, dist, q, walks, u)
    && Touched(before, dist, start, u) && dist[u] == dist0[u]
    && k <= |graph[u]| && RelaxedUpTo(graph, dist, u, k)
    && (Sum(dist) < Sum(dist0) || (dist == dist0 && q == q0))
  }

  /** One iteration of the relaxation loop when the k-th edge of u improves
      its end: the candidate is written and queued, and the invariant moves
      on to k + 1 with a smaller sum of distances. */
  lemma RelaxStepWrite(graph: seq<seq<Edge>>, before: seq<nat>, start: nat,
                       dist0: seq<nat>, q0: multiset<(nat, nat)>,
                       dist: seq<nat>, q: multiset<(nat, nat)>, walks: seq<seq<Hop>>, u: nat, k: nat,
                       next: Edge, c: nat)
    requires Closed(graph) && |before| == |graph| && |dist0| == |graph| && u < |graph|
    requires RelaxInv(graph, before, start, dist0, q0, dist, q, walks, u, k) && k < |graph[u]|
    requires next == graph[u][k] && c == dist[u] + next.cost && c < dist[next.to]
    ensures RelaxInv(graph, before, start, dist0, q0, dist[next.to := c], q + multiset{(c, next.to)},
                     walks[next.to := walks[u] + [Hop(u, next)]], u, k + 1)
  {
    var t := next.to;
    var dist' := dist[t := c];
    var q' := q + multiset{(c, t)};
    var walks' := walks[t := walks[u] + [Hop(u, next)]];
    InvWrite(graph, before, start, dist, q, walks, u, next);
    assert Touched(before, dist', start, u) && dist'[u] == dist0[u];
    assert Sum(dist') < Sum(dist0) by {
      SumDecreases(dist, t, c);
    }
    RelaxedUpToWrite(graph, dist, u, k, c);
    RelaxInvIntro(graph, before, start, dist0, q0, dist', q', walks', u, k + 1);
  }

  lemma RelaxInvIntro(graph: seq<seq<Edge>>, before: seq<nat>, start: nat,
                      dist0: seq<nat>, q0: multiset<(nat, nat)>,
                      dist: seq<nat>, q: multiset<(nat, nat)>, walks: seq<seq<Hop>>, u: nat, k: nat)
    requires Closed(graph) && |before| == |graph| && |dist0| == |graph| && u < |graph|
    requires Inv(graph, before, start, dist, q, walks, u)
    requires Touched(before, dist, start, u) && dist[u] == dist0[u]
    requires k <= |graph[u]| && RelaxedUpTo(graph, dist, u, k)
    requires Sum(dist) < Sum(dist0) || (dist == dist0 && q == q0)
    ensures RelaxInv(graph, before, start, dist0, q0, dist, q, walks, u, k)
  {
  }

  /** One iteration of the relaxation loop when the k-th edge of u is
      already relaxed: nothing changes and the invariant moves on to k + 1. */
  lemma RelaxStepKeep(graph: seq<seq<Edge>>, before: seq<nat>, start: nat,
                      dist0: seq<nat>, q0: multiset<(nat, nat)>,
                      dist: seq<nat>, q: multiset<(nat, nat)>, walks: seq<seq<Hop>>, u: nat, k: nat)
    requires Closed(graph) && |before| == |graph| && |dist0| == |graph| && u < |graph|
    requires RelaxInv(graph, before, start, dist0, q0, dist, q, walks, u, k) && k < |graph[u]|
    requires dist[graph[u][k].to] <= dist[u] + graph[u][k].cost
    ensures RelaxInv(graph, before, start, dist0, q0, dist, q, walks, u, k + 1)
  {
    RelaxedUpToNext(graph, dist, u, k);
  }

  /** Once every edge of u is relaxed, u needs no queue entry. */
  lemma InvFinish(graph: seq<seq<Edge>>, before: seq<nat>, start: nat,
                  dist: seq<nat>, q: multiset<(nat, nat)>, walks: seq<seq<Hop>>, u: nat)
    requires Closed(graph) && |before| == |graph| && Inv(graph, before, start, dist, q, walks, u)
    requires u < |graph|
    requires RelaxedUpTo(graph, dist, u, |graph[u]|)
    ensures Inv(graph, before, start, dist, q, walks, -1)
  {
    assert RelaxedAt(graph, dist, u);
  }

  /** With nothing queued, every node this run set is relaxed and reached by
      a walk of its distance; from fresh distances these are all the reached
      nodes. */
  lemma InvDone(graph: seq<seq<Edge>>, before: seq<nat>, start: nat, dist: seq<nat>, walks: seq<seq<Hop>>)
    requires Closed(graph) && |before| == |graph| && Inv(graph, before, start, dist, multiset{}, walks, -1)
    ensures forall v: nat :: v < |graph| && Touched(before, dist, start, v) ==>
      RelaxedAt(graph, dist, v) && Reachable(graph, start, v, dist[v])
    ensures Fresh(before) ==> Relaxed(graph, dist)
  {
    forall v: nat | v < |graph| && Touched(before, dist, start, v)
      ensures RelaxedAt(graph, dist, v) && Reachable(graph, start, v, dist[v])
    {
      assert (dist[v], v) !in multiset{};
      assert IsWalk(graph, start, v, walks[v]) && Cost(walks[v]) == dist[v];
    }
  }

  /** The inner loop of `solve`: every edge leaving u whose candidate
      `distance[u] + cost` beats the distance of its end writes the candidate
      and queues it. Either the distances went down in sum, or nothing changed. */
  method Relax(graph: seq<seq<Edge>>, before: seq<nat>, start: nat,
               dist: seq<nat>, q: multiset<(nat, nat)>, ghost walks: seq<seq<Hop>>, u: nat)
    returns (dist': seq<nat>, q': multiset<(nat, nat)>, ghost walks': seq<seq<Hop>>)
    requires Closed(graph) && |before| == |graph| && Inv(graph, before, start, dist, q, walks, u)
    requires u < |graph| && Touched(before, dist, start, u)
    ensures Inv(graph, before, start, dist', q', walks', -1)
    ensures Sum(dist') < Sum(dist) || (dist' == dist && q' == q)
  {
    dist', q', walks' := dist, q, walks;
    for k := 0 to |graph[u]|
      invariant RelaxInv(graph, before, start, dist, q, dist', q', walks', u, k)
    {
      var next := graph[u][k];
      var candidate := dist'[u] + next.cost;
      if dist'[next.to] > candidate {
        RelaxStepWrite(graph, before, start, dist, q, dist', q', walks', u, k, next, candidate);
        dist' := dist'[next.to := candidate];
        q' := q' + multiset{(candidate, next.to)};
        walks' := walks'[next.to := walks'[u] + [Hop(u, next)]];
      } else {
        RelaxStepKeep(graph, before, start, dist, q, dist', q', walks', u, k);
      }
    }
    InvFinish(graph, before, start, dist', q', walks', u);
  }

  /** `solve(start)`: the start gets distance 0 and is queued; each popped
      entry whose cost is still current relaxes the edges of its node, and
      every strictly better candidate is written and queued. */
  method Solve(d: Dijkstra, start: nat) returns (r: Dijkstra)
    requires Closed(d.graph) && |d.distance| == |d.graph| && start < |d.graph|
    ensures r.graph == d.graph && |r.distance| == |d.distance|
    ensures r.distance[start] == 0
    ensures forall v :: 0 <= v < |d.distance| ==> r.distance[v] <= d.distance[v]
    ensures forall v: nat :: v < |d.distance| && Touched(d.distance, r.distance, start, v) ==>
      RelaxedAt(d.graph, r.distance, v) && Reachable(d.graph, start, v, r.distance[v])
    ensures Fresh(d.distance) ==> Relaxed(d.graph, r.distance)
  {
    var graph, before := d.graph, d.distance;
    var dist: seq<nat> := before[start := 0];
    var q: multiset<(nat, nat)> := multiset{(0, start)};
    ghost var walks: seq<seq<Hop>> := seq(|graph|, _ => []);
    InvInit(graph, before, start);
    while q != multiset{}
      invariant Inv(graph, before, start, dist, q, walks, -1)
      decreases Sum(dist), |q|
    {
      LeastEntryExists(q);
      var e :| e in q && forall e' :: e' in q ==> LexLe(e, e');
      InvPop(graph, before, start, dist, q, walks, e);
      q := q - multiset{e};
      var (cost, u) := e;
      if dist[u] < cost {
        continue;
      }
      dist, q, walks := Relax(graph, before, start, dist, q, walks, u);
    }
    InvDone(graph, before, start, dist, walks);
    r := Dijkstra(graph, dist);
  }
}

/** The library's Dijkstra tests. */
module DijkstraExamples {
  import opened Dijkstra

  method StartCostsNothing() returns (d0: nat)
    ensures d0 == 0
  {
    var d := New(2);
    d := AddEdge(d, 0, 1, 1);
    d := Solve(d, 0);
    d0 := Distance(d, 0);
  }

  /** The eight-node graph of the library's test. */
  const EXAMPLE: seq<seq<Edge>> := [
    [Edge(1, 1), Edge(3, 4), Edge(4, 5)],
    [Edge(2, 1)],
    [Edge(5, 4), Edge(7, 8)],
    [Edge(6, 4)],
    [Edge(5, 2), Edge(6, 2)],
    [Edge(7, 2)],
    [Edge(7, 5)],
    []]

  /** The test's `new(8)` and eleven `add_edge` calls build `EXAMPLE`. */
  method BuildExample() returns (d: Dijkstra)
    ensures d.graph == EXAMPLE && Closed(d.graph)
    ensures |d.distance| == 8 && Fresh(d.distance)
  {
    d := BuildFirstRows();
    d := BuildLastRows(d);
  }

  /** `new(8)` and the edges leaving nodes 0, 1 and 2. */
  method BuildFirstRows() returns (d: Dijkstra)
    ensures d.graph == [EXAMPLE[0], EXAMPLE[1], EXAMPLE[2], [], [], [], [], []] && Closed(d.graph)
    ensures |d.distance| == 8 && Fresh(d.distance)
  {
    d := New(8);
    d := AddEdge(d, 0, 1, 1);
    d := AddEdge(d, 0, 3, 4);
    d := AddEdge(d, 0, 4, 5);
    assert d.graph[0] == EXAMPLE[0];
    d := AddEdge(d, 1, 2, 1);
    assert d.graph[1] == EXAMPLE[1];
    d := AddEdge(d, 2, 5, 4);
    d := AddEdge(d, 2, 7, 8);
    assert d.graph[2] == EXAMPLE[2];
  }

  /** The edges leaving nodes 3 to 6. */
  method BuildLastRows(d0: Dijkstra) returns (d: Dijkstra)
    requires d0.graph == [EXAMPLE[0], EXAMPLE[1], EXAMPLE[2], [], [], [], [], []] && Closed(d0.graph)
    requires |d0.distance| == 8 && Fresh(d0.distance)
    ensures d.graph == EXAMPLE && Closed(d.graph)
    ensures |d.distance| == 8 && Fresh(d.distance)
  {
    d := AddEdge(d0, 3, 6, 4);
    assert d.graph[3] == EXAMPLE[3];
    d := AddEdge(d, 4, 5, 2);
    d := AddEdge(d, 4, 6, 2);
    assert d.graph[4] == EXAMPLE[4];
    d := AddEdge(d, 5, 7, 2);
    assert d.graph[5] == EXAMPLE[5];
    d := AddEdge(d, 6, 7, 5);
    assert d.graph[6] == EXAMPLE[6] && d.graph[7] == EXAMPLE[7];
  }

  /** The eight-node example: the cheapest way to node 7 is 0-1-2-5-7. */
  method ShortestPathExample() returns (d7: nat)
    ensures d7 == 8
  {
    var d := BuildExample();
    var r := Solve(d, 0);
    d7 := Distance(r, 7);
    SolvedExample(d.distance, r.distance);
  }

  /** What `solve(0)` guarantees on the example pins the distance of 7 to 8:
      the walk 0-1-2-5-7 bounds it from above, and every walk from 0 to 7
      costs at least 8. */
  lemma SolvedExample(before: seq<nat>, dist: seq<nat>)
    requires Closed(EXAMPLE) && |before| == 8 && |dist| == 8 && Fresh(before) && dist[0] == 0
    requires Relaxed(EXAMPLE, dist)
    requires forall v: nat :: v < 8 && Touched(before, dist, 0, v) ==> Reachable(EXAMPLE, 0, v, dist[v])
    ensures dist[7] == 8
  {
    PathOfCostEight(EXAMPLE);
    RelaxedIsLowerBound(EXAMPLE, dist, 0, 7, [Hop(0, Edge(1, 1))] + [Hop(1, Edge(2, 1))] + [Hop(2, Edge(5, 4))] + [Hop(5, Edge(7, 2))]);
    assert Touched(before, dist, 0, 7);
    ghost var w :| IsWalk(EXAMPLE, 0, 7, w) && Cost(w) == dist[7];
    NoCheaperPath(EXAMPLE, w);
  }

  lemma PathOfCostEight(graph: seq<seq<Edge>>)
    requires graph == EXAMPLE
    ensures var w := [Hop(0, Edge(1, 1))] + [Hop(1, Edge(2, 1))] + [Hop(2, Edge(5, 4))] + [Hop(5, Edge(7, 2))];
      IsWalk(graph, 0, 7, w) && Cost(w) == 8
  {
    assert graph[0][0] == Edge(1, 1) && graph[1][0] == Edge(2, 1);
    assert graph[2][0] == Edge(5, 4) && graph[5][0] == Edge(7, 2);
    var w1 := [Hop(0, Edge(1, 1))];
    Extend(graph, 0, 0, [], Edge(1, 1));
    assert [] + w1 == w1;
    var w2 := w1 + [Hop(1, Edge(2, 1))];
    Extend(graph, 0, 1, w1, Edge(2, 1));
    var w3 := w2 + [Hop(2, Edge(5, 4))];
    Extend(graph, 0, 2, w2, Edge(5, 4));
    Extend(graph, 0, 5, w3, Edge(7, 2));
  }

  /** The shortest distances, checked edge by edge, bound every walk. */
  lemma NoCheaperPath(graph: seq<seq<Edge>>, w: seq<Hop>)
    requires graph == EXAMPLE
    requires IsWalk(graph, 0, 7, w)
    ensures Cost(w) >= 8
  {
    var potential: seq<nat> := [0, 1, 2, 4, 5, 6, 7, 8];
    assert Closed(graph);
    forall u | 0 <= u < 8
      ensures RelaxedAt(graph, potential, u)
    {
      assert forall e :: e in graph[u] ==> potential[e.to] <= potential[u] + e.cost;
    }
    RelaxedIsLowerBound(graph, potential, 0, 7, w);
  }
}
