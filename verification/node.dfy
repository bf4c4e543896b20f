/**
 * A network node's routing state: the shortest-path search over the
 * topology the designated node distributes, the neighbour list kept by the
 * hello threads, and the rebuild of the path table on a topology update.
 *
 * The topology is a map from node id to its adjacency list of
 * (neighbour id, edge weight) pairs, as `adjacency_list_` holds it.
 */
module Routing {

  type Adjacency = map<int, seq<(int, int)>>

  /** `v` is listed as a neighbour of `u`. */
  predicate IsEdge(adj: Adjacency, u: int, v: int)
  {
    u in adj && exists k :: 0 <= k < |adj[u]| && adj[u][k].0 == v
  }

  /**
   * Every neighbour id listed is itself a key. The search indexes its
   * `is_visited` and `distances` dictionaries, built from the keys, by
   * neighbour id, so it needs this of the topology it is given.
   */
  predicate Closed(adj: Adjacency)
  {
    forall u, k :: u in adj && 0 <= k < |adj[u]| ==> adj[u][k].0 in adj
  }

  /** `p` is a walk along listed edges. */
  ghost predicate IsPath(adj: Adjacency, p: seq<int>)
  {
    |p| >= 1 && forall i :: 0 <= i < |p| - 1 ==> IsEdge(adj, p[i], p[i + 1])
  }

  ghost predicate Reachable(adj: Adjacency, s: int, f: int)
  {
    exists p :: IsPath(adj, p) && p[0] == s && p[|p| - 1] == f
  }

  predicate Distinct(p: seq<int>)
  {
    forall i, j :: 0 <= i < j < |p| ==> p[i] != p[j]
  }

  /**
   * What `find_shortest_path(s, f)` returns, as far as it is modelled: a
   * route exists exactly when f can be reached from a different node s, and
   * then it is a simple walk along listed edges from s to f.
   */
  ghost predicate ValidRoute(adj: Adjacency, s: int, f: int, path: seq<int>)
  {
    && (path != [] <==> s != f && Reachable(adj, s, f))
    && (path != [] ==> IsPath(adj, path) && path[0] == s && path[|path| - 1] == f && Distinct(path))
  }

  // ---------------------------------------------------------------------
  // The lazy priority queue
  // ---------------------------------------------------------------------

  /** Python's ordering of (distance, node id) tuples. */
  predicate LexLe(a: (int, int), b: (int, int))
  {
    a.0 < b.0 || (a.0 == b.0 && a.1 <= b.1)
  }

  /** Some queued entry names node v. */
  predicate Queued(q: seq<(int, int)>, v: int)
  {
    exists j :: 0 <= j < |q| && q[j].1 == v
  }

  /** `q.put(e)` keeps every queued node queued, and queues e's node. */
  lemma QueuedAppend(q: seq<(int, int)>, e: (int, int))
    ensures forall v :: Queued(q, v) ==> Queued(q + [e], v)
    ensures Queued(q + [e], e.1)
  {
    forall v | Queued(q, v) ensures Queued(q + [e], v) {
      var j :| 0 <= j < |q| && q[j].1 == v;
      assert (q + [e])[j] == q[j];
    }
    assert (q + [e])[|q|] == e;
  }

  /** The entry `PriorityQueue.get` hands out: a smallest one. */
  method MinIndex(q: seq<(int, int)>) returns (m: nat)
    requires q != []
    ensures m < |q|
    ensures forall k :: 0 <= k < |q| ==> LexLe(q[m], q[k])
  {
    m := 0;
    var k := 1;
    while k < |q|
      invariant m < k <= |q|
      invariant forall j :: 0 <= j < k ==> LexLe(q[m], q[j])
    {
      if !LexLe(q[m], q[k]) {
        m := k;
      }
      k := k + 1;
    }
  }

  /** How many queued entries name an already visited node (the stale ones). */
  function StaleCount(q: seq<(int, int)>, visited: set<int>): nat
  {
    if q == [] then 0 else (if q[0].1 in visited then 1 else 0) + StaleCount(q[1..], visited)
  }

  lemma {:induction false} StaleCountAppend(a: seq<(int, int)>, b: seq<(int, int)>, visited: set<int>)
    ensures StaleCount(a + b, visited) == StaleCount(a, visited) + StaleCount(b, visited)
    decreases |a|
  {
    if a != [] {
      assert (a + b)[0] == a[0] && (a + b)[1..] == a[1..] + b;
      StaleCountAppend(a[1..], b, visited);
    } else {
      assert a + b == b;
    }
  }

  lemma {:induction false} StaleCountNone(q: seq<(int, int)>, visited: set<int>)
    requires forall j :: 0 <= j < |q| ==> q[j].1 !in visited
    ensures StaleCount(q, visited) == 0
    decreases |q|
  {
    if q != [] {
      StaleCountNone(q[1..], visited);
    }
  }

  /** Taking entry m out of the queue: the other entries stay, and one stale entry goes if it was one. */
  lemma Remove(q: seq<(int, int)>, m: nat, visited: set<int>)
    requires m < |q|
    ensures forall v :: Queued(q, v) && v != q[m].1 ==> Queued(q[..m] + q[m + 1..], v)
    ensures StaleCount(q[..m] + q[m + 1..], visited) + (if q[m].1 in visited then 1 else 0) == StaleCount(q, visited)
  {
    var rest := q[..m] + q[m + 1..];
    forall v | Queued(q, v) && v != q[m].1 ensures Queued(rest, v) {
      var j :| 0 <= j < |q| && q[j].1 == v;
      if j < m { assert rest[j] == q[j]; } else { assert rest[j - 1] == q[j]; }
    }
    assert q == q[..m] + ([q[m]] + q[m + 1..]);
    StaleCountAppend(q[..m], [q[m]] + q[m + 1..], visited);
    StaleCountAppend([q[m]], q[m + 1..], visited);
    StaleCountAppend(q[..m], q[m + 1..], visited);
  }

  // ---------------------------------------------------------------------
  // The search (Node.find_shortest_path)
  // ---------------------------------------------------------------------

  /**
   * What scanning the adjacency list of the visited node `cur` does. No
   * distance grows. A distance appears or changes only for an unvisited
   * neighbour of `cur`, whose predecessor becomes `cur`; other predecessors
   * stay. The queue gains entries at its end only, for unvisited nodes that
   * have a distance, and afterwards every neighbour of `cur` is visited or
   * queued.
   */
  ghost predicate RelaxOutcome(adj: Adjacency, cur: int, visited: set<int>,
                               dist: map<int, int>, prev: map<int, int>, q: seq<(int, int)>,
                               dist': map<int, int>, prev': map<int, int>, q': seq<(int, int)>)
    requires cur in adj
  {
    && dist.Keys <= dist'.Keys && prev.Keys <= prev'.Keys
    && (forall v :: v in dist ==> dist'[v] <= dist[v])
    && (forall v :: v in dist' && (v !in dist || dist'[v] != dist[v]) ==>
          v !in visited && v in prev' && prev'[v] == cur && IsEdge(adj, cur, v))
    && (forall v :: v in prev' ==>
          (v in prev && prev'[v] == prev[v]) || (v !in visited && prev'[v] == cur && IsEdge(adj, cur, v)))
    && |q'| >= |q| && q'[..|q|] == q
    && (forall j :: |q| <= j < |q'| ==> q'[j].1 !in visited && q'[j].1 in dist')
    && (forall k :: 0 <= k < |adj[cur]| ==> adj[cur][k].0 in visited || Queued(q', adj[cur][k].0))
  }

  /**
   * The inner loop of the search: every unvisited neighbour of `cur` is
   * queued with its distance, which is first lowered to weight + dist[cur]
   * (with `cur` as predecessor) when that is a strict improvement or the
   * neighbour had no distance yet (`math.inf` in the source, an absent key
   * here).
   */
  method Relax(adj: Adjacency, cur: int, visited: set<int>, dist: map<int, int>, prev: map<int, int>, q: seq<(int, int)>)
    returns (dist': map<int, int>, prev': map<int, int>, q': seq<(int, int)>)
    requires cur in adj && cur in dist && cur in visited
    ensures RelaxOutcome(adj, cur, visited, dist, prev, q, dist', prev', q')
  {
    dist', prev', q' := dist, prev, q;
    var k := 0;
    while k < |adj[cur]|
      invariant 0 <= k <= |adj[cur]|
      invariant cur in dist' && dist'[cur] == dist[cur]
      invariant dist.Keys <= dist'.Keys && prev.Keys <= prev'.Keys
      invariant forall v :: v in dist ==> dist'[v] <= dist[v]
      invariant forall v :: v in dist' && (v !in dist || dist'[v] != dist[v]) ==>
        v !in visited && v in prev' && prev'[v] == cur && IsEdge(adj, cur, v)
      invariant forall v :: v in prev' ==>
        (v in prev && prev'[v] == prev[v]) || (v !in visited && prev'[v] == cur && IsEdge(adj, cur, v))
      invariant |q'| >= |q| && q'[..|q|] == q
      invariant forall j :: |q| <= j < |q'| ==> q'[j].1 !in visited && q'[j].1 in dist'
      invariant forall i :: 0 <= i < k ==> adj[cur][i].0 in visited || Queued(q', adj[cur][i].0)
    {
      var (neighbor, weight) := adj[cur][k];
      if neighbor !in visited {
        assert IsEdge(adj, cur, neighbor);
        if neighbor !in dist' || dist'[neighbor] > weight + dist'[cur] {
          dist' := dist'[neighbor := weight + dist'[cur]];
          prev' := prev'[neighbor := cur];
        }
        QueuedAppend(q', (dist'[neighbor], neighbor));
        q' := q' + [(dist'[neighbor], neighbor)];
      }
      k := k + 1;
    }
  }

  /** Visited nodes are keys, have a distance, and never include `finish`; nodes with a distance are keys or `start`. */
  ghost predicate InvDomain(adj: Adjacency, start: int, finish: int, visited: set<int>, dist: map<int, int>)
  {
    && visited <= adj.Keys
    && visited <= dist.Keys
    && finish !in visited
    && dist.Keys <= adj.Keys + {start}
  }

  /** Every node with a distance is `start` or has a predecessor: a visited node that lists it as a neighbour. */
  ghost predicate InvPrev(adj: Adjacency, start: int, visited: set<int>, dist: map<int, int>, prev: map<int, int>)
  {
    && (forall v :: v in dist ==> v == start || v in prev)
    && (forall v :: v in prev ==> prev[v] in visited && v != start && IsEdge(adj, prev[v], v))
  }

  /** `order` stamps each visited node with the step of its first visit; a visited node's predecessor was visited before it. */
  ghost predicate InvOrder(visited: set<int>, prev: map<int, int>, order: map<int, nat>, clock: nat)
  {
    && order.Keys == visited
    && (forall v :: v in order ==> order[v] < clock)
    && (forall v :: v in prev && v in visited && prev[v] in order ==> order[prev[v]] < order[v])
  }

  /** Every queued node has a distance. */
  ghost predicate InvQueue(dist: map<int, int>, q: seq<(int, int)>)
  {
    forall j :: 0 <= j < |q| ==> q[j].1 in dist
  }

  /** Every neighbour of a visited node is visited or queued. */
  ghost predicate InvFrontier(adj: Adjacency, visited: set<int>, q: seq<(int, int)>)
    requires visited <= adj.Keys
  {
    forall u, k :: u in visited && 0 <= k < |adj[u]| ==> adj[u][k].0 in visited || Queued(q, adj[u][k].0)
  }

  /** Until `start` is visited the queue holds only its entry. */
  ghost predicate InvStart(start: int, visited: set<int>, q: seq<(int, int)>)
  {
    && (visited == {} ==> q == [(0, start)])
    && (visited != {} ==> start in visited)
  }

  /** The search invariant. */
  ghost predicate SearchInv(adj: Adjacency, start: int, finish: int, visited: set<int>, dist: map<int, int>,
                            prev: map<int, int>, q: seq<(int, int)>, order: map<int, nat>, clock: nat)
  {
    && InvDomain(adj, start, finish, visited, dist)
    && InvPrev(adj, start, visited, dist, prev)
    && InvOrder(visited, prev, order, clock)
    && InvQueue(dist, q)
    && InvFrontier(adj, visited, q)
    && InvStart(start, visited, q)
  }

  /** With nothing left in the queue, the visited set is closed under edges, so it holds every node reachable from it. */
  lemma {:induction false} VisitedClosed(adj: Adjacency, visited: set<int>, p: seq<int>)
    requires visited <= adj.Keys
    requires forall u, k :: u in visited && 0 <= k < |adj[u]| ==> adj[u][k].0 in visited
    requires IsPath(adj, p) && p[0] in visited
    ensures p[|p| - 1] in visited
    decreases |p|
  {
    if |p| > 1 {
      var k :| 0 <= k < |adj[p[0]]| && adj[p[0]][k].0 == p[1];
      assert IsPath(adj, p[1..]) by {
        forall i | 0 <= i < |p[1..]| - 1 ensures IsEdge(adj, p[1..][i], p[1..][i + 1]) {
          assert p[1..][i] == p[i + 1] && p[1..][i + 1] == p[i + 2];
        }
      }
      VisitedClosed(adj, visited, p[1..]);
    }
  }

  /** `path.reverse()`. */
  function Reverse(s: seq<int>): (r: seq<int>)
    ensures |r| == |s|
    ensures forall k :: 0 <= k < |s| ==> r[k] == s[|s| - 1 - k]
  {
    if s == [] then [] else Reverse(s[1..]) + [s[0]]
  }

  /**
   * A chain of predecessors read backwards from `finish` to `start`, each
   * step to a node visited strictly earlier, reversed is a simple walk.
   */
  lemma ReversedChain(adj: Adjacency, back: seq<int>, start: int, finish: int,
                      visited: set<int>, order: map<int, nat>)
    requires |back| >= 2 && back[0] == finish && back[|back| - 1] == start
    requires finish !in visited && finish != start && order.Keys == visited
    requires forall k :: 0 <= k < |back| - 1 ==> IsEdge(adj, back[k + 1], back[k])
    requires forall k :: 1 <= k < |back| - 1 ==> back[k] in visited && back[k] != start
    requires forall i, j :: 1 <= i < j < |back| - 1 ==> order[back[j]] < order[back[i]]
    ensures var path := Reverse(back);
            IsPath(adj, path) && path[0] == start && path[|path| - 1] == finish && Distinct(path)
  {
    var path := Reverse(back);
    forall i | 0 <= i < |path| - 1 ensures IsEdge(adj, path[i], path[i + 1]) {
      assert path[i] == back[|back| - 1 - i] && path[i + 1] == back[|back| - 2 - i];
    }
    forall i, j | 0 <= i < j < |path| ensures path[i] != path[j] {
      var a, b := |back| - 1 - j, |back| - 1 - i;
      assert path[i] == back[b] && path[j] == back[a];
      if a == 0 {
        assert b == |back| - 1 || back[b] in visited;
      } else if b < |back| - 1 {
        assert order[back[b]] < order[back[a]];
      }
    }
  }

  /**
   * The reconstruction after the search: follow the predecessors back from
   * `finish` to `start`, then reverse. Every step goes to a node visited
   * strictly earlier, so the walk ends, and it repeats no node.
   */
  method TracePath(ghost adj: Adjacency, prev: map<int, int>, start: int, finish: int,
                   ghost visited: set<int>, ghost order: map<int, nat>)
    returns (path: seq<int>)
    requires finish in prev && finish !in visited && order.Keys == visited
    requires forall v :: v in prev ==> prev[v] in visited && v != start && IsEdge(adj, prev[v], v)
    requires forall v :: v in visited && v != start ==> v in prev
    requires forall v :: v in prev && v in visited ==> order[prev[v]] < order[v]
    ensures IsPath(adj, path) && path[0] == start && path[|path| - 1] == finish && Distinct(path)
  {
    var back := [finish];
    var prevId := prev[finish];
    while prevId != start
      invariant |back| >= 1 && back[0] == finish
      invariant prevId in visited
      invariant IsEdge(adj, prevId, back[|back| - 1])
      invariant forall k :: 0 <= k < |back| - 1 ==> IsEdge(adj, back[k + 1], back[k])
      invariant forall k :: 1 <= k < |back| ==> back[k] in visited && back[k] != start && order[prevId] < order[back[k]]
      invariant forall i, j :: 1 <= i < j < |back| ==> order[back[j]] < order[back[i]]
      decreases order[prevId]
    {
      back := back + [prevId];
      prevId := prev[prevId];
    }
    back := back + [start];
    ReversedChain(adj, back, start, finish, visited, order);
    path := Reverse(back);
  }


  lemma StepDomain(adj: Adjacency, start: int, finish: int, visited: set<int>, cur: int,
                   dist: map<int, int>, prev: map<int, int>, q: seq<(int, int)>,
                   dist': map<int, int>, prev': map<int, int>, q': seq<(int, int)>)
    requires Closed(adj) && InvDomain(adj, start, finish, visited, dist)
    requires cur in adj && cur in dist && cur != finish
    requires RelaxOutcome(adj, cur, visited + {cur}, dist, prev, q, dist', prev', q')
    ensures InvDomain(adj, start, finish, visited + {cur}, dist')
  {
    forall v | v in dist' && v !in dist ensures v in adj {
      var k :| 0 <= k < |adj[cur]| && adj[cur][k].0 == v;
    }
  }

  lemma StepPrev(adj: Adjacency, start: int, visited: set<int>, cur: int,
                 dist: map<int, int>, prev: map<int, int>, q: seq<(int, int)>,
                 dist': map<int, int>, prev': map<int, int>, q': seq<(int, int)>)
    requires InvPrev(adj, start, visited, dist, prev)
    requires cur in adj && start in visited + {cur}
    requires RelaxOutcome(adj, cur, visited + {cur}, dist, prev, q, dist', prev', q')
    ensures InvPrev(adj, start, visited + {cur}, dist', prev')
  {
  }

  lemma StepOrder(adj: Adjacency, visited: set<int>, cur: int, prev: map<int, int>, order: map<int, nat>, clock: nat,
                  dist: map<int, int>, q: seq<(int, int)>,
                  dist': map<int, int>, prev': map<int, int>, q': seq<(int, int)>)
    requires InvOrder(visited, prev, order, clock)
    requires forall v :: v in prev ==> prev[v] in visited
    requires cur in adj
    requires RelaxOutcome(adj, cur, visited + {cur}, dist, prev, q, dist', prev', q')
    ensures InvOrder(visited + {cur}, prev', if cur in visited then order else order[cur := clock],
                     if cur in visited then clock else clock + 1)
  {
    forall v | v in prev' && v in visited + {cur} ensures v in prev && prev'[v] == prev[v] {
    }
    OrderStamp(visited, cur, prev, prev', order, clock);
  }

  /** Stamping `cur` with the clock keeps the order invariant when no visited node's predecessor changes. */
  lemma OrderStamp(visited: set<int>, cur: int, prev: map<int, int>, prev': map<int, int>, order: map<int, nat>, clock: nat)
    requires InvOrder(visited, prev, order, clock)
    requires forall v :: v in prev ==> prev[v] in visited
    requires forall v :: v in prev' && v in visited + {cur} ==> v in prev && prev'[v] == prev[v]
    ensures InvOrder(visited + {cur}, prev', if cur in visited then order else order[cur := clock],
                     if cur in visited then clock else clock + 1)
  {
    var order' := if cur in visited then order else order[cur := clock];
    forall v | v in prev' && v in visited + {cur} && prev'[v] in order' ensures order'[prev'[v]] < order'[v] {
      assert prev[v] in visited;
    }
  }

  lemma StepQueue(dist: map<int, int>, q: seq<(int, int)>, m: nat, dist': map<int, int>, q': seq<(int, int)>)
    requires InvQueue(dist, q) && m < |q| && dist.Keys <= dist'.Keys
    requires |q'| >= |q| - 1 && q'[..|q| - 1] == q[..m] + q[m + 1..]
    requires forall j :: |q| - 1 <= j < |q'| ==> q'[j].1 in dist'
    ensures InvQueue(dist', q')
  {
    forall j | 0 <= j < |q'| ensures q'[j].1 in dist' {
      if j < |q| - 1 {
        assert q'[j] == (q[..m] + q[m + 1..])[j];
        if j < m { assert q'[j] == q[j]; } else { assert q'[j] == q[j + 1]; }
      }
    }
  }

  lemma StepFrontier(adj: Adjacency, visited: set<int>, cur: int, q: seq<(int, int)>, m: nat,
                     dist: map<int, int>, prev: map<int, int>,
                     dist': map<int, int>, prev': map<int, int>, q': seq<(int, int)>)
    requires visited <= adj.Keys && InvFrontier(adj, visited, q)
    requires m < |q| && cur == q[m].1 && cur in adj
    requires RelaxOutcome(adj, cur, visited + {cur}, dist, prev, q[..m] + q[m + 1..], dist', prev', q')
    ensures InvFrontier(adj, visited + {cur}, q')
  {
    var rest := q[..m] + q[m + 1..];
    Remove(q, m, visited);
    forall u, k | u in visited + {cur} && 0 <= k < |adj[u]|
      ensures adj[u][k].0 in visited + {cur} || Queued(q', adj[u][k].0)
    {
      var v := adj[u][k].0;
      if u != cur && v !in visited + {cur} {
        assert Queued(rest, v);
        var j :| 0 <= j < |rest| && rest[j].1 == v;
        assert q'[j] == rest[j];
      }
    }
  }

  lemma StepCount(visited: set<int>, q: seq<(int, int)>, m: nat, q': seq<(int, int)>)
    requires m < |q| && q[m].1 in visited
    requires |q'| >= |q| - 1 && q'[..|q| - 1] == q[..m] + q[m + 1..]
    requires forall j :: |q| - 1 <= j < |q'| ==> q'[j].1 !in visited
    ensures StaleCount(q', visited) < StaleCount(q, visited)
  {
    var rest := q[..m] + q[m + 1..];
    Remove(q, m, visited);
    assert q' == rest + q'[|rest|..];
    StaleCountAppend(rest, q'[|rest|..], visited);
    StaleCountNone(q'[|rest|..], visited);
  }

  /**
   * One iteration of the search keeps its invariant: dequeue the smallest
   * entry m (not the finish), mark its node visited (stamping it with the
   * clock the first time), and relax its neighbours. A first visit shrinks
   * the set of unvisited keys; a repeated one removes a stale entry.
   */
  lemma VisitStep(adj: Adjacency, start: int, finish: int, visited: set<int>, dist: map<int, int>,
                  prev: map<int, int>, q: seq<(int, int)>, order: map<int, nat>, clock: nat, m: nat,
                  dist': map<int, int>, prev': map<int, int>, q': seq<(int, int)>)
    requires Closed(adj)
    requires SearchInv(adj, start, finish, visited, dist, prev, q, order, clock)
    requires m < |q| && q[m].1 != finish && q[m].1 in adj
    requires RelaxOutcome(adj, q[m].1, visited + {q[m].1}, dist, prev, q[..m] + q[m + 1..], dist', prev', q')
    ensures var cur := q[m].1;
      SearchInv(adj, start, finish, visited + {cur}, dist', prev', q',
                if cur in visited then order else order[cur := clock],
                if cur in visited then clock else clock + 1)
    ensures q[m].1 in visited ==> StaleCount(q', visited) < StaleCount(q, visited)
    ensures q[m].1 !in visited ==> |adj.Keys - (visited + {q[m].1})| < |adj.Keys - visited|
  {
    var cur := q[m].1;
    var rest := q[..m] + q[m + 1..];
    assert cur in dist;
    assert start in visited + {cur};
    StepDomain(adj, start, finish, visited, cur, dist, prev, rest, dist', prev', q');
    StepPrev(adj, start, visited, cur, dist, prev, rest, dist', prev', q');
    StepOrder(adj, visited, cur, prev, order, clock, dist, rest, dist', prev', q');
    StepQueue(dist, q, m, dist', q');
    StepFrontier(adj, visited, cur, q, m, dist, prev, dist', prev', q');
    if cur in visited {
      StepCount(visited, q, m, q');
    } else {
      assert adj.Keys - (visited + {cur}) == (adj.Keys - visited) - {cur};
    }
  }

  /**
   * When the search stops, `finish` has a predecessor if it is reachable
   * from a different start: either the queue ran dry, and then the
   * visited set is closed under edges yet misses `finish`, or `finish` was
   * dequeued, and then it has a distance.
   */
  lemma SearchDone(adj: Adjacency, start: int, finish: int, visited: set<int>, dist: map<int, int>,
                   prev: map<int, int>, q: seq<(int, int)>, order: map<int, nat>, clock: nat)
    requires SearchInv(adj, start, finish, visited, dist, prev, q, order, clock)
    requires q == [] || finish in dist
    ensures start != finish && Reachable(adj, start, finish) ==> finish in prev
  {
    if finish !in prev && start != finish && Reachable(adj, start, finish) {
      var p :| IsPath(adj, p) && p[0] == start && p[|p| - 1] == finish;
      assert q == [];
      assert start in visited;
      VisitedClosed(adj, visited, p);
    }
  }

  /**
   * `find_shortest_path(start_id, finish_id)`: the search with the lazy
   * priority queue, stopped as soon as `finish` is dequeued, then the
   * reconstruction; `[]` when `finish` never got a predecessor (also when
   * start == finish, since the first node dequeued is then the finish).
   * The requires are stronger than what the source needs: it raises KeyError
   * only when the search scans a neighbour that is not a key, or when the
   * start is not a key and differs from the finish.
   */
  method ShortestPath(adj: Adjacency, start: int, finish: int) returns (path: seq<int>)
    requires Closed(adj)
    requires start == finish || start in adj
    ensures ValidRoute(adj, start, finish, path)
  {
    var dist: map<int, int> := map[start := 0];
    var visited: set<int> := {};
    var prev: map<int, int> := map[];
    var q: seq<(int, int)> := [(0, start)];
    ghost var order: map<int, nat> := map[];
    ghost var clock: nat := 0;

    while q != []
      invariant SearchInv(adj, start, finish, visited, dist, prev, q, order, clock)
      decreases |adj.Keys - visited|, StaleCount(q, visited)
    {
      var m := MinIndex(q);
      var cur := q[m].1;
      assert cur in dist;
      if cur == finish {
        break;
      }
      var rest := q[..m] + q[m + 1..];
      var dist', prev', q' := Relax(adj, cur, visited + {cur}, dist, prev, rest);
      VisitStep(adj, start, finish, visited, dist, prev, q, order, clock, m, dist', prev', q');
      if cur !in visited {
        order := order[cur := clock];
        clock := clock + 1;
      }
      visited := visited + {cur};
      dist, prev, q := dist', prev', q';
    }

    SearchDone(adj, start, finish, visited, dist, prev, q, order, clock);
    if finish !in prev {
      return [];
    }
    path := TracePath(adj, prev, start, finish, visited, order);
    assert IsPath(adj, path) && path[0] == start && path[|path| - 1] == finish;
  }

  // ---------------------------------------------------------------------
  // The node's own state (Node)
  // ---------------------------------------------------------------------

  predicate NoDuplicates<T(==)>(s: seq<T>)
  {
    forall i, j :: 0 <= i < j < |s| ==> s[i] != s[j]
  }

  /** Python's `list.remove(x)`: drop the first occurrence of x. */
  function RemoveFirst<T(==)>(s: seq<T>, x: T): seq<T>
  {
    if s == [] then []
    else if s[0] == x then s[1..]
    else [s[0]] + RemoveFirst(s[1..], x)
  }

  /** Removing the first occurrence from a duplicate-free list removes x altogether and keeps everything else, in order. */
  lemma {:induction false} RemoveFirstNoDuplicates<T>(s: seq<T>, x: T)
    requires NoDuplicates(s)
    ensures NoDuplicates(RemoveFirst(s, x))
    ensures x !in RemoveFirst(s, x)
    ensures forall y :: y in RemoveFirst(s, x) <==> y in s && y != x
    ensures x in s ==> |RemoveFirst(s, x)| == |s| - 1
    decreases |s|
  {
    if s != [] {
      assert NoDuplicates(s[1..]) by {
        forall i, j | 0 <= i < j < |s[1..]| ensures s[1..][i] != s[1..][j] {
          assert s[1..][i] == s[i + 1] && s[1..][j] == s[j + 1];
        }
      }
      if s[0] != x {
        RemoveFirstNoDuplicates(s[1..], x);
        var r := RemoveFirst(s[1..], x);
        assert s[0] !in s[1..] by {
          forall k | 0 <= k < |s[1..]| ensures s[1..][k] != s[0] { assert s[1..][k] == s[k + 1]; }
        }
        forall i, j | 0 <= i < j < |[s[0]] + r| ensures ([s[0]] + r)[i] != ([s[0]] + r)[j] {
          if i == 0 { assert ([s[0]] + r)[j] == r[j - 1]; assert r[j - 1] in r; }
        }
      } else {
        assert s == [s[0]] + s[1..];
        forall k | 0 <= k < |s[1..]| ensures s[1..][k] != x { assert s[1..][k] == s[k + 1]; }
      }
    }
  }

  lemma NonEmpty(s: set<int>)
    requires |s| > 0
    ensures exists x :: x in s
  {
    assert (forall x :: x !in s) ==> s == {};
  }

  class Node {
    const id: int                              // id_
    var adjacency: Adjacency                   // adjacency_list_
    var neighborIds: seq<(int, int)>           // neighbor_ids_: (neighbour id, weight)
    var shortestPaths: map<int, seq<int>>      // shortest_paths_

    constructor (id: int)
      ensures this.id == id && adjacency == map[] && neighborIds == [] && shortestPaths == map[]
    {
      this.id := id;
      adjacency := map[];
      neighborIds := [];
      shortestPaths := map[];
    }

    /** A hello arrived from a neighbour: list it unless it is already listed. */
    method DiscoverNeighbor(neighbor: (int, int))
      modifies this
      ensures neighborIds == if neighbor in old(neighborIds) then old(neighborIds) else old(neighborIds) + [neighbor]
      ensures NoDuplicates(old(neighborIds)) ==> NoDuplicates(neighborIds)
      ensures adjacency == old(adjacency) && shortestPaths == old(shortestPaths)
    {
      if neighbor !in neighborIds {
        neighborIds := neighborIds + [neighbor];
      }
    }

    /** A neighbour stayed silent past HELLO_TIMEOUT: drop it if listed. */
    method ExcludeNeighbor(neighbor: (int, int))
      modifies this
      ensures neighborIds == if neighbor in old(neighborIds) then RemoveFirst(old(neighborIds), neighbor) else old(neighborIds)
      ensures NoDuplicates(old(neighborIds)) ==> NoDuplicates(neighborIds) && neighbor !in neighborIds
      ensures adjacency == old(adjacency) && shortestPaths == old(shortestPaths)
    {
      if NoDuplicates(neighborIds) {
        RemoveFirstNoDuplicates(neighborIds, neighbor);
      }
      if neighbor in neighborIds {
        neighborIds := RemoveFirst(neighborIds, neighbor);
      }
    }

    /**
     * A new topology arrived from the designated node. If this node has a
     * non-empty entry in it, the route to every other key is recomputed
     * (routes to nodes no longer in the topology are kept); otherwise the
     * route table is cleared.
     */
    method ReceiveTopology(update: Adjacency)
      requires Closed(update)
      modifies this
      ensures adjacency == update && neighborIds == old(neighborIds)
      ensures !(id in update && |update[id]| != 0) ==> shortestPaths == map[]
      ensures id in update && |update[id]| != 0 ==>
        && shortestPaths.Keys == old(shortestPaths).Keys + (update.Keys - {id})
        && (forall i :: i in update && i != id ==> ValidRoute(update, id, i, shortestPaths[i]))
        && (forall i :: i in old(shortestPaths) && (i !in update || i == id) ==> shortestPaths[i] == old(shortestPaths)[i])
    {
      adjacency := update;
      if id in adjacency && |adjacency[id]| != 0 {
        var todo := adjacency.Keys;
        while |todo| > 0
          invariant adjacency == update && neighborIds == old(neighborIds)
          invariant todo <= update.Keys
          invariant shortestPaths.Keys == old(shortestPaths).Keys + (update.Keys - {id} - todo)
          invariant forall i :: i in update && i != id && i !in todo ==> ValidRoute(update, id, i, shortestPaths[i])
          invariant forall i :: i in old(shortestPaths) && (i !in update || i == id || i in todo) ==>
            shortestPaths[i] == old(shortestPaths)[i]
          decreases |todo|
        {
          NonEmpty(todo);
          var i :| i in todo;
          if i != id {
            var path := ShortestPath(adjacency, id, i);
            shortestPaths := shortestPaths[i := path];
          }
          todo := todo - {i};
        }
      } else {
        shortestPaths := map[];
      }
    }
  }
}
