/**
 * The network the launcher builds: the edge lists of the ring and star
 * topologies, and the wiring of one pipe per direction for each edge and
 * for each node's link to the designated node.
 *
 * A pipe is identified by the order in which the launcher creates it
 * (`Channel`); a node's table maps a neighbour id to the pipe it uses for
 * that neighbour.
 */
module NetworkSetup {
  import opened Frames

  /** Coordinates of a point on the drawing plane. */
  type Point = (int, int)

  /** The float division by zero the builders raise for a degenerate node count. */
  datatype TopologyError = ZeroDivision

  /** One `IPCManagerPipes()` instance, by creation order. */
  type Channel = int

  /**
   * `ring_topology(n)`: point i at `place(i)` (the cosine/sine position on the
   * circle), edges (i, i + 1) for i < n - 1, closed by (n - 1, 0).
   */
  method RingTopology(n: int, place: nat -> Point) returns (r: Result<(seq<Point>, seq<(int, int)>), TopologyError>)
    ensures r.Err? <==> n == 0
    ensures n >= 1 ==> r.Ok? && |r.value.0| == n && |r.value.1| == n
    ensures n >= 1 ==> forall i :: 0 <= i < n ==> r.value.0[i] == place(i)
    ensures n >= 1 ==> forall i :: 0 <= i < n - 1 ==> r.value.1[i] == (i, i + 1)
    ensures n >= 1 ==> r.value.1[n - 1] == (n - 1, 0)
    ensures n >= 1 ==> forall e :: e in r.value.1 ==> 0 <= e.0 < n && e.1 == (e.0 + 1) % n
    ensures n < 0 ==> r == Ok(([], [(n - 1, 0)]))
  {
    if n == 0 {
      return Err(ZeroDivision);
    }
    var coordinates: seq<Point> := [];
    var i := 0;
    while i < n
      invariant n > 0 ==> 0 <= i <= n
      invariant n < 0 ==> i == 0
      invariant |coordinates| == i
      invariant forall k :: 0 <= k < i ==> coordinates[k] == place(k)
    {
      coordinates := coordinates + [place(i)];
      i := i + 1;
    }
    var edges: seq<(int, int)> := [];
    i := 0;
    while i < n - 1
      invariant n > 0 ==> 0 <= i <= n - 1
      invariant n < 0 ==> i == 0
      invariant |edges| == i
      invariant forall k :: 0 <= k < i ==> edges[k] == (k, k + 1)
    {
      edges := edges + [(i, i + 1)];
      i := i + 1;
    }
    edges := edges + [(n - 1, 0)];
    if n >= 1 {
      RingSuccessor(n, edges);
    } else {
      assert coordinates == [] && edges == [(n - 1, 0)];
    }
    return Ok((coordinates, edges));
  }

  /** A ring's edges, read as (i, i + 1) and (n - 1, 0), each go from a node to its successor modulo n. */
  lemma RingSuccessor(n: int, edges: seq<(int, int)>)
    requires n >= 1 && |edges| == n
    requires forall i :: 0 <= i < n - 1 ==> edges[i] == (i, i + 1)
    requires edges[n - 1] == (n - 1, 0)
    ensures forall e :: e in edges ==> 0 <= e.0 < n && e.1 == (e.0 + 1) % n
  {
    forall e | e in edges
      ensures 0 <= e.0 < n && e.1 == (e.0 + 1) % n
    {
      var k :| 0 <= k < |edges| && edges[k] == e;
      if k < n - 1 {
        assert e == (k, k + 1);
      }
    }
  }

  /**
   * `star_topology(n)`: the hub at (0, 0) followed by `place(i)` for the
   * n - 1 outer points, and an edge from the hub 0 to every other node.
   */
  method StarTopology(n: int, place: nat -> Point) returns (r: Result<(seq<Point>, seq<(int, int)>), TopologyError>)
    ensures r.Err? <==> n == 1
    ensures n >= 2 ==> r.Ok? && |r.value.0| == n && |r.value.1| == n - 1
    ensures n >= 2 ==> r.value.0[0] == (0, 0) && forall i :: 1 <= i < n ==> r.value.0[i] == place(i - 1)
    ensures n >= 2 ==> forall k :: 0 <= k < n - 1 ==> r.value.1[k] == (0, k + 1)
    ensures n >= 2 ==> forall v :: 0 < v < n ==> (0, v) in r.value.1
    ensures forall e :: r.Ok? && e in r.value.1 ==> e.0 == 0 && 0 < e.1 < n
    ensures n <= 0 ==> r == Ok(([(0, 0)], []))
  {
    if n == 1 {
      return Err(ZeroDivision);
    }
    var coordinates: seq<Point> := [(0, 0)];
    var i := 0;
    while i < n - 1
      invariant n >= 2 ==> 0 <= i <= n - 1
      invariant n <= 0 ==> i == 0
      invariant |coordinates| == i + 1 && coordinates[0] == (0, 0)
      invariant forall k :: 1 <= k <= i ==> coordinates[k] == place(k - 1)
    {
      coordinates := coordinates + [place(i)];
      i := i + 1;
    }
    var edges: seq<(int, int)> := [];
    i := 1;
    while i < n
      invariant n >= 2 ==> 1 <= i <= n
      invariant n <= 0 ==> i == 1
      invariant |edges| == i - 1
      invariant forall k :: 0 <= k < i - 1 ==> edges[k] == (0, k + 1)
    {
      edges := edges + [(0, i)];
      i := i + 1;
    }
    if n >= 2 {
      forall v | 0 < v < n
        ensures (0, v) in edges
      {
        assert edges[v - 1] == (0, v);
      }
    } else {
      assert coordinates == [(0, 0)] && edges == [];
    }
    return Ok((coordinates, edges));
  }

  /** The channel tables the launcher hands to the designated node and to each node. */
  datatype Wiring = Wiring(
    sendNeighbor: seq<map<int, Channel>>,   // `senders_ipc_managers_neighbor`
    recvNeighbor: seq<map<int, Channel>>,   // `receivers_ipc_managers_neighbor`
    sendTopology: seq<Channel>,             // `senders_ipc_managers_topology`
    recvTopology: seq<Channel>,             // `receivers_ipc_managers_topology`
    sendDesignated: seq<Channel>,           // `senders_ipc_managers_des_node`
    recvDesignated: seq<Channel>)           // `receivers_ipc_managers_des_node`

  /** Nodes i and j are the two ends of some edge, in either order. */
  predicate Linked(edges: seq<(int, int)>, i: int, j: int)
  {
    exists k :: 0 <= k < |edges| && (edges[k] == (i, j) || edges[k] == (j, i))
  }

  /** Node i has a pipe towards node j exactly when they are linked, in both tables. */
  ghost predicate WiredPairs(count: nat, edges: seq<(int, int)>, send: seq<map<int, Channel>>, recv: seq<map<int, Channel>>)
  {
    && |send| == count && |recv| == count
    && (forall i, j :: 0 <= i < count && j in send[i] ==> 0 <= j < count && Linked(edges, i, j))
    && (forall i, j :: 0 <= i < count && j in recv[i] ==> 0 <= j < count && Linked(edges, i, j))
    && (forall i, j :: 0 <= i < count && 0 <= j < count && Linked(edges, i, j) ==> j in send[i] && j in recv[i])
  }

  /** What i sends to j, j receives from i; no node sends and receives on the same pipe. */
  ghost predicate WiredPipes(count: nat, send: seq<map<int, Channel>>, recv: seq<map<int, Channel>>)
    requires |send| == count && |recv| == count
  {
    && (forall i, j :: 0 <= i < count && j in send[i] && i != j && 0 <= j < count ==> i in recv[j] && send[i][j] == recv[j][i])
    && (forall i, j :: 0 <= i < count && j in send[i] && j in recv[i] ==> send[i][j] != recv[i][j])
  }

  /**
   * The neighbour tables of `count` nodes after wiring `edges`: a node has a
   * pipe towards exactly its linked nodes; what i sends to j, j receives
   * from i; and no node sends and receives on the same pipe.
   */
  ghost predicate NeighborWiring(count: nat, edges: seq<(int, int)>, send: seq<map<int, Channel>>, recv: seq<map<int, Channel>>)
  {
    WiredPairs(count, edges, send, recv) && WiredPipes(count, send, recv)
  }

  /** One more edge (a, b) links exactly the pairs (a, b) and (b, a) in addition. */
  lemma LinkedAppend(edges: seq<(int, int)>, a: int, b: int, i: int, j: int)
    ensures Linked(edges + [(a, b)], i, j) <==> Linked(edges, i, j) || (i, j) == (a, b) || (i, j) == (b, a)
  {
    var edges' := edges + [(a, b)];
    if Linked(edges, i, j) {
      var k :| 0 <= k < |edges| && (edges[k] == (i, j) || edges[k] == (j, i));
      assert edges'[k] == edges[k];
    }
    if (i, j) == (a, b) || (i, j) == (b, a) {
      assert edges'[|edges|] == (a, b);
    }
    if Linked(edges', i, j) {
      var k :| 0 <= k < |edges'| && (edges'[k] == (i, j) || edges'[k] == (j, i));
      if k < |edges| {
        assert edges[k] == edges'[k];
      }
    }
  }

  /** The four table updates for edge (a, b) keep the pairs wired. */
  lemma WireEdgePairs(count: nat, edges: seq<(int, int)>, send: seq<map<int, Channel>>, recv: seq<map<int, Channel>>,
                      a: int, b: int, c1: Channel, c2: Channel)
    requires WiredPairs(count, edges, send, recv)
    requires 0 <= a < count && 0 <= b < count
    ensures var s1 := send[a := send[a][b := c1]];
            var r1 := recv[a := recv[a][b := c2]];
            WiredPairs(count, edges + [(a, b)], s1[b := s1[b][a := c2]], r1[b := r1[b][a := c1]])
  {
    forall i, j | 0 <= i < count && 0 <= j < count
      ensures Linked(edges + [(a, b)], i, j) <==> Linked(edges, i, j) || (i, j) == (a, b) || (i, j) == (b, a)
    {
      LinkedAppend(edges, a, b, i, j);
    }
  }

  /** The four table updates for edge (a, b) with two different pipes keep the pipes matched. */
  lemma WireEdgePipes(count: nat, send: seq<map<int, Channel>>, recv: seq<map<int, Channel>>,
                      a: int, b: int, c1: Channel, c2: Channel)
    requires |send| == count && |recv| == count && WiredPipes(count, send, recv)
    requires 0 <= a < count && 0 <= b < count && c1 != c2
    ensures var s1 := send[a := send[a][b := c1]];
            var r1 := recv[a := recv[a][b := c2]];
            WiredPipes(count, s1[b := s1[b][a := c2]], r1[b := r1[b][a := c1]])
  {
  }

  /**
   * The two wiring loops of the launcher for `count` nodes: per edge (i, j)
   * two fresh pipes, the first sending from i to j and the second from j to
   * i; per node two fresh pipes to and from the designated node.
   */
  method Wire(count: nat, edges: seq<(int, int)>) returns (w: Wiring)
    requires forall e :: e in edges ==> 0 <= e.0 < count && 0 <= e.1 < count
    ensures NeighborWiring(count, edges, w.sendNeighbor, w.recvNeighbor)
    ensures |w.sendTopology| == |w.recvTopology| == |w.sendDesignated| == |w.recvDesignated| == count
    ensures forall i :: 0 <= i < count ==> w.sendTopology[i] == w.recvDesignated[i]
    ensures forall i :: 0 <= i < count ==> w.recvTopology[i] == w.sendDesignated[i]
    ensures forall i :: 0 <= i < count ==> w.sendTopology[i] != w.recvTopology[i]
  {
    var send: seq<map<int, Channel>> := seq(count, _ => map[]);
    var recv: seq<map<int, Channel>> := seq(count, _ => map[]);
    var next: Channel := 0;
    for k := 0 to |edges|
      invariant NeighborWiring(count, edges[..k], send, recv)
    {
      var (i, j) := edges[k];
      assert edges[k] in edges;
      var pipe1, pipe2 := next, next + 1;
      next := next + 2;
      WireEdgePairs(count, edges[..k], send, recv, i, j, pipe1, pipe2);
      WireEdgePipes(count, send, recv, i, j, pipe1, pipe2);
      assert edges[..k + 1] == edges[..k] + [(i, j)];
      send := send[i := send[i][j := pipe1]];
      recv := recv[i := recv[i][j := pipe2]];
      send := send[j := send[j][i := pipe2]];
      recv := recv[j := recv[j][i := pipe1]];
    }
    assert edges[..|edges|] == edges;
    var sendTopology: seq<Channel> := [];
    var recvTopology: seq<Channel> := [];
    var sendDesignated: seq<Channel> := [];
    var recvDesignated: seq<Channel> := [];
    for i := 0 to count
      invariant |sendTopology| == |recvTopology| == |sendDesignated| == |recvDesignated| == i
      invariant forall k :: 0 <= k < i ==> sendTopology[k] == recvDesignated[k]
      invariant forall k :: 0 <= k < i ==> recvTopology[k] == sendDesignated[k]
      invariant forall k :: 0 <= k < i ==> sendTopology[k] != recvTopology[k]
    {
      var pipe1, pipe2 := next, next + 1;
      next := next + 2;
      sendTopology := sendTopology + [pipe1];
      recvTopology := recvTopology + [pipe2];
      sendDesignated := sendDesignated + [pipe2];
      recvDesignated := recvDesignated + [pipe1];
    }
    w := Wiring(send, recv, sendTopology, recvTopology, sendDesignated, recvDesignated);
  }
}
