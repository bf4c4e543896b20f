/**
 * The designated node's view of the whole network: when node `s` reports
 * its neighbour list, every adjacency list forgets its links to `s`, the
 * report becomes `s`'s own list, and each neighbour named in it gets a link
 * back to `s` with the reported weight.
 */
module DesignatedRouting {
  import opened Routing

  /** `adjacency_list_.get(k, [])`: a node that is not yet a key has no links. */
  function Get(adj: Adjacency, k: int): seq<(int, int)>
  {
    if k in adj then adj[k] else []
  }

  /** The entries of `l` whose neighbour is not `s`, in their order. */
  function Filter(l: seq<(int, int)>, s: int): (r: seq<(int, int)>)
    ensures |r| <= |l|
    ensures forall e :: e in r <==> e in l && e.0 != s
  {
    if l == [] then []
    else (if l[0].0 != s then [l[0]] else []) + Filter(l[1..], s)
  }

  /** The neighbour ids an update names. */
  function Indices(update: seq<(int, int)>): set<int>
  {
    set e | e in update :: e.0
  }

  /**
   * The links `(s, weight)` that the update of node `s` adds to the list of
   * node `k`: one per entry `(k, weight)` of the update, in the update's order.
   */
  function Backlinks(update: seq<(int, int)>, k: int, s: int): seq<(int, int)>
  {
    if update == [] then []
    else
      var e := update[|update| - 1];
      Backlinks(update[..|update| - 1], k, s) + (if e.0 == k then [(s, e.1)] else [])
  }

  /** The adjacency lists after node `s` has reported `update`. */
  function Merged(adj: Adjacency, s: int, update: seq<(int, int)>): Adjacency
  {
    map k | k in adj.Keys + {s} + Indices(update) ::
      if k == s then update else Filter(Get(adj, k), s) + Backlinks(update, k, s)
  }

  /** No entry of the update names its sender. */
  predicate NoSelfLink(update: seq<(int, int)>, s: int)
  {
    forall e :: e in update ==> e.0 != s
  }

  /** Every link is listed from both ends with the same weight. */
  predicate Symmetric(adj: Adjacency)
  {
    forall a, e: (int, int) :: a in adj && e in adj[a] ==> e.0 in adj && (a, e.1) in adj[e.0]
  }

  // ---------------------------------------------------------------------
  // Facts about the pieces
  // ---------------------------------------------------------------------

  /** Dropping the links to `s` keeps the order of what remains: it distributes over `+`. */
  lemma {:induction false} FilterAppend(a: seq<(int, int)>, b: seq<(int, int)>, s: int)
    ensures Filter(a + b, s) == Filter(a, s) + Filter(b, s)
    decreases |a|
  {
    if a != [] {
      assert (a + b)[1..] == a[1..] + b;
      FilterAppend(a[1..], b, s);
    } else {
      assert a + b == b;
    }
  }

  /** The back-links added to `k` are exactly `(s, w)` for each entry `(k, w)` of the update. */
  lemma {:induction false} BacklinksMembers(update: seq<(int, int)>, k: int, s: int)
    ensures forall e :: e in Backlinks(update, k, s) <==> e.0 == s && (k, e.1) in update
    decreases |update|
  {
    if update != [] {
      var init := update[..|update| - 1];
      BacklinksMembers(init, k, s);
      assert update == init + [update[|update| - 1]];
    }
  }

  /** A node the update does not name gets no back-links. */
  lemma {:induction false} BacklinksNone(update: seq<(int, int)>, k: int, s: int)
    requires k !in Indices(update)
    ensures Backlinks(update, k, s) == []
    decreases |update|
  {
    if update != [] {
      var init := update[..|update| - 1];
      assert forall e :: e in init ==> e in update;
      BacklinksNone(init, k, s);
      assert update[|update| - 1] in update;
    }
  }

  /** Extending the update by one entry appends at most one back-link, for that entry's node. */
  lemma BacklinksStep(update: seq<(int, int)>, j: nat, k: int, s: int)
    requires j < |update|
    ensures Backlinks(update[..j + 1], k, s)
            == Backlinks(update[..j], k, s) + (if update[j].0 == k then [(s, update[j].1)] else [])
  {
    assert update[..j + 1][..j] == update[..j];
  }

  // ---------------------------------------------------------------------
  // The merge, key by key
  // ---------------------------------------------------------------------

  /** Lines 27-28: every list loses its links to `s`; the key set is unchanged. */
  method DropSender(adj: Adjacency, s: int) returns (r: Adjacency)
    ensures r.Keys == adj.Keys
    ensures forall k :: k in r ==> r[k] == Filter(adj[k], s)
  {
    r := adj;
    var todo := adj.Keys;
    while |todo| > 0
      invariant todo <= adj.Keys
      invariant r.Keys == adj.Keys
      invariant forall k :: k in r && k !in todo ==> r[k] == Filter(adj[k], s)
      invariant forall k :: k in todo ==> r[k] == adj[k]
      decreases |todo|
    {
      NonEmpty(todo);
      var key :| key in todo;
      r := r[key := Filter(r[key], s)];
      todo := todo - {key};
    }
  }

  /** `base` with the back-links of `update` to `s` appended, creating missing keys. */
  function Grown(base: Adjacency, s: int, update: seq<(int, int)>): Adjacency
  {
    map k | k in base.Keys + Indices(update) :: Get(base, k) + Backlinks(update, k, s)
  }

  /** The keys grow by the node the next entry names. */
  lemma GrownKeys(base: Adjacency, s: int, update: seq<(int, int)>, j: nat)
    requires j < |update|
    ensures Grown(base, s, update[..j + 1]).Keys == Grown(base, s, update[..j]).Keys + {update[j].0}
  {
    assert update[..j + 1] == update[..j] + [update[j]];
    assert Indices(update[..j + 1]) == Indices(update[..j]) + {update[j].0};
  }

  /** One more update entry `(index, weight)` appends `(s, weight)` to `index`'s list, or creates it. */
  lemma GrownStep(base: Adjacency, s: int, update: seq<(int, int)>, j: nat)
    requires j < |update|
    ensures var g, e := Grown(base, s, update[..j]), update[j];
            Grown(base, s, update[..j + 1])
            == if e.0 in g then g[e.0 := g[e.0] + [(s, e.1)]] else g[e.0 := [(s, e.1)]]
  {
    var g, e := Grown(base, s, update[..j]), update[j];
    var g' := Grown(base, s, update[..j + 1]);
    GrownKeys(base, s, update, j);
    var h := if e.0 in g then g[e.0 := g[e.0] + [(s, e.1)]] else g[e.0 := [(s, e.1)]];
    forall k | k in g'
      ensures g'[k] == h[k]
    {
      GrownAt(base, s, update, j, k);
    }
    assert g' == h;
  }

  /** `GrownStep` at one key. */
  lemma GrownAt(base: Adjacency, s: int, update: seq<(int, int)>, j: nat, k: int)
    requires j < |update| && k in Grown(base, s, update[..j + 1])
    ensures var g, e := Grown(base, s, update[..j]), update[j];
            Grown(base, s, update[..j + 1])[k]
            == if k != e.0 then g[k] else if e.0 in g then g[e.0] + [(s, e.1)] else [(s, e.1)]
  {
    var g, e := Grown(base, s, update[..j]), update[j];
    GrownKeys(base, s, update, j);
    BacklinksStep(update, j, k, s);
    if k == e.0 && e.0 !in g {
      BacklinksNone(update[..j], e.0, s);
      assert Get(base, e.0) == [];
    }
  }

  /** Lines 34-40: for each `(index, weight)` of the update, `(s, weight)` joins `index`'s list. */
  method AddBacklinks(base: Adjacency, s: int, update: seq<(int, int)>) returns (r: Adjacency)
    ensures r == Grown(base, s, update)
  {
    r := base;
    assert update[..0] == [];
    assert Indices(update[..0]) == {};
    forall k | k in base
      ensures Grown(base, s, update[..0])[k] == base[k]
    {
      assert Get(base, k) + [] == base[k];
    }
    assert Grown(base, s, update[..0]) == base;
    for j := 0 to |update|
      invariant r == Grown(base, s, update[..j])
    {
      var (index, weight) := update[j];
      GrownStep(base, s, update, j);
      if index !in r {
        r := r[index := [(s, weight)]];
      } else {
        r := r[index := r[index] + [(s, weight)]];
      }
    }
    assert update[..|update|] == update;
  }

  /** Key by key, growing the filtered lists with the sender's own entry set to `update` gives the merge. */
  lemma MergedSplitAt(adj: Adjacency, s: int, update: seq<(int, int)>, filtered: Adjacency, k: int)
    requires NoSelfLink(update, s)
    requires filtered.Keys == adj.Keys
    requires forall k :: k in filtered ==> filtered[k] == Filter(adj[k], s)
    requires k in Merged(adj, s, update)
    ensures k in Grown(filtered[s := update], s, update)
    ensures Grown(filtered[s := update], s, update)[k] == Merged(adj, s, update)[k]
  {
    var base := filtered[s := update];
    if k == s {
      assert s !in Indices(update);
      BacklinksNone(update, s, s);
      assert Get(base, s) + [] == update;
    } else if k !in adj {
      assert Get(adj, k) == [] && Get(base, k) == [];
    } else {
      assert Get(base, k) == Filter(Get(adj, k), s);
    }
  }

  /** The two loops of the source, run one after the other, compute the merge. */
  lemma MergedSplit(adj: Adjacency, s: int, update: seq<(int, int)>, filtered: Adjacency)
    requires NoSelfLink(update, s)
    requires filtered.Keys == adj.Keys
    requires forall k :: k in filtered ==> filtered[k] == Filter(adj[k], s)
    ensures Grown(filtered[s := update], s, update) == Merged(adj, s, update)
  {
    var g, m := Grown(filtered[s := update], s, update), Merged(adj, s, update);
    assert g.Keys == m.Keys;
    forall k | k in m
      ensures g[k] == m[k]
    {
      MergedSplitAt(adj, s, update, filtered, k);
    }
  }

  class DesignatedNode {
    var adjacency: Adjacency

    /** `DesignatedNode()`: no topology is known yet. */
    constructor ()
      ensures adjacency == map[]
    {
      adjacency := map[];
    }

    /**
     * The merge of `receive_topology_update` for an update from `senderId`.
     * The source requires that the update does not list its sender: line 40
     * would otherwise append to the list being iterated, and the loop would
     * never end.
     */
    method ReceiveTopologyUpdate(senderId: int, update: seq<(int, int)>)
      requires NoSelfLink(update, senderId)
      modifies this
      ensures adjacency == Merged(old(adjacency), senderId, update)
      ensures adjacency.Keys == old(adjacency).Keys + {senderId} + Indices(update)
      ensures adjacency[senderId] == update
    {
      var filtered := DropSender(adjacency, senderId);
      var merged := AddBacklinks(filtered[senderId := update], senderId, update);
      MergedSplit(adjacency, senderId, update, filtered);
      adjacency := merged;
    }
  }

  // ---------------------------------------------------------------------
  // What the merge keeps, adds and preserves
  // ---------------------------------------------------------------------

  /**
   * Seen from any other node `k`, the links to `s` after the merge are exactly
   * the reversed entries of `s`'s report: stale links are gone and no report
   * entry is missed.
   */
  lemma MergedSenderLinks(adj: Adjacency, s: int, update: seq<(int, int)>, k: int, w: int)
    requires k != s && k in Merged(adj, s, update)
    ensures (s, w) in Merged(adj, s, update)[k] <==> (k, w) in update
  {
    BacklinksMembers(update, k, s);
  }

  /** Links between two nodes other than the sender are exactly those listed before. */
  lemma MergedOthersKept(adj: Adjacency, s: int, update: seq<(int, int)>, k: int, e: (int, int))
    requires k != s && e.0 != s && k in Merged(adj, s, update)
    ensures e in Merged(adj, s, update)[k] <==> k in adj && e in adj[k]
  {
    BacklinksMembers(update, k, s);
  }

  /** Two kept entries of a list keep their relative order after the filter. */
  lemma FilterOrder(l: seq<(int, int)>, s: int, i: nat, j: nat) returns (i': nat, j': nat)
    requires i < j < |l| && l[i].0 != s && l[j].0 != s
    ensures i' < j' < |Filter(l, s)|
    ensures Filter(l, s)[i'] == l[i] && Filter(l, s)[j'] == l[j]
  {
    assert l == l[..j] + l[j..];
    FilterAppend(l[..j], l[j..], s);
    var a, b := Filter(l[..j], s), Filter(l[j..], s);
    assert l[i] in l[..j];
    assert l[j] == l[j..][0];
    assert l[j] in b;
    i' :| i' < |a| && a[i'] == l[i];
    var j0: nat :| j0 < |b| && b[j0] == l[j];
    j' := |a| + j0;
  }

  /** The merged list of node `k`: its old list without the sender, then its back-links. */
  lemma MergedAt(adj: Adjacency, s: int, update: seq<(int, int)>, k: int)
    requires k != s && k in adj
    ensures k in Merged(adj, s, update)
    ensures Merged(adj, s, update)[k] == Filter(adj[k], s) + Backlinks(update, k, s)
  {
  }

  /** Each other list keeps the relative order of the entries it does not drop. */
  lemma MergedOrder(adj: Adjacency, s: int, update: seq<(int, int)>, k: int, i: nat, j: nat)
    requires k != s && k in adj
    requires i < j < |adj[k]| && adj[k][i].0 != s && adj[k][j].0 != s
    ensures exists i', j' :: 0 <= i' < j' < |Merged(adj, s, update)[k]|
              && Merged(adj, s, update)[k][i'] == adj[k][i] && Merged(adj, s, update)[k][j'] == adj[k][j]
  {
    MergedAt(adj, s, update, k);
    var i', j' := FilterOrder(adj[k], s, i, j);
    var m := Merged(adj, s, update)[k];
    assert m[i'] == adj[k][i] && m[j'] == adj[k][j];
  }

  /** The merge never leaves a listed neighbour without an entry of its own. */
  lemma MergedClosed(adj: Adjacency, s: int, update: seq<(int, int)>)
    requires Closed(adj) && NoSelfLink(update, s)
    ensures Closed(Merged(adj, s, update))
  {
    var m: Adjacency := Merged(adj, s, update);
    forall v: int, k: int | v in m && 0 <= k < |m[v]|
      ensures m[v][k].0 in m
    {
      var e: (int, int) := m[v][k];
      assert e in m[v];
      if v != s {
        BacklinksMembers(update, v, s);
        if e.0 != s {
          assert e in adj[v];
          var k' :| 0 <= k' < |adj[v]| && adj[v][k'] == e;
        }
      }
    }
  }

  /** A view in which every link is listed from both ends stays so after a report. */
  lemma MergedSymmetric(adj: Adjacency, s: int, update: seq<(int, int)>)
    requires Symmetric(adj) && NoSelfLink(update, s)
    ensures Symmetric(Merged(adj, s, update))
  {
    var m: Adjacency := Merged(adj, s, update);
    forall a, e: (int, int) | a in m && e in m[a]
      ensures e.0 in m && (a, e.1) in m[e.0]
    {
      if a == s {
        BacklinksMembers(update, e.0, s);
      } else {
        BacklinksMembers(update, a, s);
        if e.0 == s {
          assert (a, e.1) in update;
        } else {
          assert e in adj[a];
          BacklinksMembers(update, e.0, s);
        }
      }
    }
  }
}
