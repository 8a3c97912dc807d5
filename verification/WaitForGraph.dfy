/** The wait-for graph and its depth-first search for deadlocks. */
module WaitForGraph {
  import opened Results

  type Txn = nat
  type Graph = map<Txn, set<Txn>>

  predicate Edge(g: Graph, a: Txn, b: Txn) {
    a in g && b in g[a]
  }

  /** A walk along edges. */
  ghost predicate IsPath(g: Graph, p: seq<Txn>) {
    p != [] && forall i :: 0 <= i < |p| - 1 ==> Edge(g, p[i], p[i + 1])
  }

  ghost predicate IsCycle(g: Graph, p: seq<Txn>) {
    |p| >= 2 && IsPath(g, p) && p[0] == p[|p| - 1]
  }

  ghost predicate HasCycle(g: Graph) {
    exists p :: IsCycle(g, p)
  }

  ghost predicate OnCycle(g: Graph, t: Txn) {
    exists p :: IsCycle(g, p) && p[0] == t
  }

  ghost predicate ReachesCycle(g: Graph, t: Txn) {
    exists p :: IsPath(g, p) && p[0] == t && OnCycle(g, p[|p| - 1])
  }

  // ---------- finished nodes ----------

  /** All edges out of `done` stay in it. */
  ghost predicate Closed(g: Graph, done: set<Txn>) {
    forall a, b :: a in done && Edge(g, a, b) ==> b in done
  }

  /** No cycle starts in `done`. */
  ghost predicate Acyclic(g: Graph, done: set<Txn>) {
    forall p :: IsCycle(g, p) ==> p[0] !in done
  }

  lemma {:induction false} PathStaysIn(g: Graph, done: set<Txn>, p: seq<Txn>, i: nat)
    requires Closed(g, done) && IsPath(g, p) && i < |p| && p[0] in done
    ensures p[i] in done
  {
    if i > 0 {
      PathStaysIn(g, done, p, i - 1);
      assert Edge(g, p[i - 1], p[i - 1 + 1]);
    }
  }

  /** A node all of whose successors are finished can be finished too. */
  lemma FinishNode(g: Graph, done: set<Txn>, t: Txn)
    requires Closed(g, done) && Acyclic(g, done) && t !in done
    requires forall b :: Edge(g, t, b) ==> b in done
    ensures Closed(g, done + {t}) && Acyclic(g, done + {t})
  {
    forall p | IsCycle(g, p)
      ensures p[0] !in done + {t}
    {
      if p[0] == t {
        assert Edge(g, p[0], p[0 + 1]);
        assert IsPath(g, p[1..]) by {
          forall i | 0 <= i < |p[1..]| - 1 ensures Edge(g, p[1..][i], p[1..][i + 1]) {
            assert Edge(g, p[i + 1], p[i + 1 + 1]);
          }
        }
        PathStaysIn(g, done, p[1..], |p| - 2);
      }
    }
  }

  lemma CycleEnds(g: Graph, p: seq<Txn>)
    requires IsCycle(g, p)
    ensures p[0] in g && Edge(g, p[|p| - 2], p[0])
  {
    assert Edge(g, p[0], p[0 + 1]);
    assert Edge(g, p[|p| - 2], p[|p| - 2 + 1]);
  }

  /** When every node with outgoing edges is finished, there is no cycle. */
  lemma NoCycleLeft(g: Graph, done: set<Txn>)
    requires Acyclic(g, done) && g.Keys <= done
    ensures !HasCycle(g)
  {
    if HasCycle(g) {
      var p :| IsCycle(g, p);
      CycleEnds(g, p);
      assert false;
    }
  }

  // ---------- the cycle that the search finds ----------

  /** A path that ends where it has been before: a tail leading into a cycle. */
  ghost predicate ClosesCycle(g: Graph, path: seq<Txn>) {
    IsPath(g, path) && exists i :: 0 <= i < |path| - 1 && path[i] == path[|path| - 1]
  }

  predicate NoRepeats(q: seq<Txn>) {
    forall i, j :: 0 <= i < j < |q| ==> q[i] != q[j]
  }

  /** A path that closes a cycle with its last step and met no node twice before it. */
  ghost predicate SimplyCloses(g: Graph, path: seq<Txn>) {
    ClosesCycle(g, path) && NoRepeats(path[..|path| - 1])
  }

  lemma SubPath(g: Graph, p: seq<Txn>, i: nat, j: nat)
    requires IsPath(g, p) && i < j <= |p|
    ensures IsPath(g, p[i..j])
  {
    var q := p[i..j];
    forall k | 0 <= k < |q| - 1
      ensures Edge(g, q[k], q[k + 1])
    {
      assert Edge(g, p[i + k], p[i + k + 1]);
    }
  }

  /** Everything on such a path can reach a cycle. */
  lemma PathReachesCycle(g: Graph, path: seq<Txn>, k: nat)
    requires ClosesCycle(g, path) && k < |path|
    ensures ReachesCycle(g, path[k]) && HasCycle(g)
  {
    var n := |path|;
    var i :| 0 <= i < n - 1 && path[i] == path[n - 1];
    SubPath(g, path, i, n);
    assert IsCycle(g, path[i..n]);
    assert OnCycle(g, path[n - 1]) by { assert path[i..n][0] == path[n - 1]; }
    SubPath(g, path, k, n);
    var q := path[k..n];
    assert q[0] == path[k] && q[|q| - 1] == path[n - 1];
    assert IsPath(g, q) && OnCycle(g, q[|q| - 1]);
  }

  // ---------- the search, for a given order of iteration ----------

  /** The order in which the hash containers yield the successors of each node. */
  type Order = map<Txn, seq<Txn>>

  ghost predicate Lists(q: seq<Txn>, s: set<Txn>) {
    NoRepeats(q) && forall t :: t in q <==> t in s
  }

  /** `roots` and `order` are possible iteration orders of the graph's nodes and of their successors. */
  ghost predicate Enumerates(g: Graph, roots: seq<Txn>, order: Order) {
    Lists(roots, g.Keys) && order.Keys == g.Keys && forall a :: a in g ==> Lists(order[a], g[a])
  }

  function Successors(order: Order, a: Txn): (q: seq<Txn>) {
    if a in order then order[a] else []
  }

  ghost function Nodes(order: Order): (s: set<Txn>)
    ensures forall a, b :: b in Successors(order, a) ==> b in s
    ensures forall a :: a in order ==> a in s
  {
    order.Keys + set a, b | a in order && b in order[a] :: b
  }

  datatype SearchResult = Found(path: seq<Txn>) | Finished(visited: set<Txn>)

  /** The visit of a node: `path` holds the nodes on the stack, in order. */
  ghost function Visit(order: Order, node: Txn, visited: set<Txn>, path: seq<Txn>): (r: SearchResult)
    requires node in Nodes(order) && node !in visited
    ensures r.Finished? ==> visited + {node} <= r.visited
    decreases Nodes(order) - visited, 0
  {
    Scan(order, Successors(order, node), visited + {node}, path + [node])
  }

  /** The loop over a node's successors. */
  ghost function Scan(order: Order, ns: seq<Txn>, visited: set<Txn>, path: seq<Txn>): (r: SearchResult)
    requires forall b :: b in ns ==> b in Nodes(order)
    ensures r.Finished? ==> visited <= r.visited
    decreases Nodes(order) - visited, |ns|
  {
    if ns == [] then Finished(visited)
    else if ns[0] in path then Found(path + [ns[0]])
    else if ns[0] in visited then Scan(order, ns[1..], visited, path)
    else
      var r := Visit(order, ns[0], visited, path);
      if r.Found? then r
      else
        assert Nodes(order) - r.visited < Nodes(order) - visited by { assert ns[0] in Nodes(order) - visited; }
        Scan(order, ns[1..], r.visited, path)
  }

  /** The loop over all nodes; the path found, if any. */
  ghost function Search(order: Order, roots: seq<Txn>, visited: set<Txn>): (r: Option<seq<Txn>>)
    requires forall a :: a in roots ==> a in Nodes(order)
    decreases |roots|
  {
    if roots == [] then None
    else if roots[0] in visited then Search(order, roots[1..], visited)
    else
      match Visit(order, roots[0], visited, [])
      case Found(path) => Some(path)
      case Finished(v) => Search(order, roots[1..], v)
  }

  // ---------- what the search finds ----------

  /** The visited nodes that are no longer on the stack. */
  ghost function Left(visited: set<Txn>, path: seq<Txn>): (s: set<Txn>) {
    set t | t in visited && t !in path
  }

  /** The state of the search between calls. */
  ghost predicate SearchOk(g: Graph, visited: set<Txn>, path: seq<Txn>) {
    (forall t :: t in path ==> t in visited) && NoRepeats(path) && (path != [] ==> IsPath(g, path))
    && Closed(g, Left(visited, path)) && Acyclic(g, Left(visited, path))
  }

  ghost predicate Ordered(g: Graph, order: Order) {
    order.Keys == g.Keys && forall a :: a in g ==> Lists(order[a], g[a])
  }

  lemma ExtendPath(g: Graph, path: seq<Txn>, t: Txn)
    requires path != [] ==> IsPath(g, path) && Edge(g, path[|path| - 1], t)
    ensures IsPath(g, path + [t])
    ensures t in path && NoRepeats(path) ==> SimplyCloses(g, path + [t])
  {
    var q := path + [t];
    assert q[..|q| - 1] == path;
    forall i | 0 <= i < |q| - 1
      ensures Edge(g, q[i], q[i + 1])
    {
      if i < |path| - 1 { assert Edge(g, path[i], path[i + 1]); }
    }
    if t in path {
      var i :| 0 <= i < |path| && path[i] == t;
      assert q[i] == q[|q| - 1];
    }
  }

  /** Entering a node leaves the finished nodes as they were. */
  lemma EnterNode(g: Graph, visited: set<Txn>, path: seq<Txn>, t: Txn)
    requires SearchOk(g, visited, path) && t !in visited
    requires path != [] ==> Edge(g, path[|path| - 1], t)
    ensures SearchOk(g, visited + {t}, path + [t])
  {
    hide IsPath, Closed, Acyclic;
    ExtendPath(g, path, t);
    assert Left(visited + {t}, path + [t]) == Left(visited, path);
  }

  /** Leaving a node whose successors are all finished finishes it. */
  lemma LeaveNode(g: Graph, visited: set<Txn>, path: seq<Txn>, t: Txn)
    requires SearchOk(g, visited, path + [t]) && (path != [] ==> IsPath(g, path))
    requires forall b :: Edge(g, t, b) ==> b in Left(visited, path + [t])
    ensures SearchOk(g, visited, path)
  {
    var q := path + [t];
    assert q[|path|] == t && forall i :: 0 <= i < |path| ==> q[i] == path[i];
    assert t in q;
    assert t !in path;
    FinishNode(g, Left(visited, q), t);
    assert Left(visited, path) == Left(visited, q) + {t};
  }

  /** A visit either ends in a simple closing path that extends its own, or finishes its node. */
  lemma {:induction false} VisitOk(g: Graph, order: Order, node: Txn, visited: set<Txn>, path: seq<Txn>)
    requires Ordered(g, order) && SearchOk(g, visited, path) && node in Nodes(order) && node !in visited
    requires path != [] ==> Edge(g, path[|path| - 1], node)
    ensures var r := Visit(order, node, visited, path);
            if r.Found? then SimplyCloses(g, r.path) else SearchOk(g, r.visited, path)
    decreases Nodes(order) - visited, 0
  {
    hide IsPath, Closed, Acyclic, ClosesCycle, Nodes;
    EnterNode(g, visited, path, node);
    var q := path + [node];
    assert q[|q| - 1] == node;
    var ns := Successors(order, node);
    SuccessorsAreEdges(g, order, node);
    ScanOk(g, order, ns, visited + {node}, q);
    var r := Scan(order, ns, visited + {node}, q);
    if r.Finished? {
      LeaveNode(g, r.visited, path, node);
    }
  }

  lemma SuccessorsAreEdges(g: Graph, order: Order, node: Txn)
    requires Ordered(g, order)
    ensures forall b :: b in Successors(order, node) <==> Edge(g, node, b)
  {
  }

  lemma {:induction false} ScanOk(g: Graph, order: Order, ns: seq<Txn>, visited: set<Txn>, path: seq<Txn>)
    requires Ordered(g, order) && path != [] && SearchOk(g, visited, path)
    requires forall b :: b in ns ==> b in Nodes(order) && Edge(g, path[|path| - 1], b)
    ensures var r := Scan(order, ns, visited, path);
            if r.Found? then SimplyCloses(g, r.path)
            else SearchOk(g, r.visited, path) && forall b :: b in ns ==> b in Left(r.visited, path)
    decreases Nodes(order) - visited, |ns|
  {
    hide IsPath, Closed, Acyclic, ClosesCycle, Nodes;
    if ns != [] {
      var n := ns[0];
      assert n in ns && ns == [n] + ns[1..];
      if n in path {
        ExtendPath(g, path, n);
      } else if n in visited {
        ScanOk(g, order, ns[1..], visited, path);
      } else {
        VisitOk(g, order, n, visited, path);
        var r := Visit(order, n, visited, path);
        if r.Finished? {
          assert Nodes(order) - r.visited < Nodes(order) - visited by { assert n in Nodes(order) - visited; }
          ScanOk(g, order, ns[1..], r.visited, path);
        }
      }
    }
  }

  /** The whole search: a simple closing path, or no cycle at all. */
  lemma {:induction false} SearchFinds(g: Graph, order: Order, roots: seq<Txn>, visited: set<Txn>)
    requires Ordered(g, order) && SearchOk(g, visited, [])
    requires (forall a :: a in roots ==> a in Nodes(order)) && forall a :: a in g ==> a in visited || a in roots
    ensures var r := Search(order, roots, visited);
            if r.Some? then SimplyCloses(g, r.value) else !HasCycle(g)
    decreases |roots|
  {
    hide IsPath, Closed, Acyclic, ClosesCycle, Nodes, HasCycle;
    if roots == [] {
      assert Left(visited, []) == visited;
      NoCycleLeft(g, visited);
    } else {
      assert roots == [roots[0]] + roots[1..];
      if roots[0] in visited {
        SearchFinds(g, order, roots[1..], visited);
      } else {
        VisitOk(g, order, roots[0], visited, []);
        var r := Visit(order, roots[0], visited, []);
        if r.Finished? { SearchFinds(g, order, roots[1..], r.visited); }
      }
    }
  }

  lemma NothingVisited(g: Graph)
    ensures SearchOk(g, {}, [])
  {
    assert Left({}, []) == {};
  }

  // ---------- every simple closing path can be the one found ----------

  /** `order` leads the search along `p`. */
  ghost predicate Leads(order: Order, p: seq<Txn>) {
    forall i :: 0 <= i < |p| - 1 ==> Successors(order, p[i]) != [] && Successors(order, p[i])[0] == p[i + 1]
  }

  lemma FreshOn(p: seq<Txn>, i: nat)
    requires i < |p| - 1 && NoRepeats(p[..|p| - 1])
    ensures p[i] !in p[..i]
  {
    var q := p[..|p| - 1];
    assert q[i] == p[i] && forall k :: 0 <= k < i ==> p[..i][k] == q[k];
  }

  lemma {:induction false} FollowsPath(g: Graph, order: Order, p: seq<Txn>, i: nat, visited: set<Txn>)
    requires Leads(order, p) && i < |p| - 1 && NoRepeats(p[..|p| - 1]) && p[|p| - 1] in p[..|p| - 1]
    requires forall t :: t in visited <==> t in p[..i]
    requires forall k :: 0 <= k < |p| ==> p[k] in Nodes(order)
    ensures p[i] !in visited && Visit(order, p[i], visited, p[..i]) == Found(p)
    decreases |p| - i
  {
    hide Nodes;
    assert p[..i + 1] == p[..i] + [p[i]];
    assert Successors(order, p[i])[0] == p[i + 1];
    FreshOn(p, i);
    if i + 1 == |p| - 1 {
      assert p[..i + 1] == p[..|p| - 1] && p == p[..i + 1] + [p[i + 1]];
    } else {
      FreshOn(p, i + 1);
      FollowsPath(g, order, p, i + 1, visited + {p[i]});
    }
  }

  ghost function Listing(s: set<Txn>): (q: seq<Txn>)
    ensures Lists(q, s)
  {
    if s == {} then [] else
      var t :| t in s;
      [t] + Listing(s - {t})
  }

  /** A listing of `s` that begins with `t`. */
  ghost function ListingFrom(s: set<Txn>, t: Txn): (q: seq<Txn>)
    requires t in s
    ensures Lists(q, s) && q[0] == t
  {
    [t] + Listing(s - {t})
  }

  ghost function NextOn(p: seq<Txn>, t: Txn): (n: Txn)
    requires p != [] && t in p[..|p| - 1]
    ensures exists i :: 0 <= i < |p| - 1 && p[i] == t && n == p[i + 1]
  {
    var i :| 0 <= i < |p| - 1 && p[..|p| - 1][i] == t;
    p[i + 1]
  }

  ghost function OrderAlong(g: Graph, p: seq<Txn>): (order: Order)
    requires p != [] && IsPath(g, p)
  {
    map a | a in g :: if a in p[..|p| - 1] then NextIsEdge(g, p, a); ListingFrom(g[a], NextOn(p, a)) else Listing(g[a])
  }

  lemma NextIsEdge(g: Graph, p: seq<Txn>, a: Txn)
    requires p != [] && IsPath(g, p) && a in p[..|p| - 1]
    ensures Edge(g, a, NextOn(p, a))
  {
    var i :| 0 <= i < |p| - 1 && p[i] == a && NextOn(p, a) == p[i + 1];
    assert Edge(g, p[i], p[i + 1]);
  }

  lemma OrderAlongLeads(g: Graph, p: seq<Txn>)
    requires SimplyCloses(g, p)
    ensures var order := OrderAlong(g, p);
            Ordered(g, order) && Leads(order, p) && p[0] in g && forall k :: 0 <= k < |p| ==> p[k] in Nodes(order)
  {
    var order := OrderAlong(g, p);
    var q := p[..|p| - 1];
    forall i | 0 <= i < |p| - 1
      ensures p[i] in g && Successors(order, p[i]) != [] && Successors(order, p[i])[0] == p[i + 1]
    {
      assert Edge(g, p[i], p[i + 1]);
      assert q[i] == p[i];
      assert p[i] in q;
      var k :| 0 <= k < |p| - 1 && p[k] == p[i] && NextOn(p, p[i]) == p[k + 1];
      assert q[k] == q[i];
    }
    forall k | 0 <= k < |p|
      ensures p[k] in Nodes(order)
    {
      if k == |p| - 1 {
        assert Successors(order, p[k - 1])[0] == p[k - 1 + 1];
      }
    }
  }

  // ---------- the graph ----------

  /** Exactly the one edge more, unless a transaction would wait for itself. */
  function WithEdge(g: Graph, waiting: Txn, holding: Txn): (r: Graph)
    ensures forall a, b :: Edge(r, a, b) <==> Edge(g, a, b) || (a == waiting != holding == b)
    ensures (forall a :: a in g ==> g[a] != {}) ==> forall a :: a in r ==> r[a] != {}
  {
    if waiting == holding then g
    else g[waiting := (if waiting in g then g[waiting] else {}) + {holding}]
  }

  /** Exactly the one edge less; no node is left without edges. */
  function WithoutEdge(g: Graph, waiting: Txn, holding: Txn): (r: Graph)
    ensures forall a, b :: Edge(r, a, b) <==> Edge(g, a, b) && !(a == waiting && b == holding)
    ensures (forall a :: a in g ==> g[a] != {}) ==> forall a :: a in r ==> r[a] != {}
  {
    if waiting !in g then g
    else
      assert forall b :: b in g[waiting] && b != holding ==> b in g[waiting] - {holding};
      if g[waiting] - {holding} == {} then g - {waiting}
      else g[waiting := g[waiting] - {holding}]
  }

  /** All of a transaction's edges go, in both directions; nodes left without edges go too. */
  function WithoutTxn(g: Graph, t: Txn): (r: Graph)
    ensures forall a, b :: Edge(r, a, b) <==> Edge(g, a, b) && a != t && b != t
    ensures forall a :: a in r ==> r[a] != {}
  {
    assert forall a, b :: Edge(g, a, b) && b != t ==> b in g[a] - {t};
    map a | a in g && a != t && g[a] - {t} != {} :: g[a] - {t}
  }

  /** The graph without `t`, as far as the nodes in `done` have been seen to. */
  ghost function Pruned(g: Graph, t: Txn, done: set<Txn>): (r: Graph) {
    map a | a in g && a != t && (a in done ==> g[a] - {t} != {}) :: if a in done then g[a] - {t} else g[a]
  }

  lemma PruneOne(g: Graph, t: Txn, done: set<Txn>, a: Txn)
    requires a in g && a != t && a !in done
    ensures a in Pruned(g, t, done) && Pruned(g, t, done)[a] == g[a]
    ensures Pruned(g, t, done + {a})
            == if g[a] - {t} == {} then Pruned(g, t, done) - {a} else Pruned(g, t, done)[a := g[a] - {t}]
  {
  }

  lemma PruneEnds(g: Graph, t: Txn)
    ensures Pruned(g, t, {}) == g - {t}
    ensures Pruned(g, t, g.Keys - {t}) == WithoutTxn(g, t)
  {
  }

  /** The largest transaction id on the path: the youngest. */
  ghost predicate IsYoungest(path: seq<Txn>, t: Txn) {
    t in path && forall x :: x in path ==> x <= t
  }

  // ---------- possible answers ----------

  /** What detection may answer, over all orders in which the containers may yield their elements. */
  ghost predicate PossibleAnswer(g: Graph, victim: Option<Txn>) {
    exists roots, order ::
      Enumerates(g, roots, order) && AnswerOf(Search(order, roots, {}), victim)
  }

  ghost predicate AnswerOf(path: Option<seq<Txn>>, victim: Option<Txn>) {
    if path.None? then victim.None? else victim.Some? && IsYoungest(path.value, victim.value)
  }

  lemma FoundAnswer(g: Graph, order: Order, roots: seq<Txn>, path: seq<Txn>, v: Txn)
    requires Enumerates(g, roots, order) && Search(order, roots, {}) == Some(path)
    requires SimplyCloses(g, path) && IsYoungest(path, v)
    ensures PossibleAnswer(g, Some(v)) && ReachesCycle(g, v) && HasCycle(g)
  {
    hide Search, ReachesCycle, HasCycle, IsPath;
    var k :| 0 <= k < |path| && path[k] == v;
    PathReachesCycle(g, path, k);
    assert AnswerOf(Search(order, roots, {}), Some(v));
  }

  /** The possible victims are exactly the youngest nodes of the simple closing paths. */
  lemma AnswersExact(g: Graph, v: Txn)
    ensures PossibleAnswer(g, Some(v)) <==> exists p :: SimplyCloses(g, p) && IsYoungest(p, v)
  {
    if PossibleAnswer(g, Some(v)) {
      var roots, order :| Enumerates(g, roots, order) && AnswerOf(Search(order, roots, {}), Some(v));
      NothingVisited(g);
      SearchFinds(g, order, roots, {});
    }
    if p :| SimplyCloses(g, p) && IsYoungest(p, v) {
      PathIsAnswer(g, p, v);
    }
  }

  lemma PathIsAnswer(g: Graph, p: seq<Txn>, v: Txn)
    requires SimplyCloses(g, p) && IsYoungest(p, v)
    ensures PossibleAnswer(g, Some(v))
  {
    hide NoRepeats;
    OrderAlongLeads(g, p);
    var order, roots := OrderAlong(g, p), ListingFrom(g.Keys, p[0]);
    assert p[..0] == [];
    LastIsBack(g, p);
    FollowsPath(g, order, p, 0, {});
    assert Enumerates(g, roots, order);
    assert Search(order, roots, {}) == Some(p);
  }

  lemma LastIsBack(g: Graph, p: seq<Txn>)
    requires ClosesCycle(g, p)
    ensures |p| >= 2 && p[|p| - 1] in p[..|p| - 1]
  {
    var i :| 0 <= i < |p| - 1 && p[i] == p[|p| - 1];
    assert p[..|p| - 1][i] == p[|p| - 1];
  }

  /** Detection may answer that there is no deadlock exactly when there is none. */
  lemma NoVictimExact(g: Graph)
    ensures PossibleAnswer(g, None) <==> !HasCycle(g)
  {
    NothingVisited(g);
    if PossibleAnswer(g, None) {
      var roots, order :| Enumerates(g, roots, order) && AnswerOf(Search(order, roots, {}), None);
      SearchFinds(g, order, roots, {});
    }
    if !HasCycle(g) {
      var roots, order := Listing(g.Keys), map a | a in g :: Listing(g[a]);
      SearchFinds(g, order, roots, {});
      var r := Search(order, roots, {});
      if r.Some? { PathReachesCycle(g, r.value, 0); }
      assert Enumerates(g, roots, order) && AnswerOf(r, None);
    }
  }

  /** Every simple way from a transaction outside the deadlocks into one passes a younger transaction. */
  ghost predicate BystandersCovered(g: Graph) {
    forall p :: SimplyCloses(g, p) && !OnCycle(g, p[0]) ==> exists x :: x in p && x > p[0]
  }

  /** Whatever the iteration order, the victim is deadlocked: if and only if bystanders are covered. */
  lemma VictimDeadlockedExact(g: Graph)
    ensures (forall v :: PossibleAnswer(g, Some(v)) ==> OnCycle(g, v)) <==> BystandersCovered(g)
  {
    hide PossibleAnswer, OnCycle, IsPath;
    if forall v :: PossibleAnswer(g, Some(v)) ==> OnCycle(g, v) {
      forall p | SimplyCloses(g, p) && !OnCycle(g, p[0])
        ensures exists x :: x in p && x > p[0]
      {
        if forall x :: x in p ==> x <= p[0] {
          assert IsYoungest(p, p[0]);
          AnswersExact(g, p[0]);
          assert false;
        }
      }
    }
    if BystandersCovered(g) {
      forall v | PossibleAnswer(g, Some(v))
        ensures OnCycle(g, v)
      {
        AnswersExact(g, v);
        var p :| SimplyCloses(g, p) && IsYoungest(p, v);
        CoveredVictim(g, p, v);
      }
    }
  }

  /** From its youngest node on, a simple closing path is one again, unless that node is on its cycle. */
  lemma CoveredVictim(g: Graph, p: seq<Txn>, v: Txn)
    requires BystandersCovered(g) && SimplyCloses(g, p) && IsYoungest(p, v)
    ensures OnCycle(g, v)
  {
    var n := |p|;
    var k :| 0 <= k < n && p[k] == v;
    var i :| 0 <= i < n - 1 && p[i] == p[n - 1];
    if k >= i {
      RotatedCycle(g, p, i, k);
    } else {
      var q := p[k..];
      TailCloses(g, p, k, i);
      assert q[0] == v;
      assert forall x :: x in q ==> x in p;
    }
  }

  lemma TailCloses(g: Graph, p: seq<Txn>, k: nat, i: nat)
    requires SimplyCloses(g, p) && k <= i < |p| - 1 && p[i] == p[|p| - 1]
    ensures SimplyCloses(g, p[k..])
  {
    var q := p[k..];
    SubPath(g, p, k, |p|);
    assert q == p[k..|p|] && q[i - k] == q[|q| - 1];
    assert q[..|q| - 1] == p[..|p| - 1][k..];
  }

  /** Every node of a path's closing cycle is on a cycle. */
  lemma RotatedCycle(g: Graph, p: seq<Txn>, i: nat, k: nat)
    requires IsPath(g, p) && i <= k < |p| && i < |p| - 1 && p[i] == p[|p| - 1]
    ensures OnCycle(g, p[k])
  {
    var n := |p|;
    if k == n - 1 || k == i {
      SubPath(g, p, i, n);
      assert IsCycle(g, p[i..n]);
      assert p[i..n][0] == p[k];
    } else {
      var c := p[k..n] + p[i + 1..k + 1];
      forall j | 0 <= j < |c| - 1
        ensures Edge(g, c[j], c[j + 1])
      {
        if j < n - k - 1 { assert Edge(g, p[k + j], p[k + j + 1]); }
        else if j == n - k - 1 { assert Edge(g, p[i], p[i + 1]); }
        else { assert Edge(g, p[i + 1 + (j - (n - k))], p[i + 1 + (j - (n - k)) + 1]); }
      }
      assert IsCycle(g, c) && c[0] == p[k];
    }
  }

  /** When every transaction that reaches a deadlock is in one, the victim is deadlocked in every order. */
  lemma NoBystanders(g: Graph, v: Txn)
    requires (forall t :: ReachesCycle(g, t) ==> OnCycle(g, t)) && PossibleAnswer(g, Some(v))
    ensures OnCycle(g, v)
  {
    hide PossibleAnswer, OnCycle, ReachesCycle;
    AnswersExact(g, v);
    var p :| SimplyCloses(g, p) && IsYoungest(p, v);
    var k :| 0 <= k < |p| && p[k] == v;
    PathReachesCycle(g, p, k);
  }

  class Graphs {
    var edges: Graph

    constructor ()
      ensures edges == map[]
    {
      edges := map[];
    }

    method AddEdge(waiting: Txn, holding: Txn)
      modifies this
      ensures edges == WithEdge(old(edges), waiting, holding)
      ensures forall a, b :: Edge(edges, a, b) <==> Edge(old(edges), a, b) || (a == waiting != holding == b)
    {
      if waiting == holding { return; }
      var out := if waiting in edges then edges[waiting] else {};
      edges := edges[waiting := out + {holding}];
    }

    method RemoveEdge(waiting: Txn, holding: Txn)
      modifies this
      ensures edges == WithoutEdge(old(edges), waiting, holding)
      ensures forall a, b :: Edge(edges, a, b) <==> Edge(old(edges), a, b) && !(a == waiting && b == holding)
    {
      if waiting in edges {
        var out := edges[waiting] - {holding};
        edges := if out == {} then edges - {waiting} else edges[waiting := out];
      }
    }

    method RemoveTransaction(txn: Txn)
      modifies this
      ensures edges == WithoutTxn(old(edges), txn)
    {
      hide Pruned, WithoutTxn;
      PruneEnds(edges, txn);
      edges := edges - {txn};
      var todo := edges.Keys;
      ghost var done: set<Txn> := {};
      while todo != {}
        invariant todo !! done && todo + done == old(edges).Keys - {txn}
        invariant edges == Pruned(old(edges), txn, done)
        decreases |todo|
      {
        var a :| a in todo;
        PruneOne(old(edges), txn, done, a);
        var out := edges[a] - {txn};
        edges := if out == {} then edges - {a} else edges[a := out];
        todo, done := todo - {a}, done + {a};
      }
      assert done == old(edges).Keys - {txn};
    }

    /** An iteration order of the graph, whichever the hash containers happen to yield. */
    method Enumerate() returns (roots: seq<Txn>, order: Order)
      ensures Enumerates(edges, roots, order)
    {
      roots := ListSet(edges.Keys);
      order := map[];
      for i := 0 to |roots|
        invariant forall a :: a in order <==> a in roots[..i]
        invariant forall a :: a in order ==> a in edges && Lists(order[a], edges[a])
      {
        assert roots[i] in roots;
        var out := ListSet(edges[roots[i]]);
        order := order[roots[i] := out];
        assert roots[..i + 1] == roots[..i] + [roots[i]];
      }
      assert roots[..|roots|] == roots;
      assert order.Keys == edges.Keys;
    }

    /**
     * A victim is returned exactly when the graph has a cycle. It is one of the possible outcomes over all
     * iteration orders, the youngest transaction on the path found, and it can reach a cycle.
     */
    method DetectCycle() returns (victim: Option<Txn>)
      ensures victim.Some? <==> HasCycle(edges)
      ensures PossibleAnswer(edges, victim)
      ensures victim.Some? ==> ReachesCycle(edges, victim.value)
    {
      hide IsPath, Closed, Acyclic, SimplyCloses, Nodes, HasCycle, ReachesCycle;
      var roots, order := Enumerate();
      NothingVisited(edges);
      SearchFinds(edges, order, roots, {});
      var visited: set<Txn>, stack: set<Txn> := {}, {};
      var i := 0;
      assert roots[0..] == roots;
      while i < |roots|
        invariant 0 <= i <= |roots| && stack == {}
        invariant Search(order, roots, {}) == Search(order, roots[i..], visited)
      {
        var node := roots[i];
        assert roots[i..][1..] == roots[i + 1..];
        assert node in roots;
        if node !in visited {
          var found, path;
          found, visited, stack, path := DfsVisit(order, node, visited, stack, []);
          if found {
            var v := Youngest(path);
            FoundAnswer(edges, order, roots, path, v);
            return Some(v);
          }
        }
        i := i + 1;
      }
      assert AnswerOf(Search(order, roots, {}), None);
      return None;
    }
  }

  /** The recursive visit with its visited set, its stack and the path under construction. */
  method DfsVisit(order: Order, node: Txn, visited0: set<Txn>, stack0: set<Txn>, path0: seq<Txn>)
    returns (found: bool, visited: set<Txn>, stack: set<Txn>, path: seq<Txn>)
    requires node in Nodes(order) && node !in visited0 && stack0 <= visited0
    requires forall t :: t in stack0 <==> t in path0
    ensures var r := Visit(order, node, visited0, path0);
            if found then r == Found(path) && path != []
            else r == Finished(visited) && stack == stack0 && path == path0
    decreases Nodes(order) - visited0
  {
    hide Nodes;
    visited := visited0 + {node};
    stack := stack0 + {node};
    path := path0 + [node];
    var ns := Successors(order, node);
    var i := 0;
    assert ns[0..] == ns;
    while i < |ns|
      invariant 0 <= i <= |ns| && visited0 + {node} <= visited
      invariant stack == stack0 + {node} && path == path0 + [node]
      invariant Visit(order, node, visited0, path0) == Scan(order, ns[i..], visited, path)
    {
      var neighbor := ns[i];
      assert ns[i..][1..] == ns[i + 1..];
      if neighbor in stack {
        path := path + [neighbor];
        return true, visited, stack, path;
      }
      if neighbor !in visited {
        assert node in Nodes(order) - visited0;
        found, visited, stack, path := DfsVisit(order, neighbor, visited, stack, path);
        if found { return; }
      }
      i := i + 1;
    }
    stack := stack - {node};
    path := path[..|path| - 1];
    found := false;
  }

  method Youngest(path: seq<Txn>) returns (v: Txn)
    requires path != []
    ensures IsYoungest(path, v)
  {
    v := path[0];
    for i := 0 to |path|
      invariant v in path && forall k :: 0 <= k < i ==> path[k] <= v
    {
      if path[i] > v { v := path[i]; }
    }
  }

  /** Lists a set in whatever order it hands out its elements. */
  method ListSet(s: set<Txn>) returns (q: seq<Txn>)
    ensures Lists(q, s)
  {
    q := [];
    var left := s;
    while left != {}
      invariant left <= s && Lists(q, s - left)
      decreases left
    {
      var t :| t in left;
      q := q + [t];
      assert s - (left - {t}) == s - left + {t};
      left := left - {t};
    }
    assert s - left == s;
  }

  /** The victim need not be part of the deadlock: 3 only waits for one, and some order picks it. */
  lemma VictimMayBeABystander()
    ensures var g: Graph := map[3 := {1}, 1 := {2}, 2 := {1}];
            PossibleAnswer(g, Some(3)) && !OnCycle(g, 3)
  {
    hide OnCycle, PossibleAnswer;
    var g: Graph := map[3 := {1}, 1 := {2}, 2 := {1}];
    BystanderPath(g, [3, 1, 2, 1]);
    PathIsAnswer(g, [3, 1, 2, 1], 3);
    WaitedForByNone(g, 3);
  }

  lemma BystanderPath(g: Graph, path: seq<Txn>)
    requires path == [3, 1, 2, 1] && Edge(g, 3, 1) && Edge(g, 1, 2) && Edge(g, 2, 1)
    ensures SimplyCloses(g, path)
  {
    assert path[1] == path[|path| - 1];
    assert path[..|path| - 1] == [3, 1, 2];
  }

  lemma WaitedForByNone(g: Graph, t: Txn)
    requires forall a :: !Edge(g, a, t)
    ensures !OnCycle(g, t)
  {
    forall p | IsCycle(g, p) ensures p[0] != t { CycleEnds(g, p); }
  }
}
