/** The breadth-first search that picks a migration chain. Nodes are marked visited when they are
    taken off the queue, so the queue can hold several candidate paths to one version. */
module MigrationSearch {
  import opened VersionOrder
  import opened SchemaMigration

  datatype Node = Node(version: int, path: seq<Migration>)

  // ------------------------------------------------- edges out of a version

  /** The migrations that start at `v`, in registry order. */
  function Edges(ms: seq<Migration>, v: int): seq<Migration> {
    if ms == [] then []
    else
      var m := ms[|ms| - 1];
      Edges(ms[..|ms| - 1], v) + if m.from == v then [m] else []
  }

  /** The nodes the search queues for `es`: one for each edge to an unvisited version. */
  function Kids(es: seq<Migration>, path: seq<Migration>, visited: set<int>): seq<Node> {
    if es == [] then []
    else
      var m := es[|es| - 1];
      Kids(es[..|es| - 1], path, visited) + if m.to in visited then [] else [Node(m.to, path + [m])]
  }

  /** How many migrations start at a version that has not been visited. */
  function Unexpanded(ms: seq<Migration>, visited: set<int>): nat {
    if ms == [] then 0
    else Unexpanded(ms[..|ms| - 1], visited) + if ms[|ms| - 1].from in visited then 0 else 1
  }

  lemma {:induction false} EdgesOf(ms: seq<Migration>, v: int)
    ensures forall m :: m in Edges(ms, v) <==> m in ms && m.from == v
  {
    if ms != [] {
      EdgesOf(ms[..|ms| - 1], v);
      assert ms == ms[..|ms| - 1] + [ms[|ms| - 1]];
    }
  }

  lemma {:induction false} EdgesSorted(ms: seq<Migration>, v: int)
    requires SortedByKey(ms)
    ensures forall i, j | 0 <= i < j < |Edges(ms, v)| :: Edges(ms, v)[i].to <= Edges(ms, v)[j].to
  {
    if ms != [] {
      var es := Edges(ms[..|ms| - 1], v);
      EdgesSorted(ms[..|ms| - 1], v);
      EdgesOf(ms[..|ms| - 1], v);
      forall i | 0 <= i < |es|
        ensures ms[|ms| - 1].from == v ==> es[i].to <= ms[|ms| - 1].to
      {
        assert es[i] in ms[..|ms| - 1];
      }
    }
  }

  /** A kid extends `path` by one of the edges. */
  ghost predicate IsKid(es: seq<Migration>, path: seq<Migration>, n: Node) {
    && |n.path| == |path| + 1
    && n.path[..|path|] == path
    && n.path[|path|] in es
    && n.version == n.path[|path|].to
  }

  lemma {:induction false} KidsCount(es: seq<Migration>, path: seq<Migration>, visited: set<int>)
    ensures |Kids(es, path, visited)| <= |es|
  {
    if es != [] {
      KidsCount(es[..|es| - 1], path, visited);
    }
  }

  lemma {:induction false} KidsCover(es: seq<Migration>, path: seq<Migration>, visited: set<int>)
    ensures forall m | m in es && m.to !in visited :: Node(m.to, path + [m]) in Kids(es, path, visited)
  {
    if es != [] {
      KidsCover(es[..|es| - 1], path, visited);
      assert es == es[..|es| - 1] + [es[|es| - 1]];
    }
  }

  lemma {:induction false} KidsExtend(es: seq<Migration>, path: seq<Migration>, visited: set<int>)
    ensures forall n | n in Kids(es, path, visited) :: IsKid(es, path, n)
  {
    if es != [] {
      var init, m := es[..|es| - 1], es[|es| - 1];
      KidsExtend(init, path, visited);
      assert es == init + [m];
      forall n | n in Kids(es, path, visited)
        ensures IsKid(es, path, n)
      {
        if n in Kids(init, path, visited) {
          assert IsKid(init, path, n);
        } else {
          assert n == Node(m.to, path + [m]);
        }
      }
    }
  }

  lemma {:induction false} KidsSorted(es: seq<Migration>, path: seq<Migration>, visited: set<int>)
    requires forall i, j | 0 <= i < j < |es| :: es[i].to <= es[j].to
    ensures PathsSorted(Kids(es, path, visited))
  {
    if es != [] {
      var init, m := es[..|es| - 1], es[|es| - 1];
      KidsSorted(init, path, visited);
      KidsExtend(init, path, visited);
      var kids := Kids(init, path, visited);
      forall i | 0 <= i < |kids|
        ensures ShortLex(Tos(kids[i].path), Tos(path + [m]))
      {
        assert kids[i] in kids && IsKid(init, path, kids[i]);
        TosSnoc(kids[i].path);
        TosSnoc(path + [m]);
        assert (path + [m])[..|path|] == path;
        ShortLexExtend(Tos(path), kids[i].version, Tos(path), m.to);
      }
    }
  }

  lemma {:induction false} ExpandShrinks(ms: seq<Migration>, visited: set<int>, v: int)
    requires v !in visited
    ensures Unexpanded(ms, visited + {v}) + |Edges(ms, v)| == Unexpanded(ms, visited)
  {
    if ms != [] {
      ExpandShrinks(ms[..|ms| - 1], visited, v);
    }
  }

  lemma {:induction false} UnexpandedBound(ms: seq<Migration>, visited: set<int>)
    ensures Unexpanded(ms, visited) <= |ms|
  {
    if ms != [] {
      UnexpandedBound(ms[..|ms| - 1], visited);
    }
  }

  lemma {:induction false} TosSnoc(p: seq<Migration>)
    requires p != []
    ensures Tos(p) == Tos(p[..|p| - 1]) + [p[|p| - 1].to]
  {
  }

  // -------------------------------------------------------- search invariant

  ghost predicate PathsSorted(queue: seq<Node>) {
    forall i, j | 0 <= i < j < |queue| :: ShortLex(Tos(queue[i].path), Tos(queue[j].path))
  }

  /** A queued path extends the best path of a visited version by one edge. */
  ghost predicate Extends(reg: set<Migration>, best: map<int, seq<Migration>>, n: Node) {
    && n.path != []
    && var m := n.path[|n.path| - 1];
    m in reg && m.from in best && m.to == n.version && n.path[..|n.path| - 1] == best[m.from]
  }

  /** `best` records, for each visited version, the path it was taken off the queue with. */
  ghost predicate Search(reg: set<Migration>, c: int, queue: seq<Node>, best: map<int, seq<Migration>>) {
    && (c !in best ==> best == map[] && queue == [Node(c, [])])
    && Planned(reg, c, best)
    && (c in best ==> Extending(reg, queue, best))
    && PathsSorted(queue)
    && Leading(queue, best)
    && Covering(reg, queue, best)
  }

  ghost predicate Planned(reg: set<Migration>, c: int, best: map<int, seq<Migration>>) {
    forall v | v in best :: IsPlan(reg, c, v, best[v])
  }

  ghost predicate Extending(reg: set<Migration>, queue: seq<Node>, best: map<int, seq<Migration>>) {
    forall n | n in queue :: Extends(reg, best, n)
  }

  /** No queued path comes before the best path of a visited version. */
  ghost predicate Leading(queue: seq<Node>, best: map<int, seq<Migration>>) {
    forall v, n | v in best && n in queue :: ShortLex(Tos(best[v]), Tos(n.path))
  }

  /** Every edge out of the visited versions is on the queue. */
  ghost predicate Covering(reg: set<Migration>, queue: seq<Node>, best: map<int, seq<Migration>>) {
    forall m | m in reg && m.from in best && m.to !in best :: Node(m.to, best[m.from] + [m]) in queue
  }

  lemma {:induction false} ChainSnoc(reg: set<Migration>, c: int, v: int, p: seq<Migration>, m: Migration)
    requires IsChain(reg, c, v, p) && m in reg && m.from == v
    ensures IsChain(reg, c, m.to, p + [m])
  {
    var q := p + [m];
    forall i | 0 <= i < |q|
      ensures q[i] in reg && q[i].from == At(c, q, i)
    {
      if i < |p| { assert q[i] == p[i]; }
    }
  }

  lemma {:induction false} QueuedIsChain(reg: set<Migration>, c: int, queue: seq<Node>, best: map<int, seq<Migration>>, n: Node)
    requires Search(reg, c, queue, best) && n in queue
    ensures IsChain(reg, c, n.version, n.path)
  {
    if c in best {
      var m := n.path[|n.path| - 1];
      ChainSnoc(reg, c, m.from, best[m.from], m);
      assert n.path == best[m.from] + [m];
    }
  }

  /** A chain that leaves the visited versions has a first step out of them. */
  lemma {:induction false} CrossingStep(reg: set<Migration>, c: int, v: int, q: seq<Migration>, best: map<int, seq<Migration>>)
    returns (i: nat)
    requires IsChain(reg, c, v, q) && c in best && v !in best
    ensures i < |q| && q[i].from in best && q[i].to !in best
  {
    i := 0;
    while q[i].to in best
      invariant i < |q| && q[i].from in best
      decreases |q| - i
    {
      assert q[i].to == At(c, q, i + 1);
      i := i + 1;
    }
  }

  /** The head of the queue, when it is not yet visited, is the best chain to its version. */
  lemma {:induction false} HeadIsPlan(reg: set<Migration>, c: int, queue: seq<Node>, best: map<int, seq<Migration>>)
    requires Search(reg, c, queue, best)
    requires queue != [] && queue[0].version !in best
    ensures IsPlan(reg, c, queue[0].version, queue[0].path)
    ensures Reachable(reg, c, queue[0].version)
    ensures c != queue[0].version ==> queue[0].path != []
  {
    var v, p := queue[0].version, queue[0].path;
    QueuedIsChain(reg, c, queue, best, queue[0]);
    forall q | IsChain(reg, c, v, q)
      ensures ShortLex(Tos(p), Tos(q))
    {
      if c in best {
        var i := CrossingStep(reg, c, v, q, best);
        BeatsCrossing(reg, c, queue, best, v, q, i);
      } else {
        assert Tos(p) == [];
      }
    }
  }

  lemma {:induction false} BeatsCrossing(reg: set<Migration>, c: int, queue: seq<Node>, best: map<int, seq<Migration>>,
                      v: int, q: seq<Migration>, i: nat)
    requires Search(reg, c, queue, best) && queue != []
    requires IsChain(reg, c, v, q)
    requires i < |q| && q[i].from in best && q[i].to !in best
    ensures ShortLex(Tos(queue[0].path), Tos(q))
  {
    var m := q[i];
    var via := best[m.from] + [m];
    HeadBeats(queue, Node(m.to, via));
    ChainPrefix(reg, c, v, q, i);
    assert At(c, q, i) == m.from;
    BestStepBeats(best[m.from], q, i);
    ShortLexOrder(Tos(queue[0].path), Tos(via), Tos(q));
  }

  lemma {:induction false} HeadBeats(queue: seq<Node>, n: Node)
    requires PathsSorted(queue) && n in queue
    ensures ShortLex(Tos(queue[0].path), Tos(n.path))
  {
    var k :| 0 <= k < |queue| && queue[k] == n;
  }

  lemma {:induction false} BestStepBeats(p: seq<Migration>, q: seq<Migration>, i: nat)
    requires i < |q| && ShortLex(Tos(p), Tos(q[..i]))
    ensures ShortLex(Tos(p + [q[i]]), Tos(q))
  {
    var x := q[i].to;
    TosSnoc(p + [q[i]]);
    assert (p + [q[i]])[..|p|] == p;
    TosSnoc(q[..i + 1]);
    assert q[..i + 1][..i] == q[..i];
    ShortLexExtend(Tos(p), x, Tos(q[..i]), x);
    if i + 1 == |q| {
      assert q[..i + 1] == q;
    } else {
      ShortLexOrder(Tos(p + [q[i]]), Tos(q[..i + 1]), Tos(q));
    }
  }

  /** With the queue empty and the target unvisited there is no chain to the target. */
  lemma {:induction false} ExhaustedMeansUnreachable(reg: set<Migration>, c: int, t: int, best: map<int, seq<Migration>>)
    requires Search(reg, c, [], best) && t !in best
    ensures !Reachable(reg, c, t)
  {
    forall q | IsChain(reg, c, t, q)
      ensures false
    {
      var i := CrossingStep(reg, c, t, q, best);
    }
  }

  lemma {:induction false} SkipKeepsSearch(reg: set<Migration>, c: int, queue: seq<Node>, best: map<int, seq<Migration>>)
    requires Search(reg, c, queue, best)
    requires queue != [] && queue[0].version in best
    ensures Search(reg, c, queue[1..], best)
  {
    assert forall n | n in queue[1..] :: n in queue;
    forall m | m in reg && m.from in best && m.to !in best
      ensures Node(m.to, best[m.from] + [m]) in queue[1..]
    {
      var k :| 0 <= k < |queue| && queue[k] == Node(m.to, best[m.from] + [m]);
      assert queue[1..][k - 1] == queue[k];
    }
  }

  lemma {:induction false} DifferentEnds(reg: set<Migration>, c: int, u: int, v: int, p: seq<Migration>, q: seq<Migration>)
    requires IsChain(reg, c, u, p) && IsChain(reg, c, v, q) && u != v
    ensures Tos(p) != Tos(q)
  {
    assert p != [] ==> Tos(p)[|p| - 1] == u;
    assert q != [] ==> Tos(q)[|q| - 1] == v;
  }

  /** Paths still queued come before the paths that expanding the head adds. */
  lemma {:induction false} QueuedBeforeKid(reg: set<Migration>, c: int, queue: seq<Node>, best: map<int, seq<Migration>>,
                        n: Node, kid: Node)
    requires Search(reg, c, queue, best)
    requires queue != [] && queue[0].version !in best && n in queue[1..]
    requires |kid.path| == |queue[0].path| + 1 && kid.path[..|queue[0].path|] == queue[0].path
    ensures ShortLex(Tos(n.path), Tos(kid.path))
  {
    assert n in queue && c in best;
    assert kid.path[..|kid.path| - 1] == queue[0].path;
    var m := n.path[|n.path| - 1];
    QueuedIsChain(reg, c, queue, best, queue[0]);
    DifferentEnds(reg, c, m.from, queue[0].version, best[m.from], queue[0].path);
    TosSnoc(n.path);
    TosSnoc(kid.path);
    ShortLexExtend(Tos(best[m.from]), m.to, Tos(queue[0].path), kid.path[|kid.path| - 1].to);
  }

  lemma {:induction false} QueuedBeforeKids(reg: set<Migration>, c: int, queue: seq<Node>, best: map<int, seq<Migration>>,
                         kids: seq<Node>)
    requires Search(reg, c, queue, best)
    requires queue != [] && queue[0].version !in best
    requires forall n | n in kids :: |n.path| == |queue[0].path| + 1 && n.path[..|queue[0].path|] == queue[0].path
    ensures forall m, n | m in queue[1..] && n in kids :: ShortLex(Tos(m.path), Tos(n.path))
  {
    forall m, n | m in queue[1..] && n in kids
      ensures ShortLex(Tos(m.path), Tos(n.path))
    {
      QueuedBeforeKid(reg, c, queue, best, m, n);
    }
  }

  lemma {:induction false} ConcatSorted(a: seq<Node>, b: seq<Node>)
    requires PathsSorted(a) && PathsSorted(b)
    requires forall m, n | m in a && n in b :: ShortLex(Tos(m.path), Tos(n.path))
    ensures PathsSorted(a + b)
  {
    forall i, j | 0 <= i < j < |a + b|
      ensures ShortLex(Tos((a + b)[i].path), Tos((a + b)[j].path))
    {
      if i < |a| <= j {
        assert a[i] in a && b[j - |a|] in b;
      }
    }
  }

  /** A queued node stays an extension of a best path when the head is visited. */
  lemma {:induction false} StaysExtending(reg: set<Migration>, best: map<int, seq<Migration>>, v: int, p: seq<Migration>, n: Node)
    requires Extends(reg, best, n) && v !in best
    ensures Extends(reg, best[v := p], n)
  {
  }

  lemma {:induction false} LeadsKid(best: map<int, seq<Migration>>, head: seq<Migration>, u: int, kid: Node)
    requires u in best && ShortLex(Tos(best[u]), Tos(head)) && |kid.path| == |head| + 1
    ensures ShortLex(Tos(best[u]), Tos(kid.path))
  {
    ShortLexOrder(Tos(best[u]), Tos(head), Tos(kid.path));
  }

  lemma {:induction false} ExpandKeepsLeading(queue: seq<Node>, best: map<int, seq<Migration>>, kids: seq<Node>)
    requires queue != [] && PathsSorted(queue) && Leading(queue, best)
    requires forall n | n in kids :: |n.path| == |queue[0].path| + 1
    ensures Leading(queue[1..] + kids, best[queue[0].version := queue[0].path])
  {
    var v, head := queue[0].version, queue[0].path;
    var queue', best' := queue[1..] + kids, best[v := head];
    assert queue[0] in queue;
    forall u, n | u in best' && n in queue'
      ensures ShortLex(Tos(best'[u]), Tos(n.path))
    {
      if n in queue[1..] {
        assert n in queue;
        HeadBeats(queue, n);
      } else {
        LeadsKid(best', head, u, n);
      }
    }
  }

  lemma {:induction false} ExpandKeepsCovering(reg: set<Migration>, queue: seq<Node>, best: map<int, seq<Migration>>, kids: seq<Node>)
    requires queue != [] && Covering(reg, queue, best)
    requires forall m | m in reg && m.from == queue[0].version && m.to !in best && m.to != queue[0].version ::
               Node(m.to, queue[0].path + [m]) in kids
    ensures Covering(reg, queue[1..] + kids, best[queue[0].version := queue[0].path])
  {
    var v, head := queue[0].version, queue[0].path;
    var queue', best' := queue[1..] + kids, best[v := head];
    forall m | m in reg && m.from in best' && m.to !in best'
      ensures Node(m.to, best'[m.from] + [m]) in queue'
    {
      if m.from != v {
        var n := Node(m.to, best[m.from] + [m]);
        var k :| 0 <= k < |queue| && queue[k] == n;
        assert queue[1..][k - 1] == n;
      }
    }
  }

  /** What the search queues when it expands `v` through `p`. */
  lemma {:induction false} ExpansionKids(reg: set<Migration>, ms: seq<Migration>, best: map<int, seq<Migration>>,
                      v: int, p: seq<Migration>, kids: seq<Node>)
    requires reg == AsSet(ms) && SortedByKey(ms)
    requires kids == Kids(Edges(ms, v), p, best.Keys + {v})
    ensures PathsSorted(kids)
    ensures forall n | n in kids :: |n.path| == |p| + 1 && n.path[..|p|] == p && Extends(reg, best[v := p], n)
    ensures forall m | m in reg && m.from == v && m.to !in best && m.to != v :: Node(m.to, p + [m]) in kids
  {
    EdgesOf(ms, v);
    EdgesSorted(ms, v);
    KidsCover(Edges(ms, v), p, best.Keys + {v});
    KidsExtend(Edges(ms, v), p, best.Keys + {v});
    forall n | n in kids
      ensures |n.path| == |p| + 1 && n.path[..|p|] == p && Extends(reg, best[v := p], n)
    {
      assert IsKid(Edges(ms, v), p, n);
    }
    KidsSorted(Edges(ms, v), p, best.Keys + {v});
  }

  lemma {:induction false} ExpandKeepsSorted(queue: seq<Node>, kids: seq<Node>)
    requires queue != [] && PathsSorted(queue) && PathsSorted(kids)
    requires forall m, n | m in queue[1..] && n in kids :: ShortLex(Tos(m.path), Tos(n.path))
    ensures PathsSorted(queue[1..] + kids)
  {
    assert PathsSorted(queue[1..]) by {
      assert forall i | 0 <= i < |queue| - 1 :: queue[1..][i] == queue[i + 1];
    }
    ConcatSorted(queue[1..], kids);
  }

  lemma {:induction false} ExpandKeepsExtending(reg: set<Migration>, queue: seq<Node>, best: map<int, seq<Migration>>,
                             kids: seq<Node>)
    requires queue != [] && queue[0].version !in best
    requires forall n | n in queue[1..] :: Extends(reg, best, n)
    requires forall n | n in kids :: Extends(reg, best[queue[0].version := queue[0].path], n)
    ensures Extending(reg, queue[1..] + kids, best[queue[0].version := queue[0].path])
  {
    forall n | n in queue[1..]
      ensures Extends(reg, best[queue[0].version := queue[0].path], n)
    {
      StaysExtending(reg, best, queue[0].version, queue[0].path, n);
    }
  }

  lemma {:induction false} ExpandKeepsPlanned(reg: set<Migration>, c: int, queue: seq<Node>, best: map<int, seq<Migration>>)
    requires Search(reg, c, queue, best)
    requires queue != [] && queue[0].version !in best
    ensures c in best[queue[0].version := queue[0].path]
    ensures Planned(reg, c, best[queue[0].version := queue[0].path])
  {
    HeadIsPlan(reg, c, queue, best);
  }

  lemma {:induction false} ExtendsOnceStarted(reg: set<Migration>, c: int, queue: seq<Node>, best: map<int, seq<Migration>>)
    requires Search(reg, c, queue, best) && queue != []
    ensures forall n | n in queue[1..] :: Extends(reg, best, n)
  {
    assert forall n | n in queue[1..] :: n in queue && c in best;
  }

  /** Visiting the head and queueing its kids keeps the invariant. */
  lemma {:induction false} ExpandKeepsSearch(reg: set<Migration>, ms: seq<Migration>, c: int, queue: seq<Node>,
                          best: map<int, seq<Migration>>, v: int, p: seq<Migration>, kids: seq<Node>)
    requires Search(reg, c, queue, best)
    requires reg == AsSet(ms) && SortedByKey(ms)
    requires queue != [] && queue[0] == Node(v, p) && v !in best
    requires kids == Kids(Edges(ms, v), p, best.Keys + {v})
    ensures Search(reg, c, queue[1..] + kids, best[v := p])
  {
    ExpansionKids(reg, ms, best, v, p, kids);
    ExpandKeepsPlanned(reg, c, queue, best);
    ExtendsOnceStarted(reg, c, queue, best);
    ExpandKeepsExtending(reg, queue, best, kids);
    QueuedBeforeKids(reg, c, queue, best, kids);
    ExpandKeepsSorted(queue, kids);
    ExpandKeepsLeading(queue, best, kids);
    ExpandKeepsCovering(reg, queue, best, kids);
  }

  // ------------------------------------------------------------- the search

  function TargetsIn(adj: map<int, seq<int>>, v: int): seq<int> {
    if v in adj then adj[v] else []
  }

  /** Adding a migration to the list of its start version keeps the lists right for every version. */
  lemma {:induction false} AdjacencyStep(ms: seq<Migration>, i: nat, adj: map<int, seq<int>>, v: int)
    requires i < |ms| && TargetsIn(adj, v) == Tos(Edges(ms[..i], v))
    ensures var m := ms[i];
            TargetsIn(adj[m.from := TargetsIn(adj, m.from) + [m.to]], v) == Tos(Edges(ms[..i + 1], v))
  {
    assert ms[..i + 1][..i] == ms[..i];
  }

  /** The adjacency lists: the targets of each version's edges, in registry order. */
  method BuildAdjacency(ms: seq<Migration>) returns (adj: map<int, seq<int>>)
    ensures forall v :: TargetsIn(adj, v) == Tos(Edges(ms, v))
  {
    adj := map[];
    for i := 0 to |ms|
      invariant forall v :: TargetsIn(adj, v) == Tos(Edges(ms[..i], v))
    {
      ghost var before := adj;
      adj := adj[ms[i].from := TargetsIn(adj, ms[i].from) + [ms[i].to]];
      forall v
        ensures TargetsIn(adj, v) == Tos(Edges(ms[..i + 1], v))
      {
        AdjacencyStep(ms, i, before, v);
      }
    }
    assert ms[..|ms|] == ms;
  }

  /** The first migration from `from` to `to`. */
  method FindEdge(ms: seq<Migration>, from: int, to: int) returns (m: Migration)
    requires KeysUnique(AsSet(ms))
    requires exists e :: e in ms && e.from == from && e.to == to
    ensures m in ms && m.from == from && m.to == to
    ensures forall e | e in ms && e.from == from && e.to == to :: e == m
  {
    var i := 0;
    while ms[i].from != from || ms[i].to != to
      invariant 0 <= i < |ms|
      invariant exists e :: e in ms[i..] && e.from == from && e.to == to
      decreases |ms| - i
    {
      assert ms[i..] == [ms[i]] + ms[i + 1..];
      i := i + 1;
    }
    m := ms[i];
    assert forall e | e in ms :: e in AsSet(ms);
  }

  /** Queues a node for every unvisited target of `curr`. */
  method Expand(ms: seq<Migration>, targets: seq<int>, curr: Node, visited: set<int>, queue: seq<Node>)
    returns (queue': seq<Node>)
    requires KeysUnique(AsSet(ms))
    requires targets == Tos(Edges(ms, curr.version))
    ensures queue' == queue + Kids(Edges(ms, curr.version), curr.path, visited)
  {
    ghost var es := Edges(ms, curr.version);
    EdgesOf(ms, curr.version);
    queue' := queue;
    for j := 0 to |targets|
      invariant queue' == queue + Kids(es[..j], curr.path, visited)
    {
      assert es[j] in es && es[..j + 1][..j] == es[..j];
      if targets[j] !in visited {
        var m := FindEdge(ms, curr.version, targets[j]);
        assert m == es[j];
        queue' := queue' + [Node(targets[j], curr.path + [m])];
      }
    }
    assert es[..|es|] == es;
  }

  lemma {:induction false} VisitShrinks(ms: seq<Migration>, v: int, path: seq<Migration>, visited: set<int>,
                     best: map<int, seq<Migration>>)
    requires v !in visited && visited == best.Keys
    ensures visited + {v} == best[v := path].Keys
    ensures |Kids(Edges(ms, v), path, visited + {v})| + Unexpanded(ms, visited + {v}) <= Unexpanded(ms, visited)
  {
    ExpandShrinks(ms, visited, v);
    KidsCount(Edges(ms, v), path, visited + {v});
  }

  lemma {:induction false} StartsSearch(reg: set<Migration>, c: int)
    ensures Search(reg, c, [Node(c, [])], map[])
  {
  }

  /** The search. An empty result stands for the nil path. */
  method FindPath(ms: seq<Migration>, current: int, target: int)
    returns (found: seq<Migration>, ghost dequeues: nat)
    requires KeysUnique(AsSet(ms)) && SortedByKey(ms)
    requires current != target
    ensures found == [] <==> !Reachable(AsSet(ms), current, target)
    ensures found != [] ==> IsPlan(AsSet(ms), current, target, found)
    ensures dequeues <= |ms| + 1
  {
    var adj := BuildAdjacency(ms);
    var queue := [Node(current, [])];
    var visited: set<int> := {};
    found, dequeues := [], 0;
    ghost var reg := AsSet(ms);
    ghost var best: map<int, seq<Migration>> := map[];
    UnexpandedBound(ms, visited);
    StartsSearch(reg, current);
    while queue != []
      invariant visited == best.Keys && target !in best
      invariant Search(reg, current, queue, best)
      invariant found == []
      invariant dequeues + |queue| + Unexpanded(ms, visited) <= |ms| + 1
      decreases |ms| + 1 - dequeues
    {
      var curr := queue[0];
      dequeues := dequeues + 1;
      if curr.version == target {
        HeadIsPlan(reg, current, queue, best);
        found := curr.path;
        break;
      }
      if curr.version in visited {
        SkipKeepsSearch(reg, current, queue, best);
        queue := queue[1..];
        continue;
      }
      ExpandKeepsSearch(reg, ms, current, queue, best, curr.version, curr.path,
                        Kids(Edges(ms, curr.version), curr.path, visited + {curr.version}));
      VisitShrinks(ms, curr.version, curr.path, visited, best);
      visited, best := visited + {curr.version}, best[curr.version := curr.path];
      queue := Expand(ms, TargetsIn(adj, curr.version), curr, visited, queue[1..]);
    }
    if found == [] {
      ExhaustedMeansUnreachable(reg, current, target, best);
    }
  }
}
