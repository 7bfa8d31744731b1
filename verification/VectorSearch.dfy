/** The top-k search of the vector index. */
module VectorSearch {
  import opened VectorShape
  import opened VectorIndex

  // ---- the candidates

  /** A chain without one node. */
  function Minus<V>(s: Chain<V>, x: VectorNode?<V>): Chain<V> {
    if s == [] then [] else Minus(s[..|s| - 1], x) + (if s[|s| - 1] == x then [] else [s[|s| - 1]])
  }

  /** What the collection loop gathers: live nodes other than the descent's end, then that one. */
  function Winners<V>(live: Chain<V>, curr: VectorNode?<V>): Chain<V> {
    var rest := Minus(live, curr);
    var first := if |rest| > EF_SEARCH then rest[..EF_SEARCH] else rest;
    if curr != null && |first| < EF_SEARCH then first + [curr] else first
  }

  lemma {:induction false} MinusNone<V>(s: Chain<V>, x: VectorNode?<V>)
    requires forall i :: 0 <= i < |s| ==> s[i] != x
    ensures Minus(s, x) == s
  {
    if s != [] {
      MinusNone(s[..|s| - 1], x);
    }
  }

  lemma {:induction false} MinusHolds<V>(s: Chain<V>, x: VectorNode<V>)
    requires OneEach(s) && x in s
    ensures multiset(s) == multiset(Minus(s, x)) + multiset{x}
  {
    var init, last := s[..|s| - 1], s[|s| - 1];
    assert s == init + [last];
    if last == x {
      forall i | 0 <= i < |init| ensures init[i] != x {
        assert s[i].key != s[|init|].key;
      }
      MinusNone(init, x);
    } else {
      MinusHolds(init, x);
    }
  }

  /** With at most EF_SEARCH live nodes, every one is a candidate, wherever the descent ends. */
  lemma WinnersAll<V>(live: Chain<V>, curr: VectorNode?<V>)
    requires OneEach(live) && (curr != null ==> curr in live)
    ensures multiset(Winners(live, curr)) <= multiset(live) && |Winners(live, curr)| <= EF_SEARCH
    ensures |live| <= EF_SEARCH ==> multiset(Winners(live, curr)) == multiset(live)
  {
    var rest := Minus(live, curr);
    if curr == null {
      MinusNone(live, curr);
    } else {
      MinusHolds(live, curr);
    }
    assert |multiset(live)| == |live| && |multiset(rest)| == |rest|;
    if |rest| > EF_SEARCH {
      assert rest == rest[..EF_SEARCH] + rest[EF_SEARCH..];
    }
  }

  // ---- the order

  /** Ascending distances. */
  predicate Ascending(d: seq<real>) {
    forall i, j :: 0 <= i < j < |d| ==> d[i] <= d[j]
  }

  function Swapped<T>(s: seq<T>, i: nat, j: nat): seq<T>
    requires i < |s| && j < |s|
  {
    s[i := s[j]][j := s[i]]
  }

  lemma SwapHolds<T>(s: seq<T>, i: nat, j: nat)
    requires i < j < |s|
    ensures multiset(Swapped(s, i, j)) == multiset(s)
  {
  }

  /** The swap in the exchange sort, on both arrays at once. */
  method SwapAt<V>(w: array<VectorNode?<V>>, d: array<real>, n: nat, i: nat, j: nat)
    requires i < j < n <= w.Length && n <= d.Length
    modifies w, d
    ensures w[..n] == Swapped(old(w[..n]), i, j) && d[..n] == Swapped(old(d[..n]), i, j)
    ensures multiset(w[..n]) == multiset(old(w[..n]))
  {
    SwapHolds(w[..n], i, j);
    w[i], w[j] := w[j], w[i];
    d[i], d[j] := d[j], d[i];
    assert w[..n] == old(w[..n])[i := old(w[j])][j := old(w[i])];
  }

  /** Each distance is that of the node beside it. */
  ghost predicate Paired<V>(w: seq<VectorNode?<V>>, d: seq<real>, dist: V -> real) {
    |w| == |d| && forall k :: 0 <= k < |w| ==> w[k] != null && d[k] == dist(w[k].vector)
  }

  /** The first `i` distances are in order and none after them is smaller. */
  predicate Settled(d: seq<real>, i: nat) {
    i <= |d| && forall a, b :: 0 <= a < i && a < b < |d| ==> d[a] <= d[b]
  }

  /** The exchange sort of `search_hnsw`. */
  method Sort<V>(w: array<VectorNode?<V>>, d: array<real>, n: nat, ghost dist: V -> real)
    requires n <= w.Length && n <= d.Length && Paired(w[..n], d[..n], dist)
    modifies w, d
    ensures Paired(w[..n], d[..n], dist) && multiset(w[..n]) == multiset(old(w[..n])) && Ascending(d[..n])
  {
    var i := 0;
    while i < n - 1
      invariant 0 <= i <= n && (n > 0 ==> i <= n - 1)
      invariant Paired(w[..n], d[..n], dist) && multiset(w[..n]) == multiset(old(w[..n])) && Settled(d[..n], i)
    {
      Select(w, d, n, i, dist);
      i := i + 1;
    }
  }

  lemma SwapPaired<V>(w: seq<VectorNode?<V>>, d: seq<real>, i: nat, j: nat, dist: V -> real)
    requires Paired(w, d, dist) && i < |w| && j < |w|
    ensures Paired(Swapped(w, i, j), Swapped(d, i, j), dist)
  {
  }

  /** The distance at position `i` is the smallest from there up to `j`. */
  predicate Least(d: seq<real>, i: nat, j: nat) {
    i < j <= |d| && forall b :: i < b < j ==> d[i] <= d[b]
  }

  lemma SwapSettled(d: seq<real>, i: nat, j: nat)
    requires Settled(d, i) && Least(d, i, j) && j < |d| && d[j] < d[i]
    ensures Settled(Swapped(d, i, j), i) && Least(Swapped(d, i, j), i, j + 1)
  {
  }

  lemma LeastSettled(d: seq<real>, i: nat)
    requires Settled(d, i) && Least(d, i, |d|)
    ensures Settled(d, i + 1)
  {
  }

  /** Its inner loop puts the smallest remaining distance at position `i`. */
  method Select<V>(w: array<VectorNode?<V>>, d: array<real>, n: nat, i: nat, ghost dist: V -> real)
    requires i < n <= w.Length && n <= d.Length && Paired(w[..n], d[..n], dist) && Settled(d[..n], i)
    modifies w, d
    ensures Paired(w[..n], d[..n], dist) && multiset(w[..n]) == multiset(old(w[..n])) && Settled(d[..n], i + 1)
  {
    hide Paired, Settled;
    var j := i + 1;
    while j < n
      invariant i < j <= n
      invariant Paired(w[..n], d[..n], dist) && multiset(w[..n]) == multiset(old(w[..n])) && Settled(d[..n], i)
      invariant Least(d[..n], i, j)
    {
      if d[j] < d[i] {
        SwapPaired(w[..n], d[..n], i, j, dist);
        SwapSettled(d[..n], i, j);
        SwapAt(w, d, n, i, j);
      }
      j := j + 1;
    }
    LeastSettled(d[..n], i);
  }

  // ---- the descent

  /** One level of the greedy descent: it moves along the level while the next node is live and nearer. */
  method DescendLevel<V>(index: VectorIndex<V>, query: V, start: VectorNode<V>, l: nat) returns (curr: VectorNode<V>)
    requires index.Valid() && start in index.all && !start.deleted && l <= start.level
    ensures index.Links() == old(index.Links()) && index.Flags() == old(index.Flags()) && index.Filed()
    ensures curr in index.all && !curr.deleted && l < |curr.forward|
    ensures index.dist(query, curr.vector) <= index.dist(query, start.vector)
    ensures var next := curr.forward[l];
      next == null || next.deleted || index.dist(query, curr.vector) <= index.dist(query, next.vector)
  {
    curr := start;
    ghost var c, j := index.Position(curr, l);
    var best := index.dist(query, curr.vector);
    while curr.forward[l] != null
      invariant curr in index.all && !curr.deleted && j < |c| && curr == c[j]
      invariant l < |curr.forward| && curr.forward[l] == At(c, j + 1)
      invariant best == index.dist(query, curr.vector) <= index.dist(query, start.vector)
      decreases |c| - j
    {
      var next := curr.forward[l];
      var d := index.dist(query, next.vector);
      if next.deleted || d >= best {
        break;
      }
      best := d;
      curr, j := next, j + 1;
    }
  }

  /** The descent from the entry point down to level 1. */
  method Descend<V>(index: VectorIndex<V>, query: V) returns (curr: VectorNode?<V>)
    requires index.Valid() && index.size > 0
    ensures index.Links() == old(index.Links()) && index.Flags() == old(index.Flags()) && index.Filed()
    ensures curr != null ==> curr in index.Live()
  {
    curr := index.nodes[0];
    if curr.deleted {
      return null;
    }
    var level := index.maxLevel;
    while level > 0
      invariant 0 <= level && curr != null && curr in index.all && !curr.deleted
      invariant index.Links() == old(index.Links()) && index.Flags() == old(index.Flags()) && index.Filed()
    {
      if level <= curr.level {
        curr := DescendLevel(index, query, curr, level);
      }
      level := level - 1;
    }
    LivingHas(index.all, index.Flags(), curr);
  }

  // ---- the collection

  /** The candidates among the first `i` nodes. */
  function Gathered<V>(all: Chain<V>, f: Marks<V>, curr: VectorNode?<V>, i: nat): Chain<V>
    requires i <= |all|
  {
    Minus(Living(all[..i], f), curr)
  }

  lemma GatherStep<V>(all: Chain<V>, f: Marks<V>, curr: VectorNode?<V>, i: nat)
    requires i < |all|
    ensures Gathered(all, f, curr, i + 1)
      == Gathered(all, f, curr, i) + if Dead(f, all[i]) || all[i] == curr then [] else [all[i]]
  {
    assert all[..i + 1][..i] == all[..i];
    var s := Living(all[..i], f);
    if Dead(f, all[i]) {
      assert s + [] == s;
    } else {
      assert (s + [all[i]])[..|s|] == s;
    }
  }

  lemma GatherNone<V>(all: Chain<V>, f: Marks<V>, curr: VectorNode?<V>)
    ensures Gathered(all, f, curr, 0) == []
  {
  }

  lemma {:induction false} GatherPrefix<V>(all: Chain<V>, f: Marks<V>, curr: VectorNode?<V>, i: nat, j: nat)
    requires i <= j <= |all|
    ensures Gathered(all, f, curr, i) <= Gathered(all, f, curr, j)
    decreases j
  {
    if i < j {
      hide Gathered;
      GatherPrefix(all, f, curr, i, j - 1);
      GatherStep(all, f, curr, j - 1);
    }
  }

  lemma GatherDone<V>(all: Chain<V>, f: Marks<V>, curr: VectorNode?<V>, i: nat)
    requires i <= |all| && |Gathered(all, f, curr, i)| <= EF_SEARCH
    requires i == |all| || |Gathered(all, f, curr, i)| == EF_SEARCH
    ensures var rest := Minus(Living(all, f), curr);
      Gathered(all, f, curr, i) == if |rest| > EF_SEARCH then rest[..EF_SEARCH] else rest
  {
    assert all[..|all|] == all;
    GatherPrefix(all, f, curr, i, |all|);
  }

  /** The collection loop. */
  method Gather<V>(index: VectorIndex<V>, query: V, curr: VectorNode?<V>, w: array<VectorNode?<V>>, d: array<real>)
      returns (n: nat)
    requires index.Filed() && w.Length == d.Length == EF_SEARCH && w != index.nodes
    modifies w, d
    ensures index.Filed() && index.Flags() == old(index.Flags()) && n <= EF_SEARCH
    ensures var rest := Minus(index.Live(), curr);
      w[..n] == if |rest| > EF_SEARCH then rest[..EF_SEARCH] else rest
    ensures Paired(w[..n], d[..n], v => index.dist(query, v))
  {
    n := 0;
    var i := 0;
    ghost var f := index.Flags();
    assert Paired(w[..0], d[..0], v => index.dist(query, v));
    GatherNone(index.all, f, curr);
    hide Paired, Distinct, Gathered, Living, Minus;
    while i < index.size && n < EF_SEARCH
      invariant i <= index.size && n <= EF_SEARCH && index.Filed() && index.Flags() == f
      invariant w[..n] == Gathered(index.all, f, curr, i) && Paired(w[..n], d[..n], v => index.dist(query, v))
    {
      GatherStep(index.all, f, curr, i);
      var node := index.nodes[i];
      if !node.deleted && node != curr {
        Put(w, d, n, node, index.dist(query, node.vector), v => index.dist(query, v));
        n := n + 1;
      }
      i := i + 1;
    }
    GatherDone(index.all, f, curr, i);
  }

  method Put<V>(w: array<VectorNode?<V>>, d: array<real>, n: nat, node: VectorNode<V>, x: real, ghost dist: V -> real)
    requires n < w.Length == d.Length && x == dist(node.vector) && Paired(w[..n], d[..n], dist)
    modifies w, d
    ensures w[..n + 1] == old(w[..n]) + [node] && Paired(w[..n + 1], d[..n + 1], dist)
  {
    w[n], d[n] := node, x;
    assert d[..n + 1] == old(d[..n]) + [x] && w[..n + 1] == old(w[..n]) + [node];
  }

  // ---- the search

  /** The gathered nodes, then the one the descent ended on. */
  method Collect<V>(index: VectorIndex<V>, query: V, curr: VectorNode?<V>, w: array<VectorNode?<V>>, d: array<real>)
      returns (n: nat)
    requires index.Filed() && w.Length == d.Length == EF_SEARCH && w != index.nodes
    modifies w, d
    ensures index.Filed() && index.Flags() == old(index.Flags()) && n <= EF_SEARCH
    ensures w[..n] == Winners(index.Live(), curr) && Paired(w[..n], d[..n], v => index.dist(query, v))
  {
    n := Gather(index, query, curr, w, d);
    if curr != null && n < EF_SEARCH {
      Put(w, d, n, curr, index.dist(query, curr.vector), v => index.dist(query, v));
      n := n + 1;
    }
  }

  /** The candidates, nearest first. */
  method Rank<V>(index: VectorIndex<V>, query: V, curr: VectorNode?<V>, w: array<VectorNode?<V>>, d: array<real>)
      returns (n: nat)
    requires index.Filed() && w.Length == d.Length == EF_SEARCH && w != index.nodes
    modifies w, d
    ensures index.Flags() == old(index.Flags()) && n <= EF_SEARCH
    ensures Paired(w[..n], d[..n], v => index.dist(query, v)) && Ascending(d[..n])
    ensures multiset(w[..n]) == multiset(Winners(index.Live(), curr))
  {
    n := Collect(index, query, curr, w, d);
    Sort(w, d, n, v => index.dist(query, v));
  }

  /** The first `found` ids and distances. */
  method Report<V>(w: array<VectorNode?<V>>, d: array<real>, n: nat, found: int, ghost dist: V -> real)
      returns (ids: seq<nat>, dists: seq<real>)
    requires found <= n <= w.Length == d.Length && Paired(w[..n], d[..n], dist)
    ensures |ids| == |dists| == if found < 0 then 0 else found
    ensures forall i :: 0 <= i < |ids| ==> ids[i] == w[i].id && dists[i] == dist(w[i].vector)
  {
    ids, dists := [], [];
    var i := 0;
    while i < found
      invariant i == |ids| == |dists| && (found >= 0 ==> i <= found) && (found < 0 ==> i == 0)
      invariant forall j :: 0 <= j < i ==> w[j] != null && ids[j] == w[j].id && dists[j] == dist(w[j].vector)
    {
      assert w[..n][i] != null && d[..n][i] == dist(w[..n][i].vector);
      ids, dists := ids + [w[i].id], dists + [d[i]];
      i := i + 1;
    }
  }

  /** The listed nodes in ascending distance from a query. */
  ghost predicate Nearest<V>(order: seq<VectorNode?<V>>, dist: V -> real) {
    && (forall i :: 0 <= i < |order| ==> order[i] != null)
    && (forall i, j :: 0 <= i < j < |order| ==> dist(order[i].vector) <= dist(order[j].vector))
  }

  lemma NearestPaired<V>(w: seq<VectorNode?<V>>, d: seq<real>, dist: V -> real)
    requires Paired(w, d, dist) && Ascending(d)
    ensures Nearest(w, dist)
  {
    forall i, j | 0 <= i < j < |w| ensures dist(w[i].vector) <= dist(w[j].vector) {
      assert d[i] <= d[j];
    }
  }

  /** The candidates in the order of their distance. */
  method Line<V>(index: VectorIndex<V>, query: V, curr: VectorNode?<V>)
      returns (w: array<VectorNode?<V>>, d: array<real>, n: nat)
    requires index.Filed() && OneEach(index.Live()) && (curr != null ==> curr in index.Live())
    ensures n <= w.Length == d.Length && Paired(w[..n], d[..n], v => index.dist(query, v))
    ensures multiset(w[..n]) <= multiset(old(index.Live())) && Nearest(w[..n], v => index.dist(query, v))
    ensures |old(index.Live())| <= EF_SEARCH ==> multiset(w[..n]) == multiset(old(index.Live()))
  {
    WinnersAll(index.Live(), curr);
    hide OneEach, Winners, Paired, Nearest;
    w := new VectorNode?<V>[EF_SEARCH](_ => null);
    d := new real[EF_SEARCH](_ => 0.0);
    n := Rank(index, query, curr, w, d);
    NearestPaired(w[..n], d[..n], v => index.dist(query, v));
  }

  /** The part of `search_hnsw` behind the descent. */
  method Pick<V>(index: VectorIndex<V>, query: V, curr: VectorNode?<V>, k: int)
      returns (ids: seq<nat>, dists: seq<real>, found: int, ghost order: seq<VectorNode?<V>>)
    requires index.Filed() && OneEach(index.Live()) && (curr != null ==> curr in index.Live())
    ensures multiset(order) <= multiset(old(index.Live())) && Nearest(order, v => index.dist(query, v))
    ensures |old(index.Live())| <= EF_SEARCH ==> multiset(order) == multiset(old(index.Live()))
    ensures found == if |order| < k then |order| else k
    ensures |ids| == |dists| == if found < 0 then 0 else found
    ensures forall i :: 0 <= i < |ids| ==> ids[i] == order[i].id && dists[i] == index.dist(query, order[i].vector)
  {
    hide Paired, Nearest, OneEach;
    var w, d, n := Line(index, query, curr);
    order := w[..n];
    found := if n < k then n else k;
    ids, dists := Report(w, d, n, found, v => index.dist(query, v));
  }

  /** `search_hnsw`: the ids and distances of the `k` nearest candidates. `order` lists the candidates
      by distance; with at most EF_SEARCH live nodes these are exactly the live nodes. */
  method Search<V>(index: VectorIndex<V>, query: V, k: int)
      returns (ids: seq<nat>, dists: seq<real>, found: int, ghost order: seq<VectorNode?<V>>)
    requires index.Valid()
    ensures multiset(order) <= multiset(old(index.Live())) && Nearest(order, v => index.dist(query, v))
    ensures |old(index.Live())| <= 128 ==> multiset(order) == multiset(old(index.Live()))
    ensures found == if index.size == 0 then 0 else if |order| < k then |order| else k
    ensures |ids| == |dists| == if found < 0 then 0 else found
    ensures forall i :: 0 <= i < |ids| ==> ids[i] == order[i].id && dists[i] == index.dist(query, order[i].vector)
  {
    if index.size == 0 {
      return [], [], 0, [];
    }
    var curr := Descend(index, query);
    ids, dists, found, order := Pick(index, query, curr, k);
  }
}
