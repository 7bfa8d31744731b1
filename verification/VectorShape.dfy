/** The vector index's nodes and the chains their forward links form, one per level. */
module VectorShape {
  import opened Strings

  class VectorNode<V> {
    const id: nat
    const level: nat
    const vector: V
    const key: Str
    var deleted: bool
    var forward: seq<VectorNode?<V>>

    /** `hnsw_create_node` */
    constructor (id: nat, vector: V, level: nat, key: Str)
      ensures this.id == id && this.vector == vector && this.level == level && this.key == key && !deleted
      ensures forward == seq(level + 1, _ => null)
    {
      this.id, this.vector, this.level, this.key, deleted := id, vector, level, key, false;
      forward := seq(level + 1, _ => null);
    }
  }

  type Chain<V> = seq<VectorNode<V>>
  type Links<V> = map<VectorNode<V>, seq<VectorNode?<V>>>

  function At<V>(c: Chain<V>, j: nat): VectorNode?<V> {
    if j < |c| then c[j] else null
  }

  predicate Apart<V>(c: Chain<V>, i: nat, j: nat)
    requires i < |c| && j < |c|
  {
    c[i] != c[j]
  }

  ghost predicate Distinct<V>(c: Chain<V>) {
    forall i, j :: 0 <= i < j < |c| ==> Apart(c, i, j)
  }

  /** The links of level `l`, followed from the chain's head, visit each node of `s` exactly once and end. */
  ghost predicate Threads<V>(c: Chain<V>, s: set<VectorNode<V>>, l: nat, m: Links<V>) {
    && c != [] && Distinct(c) && (forall x :: x in c ==> x in s) && (forall x :: x in s ==> x in c)
    && (forall j {:trigger m[c[j]]} {:trigger c[j] in m} :: 0 <= j < |c| ==>
      c[j] in m && l < |m[c[j]]| && m[c[j]][l] == At(c, j + 1))
  }

  function Inserted<V>(c: Chain<V>, p: nat, n: VectorNode<V>): Chain<V>
    requires p <= |c|
  {
    c[..p] + [n] + c[p..]
  }

  /** Level `l` after `n` has been linked in behind `prev`. */
  ghost predicate Spliced<V>(m: Links<V>, prev: VectorNode<V>, n: VectorNode<V>, l: nat, m': Links<V>) {
    && prev != n && prev in m && n in m && m'.Keys == m.Keys && l < |m[prev]| && l < |m[n]|
    && m'[n] == m[n][l := m[prev][l]] && m'[prev] == m[prev][l := n]
    && forall x :: x in m && x != prev && x != n ==> m'[x] == m[x]
  }

  lemma InsertedAt<V>(c: Chain<V>, p: nat, n: VectorNode<V>, j: nat)
    requires 0 < p <= |c| && j <= |c|
    ensures var c' := Inserted(c, p, n);
      c'[j] == (if j < p then c[j] else if j == p then n else c[j - 1])
      && At(c', j + 1) == if j + 1 < p then At(c, j + 1) else if j + 1 == p then n else At(c, j)
  {
  }

  lemma InsertDistinct<V>(c: Chain<V>, p: nat, n: VectorNode<V>)
    requires 0 < p <= |c| && Distinct(c) && n !in c
    ensures Distinct(Inserted(c, p, n)) && forall x :: x in Inserted(c, p, n) <==> x in c || x == n
  {
    var c' := Inserted(c, p, n);
    forall i, j | 0 <= i < j < |c'| ensures Apart(c', i, j) {
      InsertedAt(c, p, n, i);
      InsertedAt(c, p, n, j);
      if i != p && j != p {
        assert Apart(c, if i < p then i else i - 1, if j < p then j else j - 1);
      }
    }
    assert c == c[..p] + c[p..];
  }

  /** Linking a node in behind a chain's position makes it one more node of the chain. */
  lemma SpliceThreads<V>(c: Chain<V>, s: set<VectorNode<V>>, l: nat, m: Links<V>, p: nat, n: VectorNode<V>,
      m': Links<V>)
    requires Threads(c, s, l, m) && p < |c| && n !in s && Spliced(m, c[p], n, l, m')
    ensures Threads(Inserted(c, p + 1, n), s + {n}, l, m')
  {
    var c' := Inserted(c, p + 1, n);
    InsertDistinct(c, p + 1, n);
    assert c[p] in m && m[c[p]][l] == At(c, p + 1);
    forall j | 0 <= j < |c'|
      ensures c'[j] in m' && l < |m'[c'[j]]| && m'[c'[j]][l] == At(c', j + 1)
    {
      InsertedAt(c, p + 1, n, j);
      if j != p + 1 {
        var i := if j <= p then j else j - 1;
        assert c[i] in m && m[c[i]][l] == At(c, i + 1);
        assert i != p ==> if i < p then Apart(c, i, p) else Apart(c, p, i);
        assert c[i] in s;
      }
    }
  }

  /** The other levels do not notice. */
  lemma SpliceKeeps<V>(c: Chain<V>, s: set<VectorNode<V>>, k: nat, m: Links<V>, prev: VectorNode<V>, n: VectorNode<V>,
      l: nat, m': Links<V>)
    requires Threads(c, s, k, m) && k != l && Spliced(m, prev, n, l, m')
    ensures Threads(c, s, k, m')
  {
    forall j | 0 <= j < |c| ensures c[j] in m' && k < |m'[c[j]]| && m'[c[j]][k] == At(c, j + 1) {
      assert c[j] in m && m[c[j]][k] == At(c, j + 1);
    }
  }

  /** The nodes that reach a level. */
  ghost function Reaching<V>(all: Chain<V>, l: nat): set<VectorNode<V>> {
    set x | x in all && x.level >= l
  }

  /** The nodes linked on a level while `n` has been linked on the levels from `from` up only. */
  ghost function Linked<V>(all: Chain<V>, n: VectorNode<V>, from: nat, l: nat): set<VectorNode<V>> {
    Reaching(all, l) - if l < from then {n} else {}
  }

  /** Every level up to that of the first node is one chain from that node. */
  ghost predicate Woven<V>(all: Chain<V>, chains: seq<Chain<V>>, n: VectorNode<V>, from: nat, m: Links<V>) {
    && all != [] && |chains| == all[0].level + 1 && Roomy(all, |chains|, m)
    && forall l :: 0 <= l < |chains| ==>
      chains[l] != [] && chains[l][0] == all[0] && Threads(chains[l], Linked(all, n, from, l), l, m)
  }

  /** Every node has a link per level of its own, unused from level `top` on. */
  ghost predicate Roomy<V>(all: Chain<V>, top: nat, m: Links<V>) {
    && (forall x :: x in all ==> x in m && |m[x]| == x.level + 1)
    && (forall x, l {:trigger m[x][l]} :: x in all && top <= l < |m[x]| ==> m[x][l] == null)
  }

  lemma WovenStep<V>(all: Chain<V>, chains: seq<Chain<V>>, n: VectorNode<V>, l: nat, m: Links<V>, p: nat, m': Links<V>)
    requires Woven(all, chains, n, l + 1, m) && l < |chains| && n in all && l <= n.level
    requires p < |chains[l]| && Spliced(m, chains[l][p], n, l, m')
    ensures Woven(all, chains[l := Inserted(chains[l], p + 1, n)], n, l, m')
  {
    var chains' := chains[l := Inserted(chains[l], p + 1, n)];
    forall k | 0 <= k < |chains'|
      ensures chains'[k] != [] && chains'[k][0] == all[0] && Threads(chains'[k], Linked(all, n, l, k), k, m')
    {
      if k == l {
        SpliceThreads(chains[l], Linked(all, n, l + 1, l), l, m, p, n, m');
        assert Linked(all, n, l + 1, l) + {n} == Linked(all, n, l, l);
      } else {
        assert Linked(all, n, l + 1, k) == Linked(all, n, l, k);
        SpliceKeeps(chains[k], Linked(all, n, l, k), k, m, chains[l][p], n, l, m');
      }
    }
  }

  /** A level the new node does not reach, or the first node does not, is left alone. */
  lemma WovenSkip<V>(all: Chain<V>, chains: seq<Chain<V>>, n: VectorNode<V>, l: nat, m: Links<V>)
    requires Woven(all, chains, n, l + 1, m) && (l >= |chains| || l > n.level)
    ensures Woven(all, chains, n, l, m)
  {
    forall k | 0 <= k < |chains| ensures Linked(all, n, l + 1, k) == Linked(all, n, l, k) {
    }
  }

  /** Before the first level, a new node is in no chain. */
  lemma WovenNew<V>(all: Chain<V>, chains: seq<Chain<V>>, any: VectorNode<V>, n: VectorNode<V>, from: nat,
      m: Links<V>, m': Links<V>)
    requires Woven(all, chains, any, 0, m) && n !in all && from >= |chains|
    requires n in m' && m'[n] == seq(n.level + 1, _ => null) && forall x :: x in all ==> x in m' && m'[x] == m[x]
    ensures Woven(all + [n], chains, n, from, m')
  {
    forall l | 0 <= l < |chains|
      ensures Threads(chains[l], Linked(all + [n], n, from, l), l, m')
    {
      assert Linked(all + [n], n, from, l) == Linked(all, any, 0, l);
      var c := chains[l];
      forall j | 0 <= j < |c| ensures c[j] in m' && l < |m'[c[j]]| && m'[c[j]][l] == At(c, j + 1) {
        assert c[j] in Linked(all, any, 0, l);
        assert c[j] in m && m[c[j]][l] == At(c, j + 1);
      }
    }
  }

  lemma WovenFirst<V>(n: VectorNode<V>, m: Links<V>)
    requires n in m && m[n] == seq(n.level + 1, _ => null)
    ensures Woven([n], seq(n.level + 1, _ => [n]), n, 0, m)
  {
    forall l | 0 <= l <= n.level ensures Threads([n], Linked([n], n, 0, l), l, m) {
      assert Linked([n], n, 0, l) == {n};
    }
  }

  lemma WovenAny<V>(all: Chain<V>, chains: seq<Chain<V>>, n: VectorNode<V>, x: VectorNode<V>, m: Links<V>)
    requires Woven(all, chains, n, 0, m)
    ensures Woven(all, chains, x, 0, m)
  {
    forall l | 0 <= l < |chains| ensures Linked(all, n, 0, l) == Linked(all, x, 0, l) {
    }
  }

  lemma AppendDistinct<V>(all: Chain<V>, n: VectorNode<V>)
    requires Distinct(all) && n !in all
    ensures Distinct(all + [n])
  {
    forall i, j | 0 <= i < j < |all + [n]| ensures Apart(all + [n], i, j) {
      assert j < |all| ==> Apart(all, i, j);
    }
  }

  // ---- deletion marks

  type Marks<V> = map<VectorNode<V>, bool>

  predicate Dead<V>(f: Marks<V>, x: VectorNode<V>) {
    x in f && f[x]
  }

  function One<V>(f: Marks<V>, x: VectorNode<V>): Chain<V> {
    if Dead(f, x) then [] else [x]
  }

  /** The nodes not marked as deleted, in insertion order. */
  function Living<V>(all: Chain<V>, f: Marks<V>): Chain<V> {
    if all == [] then [] else Living(all[..|all| - 1], f) + One(f, all[|all| - 1])
  }

  function Unless<V>(x: VectorNode<V>, key: Str): Chain<V> {
    if x.key == key then [] else [x]
  }

  /** The nodes with another key. */
  function Dropped<V>(s: Chain<V>, key: Str): Chain<V> {
    if s == [] then [] else Dropped(s[..|s| - 1], key) + Unless(s[|s| - 1], key)
  }

  ghost predicate OneEach<V>(s: Chain<V>) {
    forall i, j :: 0 <= i < j < |s| ==> s[i].key != s[j].key
  }

  lemma {:induction false} LivingHas<V>(all: Chain<V>, f: Marks<V>, x: VectorNode<V>)
    ensures x in Living(all, f) <==> x in all && !Dead(f, x)
  {
    if all != [] {
      LivingHas(all[..|all| - 1], f, x);
    }
  }

  lemma {:induction false} LivingFrame<V>(all: Chain<V>, f: Marks<V>, f': Marks<V>)
    requires forall i :: 0 <= i < |all| ==> (Dead(f, all[i]) <==> Dead(f', all[i]))
    ensures Living(all, f') == Living(all, f)
  {
    if all != [] {
      LivingFrame(all[..|all| - 1], f, f');
    }
  }

  lemma LivingAppend<V>(all: Chain<V>, n: VectorNode<V>, f: Marks<V>)
    ensures Living(all + [n], f) == Living(all, f) + One(f, n)
  {
    assert (all + [n])[..|all|] == all;
  }

  lemma {:induction false} LivingConcat<V>(a: Chain<V>, b: Chain<V>, f: Marks<V>)
    ensures Living(a + b, f) == Living(a, f) + Living(b, f)
  {
    if b == [] {
      assert a + b == a;
    } else {
      assert (a + b)[..|a + b| - 1] == a + b[..|b| - 1];
      LivingConcat(a, b[..|b| - 1], f);
    }
  }

  lemma {:induction false} DroppedConcat<V>(a: Chain<V>, b: Chain<V>, key: Str)
    ensures Dropped(a + b, key) == Dropped(a, key) + Dropped(b, key)
  {
    if b == [] {
      assert a + b == a;
    } else {
      assert (a + b)[..|a + b| - 1] == a + b[..|b| - 1];
      DroppedConcat(a, b[..|b| - 1], key);
    }
  }

  lemma {:induction false} DroppedNone<V>(s: Chain<V>, key: Str)
    requires forall i :: 0 <= i < |s| ==> s[i].key != key
    ensures Dropped(s, key) == s
  {
    if s != [] {
      DroppedNone(s[..|s| - 1], key);
    }
  }

  lemma {:induction false} DroppedOneEach<V>(s: Chain<V>, key: Str)
    requires OneEach(s)
    ensures OneEach(Dropped(s, key)) && |Dropped(s, key)| <= |s|
    ensures forall i :: 0 <= i < |Dropped(s, key)| ==> Dropped(s, key)[i] in s && Dropped(s, key)[i].key != key
  {
    if s != [] {
      DroppedOneEach(s[..|s| - 1], key);
    }
  }

  lemma LivingSplit<V>(a: Chain<V>, x: VectorNode<V>, b: Chain<V>, f: Marks<V>)
    ensures Living(a + [x] + b, f) == Living(a, f) + One(f, x) + Living(b, f)
  {
    LivingConcat(a + [x], b, f);
    LivingAppend(a, x, f);
  }

  lemma OthersDiffer<V>(a: Chain<V>, x: VectorNode<V>, b: Chain<V>)
    requires OneEach(a + [x] + b)
    ensures (forall i :: 0 <= i < |a| ==> a[i].key != x.key) && (forall i :: 0 <= i < |b| ==> b[i].key != x.key)
  {
    var s := a + [x] + b;
    assert s[|a|] == x;
    forall i | 0 <= i < |a| ensures a[i].key != x.key {
      assert s[i] == a[i];
    }
    forall i | 0 <= i < |b| ensures b[i].key != x.key {
      assert s[|a| + 1 + i] == b[i];
    }
  }

  /** In a list with one node per key, dropping a key takes out one node. */
  lemma DropOne<V>(a: Chain<V>, x: VectorNode<V>, b: Chain<V>)
    requires OneEach(a + [x] + b)
    ensures Dropped(a + [x] + b, x.key) == a + b
  {
    OthersDiffer(a, x, b);
    DroppedNone(a, x.key);
    DroppedNone(b, x.key);
    DroppedConcat(a + [x], b, x.key);
    assert Dropped(a + [x], x.key) == a by {
      assert (a + [x])[..|a|] == a;
    }
  }

  /** With one live node per key, marking it drops its key. */
  lemma LivingMark<V>(a: Chain<V>, x: VectorNode<V>, b: Chain<V>, f: Marks<V>)
    requires !Dead(f, x) && x !in a && x !in b && OneEach(Living(a + [x] + b, f))
    ensures Living(a + [x] + b, f[x := true]) == Dropped(Living(a + [x] + b, f), x.key)
    ensures |Living(a + [x] + b, f[x := true])| == |Living(a + [x] + b, f)| - 1
  {
    var f', la, lb := f[x := true], Living(a, f), Living(b, f);
    LivingFrame(a, f, f');
    LivingFrame(b, f, f');
    LivingSplit(a, x, b, f);
    LivingSplit(a, x, b, f');
    assert la + [] + lb == la + lb;
    DropOne(la, x, lb);
  }

  /** The same for the node at a position of the insertion order. */
  lemma LivingMarkAt<V>(all: Chain<V>, i: nat, f: Marks<V>)
    requires i < |all| && Distinct(all) && !Dead(f, all[i]) && OneEach(Living(all, f))
    ensures Living(all, f[all[i] := true]) == Dropped(Living(all, f), all[i].key)
    ensures |Living(all, f[all[i] := true])| == |Living(all, f)| - 1
  {
    var a, x, b := all[..i], all[i], all[i + 1..];
    forall j | 0 <= j < |a| ensures a[j] != x {
      assert Apart(all, j, i);
    }
    forall j | 0 <= j < |b| ensures b[j] != x {
      assert Apart(all, i, i + 1 + j);
    }
    assert all == a + [x] + b;
    LivingMark(a, x, b, f);
  }

  lemma {:induction false} LivingNoKey<V>(all: Chain<V>, f: Marks<V>, key: Str)
    requires forall i :: 0 <= i < |all| ==> Dead(f, all[i]) || all[i].key != key
    ensures forall i :: 0 <= i < |Living(all, f)| ==> Living(all, f)[i].key != key
  {
    if all != [] {
      LivingNoKey(all[..|all| - 1], f, key);
    }
  }

  /** Replacing the live node of a key, if any, by a new one at the end. */
  lemma ReplaceOneEach<V>(s: Chain<V>, n: VectorNode<V>)
    requires OneEach(s)
    ensures OneEach(Dropped(s, n.key) + [n])
  {
    DroppedOneEach(s, n.key);
  }

  /** A new node comes last and the old live node of its key, if any, is marked. */
  lemma ReplaceLive<V>(was: Chain<V>, n: VectorNode<V>, f: Marks<V>, i: nat)
    requires Distinct(was) && n !in was && !Dead(f, n) && OneEach(Living(was, f)) && i <= |was|
    requires i < |was| ==> !Dead(f, was[i]) && was[i].key == n.key
    requires forall j :: 0 <= j < i ==> Dead(f, was[j]) || was[j].key != n.key
    ensures var live, f' := Living(was, f), if i < |was| then f[was[i] := true] else f;
      Living(was + [n], f') == Dropped(live, n.key) + [n] && OneEach(Living(was + [n], f'))
      && |Living(was + [n], f')| == |live| + if i < |was| then 0 else 1
  {
    var live, f' := Living(was, f), if i < |was| then f[was[i] := true] else f;
    LivingAppend(was, n, f');
    ReplaceOneEach(live, n);
    if i < |was| {
      LivingMarkAt(was, i, f);
    } else {
      LivingNoKey(was, f, n.key);
      DroppedNone(live, n.key);
    }
  }
}
