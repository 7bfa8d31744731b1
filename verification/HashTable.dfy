/** The hash engine in place: an array of singly linked chains. */
module HashTable {
  import opened Strings
  import opened Pairs
  import opened HashSpec
  import Store

  class HashNode {
    const key: Str
    var value: Str
    var next: HashNode?

    /** `_create_node` */
    constructor (key: Str, value: Str)
      ensures this.key == key && this.value == value && next == null
    {
      this.key, this.value, next := key, value, null;
    }
  }

  type Chain = seq<HashNode>
  type Nexts = map<HashNode, HashNode?>
  type Values = map<HashNode, Str>

  function At(c: Chain, j: nat): HashNode? {
    if j < |c| then c[j] else null
  }

  /** The heads and the links are those of the chains. */
  ghost predicate Wired(chains: seq<Chain>, heads: seq<HashNode?>, m: Nexts) {
    && |chains| == |heads| == SLOTS
    && (forall i :: 0 <= i < SLOTS ==> heads[i] == At(chains[i], 0))
    && (forall i, j {:trigger chains[i][j] in m} :: 0 <= i < SLOTS && 0 <= j < |chains[i]| ==> chains[i][j] in m)
    && (forall i, j {:trigger m[chains[i][j]]} :: 0 <= i < SLOTS && 0 <= j < |chains[i]|
          ==> m[chains[i][j]] == At(chains[i], j + 1))
  }

  predicate Differ(c: Chain, j: nat, k: nat)
    requires j < |c| && k < |c|
  {
    c[j].key != c[k].key
  }

  ghost predicate Various(c: Chain) {
    forall j, k :: 0 <= j < k < |c| ==> Differ(c, j, k)
  }

  /** Each node hangs in the bucket of its key, and no key occurs twice. */
  ghost predicate Keyed(chains: seq<Chain>) {
    && |chains| == SLOTS
    && (forall i, j {:trigger Index(chains[i][j].key)} :: 0 <= i < SLOTS && 0 <= j < |chains[i]|
          ==> Index(chains[i][j].key) == i)
    && (forall i :: 0 <= i < SLOTS ==> Various(chains[i]))
  }

  lemma PutWired(chains: seq<Chain>, heads: seq<HashNode?>, m: Nexts, i: nat, n: HashNode)
    requires Wired(chains, heads, m) && i < SLOTS && n !in m
    ensures Wired(chains[i := [n] + chains[i]], heads[i := n], m[n := heads[i]])
  {
    var chains', m' := chains[i := [n] + chains[i]], m[n := heads[i]];
    forall a, j | 0 <= a < SLOTS && 0 <= j < |chains'[a]|
      ensures chains'[a][j] in m' && m'[chains'[a][j]] == At(chains'[a], j + 1)
    {
      if a != i {
        assert m[chains[a][j]] == At(chains[a], j + 1);
      } else if j > 0 {
        assert m[chains[i][j - 1]] == At(chains[i], j);
      }
    }
  }

  lemma DropHeadWired(chains: seq<Chain>, heads: seq<HashNode?>, m: Nexts, i: nat)
    requires Wired(chains, heads, m) && i < SLOTS && chains[i] != []
    ensures chains[i][0] in m
    ensures Wired(chains[i := Without(chains[i], 0)], heads[i := m[chains[i][0]]], m)
  {
    var chains' := chains[i := Without(chains[i], 0)];
    assert chains[i][0] in m;
    forall a, j | 0 <= a < SLOTS && 0 <= j < |chains'[a]|
      ensures chains'[a][j] in m && m[chains'[a][j]] == At(chains'[a], j + 1)
    {
      var k := if a == i then j + 1 else j;
      assert m[chains[a][k]] == At(chains[a], k + 1);
    }
  }

  lemma DropInnerWired(chains: seq<Chain>, heads: seq<HashNode?>, m: Nexts, i: nat, j: nat)
    requires Wired(chains, heads, m) && Keyed(chains) && i < SLOTS && 0 < j < |chains[i]|
    ensures chains[i][j] in m
    ensures Wired(chains[i := Without(chains[i], j)], heads, m[chains[i][j - 1] := m[chains[i][j]]])
  {
    assert m[chains[i][j]] == At(chains[i], j + 1);
    var chains', m' := chains[i := Without(chains[i], j)], m[chains[i][j - 1] := m[chains[i][j]]];
    forall a, k | 0 <= a < SLOTS && 0 <= k < |chains'[a]|
      ensures chains'[a][k] in m' && m'[chains'[a][k]] == At(chains'[a], k + 1)
    {
      var k' := if a == i && k >= j then k + 1 else k;
      assert chains'[a][k] == chains[a][k'] && m[chains[a][k']] == At(chains[a], k' + 1);
      assert chains[a][k'] == chains[i][j - 1] <==> a == i && k == j - 1 by {
        assert Index(chains[a][k'].key) == a && Index(chains[i][j - 1].key) == i;
        if a == i && k' != j - 1 {
          assert if k' < j - 1 then Differ(chains[i], k', j - 1) else Differ(chains[i], j - 1, k');
        }
      }
    }
  }

  // ---- contents

  ghost predicate Covers(chains: seq<Chain>, vals: Values) {
    forall i, j {:trigger chains[i][j] in vals} :: 0 <= i < |chains| && 0 <= j < |chains[i]| ==> chains[i][j] in vals
  }

  ghost function Entries(c: Chain, vals: Values): (s: seq<Pair>)
    requires forall j :: 0 <= j < |c| ==> c[j] in vals
    ensures |s| == |c| && forall j :: 0 <= j < |c| ==> s[j] == (c[j].key, vals[c[j]])
  {
    seq(|c|, j requires 0 <= j < |c| => (c[j].key, vals[c[j]]))
  }

  ghost function Contents(chains: seq<Chain>, vals: Values): (b: Buckets)
    ensures |b| == |chains|
    ensures Covers(chains, vals) ==> forall i :: 0 <= i < |b| ==> b[i] == Entries(chains[i], vals)
  {
    if Covers(chains, vals) then seq(|chains|, i requires 0 <= i < |chains| => Entries(chains[i], vals))
    else seq(|chains|, _ => [])
  }

  lemma ContentsProper(chains: seq<Chain>, vals: Values)
    requires Keyed(chains) && Covers(chains, vals)
    ensures Proper(Contents(chains, vals))
  {
    var b := Contents(chains, vals);
    forall i, p: Pair | 0 <= i < SLOTS && p in b[i] ensures Index(p.0) == i {
      var j :| 0 <= j < |b[i]| && b[i][j] == p;
      assert Index(chains[i][j].key) == i;
    }
    forall i | 0 <= i < SLOTS ensures UniqueKeys(b[i]) {
      forall j, k | 0 <= j < k < |b[i]| ensures b[i][j].0 != b[i][k].0 {
        assert Various(chains[i]) && Differ(chains[i], j, k);
      }
    }
  }

  /** A position with the key and none before is where the search finds it. */
  lemma FindIs(s: seq<Pair>, key: Str, j: nat)
    requires j <= |s| && (j < |s| ==> s[j].0 == key) && forall k :: 0 <= k < j ==> s[k].0 != key
    ensures Find(s, key) == j
  {
  }

  ghost predicate Seat(c: Chain, key: Str, j: nat) {
    j <= |c| && (j < |c| ==> c[j].key == key) && forall k :: 0 <= k < j ==> c[k].key != key
  }

  lemma Found(chains: seq<Chain>, vals: Values, key: Str, j: nat)
    requires Keyed(chains) && Covers(chains, vals) && Hashable(key) && Seat(chains[Index(key)], key, j)
    ensures Proper(Contents(chains, vals)) && j == Find(Contents(chains, vals)[Index(key)], key)
    ensures var c, m := chains[Index(key)], View(Contents(chains, vals));
      (key in m <==> j < |c|) && (key in m ==> m[key] == vals[c[j]])
  {
    ContentsProper(chains, vals);
    FindIs(Contents(chains, vals)[Index(key)], key, j);
    Lookup(Contents(chains, vals), key);
  }

  lemma PutContents(chains: seq<Chain>, vals: Values, n: HashNode, v: Str)
    requires |chains| == SLOTS && Hashable(n.key) && Covers(chains, vals) && n !in vals
    ensures var chains' := chains[Index(n.key) := [n] + chains[Index(n.key)]];
      Covers(chains', vals[n := v]) && Contents(chains', vals[n := v]) == Put(Contents(chains, vals), (n.key, v))
  {
    var i := Index(n.key);
    var chains', vals' := chains[i := [n] + chains[i]], vals[n := v];
    forall a, j | 0 <= a < |chains'| && 0 <= j < |chains'[a]| ensures chains'[a][j] in vals' {
      assert a == i && j > 0 ==> chains'[a][j] == chains[i][j - 1];
    }
    var b, b' := Contents(chains, vals), Contents(chains', vals');
    forall a | 0 <= a < SLOTS ensures b'[a] == Put(b, (n.key, v))[a] {
      assert b'[a] == Entries(chains'[a], vals');
      assert a == i ==> forall j :: 0 < j < |chains'[a]| ==> chains'[a][j] == chains[i][j - 1];
    }
  }

  lemma DropContents(chains: seq<Chain>, vals: Values, key: Str, j: nat)
    requires |chains| == SLOTS && Hashable(key) && Covers(chains, vals)
    requires Seat(chains[Index(key)], key, j) && j < |chains[Index(key)]|
    ensures Find(Contents(chains, vals)[Index(key)], key) == j
    ensures var chains' := chains[Index(key) := Without(chains[Index(key)], j)];
      Covers(chains', vals) && Contents(chains', vals) == Drop(Contents(chains, vals), key)
  {
    var i := Index(key);
    FindIs(Contents(chains, vals)[i], key, j);
    var chains' := chains[i := Without(chains[i], j)];
    forall a, k | 0 <= a < |chains'| && 0 <= k < |chains'[a]| ensures chains'[a][k] in vals {
      assert chains'[a][k] == chains[a][if a == i && k >= j then k + 1 else k];
    }
    var b, b' := Contents(chains, vals), Contents(chains', vals);
    forall a | 0 <= a < SLOTS ensures b'[a] == Drop(b, key)[a] {
      assert b'[a] == Entries(chains'[a], vals);
    }
  }

  lemma RebindContents(chains: seq<Chain>, vals: Values, key: Str, j: nat, v: Str)
    requires Keyed(chains) && Hashable(key) && Covers(chains, vals)
    requires Seat(chains[Index(key)], key, j) && j < |chains[Index(key)]|
    ensures Find(Contents(chains, vals)[Index(key)], key) == j
    ensures var vals' := vals[chains[Index(key)][j] := v];
      Covers(chains, vals') && Contents(chains, vals') == Rebind(Contents(chains, vals), key, v)
  {
    var i := Index(key);
    FindIs(Contents(chains, vals)[i], key, j);
    var vals' := vals[chains[i][j] := v];
    var b, b' := Contents(chains, vals), Contents(chains, vals');
    forall a | 0 <= a < SLOTS ensures b'[a] == Rebind(b, key, v)[a] {
      assert b'[a] == Entries(chains[a], vals') && b[a] == Entries(chains[a], vals);
      forall k | 0 <= k < |chains[a]| ensures chains[a][k] == chains[i][j] <==> a == i && k == j {
        assert Index(chains[a][k].key) == a;
        if a == i && k != j {
          assert if k < j then Differ(chains[i], k, j) else Differ(chains[i], j, k);
        }
      }
    }
  }

  // ---- the invariant

  ghost predicate Good(chains: seq<Chain>, heads: seq<HashNode?>, m: Nexts, vals: Values, count: int) {
    && Wired(chains, heads, m) && Keyed(chains) && Covers(chains, vals)
    && count == |Flat(Contents(chains, vals))|
  }

  lemma KeyedPut(chains: seq<Chain>, n: HashNode)
    requires Keyed(chains) && Hashable(n.key)
    requires forall j :: 0 <= j < |chains[Index(n.key)]| ==> chains[Index(n.key)][j].key != n.key
    ensures Keyed(chains[Index(n.key) := [n] + chains[Index(n.key)]])
  {
    var i := Index(n.key);
    var c' := [n] + chains[i];
    assert forall j :: 0 < j < |c'| ==> c'[j] == chains[i][j - 1];
    forall j, k | 0 <= j < k < |c'| ensures Differ(c', j, k) {
      assert j > 0 ==> Various(chains[i]) && Differ(chains[i], j - 1, k - 1);
    }
  }

  lemma KeyedDrop(chains: seq<Chain>, i: nat, j: nat)
    requires Keyed(chains) && i < SLOTS && j < |chains[i]|
    ensures Keyed(chains[i := Without(chains[i], j)])
  {
    var c' := Without(chains[i], j);
    assert forall k :: 0 <= k < |c'| ==> c'[k] == chains[i][if k < j then k else k + 1];
    forall a, b | 0 <= a < b < |c'| ensures Differ(c', a, b) {
      assert Various(chains[i]) && Differ(chains[i], if a < j then a else a + 1, if b < j then b else b + 1);
    }
  }

  lemma PutGood(chains: seq<Chain>, heads: seq<HashNode?>, m: Nexts, vals: Values, count: int, n: HashNode, v: Str)
    requires Good(chains, heads, m, vals, count) && Hashable(n.key) && n !in m && n !in vals
    requires Seat(chains[Index(n.key)], n.key, |chains[Index(n.key)]|)
    ensures var i := Index(n.key);
      Good(chains[i := [n] + chains[i]], heads[i := n], m[n := heads[i]], vals[n := v], count + 1)
      && View(Contents(chains[i := [n] + chains[i]], vals[n := v])) == View(Contents(chains, vals))[n.key := v]
      && Contents(chains[i := [n] + chains[i]], vals[n := v]) == Put(Contents(chains, vals), (n.key, v))
  {
    PutWired(chains, heads, m, Index(n.key), n);
    KeyedPut(chains, n);
    PutContents(chains, vals, n, v);
    Found(chains, vals, n.key, |chains[Index(n.key)]|);
    PutBinds(Contents(chains, vals), (n.key, v));
  }

  lemma DropGood(chains: seq<Chain>, heads: seq<HashNode?>, heads': seq<HashNode?>, m: Nexts, m': Nexts, vals: Values,
      count: int, key: Str, j: nat)
    requires Good(chains, heads, m, vals, count) && Hashable(key)
    requires Seat(chains[Index(key)], key, j) && j < |chains[Index(key)]|
    requires Wired(chains[Index(key) := Without(chains[Index(key)], j)], heads', m')
    ensures var chains' := chains[Index(key) := Without(chains[Index(key)], j)];
      Good(chains', heads', m', vals, count - 1)
      && View(Contents(chains', vals)) == View(Contents(chains, vals)) - {key}
  {
    KeyedDrop(chains, Index(key), j);
    DropContents(chains, vals, key, j);
    Found(chains, vals, key, j);
    DropUnbinds(Contents(chains, vals), key);
  }

  lemma RebindGood(chains: seq<Chain>, heads: seq<HashNode?>, m: Nexts, vals: Values, count: int, key: Str, j: nat,
      v: Str)
    requires Good(chains, heads, m, vals, count) && Hashable(key)
    requires Seat(chains[Index(key)], key, j) && j < |chains[Index(key)]|
    ensures var vals' := vals[chains[Index(key)][j] := v];
      Good(chains, heads, m, vals', count) && View(Contents(chains, vals')) == View(Contents(chains, vals))[key := v]
  {
    RebindContents(chains, vals, key, j, v);
    Found(chains, vals, key, j);
    RebindBinds(Contents(chains, vals), key, v);
  }

  // ---- the code

  class HashTable {
    const nodes: array<HashNode?>
    var count: int
    ghost var chains: seq<Chain>
    /** Every node that was ever linked. */
    ghost var all: set<HashNode>

    ghost function Links(): Nexts
      reads this`all, all`next
    {
      map n | n in all :: n.next
    }

    ghost function Stored(): Values
      reads this`all, all`value
    {
      map n | n in all :: n.value
    }

    ghost predicate Valid()
      reads this, nodes, all`next, all`value
    {
      nodes.Length == SLOTS && Good(chains, nodes[..], Links(), Stored(), count)
    }

    /** The bindings, bucket by bucket. */
    ghost function Chains(): Buckets
      reads this, all`value
    {
      Contents(chains, Stored())
    }

    ghost function View(): Store.Map
      reads this, all`value
    {
      HashSpec.View(Chains())
    }

    /** `_hash` */
    static method Hash(key: Str) returns (index: int)
      ensures index == Index(key)
    {
      var sum, i := 0, 0;
      while i < |key|
        invariant 0 <= i <= |key| && sum == Sum(key[..i])
      {
        assert key[..i + 1][..i] == key[..i];
        sum := sum + Signed(key[i]);
        i := i + 1;
      }
      assert key[..|key|] == key;
      return Remainder(sum, SLOTS);
    }

    /** `kvs_hash_create` */
    constructor ()
      ensures Valid() && View() == map[] && count == 0 && fresh(nodes) && all == {}
    {
      nodes := new HashNode?[SLOTS](_ => null);
      count, chains, all := 0, seq(SLOTS, _ => []), {};
      new;
      FlatEmpty(Contents(chains, Stored()));
    }

    /** The walk along the chain of a key. */
    method Search(index: int, key: Str) returns (node: HashNode?, ghost j: nat)
      requires Valid() && Hashable(key) && index == Index(key)
      ensures Links() == old(Links()) && Stored() == old(Stored()) && nodes[..] == old(nodes[..])
      ensures Seat(chains[index], key, j) && node == At(chains[index], j)
    {
      node, j := nodes[index], 0;
      ghost var c := chains[index];
      while node != null
        invariant j <= |c| && node == At(c, j) && forall k :: 0 <= k < j ==> c[k].key != key
        decreases |c| - j
      {
        if node.key == key {
          return;
        }
        assert Links()[chains[index][j]] == At(c, j + 1);
        node, j := node.next, j + 1;
      }
    }

    /** `kvs_hash_get` */
    method Get(key: Str) returns (r: Store.Reply)
      requires Valid() && Hashable(key)
      ensures r == if key in View() then Store.Value(View()[key]) else Store.Missing
    {
      var index := Hash(key);
      var node;
      ghost var j;
      node, j := Search(index, key);
      Known(key, j);
      r := if node != null then Store.Value(node.value) else Store.Missing;
    }

    /** `kvs_hash_exist` */
    method Exist(key: Str) returns (code: int)
      requires Valid() && Hashable(key)
      ensures code == if key in View() then 0 else 1
    {
      var r := Get(key);
      code := if r.Missing? then 1 else 0;
    }

    /** A node goes to the head of a chain. */
    method Push(index: nat, n: HashNode)
      requires index < SLOTS == nodes.Length == |chains| && n !in all
      modifies this, nodes, n`next
      ensures chains == old(chains)[index := [n] + old(chains)[index]] && all == old(all) + {n}
      ensures nodes[..] == old(nodes[..])[index := n] && count == old(count) + 1
      ensures Links() == old(Links())[n := old(nodes[index])] && Stored() == old(Stored())[n := n.value]
    {
      n.next := nodes[index];
      nodes[index] := n;
      count := count + 1;
      chains := chains[index := [n] + chains[index]];
      all := all + {n};
    }

    method Place(index: nat, n: HashNode)
      requires Valid() && Hashable(n.key) && index == Index(n.key) && n !in all
      requires Seat(chains[index], n.key, |chains[index]|)
      modifies this, nodes, n`next
      ensures Valid() && all == old(all) + {n} && View() == old(View())[n.key := n.value]
      ensures Chains() == Put(old(Chains()), (n.key, n.value))
    {
      PutGood(chains, nodes[..], Links(), Stored(), count, n, n.value);
      Push(index, n);
    }

    method Insert(index: nat, key: Str, value: Str)
      requires Valid() && Hashable(key) && index == Index(key) && Seat(chains[index], key, |chains[index]|)
      modifies this, nodes
      ensures Valid() && View() == old(View())[key := value] && Chains() == Put(old(Chains()), (key, value))
      ensures forall n :: n in all ==> n in old(all) || fresh(n)
    {
      var n := new HashNode(key, value);
      Place(index, n);
    }

    /** `kvs_hash_set` */
    method Set(key: Str, value: Str) returns (code: int)
      requires Valid() && Hashable(key)
      modifies this, nodes
      ensures Valid() && forall n :: n in all ==> n in old(all) || fresh(n)
      ensures code == if key in old(View()) then 1 else 0
      ensures View() == if key in old(View()) then old(View()) else old(View())[key := value]
      ensures Chains() == SetIn(old(Chains()), key, value)
    {
      var index := Hash(key);
      var node;
      ghost var j;
      node, j := Search(index, key);
      Known(key, j);
      if node != null {
        return 1;
      }
      Insert(index, key, value);
      return 0;
    }

    method Assign(node: HashNode, value: Str)
      requires node in all
      modifies node`value
      ensures Links() == old(Links()) && Stored() == old(Stored())[node := value]
    {
      node.value := value;
    }

    /** `kvs_hash_mod` */
    method Mod(key: Str, value: Str) returns (code: int)
      requires Valid() && Hashable(key)
      modifies all`value
      ensures Valid() && all == old(all)
      ensures code == if key in old(View()) then 0 else 1
      ensures View() == if key in old(View()) then old(View())[key := value] else old(View())
    {
      var index := Hash(key);
      var node;
      ghost var j;
      node, j := Search(index, key);
      Known(key, j);
      if node == null {
        return 1;
      }
      RebindGood(chains, nodes[..], Links(), Stored(), count, key, j, value);
      Assign(node, value);
      return 0;
    }

    /** The second node of a chain, or a later one, is bypassed. */
    method Bypass(index: nat, cur: HashNode, tmp: HashNode, ghost j: nat)
      requires index < |chains| && 0 < j < |chains[index]| && cur in all && cur.next == tmp
      modifies this`count, this`chains, cur`next
      ensures chains == old(chains)[index := Without(old(chains)[index], j)] && count == old(count) - 1
      ensures Links() == old(Links())[cur := tmp.next] && Stored() == old(Stored())
    {
      cur.next := tmp.next;
      count := count - 1;
      chains := chains[index := Without(chains[index], j)];
    }

    method Behead(index: nat, head: HashNode)
      requires index < SLOTS == nodes.Length == |chains| && chains[index] != [] && head in all
      modifies this`count, this`chains, nodes
      ensures chains == old(chains)[index := Without(old(chains)[index], 0)] && count == old(count) - 1
      ensures nodes[..] == old(nodes[..])[index := head.next]
      ensures Links() == old(Links()) && Stored() == old(Stored())
    {
      nodes[index] := head.next;
      count := count - 1;
      chains := chains[index := Without(chains[index], 0)];
    }

    lemma Known(key: Str, j: nat)
      requires Valid() && Hashable(key) && Seat(chains[Index(key)], key, j)
      ensures var c := chains[Index(key)];
        (key in View() <==> j < |c|) && (key in View() ==> c[j] in all && View()[key] == c[j].value)
    {
      Found(chains, Stored(), key, j);
      assert j < |chains[Index(key)]| ==> chains[Index(key)][j] in Stored();
    }

    lemma Linked(index: nat, j: nat)
      requires Valid() && index < SLOTS && j < |chains[index]|
      ensures chains[index][j] in all && chains[index][j].next == At(chains[index], j + 1)
    {
      ghost var m, n := Links(), chains[index][j];
      assert chains[index][j] in m;
      assert m[chains[index][j]] == At(chains[index], j + 1);
      assert n in all && m[n] == n.next;
    }

    method DropHead(index: nat, head: HashNode)
      requires Valid() && index < SLOTS && chains[index] != [] && head == chains[index][0] && Index(head.key) == index
      modifies this`count, this`chains, nodes
      ensures Valid() && View() == old(View()) - {head.key}
    {
      Linked(index, 0);
      DropHeadWired(chains, nodes[..], Links(), index);
      DropGood(chains, nodes[..], nodes[..][index := head.next], Links(), Links(), Stored(), count, head.key, 0);
      Behead(index, head);
    }

    method DropInner(index: nat, cur: HashNode, tmp: HashNode, key: Str, ghost j: nat)
      requires Valid() && Hashable(key) && index == Index(key) && Seat(chains[index], key, j) && 0 < j < |chains[index]|
      requires cur == chains[index][j - 1] && tmp == chains[index][j]
      modifies this`count, this`chains, cur`next
      ensures Valid() && View() == old(View()) - {key}
    {
      Linked(index, j - 1);
      Linked(index, j);
      DropInnerWired(chains, nodes[..], Links(), index, j);
      DropGood(chains, nodes[..], nodes[..], Links(), Links()[cur := tmp.next], Stored(), count, key, j);
      Bypass(index, cur, tmp, j);
    }

    /** The key is at the head of its chain. */
    method DelHead(key: Str, index: nat, head: HashNode)
      requires Valid() && Hashable(key) && index == Index(key) && chains[index] != []
      requires head == chains[index][0] && head.key == key
      modifies this`count, this`chains, nodes
      ensures Valid() && all == old(all)
      ensures key in old(View()) && View() == old(View()) - {key}
    {
      Known(key, 0);
      DropHead(index, head);
    }

    /** The walk to the node in front of a key that is not at the head. */
    method Before(index: nat, key: Str) returns (cur: HashNode, ghost j: nat)
      requires Valid() && index < SLOTS && chains[index] != [] && chains[index][0].key != key
      ensures Links() == old(Links()) && Stored() == old(Stored()) && nodes[..] == old(nodes[..])
      ensures 0 < j <= |chains[index]| && cur == chains[index][j - 1] && Seat(chains[index], key, j)
      ensures cur.next == At(chains[index], j)
    {
      cur, j := nodes[index], 1;
      assert Links()[chains[index][0]] == At(chains[index], 1);
      while cur.next != null
        invariant 0 < j <= |chains[index]| && cur == chains[index][j - 1] && cur.next == At(chains[index], j)
        invariant forall k :: 0 <= k < j ==> chains[index][k].key != key
        decreases |chains[index]| - j
      {
        if cur.next.key == key {
          break;
        }
        assert Links()[chains[index][j]] == At(chains[index], j + 1);
        cur, j := cur.next, j + 1;
      }
    }

    method DelInner(index: nat, key: Str) returns (code: int)
      requires Valid() && Hashable(key) && index == Index(key) && chains[index] != [] && chains[index][0].key != key
      modifies this`count, this`chains, all`next
      ensures Valid() && all == old(all)
      ensures code == if key in old(View()) then 0 else 1
      ensures View() == old(View()) - {key}
    {
      var cur;
      ghost var j;
      cur, j := Before(index, key);
      Known(key, j);
      if cur.next == null {
        return 1;
      }
      Linked(index, j - 1);
      DropInner(index, cur, cur.next, key, j);
      return 0;
    }

    /** `kvs_hash_del` */
    method Del(key: Str) returns (code: int)
      requires Valid() && Hashable(key)
      modifies this`count, this`chains, nodes, all`next
      ensures Valid() && all == old(all)
      ensures code == if key in old(View()) then 0 else 1
      ensures View() == old(View()) - {key}
    {
      var index := Hash(key);
      var head := nodes[index];
      if head == null {
        Known(key, 0);
        return 1;
      }
      if head.key == key {
        DelHead(key, index, head);
        return 0;
      }
      code := DelInner(index, key);
    }
  }
}
