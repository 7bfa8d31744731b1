/** The hash engine's bucket function, and the map its chains stand for. */
module HashSpec {
  import opened Strings
  import opened Pairs

  const SLOTS := 1024

  /** A byte read as a signed char. */
  function Signed(c: Char): int {
    if c < 128 then c else c - 256
  }

  function Sum(key: Str): int {
    if key == [] then 0 else Sum(key[..|key| - 1]) + Signed(key[|key| - 1])
  }

  /** The remainder operator of C, which rounds the quotient toward zero. */
  function Remainder(a: int, b: int): int
    requires b > 0
  {
    if a >= 0 then a % b else -(-a % b)
  }

  function Index(key: Str): int {
    Remainder(Sum(key), SLOTS)
  }

  /** The key has a slot; for the other keys the source indexes in front of the table. */
  predicate Hashable(key: Str) {
    0 <= Index(key) < SLOTS
  }

  /** The slot is the sum of the signed characters modulo 1024. */
  lemma IndexExact(key: Str, c: Char)
    ensures Sum([]) == 0 && Sum(key + [c]) == Sum(key) + if c < 128 then c else c - 256
    ensures Sum(key) >= 0 ==> Index(key) == Sum(key) % 1024
  {
    assert (key + [c])[..|key|] == key;
  }

  /** Exactly the keys whose bytes sum to a non-negative number or a multiple of the table size. */
  lemma HashableIff(key: Str)
    ensures Hashable(key) <==> Sum(key) >= 0 || Sum(key) % SLOTS == 0
  {
  }

  /** The single byte 200 has no slot: as a signed char it is -56. */
  lemma ByteWithoutSlot()
    ensures !Hashable([200])
  {
    assert Sum([200]) == Sum([]) + Signed(200);
  }

  lemma {:induction false} AsciiHashable(key: Str)
    requires forall i :: 0 <= i < |key| ==> key[i] < 128
    ensures Sum(key) >= 0 && Hashable(key)
  {
    if key != [] {
      AsciiHashable(key[..|key| - 1]);
    }
    HashableIff(key);
  }

  // ---- buckets

  type Buckets = seq<seq<Pair>>

  ghost predicate Proper(b: Buckets) {
    && |b| == SLOTS
    && (forall i :: 0 <= i < SLOTS ==> UniqueKeys(b[i]))
    && (forall i, p :: 0 <= i < SLOTS && p in b[i] ==> Index(p.0) == i)
  }

  /** All bindings, bucket by bucket. */
  function Flat(b: Buckets): seq<Pair> {
    if b == [] then [] else Flat(b[..|b| - 1]) + b[|b| - 1]
  }

  function View(b: Buckets): map<Str, Str> {
    ToMap(Flat(b))
  }

  lemma {:induction false} FlatAppend(a: Buckets, b: Buckets)
    ensures Flat(a + b) == Flat(a) + Flat(b)
  {
    if b == [] {
      assert a + b == a;
    } else {
      assert (a + b)[..|a + b| - 1] == a + b[..|b| - 1];
      FlatAppend(a, b[..|b| - 1]);
    }
  }

  lemma {:induction false} FlatEmpty(b: Buckets)
    requires forall i :: 0 <= i < |b| ==> b[i] == []
    ensures Flat(b) == []
  {
    if b != [] {
      FlatEmpty(b[..|b| - 1]);
    }
  }

  lemma {:induction false} FlatUnique(b: Buckets)
    requires forall i :: 0 <= i < |b| ==> UniqueKeys(b[i])
    requires forall i, k :: 0 <= i < |b| && 0 <= k < |b[i]| ==> Index(b[i][k].0) == i
    ensures UniqueKeys(Flat(b)) && forall k :: 0 <= k < |Flat(b)| ==> 0 <= Index(Flat(b)[k].0) < |b|
  {
    if b != [] {
      FlatUnique(b[..|b| - 1]);
    }
  }

  lemma FlatSplit(b: Buckets, i: nat)
    requires i < |b|
    ensures Flat(b) == Flat(b[..i]) + b[i] + Flat(b[i + 1..])
  {
    assert b == b[..i + 1] + b[i + 1..] && b[..i + 1][..i] == b[..i];
    FlatAppend(b[..i + 1], b[i + 1..]);
  }

  lemma {:induction false} FlatNoKey(b: Buckets, k: Str)
    requires forall i :: 0 <= i < |b| ==> NoKey(b[i], k)
    ensures NoKey(Flat(b), k)
  {
    if b != [] {
      FlatNoKey(b[..|b| - 1], k);
    }
  }

  /** Around the bucket of a key, that key does not occur. */
  lemma Elsewhere(b: Buckets, k: Str)
    requires Proper(b) && Hashable(k)
    ensures var i := Index(k);
      NoKey(Flat(b[..i]), k) && NoKey(Flat(b[i + 1..]), k) && Flat(b) == Flat(b[..i]) + b[i] + Flat(b[i + 1..])
  {
    var i := Index(k);
    FlatSplit(b, i);
    FlatNoKey(b[..i], k);
    FlatNoKey(b[i + 1..], k);
  }

  /** Replacing one bucket. */
  lemma Replaced(b: Buckets, i: nat, c: seq<Pair>)
    requires i < |b|
    ensures Flat(b[i := c]) == Flat(b[..i]) + c + Flat(b[i + 1..])
  {
    FlatSplit(b[i := c], i);
    assert b[i := c][..i] == b[..i] && b[i := c][i + 1..] == b[i + 1..];
  }

  lemma ProperReplaced(b: Buckets, i: nat, c: seq<Pair>)
    requires Proper(b) && i < SLOTS && UniqueKeys(c) && forall p :: p in c ==> Index(p.0) == i
    ensures Proper(b[i := c])
  {
  }

  lemma Lookup(b: Buckets, k: Str)
    requires Proper(b) && Hashable(k)
    ensures var c := b[Index(k)];
      (k in View(b) <==> Find(c, k) < |c|) && (k in View(b) ==> View(b)[k] == c[Find(c, k)].1)
  {
    var i := Index(k);
    Elsewhere(b, k);
    MiddleLookup(Flat(b[..i]), b[i], Flat(b[i + 1..]), k);
  }

  /** A new binding at the head of its chain. */
  function Put(b: Buckets, p: Pair): Buckets
    requires |b| == SLOTS && Hashable(p.0)
  {
    b[Index(p.0) := [p] + b[Index(p.0)]]
  }

  /** `kvs_hash_set` on the chains; keys without a slot are outside the model. */
  function SetIn(b: Buckets, key: Str, value: Str): Buckets {
    if |b| != SLOTS || !Hashable(key) || key in View(b) then b else Put(b, (key, value))
  }

  /** The chain of a key without it. */
  function Drop(b: Buckets, k: Str): Buckets
    requires |b| == SLOTS && Hashable(k) && Find(b[Index(k)], k) < |b[Index(k)]|
  {
    b[Index(k) := Without(b[Index(k)], Find(b[Index(k)], k))]
  }

  /** The chain of a key with another value. */
  function Rebind(b: Buckets, k: Str, v: Str): Buckets
    requires |b| == SLOTS && Hashable(k) && Find(b[Index(k)], k) < |b[Index(k)]|
  {
    b[Index(k) := b[Index(k)][Find(b[Index(k)], k) := (k, v)]]
  }

  lemma PutBinds(b: Buckets, p: Pair)
    requires Proper(b) && Hashable(p.0) && p.0 !in View(b)
    ensures Proper(Put(b, p)) && View(Put(b, p)) == View(b)[p.0 := p.1]
    ensures |Flat(Put(b, p))| == |Flat(b)| + 1
  {
    var i := Index(p.0);
    var c := b[i];
    Elsewhere(b, p.0);
    Lookup(b, p.0);
    assert NoKey(c, p.0);
    hide Proper, Flat;
    PutView(b, p, Flat(b[..i]), Flat(b[i + 1..]));
    PutProper(b, p);
  }

  lemma PutProper(b: Buckets, p: Pair)
    requires Proper(b) && Hashable(p.0) && NoKey(b[Index(p.0)], p.0)
    ensures Proper(Put(b, p))
  {
    var i := Index(p.0);
    var c := b[i];
    forall q | q in [p] + c ensures Index(q.0) == i {
      assert q == p || q in c;
    }
    UniqueFront(p, c);
    ProperReplaced(b, i, [p] + c);
  }

  lemma UniqueFront(p: Pair, c: seq<Pair>)
    requires UniqueKeys(c) && NoKey(c, p.0)
    ensures UniqueKeys([p] + c)
  {
  }

  lemma PutView(b: Buckets, p: Pair, a: seq<Pair>, z: seq<Pair>)
    requires |b| == SLOTS && Hashable(p.0)
    requires var i := Index(p.0);
      a == Flat(b[..i]) && z == Flat(b[i + 1..]) && Flat(b) == a + b[i] + z && NoKey(b[i], p.0) && NoKey(z, p.0)
    ensures View(Put(b, p)) == View(b)[p.0 := p.1] && |Flat(Put(b, p))| == |Flat(b)| + 1
  {
    hide Flat, ToMap, Index;
    var i := Index(p.0);
    Replaced(b, i, [p] + b[i]);
    MiddlePut(a, b[i], z, p);
  }

  lemma DropUnbinds(b: Buckets, k: Str)
    requires Proper(b) && Hashable(k) && k in View(b)
    ensures Find(b[Index(k)], k) < |b[Index(k)]|
    ensures Proper(Drop(b, k)) && View(Drop(b, k)) == View(b) - {k}
    ensures |Flat(Drop(b, k))| == |Flat(b)| - 1
  {
    var i := Index(k);
    var c := b[i];
    Elsewhere(b, k);
    Lookup(b, k);
    var j := Find(c, k);
    Replaced(b, i, Without(c, j));
    hide Flat, ToMap;
    MiddleDrop(Flat(b[..i]), c, Flat(b[i + 1..]), j);
    ProperReplaced(b, i, Without(c, j));
  }

  lemma RebindBinds(b: Buckets, k: Str, v: Str)
    requires Proper(b) && Hashable(k) && k in View(b)
    ensures Find(b[Index(k)], k) < |b[Index(k)]|
    ensures Proper(Rebind(b, k, v)) && View(Rebind(b, k, v)) == View(b)[k := v]
    ensures |Flat(Rebind(b, k, v))| == |Flat(b)|
  {
    var i := Index(k);
    var c := b[i];
    Elsewhere(b, k);
    Lookup(b, k);
    var j := Find(c, k);
    Replaced(b, i, c[j := (k, v)]);
    MiddleRebind(Flat(b[..i]), c, Flat(b[i + 1..]), j, v);
    RebindProper(b, k, v);
  }

  lemma RebindProper(b: Buckets, k: Str, v: Str)
    requires Proper(b) && Hashable(k) && Find(b[Index(k)], k) < |b[Index(k)]|
    ensures Proper(Rebind(b, k, v))
  {
    var i := Index(k);
    var c, j := b[i], Find(b[i], k);
    forall p: Pair | p in c[j := (k, v)] ensures Index(p.0) == i {
      assert p == (k, v) || p in c;
    }
    ProperReplaced(b, i, c[j := (k, v)]);
  }
}
