/** The LRU cache as a list, most recent entry first. */
module LruSpec {
  import opened Strings
  import opened Pairs
  import opened CacheBag

  function Front<T>(s: seq<T>, i: nat): seq<T>
    requires i < |s|
  {
    [s[i]] + Without(s, i)
  }

  /** The entries that stay when a full cache makes room for one more. */
  function Room<T>(s: seq<T>, capacity: nat): seq<T>
    requires capacity > 0
  {
    if |s| >= capacity then s[..capacity - 1] else s
  }

  function Get(s: seq<Pair>, key: Str): (seq<Pair>, Option<Str>) {
    var i := Find(s, key);
    if i < |s| then (Front(s, i), Some(s[i].1)) else (s, None)
  }

  function Add(s: seq<Pair>, capacity: nat, p: Pair): seq<Pair>
    requires capacity > 0
  {
    [p] + Room(s, capacity)
  }

  function Del(s: seq<Pair>, key: Str): seq<Pair> {
    var i := Find(s, key);
    if i < |s| then Without(s, i) else s
  }

  // ---- what the list holds

  lemma WithoutHolds<T>(s: seq<T>, i: nat)
    requires i < |s|
    ensures multiset(Without(s, i)) == multiset(s) - multiset{s[i]}
    ensures multiset(Front(s, i)) == multiset(s)
  {
    assert s == s[..i] + [s[i]] + s[i + 1..];
  }

  lemma GetHolds(s: seq<Pair>, key: Str)
    ensures Answers(multiset(s), key, Get(s, key).1) && multiset(Get(s, key).0) == multiset(s)
  {
    var i := Find(s, key);
    if i < |s| {
      WithoutHolds(s, i);
      assert s[i] in s;
    } else {
      forall p | p in multiset(s) ensures p.0 != key {
        assert p in s;
      }
    }
  }

  lemma AddStocks(s: seq<Pair>, capacity: nat, p: Pair)
    requires 0 < capacity && |s| <= capacity
    ensures Stocks(multiset(s), p, multiset(Add(s, capacity, p)), |s| == capacity)
    ensures |Add(s, capacity, p)| <= capacity
  {
    if |s| == capacity {
      var n := |s| - 1;
      assert s == s[..n] + [s[n]] && s[n] in s;
      assert multiset(s[..n]) == multiset(s) - multiset{s[n]};
    }
  }

  lemma DelHolds(s: seq<Pair>, key: Str)
    requires Functional(multiset(s))
    ensures Purges(multiset(s), key, multiset(Del(s, key)))
  {
    var i := Find(s, key);
    GetHolds(s, key);
    if i < |s| {
      WithoutHolds(s, i);
      DropPurges(multiset(s), s[i]);
    }
  }

  // ---- runs

  function Step(s: seq<Pair>, capacity: nat, e: Event): seq<Pair>
    requires capacity > 0
  {
    match e
    case Drop(k) => Del(s, k)
    case Look(k, stored) =>
      var (t, r) := Get(s, k);
      if r.None? && stored.Some? then Add(t, capacity, (k, stored.value)) else t
  }

  predicate IsHit(s: seq<Pair>, e: Event) {
    e.Look? && Find(s, e.key) < |s|
  }

  function Run(capacity: nat, es: seq<Event>): seq<Pair>
    requires capacity > 0
  {
    if es == [] then [] else Step(Run(capacity, es[..|es| - 1]), capacity, es[|es| - 1])
  }

  function Hits(capacity: nat, es: seq<Event>): nat
    requires capacity > 0
  {
    if es == [] then 0
    else Hits(capacity, es[..|es| - 1]) + if IsHit(Run(capacity, es[..|es| - 1]), es[|es| - 1]) then 1 else 0
  }

  function Keys(s: seq<Pair>): (k: seq<Str>)
    ensures |k| == |s| && forall i :: 0 <= i < |s| ==> k[i] == s[i].0
  {
    seq(|s|, i requires 0 <= i < |s| => s[i].0)
  }

  predicate Distinct(k: seq<Str>) {
    forall i, j :: 0 <= i < j < |k| ==> k[i] != k[j]
  }

  predicate Sound(s: seq<Pair>, capacity: nat) {
    |s| <= capacity && Distinct(Keys(s))
  }

  /** A step acts on the keys alone: where the key is, and whether a miss brings it in. */
  function KeyStep(k: seq<Str>, capacity: nat, e: Event, i: nat): seq<Str>
    requires capacity > 0 && i <= |k|
  {
    match e
    case Drop(_) => if i < |k| then Without(k, i) else k
    case Look(key, stored) =>
      if i < |k| then Front(k, i) else if stored.Some? then [key] + Room(k, capacity) else k
  }

  lemma KeysMove(s: seq<Pair>, i: nat)
    requires i < |s|
    ensures Keys(Without(s, i)) == Without(Keys(s), i) && Keys(Front(s, i)) == Front(Keys(s), i)
  {
    assert Keys(Without(s, i)) == Without(Keys(s), i);
  }

  lemma StepKeys(s: seq<Pair>, capacity: nat, e: Event)
    requires capacity > 0
    ensures Keys(Step(s, capacity, e)) == KeyStep(Keys(s), capacity, e, Find(s, e.key))
  {
    var i := Find(s, e.key);
    if i < |s| {
      KeysMove(s, i);
    } else if e.Look? && e.stored.Some? {
      KeysAdd(s, capacity, (e.key, e.stored.value));
    }
  }

  lemma KeysAdd(s: seq<Pair>, capacity: nat, p: Pair)
    requires capacity > 0
    ensures Keys(Add(s, capacity, p)) == [p.0] + Room(Keys(s), capacity)
  {
    assert Keys(Room(s, capacity)) == Room(Keys(s), capacity);
  }

  lemma StepSound(s: seq<Pair>, capacity: nat, e: Event)
    requires capacity > 0 && Sound(s, capacity)
    ensures Sound(Step(s, capacity, e), capacity)
  {
    var k, i := Keys(s), Find(s, e.key);
    StepKeys(s, capacity, e);
    if i < |k| {
      WithoutDistinct(k, i);
    }
  }

  lemma WithoutDistinct(k: seq<Str>, i: nat)
    requires Distinct(k) && i < |k|
    ensures Distinct(Without(k, i)) && Distinct(Front(k, i))
  {
    assert forall j :: 0 <= j < |k| - 1 ==> Without(k, i)[j] == k[if j < i then j else j + 1];
  }

  lemma PrefixSteps(a: seq<Str>, b: seq<Str>, i: nat)
    requires a <= b && i < |a|
    ensures Without(a, i) <= Without(b, i) && Front(a, i) <= Front(b, i)
  {
    assert b == a + b[|a|..];
    assert Without(b, i) == Without(a, i) + b[|a|..];
  }

  lemma PrefixMiss(a: seq<Str>, b: seq<Str>, j: nat, c: nat)
    requires a <= b && |a| <= j < |b| && c > 0
    ensures a <= Without(b, j) && [b[j]] + Room(a, c) <= Front(b, j)
  {
    assert Without(b, j)[..|a|] == a;
  }

  lemma PrefixRoom(a: seq<Str>, b: seq<Str>, c: nat, d: nat, key: Str)
    requires a <= b && 0 < c <= d
    ensures [key] + Room(a, c) <= [key] + Room(b, d)
  {
    assert Room(b, d)[..|Room(a, c)|] == Room(a, c);
  }

  /** A read that finds the key in the larger cache only, and nothing behind the caches: the larger one
      moves the key to the front and the smaller one, if it holds anything, does not. */
  predicate Splits(a: seq<Str>, b: seq<Str>, e: Event) {
    e.Look? && e.stored.None? && e.key in b && e.key !in a && a != []
  }

  lemma PrefixSplit(a: seq<Str>, b: seq<Str>, j: nat)
    requires a <= b && |a| <= j < |b| && Distinct(b)
    ensures a <= Front(b, j) <==> a == []
  {
    if a != [] {
      assert a[0] == b[0] != b[j] == Front(b, j)[0];
    }
  }

  /** Exactly when the list of a smaller cache stays a prefix of the list of a larger one. */
  lemma StepInclusion(s: seq<Pair>, t: seq<Pair>, c: nat, d: nat, e: Event)
    requires 0 < c <= d && Sound(s, c) && Sound(t, d) && Keys(s) <= Keys(t)
    ensures Keys(Step(s, c, e)) <= Keys(Step(t, d, e)) <==> !Splits(Keys(s), Keys(t), e)
    ensures IsHit(s, e) ==> IsHit(t, e)
  {
    var a, b, i, j := Keys(s), Keys(t), Find(s, e.key), Find(t, e.key);
    assert forall k :: 0 <= k < |s| ==> a[k] == b[k];
    StepKeys(s, c, e);
    StepKeys(t, d, e);
    if i < |s| {
      assert j == i && a[i] in a;
      PrefixSteps(a, b, i);
    } else if j < |t| {
      assert b[j] in b && e.key !in a;
      PrefixMiss(a, b, j, c);
      PrefixSplit(a, b, j);
    } else {
      assert e.key !in b;
      PrefixRoom(a, b, c, d, e.key);
    }
  }

  /** At every moment of the trace the smaller list is a prefix of the larger. */
  predicate Included(c: nat, d: nat, es: seq<Event>)
    requires 0 < c <= d
  {
    forall n :: 0 <= n <= |es| ==> Keys(Run(c, es[..n])) <= Keys(Run(d, es[..n]))
  }

  predicate NeverSplits(c: nat, d: nat, es: seq<Event>)
    requires 0 < c <= d
  {
    forall n :: 0 <= n < |es| ==> !Splits(Keys(Run(c, es[..n])), Keys(Run(d, es[..n])), es[n])
  }

  lemma IncludedNext(c: nat, d: nat, es: seq<Event>, e: Event)
    requires 0 < c <= d
    ensures Included(c, d, es + [e])
      <==> Included(c, d, es) && Keys(Run(c, es + [e])) <= Keys(Run(d, es + [e]))
  {
    hide Run, Keys;
    var next := es + [e];
    assert next[..|next|] == next && forall n :: 0 <= n <= |es| ==> next[..n] == es[..n];
    if Included(c, d, next) {
      forall n | 0 <= n <= |es| ensures Keys(Run(c, es[..n])) <= Keys(Run(d, es[..n])) {
        assert Keys(Run(c, next[..n])) <= Keys(Run(d, next[..n]));
      }
    }
  }

  lemma SplitsNext(c: nat, d: nat, es: seq<Event>, e: Event)
    requires 0 < c <= d
    ensures NeverSplits(c, d, es + [e])
      <==> NeverSplits(c, d, es) && !Splits(Keys(Run(c, es)), Keys(Run(d, es)), e)
  {
    hide Run, Keys, Splits;
    var next := es + [e];
    assert next[..|es|] == es && forall n :: 0 <= n < |es| ==> next[..n] == es[..n] && next[n] == es[n];
    if NeverSplits(c, d, next) {
      assert !Splits(Keys(Run(c, next[..|es|])), Keys(Run(d, next[..|es|])), next[|es|]);
      forall n | 0 <= n < |es| ensures !Splits(Keys(Run(c, es[..n])), Keys(Run(d, es[..n])), es[n]) {
        assert !Splits(Keys(Run(c, next[..n])), Keys(Run(d, next[..n])), next[n]);
      }
    }
  }

  lemma {:induction false} RunSound(c: nat, es: seq<Event>)
    requires c > 0
    ensures Sound(Run(c, es), c)
  {
    if es != [] {
      RunSound(c, es[..|es| - 1]);
      StepSound(Run(c, es[..|es| - 1]), c, es[|es| - 1]);
    }
  }

  /** Replaying any trace with two capacities: the smaller list is a prefix of the larger throughout if
      and only if no read splits them, and then hits do not fall as the capacity grows. */
  lemma {:induction false} InclusionExact(c: nat, d: nat, es: seq<Event>)
    requires 0 < c <= d
    ensures Included(c, d, es) <==> NeverSplits(c, d, es)
    ensures Included(c, d, es) ==> Keys(Run(c, es)) <= Keys(Run(d, es)) && Hits(c, es) <= Hits(d, es)
  {
    if es != [] {
      var init, e := es[..|es| - 1], es[|es| - 1];
      assert es == init + [e];
      hide Included, NeverSplits, Splits, Step, Sound, Keys, IsHit;
      InclusionExact(c, d, init);
      RunSound(c, init);
      RunSound(d, init);
      IncludedNext(c, d, init, e);
      SplitsNext(c, d, init, e);
      if Included(c, d, init) {
        StepInclusion(Run(c, init), Run(d, init), c, d, e);
      }
    }
  }

  /** Such a trace: two keys fit into the larger cache, the first is read again with nothing behind it. */
  lemma SplitReached(a: Str, b: Str, v: Str, w: Str)
    requires a != b
    ensures !Included(1, 2, [] + [Look(a, Some(v))] + [Look(b, Some(w))] + [Look(a, None)])
  {
    var e, f, g := Look(a, Some(v)), Look(b, Some(w)), Look(a, None);
    TwoReads(1, a, b, v, w);
    TwoReads(2, a, b, v, w);
    assert Splits(Keys([(b, w)] + []), Keys([(b, w)] + [(a, v)]), g) by {
      assert Keys([(b, w)] + []) == [b] && Keys([(b, w)] + [(a, v)]) == [b, a];
    }
    hide Run, Keys, Splits, NeverSplits, Included;
    SplitsNext(1, 2, [] + [e] + [f], g);
    InclusionExact(1, 2, [] + [e] + [f] + [g]);
  }

  lemma TwoReads(c: nat, a: Str, b: Str, v: Str, w: Str)
    requires 1 <= c <= 2 && a != b
    ensures Run(c, [] + [Look(a, Some(v))] + [Look(b, Some(w))]) == [(b, w)] + if c == 1 then [] else [(a, v)]
  {
    var e, f := Look(a, Some(v)), Look(b, Some(w));
    assert ([] + [e])[..0] == [] && ([] + [e] + [f])[..1] == [] + [e];
    assert Run(c, []) == [] && Run(c, [] + [e]) == Step([], c, e);
    assert Step([], c, e) == [(a, v)];
    assert Find([(a, v)], b) == 1;
  }

  /** The store holds the key after these events: its last one brought a value. */
  predicate Stored(es: seq<Event>, key: Str) {
    es != [] &&
    var e := es[|es| - 1];
    if e.key == key then e.Look? && e.stored.Some? else Stored(es[..|es| - 1], key)
  }

  /** A stored key leaves the store only by an invalidation, as the server sees to. */
  predicate Plausible(es: seq<Event>) {
    forall n :: 0 <= n < |es| && es[n].Look? && es[n].stored.None? ==> !Stored(es[..n], es[n].key)
  }

  lemma PlausibleInit(es: seq<Event>)
    requires Plausible(es) && es != []
    ensures Plausible(es[..|es| - 1])
  {
    var init := es[..|es| - 1];
    assert forall n :: 0 <= n < |init| ==> init[n] == es[n] && init[..n] == es[..n];
  }

  /** Only stored keys are cached. */
  lemma {:induction false} CachedStored(c: nat, es: seq<Event>, key: Str)
    requires c > 0 && Plausible(es) && key in Keys(Run(c, es))
    ensures Stored(es, key)
  {
    if es != [] {
      var init, e := es[..|es| - 1], es[|es| - 1];
      var s := Run(c, init);
      PlausibleInit(es);
      RecencyOrder(c, init);
      StepMembers(s, c, e, key);
      if key in Keys(s) {
        CachedStored(c, init, key);
      }
    }
  }

  /** Where the keys of a list come from. */
  lemma StepMembers(s: seq<Pair>, c: nat, e: Event, key: Str)
    requires c > 0 && Sound(s, c) && key in Keys(Step(s, c, e))
    ensures key in Keys(s) || (key == e.key && e.Look? && e.stored.Some?)
    ensures e.Drop? ==> key != e.key
  {
    var k, i := Keys(s), Find(s, e.key);
    StepKeys(s, c, e);
    if i < |k| {
      assert forall j :: 0 <= j < |k| - 1 ==> Without(k, i)[j] == k[if j < i then j else j + 1];
    }
  }

  lemma {:induction false} PlausibleKeeps(c: nat, d: nat, es: seq<Event>)
    requires 0 < c <= d && Plausible(es)
    ensures NeverSplits(c, d, es)
  {
    if es != [] {
      var init, e := es[..|es| - 1], es[|es| - 1];
      assert es == init + [e];
      PlausibleInit(es);
      PlausibleKeeps(c, d, init);
      if e.key in Keys(Run(d, init)) {
        CachedStored(d, init, e.key);
      }
      SplitsNext(c, d, init, e);
    }
  }

  /** Replaying one trace with a larger capacity keeps the smaller list a prefix, and hits never fall. */
  lemma StackInclusion(c: nat, d: nat, es: seq<Event>)
    requires 0 < c <= d && Plausible(es)
    ensures Sound(Run(c, es), c) && Sound(Run(d, es), d)
    ensures Included(c, d, es) && Keys(Run(c, es)) <= Keys(Run(d, es))
    ensures Hits(c, es) <= Hits(d, es)
  {
    RunSound(c, es);
    RunSound(d, es);
    PlausibleKeeps(c, d, es);
    InclusionExact(c, d, es);
  }

  // ---- recency

  /** When a key was last looked up, counting events from one; zero if never. */
  function LastUse(es: seq<Event>, key: Str): (n: nat)
    ensures n <= |es|
  {
    if es == [] then 0
    else if es[|es| - 1].Look? && es[|es| - 1].key == key then |es|
    else LastUse(es[..|es| - 1], key)
  }

  predicate ByRecency(k: seq<Str>, es: seq<Event>) {
    forall i, j :: 0 <= i < j < |k| ==> LastUse(es, k[i]) > LastUse(es, k[j])
  }

  lemma LastUseGrow(es: seq<Event>, e: Event, key: Str)
    ensures LastUse(es + [e], key) == if e.Look? && e.key == key then |es| + 1 else LastUse(es, key)
  {
    assert (es + [e])[..|es|] == es;
  }

  /** Entries other than the one looked up keep their order. */
  lemma RecencyKept(k: seq<Str>, es: seq<Event>, e: Event)
    requires ByRecency(k, es) && (e.Look? ==> e.key !in k)
    ensures ByRecency(k, es + [e])
    ensures e.Look? ==> ByRecency([e.key] + k, es + [e])
  {
    forall i | 0 <= i < |k| ensures LastUse(es + [e], k[i]) == LastUse(es, k[i]) {
      LastUseGrow(es, e, k[i]);
    }
    LastUseGrow(es, e, e.key);
  }

  lemma RecencyWithout(k: seq<Str>, es: seq<Event>, i: nat)
    requires ByRecency(k, es) && Distinct(k) && i < |k|
    ensures ByRecency(Without(k, i), es) && k[i] !in Without(k, i)
  {
    assert forall j :: 0 <= j < |k| - 1 ==> Without(k, i)[j] == k[if j < i then j else j + 1];
  }

  lemma RecencyStep(s: seq<Pair>, capacity: nat, es: seq<Event>, e: Event)
    requires capacity > 0 && ByRecency(Keys(s), es) && Sound(s, capacity)
    ensures ByRecency(Keys(Step(s, capacity, e)), es + [e])
  {
    var k, i := Keys(s), Find(s, e.key);
    StepKeys(s, capacity, e);
    if i < |k| {
      RecencyWithout(k, es, i);
      RecencyKept(Without(k, i), es, e);
    } else {
      assert e.key !in k;
      RecencyKept(if e.Look? && e.stored.Some? then Room(k, capacity) else k, es, e);
    }
  }

  /** In every run the entries are ordered by their last lookup, so the victim, the last entry,
      is the one whose last lookup is oldest. */
  lemma {:induction false} RecencyOrder(capacity: nat, es: seq<Event>)
    requires capacity > 0
    ensures Sound(Run(capacity, es), capacity) && ByRecency(Keys(Run(capacity, es)), es)
  {
    if es != [] {
      var init, e := es[..|es| - 1], es[|es| - 1];
      RecencyOrder(capacity, init);
      StepSound(Run(capacity, init), capacity, e);
      RecencyStep(Run(capacity, init), capacity, init, e);
      assert init + [e] == es;
    }
  }

  // ---- what is cached

  /** Below capacity an add loses nothing, and a full cache loses exactly its last entry. */
  lemma AddExact(s: seq<Pair>, capacity: nat, p: Pair)
    requires 0 < capacity && |s| <= capacity
    ensures Add(s, capacity, p) == [p] + if |s| < capacity then s else s[..|s| - 1]
  {
  }

  function Others(ks: seq<Str>, k: Str): seq<Str> {
    if ks == [] then [] else (if ks[0] == k then [] else [ks[0]]) + Others(ks[1..], k)
  }

  /** The keys in the order of their last use, the latest first, without those dropped since. A read uses its key
      if a value is stored behind or the key has been used before. */
  function Recent(es: seq<Event>): seq<Str> {
    if es == [] then [] else
      var r, e := Recent(es[..|es| - 1]), es[|es| - 1];
      if e.Drop? then Others(r, e.key) else if e.stored.Some? || e.key in r then [e.key] + Others(r, e.key) else r
  }

  function Position(ks: seq<Str>, k: Str): (i: nat)
    ensures i <= |ks| && (i < |ks| ==> ks[i] == k) && forall j :: 0 <= j < i ==> ks[j] != k
  {
    if ks == [] || ks[0] == k then 0 else Position(ks[1..], k) + 1
  }

  /** Ever since its last use the key has been among the `c` most recently used ones, and not dropped. */
  predicate Near(c: nat, es: seq<Event>, k: Str) {
    && es != []
    && var init, e := es[..|es| - 1], es[|es| - 1];
    if e.key == k then e.Look? && (e.stored.Some? || Near(c, init, k))
    else Near(c, init, k) && Position(Recent(es), k) < c
  }

  lemma {:induction false} OthersAbsent(ks: seq<Str>, k: Str)
    requires k !in ks
    ensures Others(ks, k) == ks
  {
    if ks != [] {
      assert ks[0] != k && k !in ks[1..];
      OthersAbsent(ks[1..], k);
      assert ks == [ks[0]] + ks[1..];
    }
  }

  lemma {:induction false} OthersAt(ks: seq<Str>, k: Str)
    requires Distinct(ks)
    ensures var j := Position(ks, k); Others(ks, k) == if j < |ks| then Without(ks, j) else ks
  {
    var j := Position(ks, k);
    if j == |ks| {
      OthersAbsent(ks, k);
    } else if j == 0 {
      forall i | 0 <= i < |ks[1..]| ensures ks[1..][i] != k {
        assert ks[1..][i] == ks[i + 1];
      }
      OthersAbsent(ks[1..], k);
      assert Without(ks, 0) == ks[1..];
    } else {
      var tail := ks[1..];
      forall x, y | 0 <= x < y < |tail| ensures tail[x] != tail[y] {
        assert tail[x] == ks[x + 1] && tail[y] == ks[y + 1];
      }
      OthersAt(tail, k);
      assert Position(tail, k) == j - 1;
      assert Without(ks, j) == [ks[0]] + Without(tail, j - 1);
    }
  }

  /** One event on keys in the order of their use. */
  function Used(r: seq<Str>, e: Event): seq<Str> {
    var j := Position(r, e.key);
    if e.Drop? then (if j < |r| then Without(r, j) else r)
    else if j < |r| then Front(r, j) else if e.stored.Some? then [e.key] + r else r
  }

  lemma RecentNext(es: seq<Event>, e: Event)
    requires Distinct(Recent(es))
    ensures Recent(es + [e]) == Used(Recent(es), e) && Distinct(Recent(es + [e]))
  {
    assert (es + [e])[..|es|] == es;
    var r, j := Recent(es), Position(Recent(es), e.key);
    OthersAt(r, e.key);
    assert e.key in r <==> j < |r|;
    hide Others, Distinct, Without;
    if j < |r| {
      WithoutDistinct(r, j);
    } else {
      FrontDistinct(r, e.key);
    }
  }

  lemma FrontDistinct(r: seq<Str>, k: Str)
    requires Distinct(r) && k !in r
    ensures Distinct([k] + r)
  {
  }

  /** Only stored keys are recent. */
  lemma {:induction false} RecentStored(es: seq<Event>, key: Str)
    requires Plausible(es) && key in Recent(es)
    ensures Stored(es, key)
  {
    assert es != [];
    var init, e := es[..|es| - 1], es[|es| - 1];
    PlausibleInit(es);
    RecentDistinct(init);
    assert es == init + [e];
    RecentNext(init, e);
    var r, j := Recent(init), Position(Recent(init), e.key);
    RecentMembers(r, j, key);
    if key in r {
      RecentStored(init, key);
    }
  }

  lemma RecentMembers(r: seq<Str>, j: nat, key: Str)
    requires Distinct(r)
    ensures j < |r| && key in Without(r, j) ==> key in r && key != r[j]
    ensures j < |r| && key in Front(r, j) ==> key in r
  {
    if j < |r| {
      assert forall i :: 0 <= i < |r| - 1 ==> Without(r, j)[i] == r[if i < j then i else i + 1];
    }
  }

  lemma {:induction false} RecentDistinct(es: seq<Event>)
    ensures Distinct(Recent(es))
  {
    if es != [] {
      RecentDistinct(es[..|es| - 1]);
      assert es == es[..|es| - 1] + [es[|es| - 1]];
      RecentNext(es[..|es| - 1], es[|es| - 1]);
    }
  }

  /** One event on the cached keys `a` and on the recent keys `b`. */
  lemma RecentStep(s: seq<Pair>, c: nat, b: seq<Str>, e: Event)
    requires 0 < c && Sound(s, c) && Keys(s) <= b && Distinct(b)
    requires e.Look? && e.stored.None? ==> e.key !in b || e.key in Keys(s)
    ensures Keys(Step(s, c, e)) <= Used(b, e)
  {
    var a, i, j := Keys(s), Find(s, e.key), Position(b, e.key);
    assert forall k :: 0 <= k < |s| ==> a[k] == b[k];
    StepKeys(s, c, e);
    if i < |s| {
      assert j == i;
      PrefixSteps(a, b, i);
    } else if j < |b| {
      assert b[j] in b && e.key !in a;
      PrefixMiss(a, b, j, c);
    } else {
      PrefixRoom(a, b, c, |b| + c + 1, e.key);
    }
  }

  lemma WithoutKeeps(k: seq<Str>, i: nat, q: Str)
    requires i < |k| && q in k && q != k[i]
    ensures q in Without(k, i) && q in Front(k, i)
  {
    var x :| 0 <= x < |k| && k[x] == q;
    assert Without(k, i)[if x < i then x else x - 1] == q;
    assert q in Without(k, i);
  }

  lemma RoomKeeps(k: seq<Str>, c: nat, key: Str, q: Str)
    requires 0 < c && |k| <= c && q in k
    ensures q in [key] + Room(k, c) || |[key] + Room(k, c)| == c
  {
  }

  /** What a step may lose: nothing while there is room. */
  lemma StepLoses(s: seq<Pair>, c: nat, e: Event, q: Str)
    requires 0 < c && Sound(s, c) && q in Keys(s) && q != e.key
    ensures q in Keys(Step(s, c, e)) || |Step(s, c, e)| == c
  {
    var k, i := Keys(s), Find(s, e.key);
    StepKeys(s, c, e);
    if i < |k| {
      WithoutKeeps(k, i, q);
    } else if e.Look? && e.stored.Some? {
      RoomKeeps(k, c, e.key, q);
    }
  }

  lemma StepOwn(s: seq<Pair>, c: nat, e: Event)
    requires 0 < c && Sound(s, c)
    ensures e.key in Keys(Step(s, c, e)) <==> e.Look? && (e.stored.Some? || e.key in Keys(s))
  {
    var k, i := Keys(s), Find(s, e.key);
    StepKeys(s, c, e);
    if i < |k| {
      assert k[i] in k;
      RecentMembers(k, i, e.key);
    }
  }

  /** The cached keys are the first of the recent ones. */
  lemma {:induction false} CachedRecent(c: nat, es: seq<Event>)
    requires c > 0 && Plausible(es)
    ensures Keys(Run(c, es)) <= Recent(es)
  {
    if es != [] {
      var init, e := es[..|es| - 1], es[|es| - 1];
      assert es == init + [e] && Run(c, es) == Step(Run(c, init), c, e);
      PlausibleInit(es);
      PlausibleRead(es);
      hide Run, Recent, Used, Step, Sound, Distinct, Keys, Plausible, Stored;
      CachedRecent(c, init);
      RunSound(c, init);
      RecentDistinct(init);
      RecentStep(Run(c, init), c, Recent(init), e);
      RecentNext(init, e);
    }
  }

  /** A read with nothing stored behind is not of a recent key. */
  lemma PlausibleRead(es: seq<Event>)
    requires Plausible(es) && es != []
    ensures var e := es[|es| - 1]; e.Look? && e.stored.None? ==> e.key !in Recent(es[..|es| - 1])
  {
    var init, e := es[..|es| - 1], es[|es| - 1];
    PlausibleInit(es);
    if e.key in Recent(init) {
      RecentStored(init, e.key);
    }
  }

  /** Exactly which keys are cached, so exactly which reads hit: those that have been among the `c` most recently
      used ones ever since their last use. */
  lemma {:induction false} CachedExact(c: nat, es: seq<Event>, k: Str)
    requires c > 0 && Plausible(es)
    ensures k in Keys(Run(c, es)) <==> Near(c, es, k)
  {
    if es != [] {
      var init, e := es[..|es| - 1], es[|es| - 1];
      PlausibleInit(es);
      CachedExact(c, init, k);
      RunSound(c, init);
      RunSound(c, es);
      if k == e.key {
        StepOwn(Run(c, init), c, e);
      } else {
        CachedRecent(c, es);
        StaysNear(c, init, e, k);
      }
    }
  }

  lemma StaysNear(c: nat, init: seq<Event>, e: Event, k: Str)
    requires c > 0 && k != e.key && Keys(Run(c, init + [e])) <= Recent(init + [e])
    ensures k in Keys(Run(c, init + [e])) <==> k in Keys(Run(c, init)) && Position(Recent(init + [e]), k) < c
  {
    var es := init + [e];
    assert es[..|init|] == init;
    var s, t, r := Run(c, init), Run(c, es), Recent(es);
    RunSound(c, init);
    RunSound(c, es);
    assert t == Step(s, c, e);
    var x := Position(r, k);
    if k in Keys(t) {
      StepMembers(s, c, e, k);
      var i :| 0 <= i < |Keys(t)| && Keys(t)[i] == k;
      assert r[i] == k;
    } else if k in Keys(s) {
      StepLoses(s, c, e, k);
      assert forall i :: 0 <= i < |Keys(t)| ==> r[i] == Keys(t)[i] != k;
    }
  }

  /** The first `c` keys, or all. */
  function Take(ks: seq<Str>, c: nat): seq<Str> {
    if |ks| < c then ks else ks[..c]
  }

  lemma TakeStep(s: seq<Pair>, c: nat, b: seq<Str>, e: Event)
    requires 0 < c && Keys(s) == Take(b, c) && Distinct(b) && e.Look?
    requires e.stored.None? ==> e.key !in b
    requires Keys(Step(s, c, e)) <= Used(b, e)
    ensures Keys(Step(s, c, e)) == Take(Used(b, e), c)
  {
    var a, i, j := Keys(s), Find(s, e.key), Position(b, e.key);
    StepKeys(s, c, e);
    assert forall k :: 0 <= k < |s| ==> a[k] == b[k];
    if j < |b| {
      assert b[j] in b;
    }
    assert i < |s| ==> i == j;
    assert |Keys(Step(s, c, e))| == |Take(Used(b, e), c)|;
  }

  /** Without deletions the cache holds just the `c` most recently used keys. */
  lemma {:induction false} MostRecent(c: nat, es: seq<Event>)
    requires c > 0 && Plausible(es) && forall e :: e in es ==> e.Look?
    ensures Keys(Run(c, es)) == Take(Recent(es), c)
  {
    if es != [] {
      var init, e := es[..|es| - 1], es[|es| - 1];
      assert e in es && (forall x :: x in init ==> x in es) && es == init + [e];
      assert Run(c, es) == Step(Run(c, init), c, e);
      PlausibleInit(es);
      PlausibleRead(es);
      CachedRecent(c, es);
      hide Run, Recent, Used, Step, Sound, Distinct, Keys, Plausible, Take;
      MostRecent(c, init);
      RecentDistinct(init);
      RecentNext(init, e);
      TakeStep(Run(c, init), c, Recent(init), e);
    }
  }

  /** A deletion leaves a gap that an evicted key does not fill again. */
  lemma DropLeavesGap(a: Str, b: Str, v: Str, w: Str)
    requires a != b
    ensures var es := [] + [Look(a, Some(v))] + [Look(b, Some(w))] + [Drop(b)];
      Run(1, es) == [] && Recent(es) == [a]
  {
    var e, f, g := Look(a, Some(v)), Look(b, Some(w)), Drop(b);
    TwoReads(1, a, b, v, w);
    assert ([] + [e] + [f] + [g])[..2] == [] + [e] + [f] && ([] + [e] + [f])[..1] == [] + [e] && ([] + [e])[..0] == [];
    assert Recent([]) == [] && Recent([] + [e]) == [a] && Others([a], b) == [a] + Others([], b);
    assert Recent([] + [e] + [f]) == [b, a];
    assert [b, a][1..] == [a] && Others([b, a], b) == [] + Others([a], b);
    assert Find([(b, w)], b) == 0 && Without([(b, w)], 0) == [];
  }
}
