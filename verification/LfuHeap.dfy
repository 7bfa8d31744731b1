/** The LFU cache: a 1-based binary min-heap on access counts, kept in a sequence. */
module LfuHeap {
  import opened Strings
  import opened Pairs
  import opened CacheBag

  datatype Item = Item(key: Str, value: Str, count: nat)
  type Heap = seq<Item>

  /** The access count in slot `i`, counting slots from one. */
  function Count(h: Heap, i: nat): nat
    requires 1 <= i <= |h|
  {
    h[i - 1].count
  }

  function Swap(h: Heap, i: nat, j: nat): Heap
    requires 1 <= i <= |h| && 1 <= j <= |h|
  {
    h[i - 1 := h[j - 1]][j - 1 := h[i - 1]]
  }

  predicate Ordered(h: Heap) {
    forall i :: 2 <= i <= |h| ==> Count(h, i / 2) <= Count(h, i)
  }

  /** The slot among `i` and its children that `lfu_heapify_down` moves up: a child only if it is smaller, and
      of two equal children the left one. */
  function Smallest(h: Heap, i: nat): (s: nat)
    requires 1 <= i
    ensures s == i || ((s == 2 * i || s == 2 * i + 1) && s <= |h| && Count(h, s) < Count(h, i))
    ensures forall c :: 2 * i <= c <= 2 * i + 1 && c <= |h| ==> Count(h, s) <= Count(h, c)
    ensures s == 2 * i + 1 ==> Count(h, s) < Count(h, 2 * i)
  {
    var l, r := 2 * i, 2 * i + 1;
    var s := if l <= |h| && Count(h, l) < Count(h, i) then l else i;
    if r <= |h| && Count(h, r) < Count(h, s) then r else s
  }

  function SiftDown(h: Heap, i: nat): Heap
    requires 1 <= i
    decreases |h| - i
  {
    var s := Smallest(h, i);
    if s == i then h else SiftDown(Swap(h, s, i), s)
  }

  function SiftUp(h: Heap, i: nat): Heap
    requires 1 <= i <= |h|
    decreases i
  {
    if i == 1 || Count(h, i / 2) <= Count(h, i) then h else SiftUp(Swap(h, i / 2, i), i / 2)
  }

  // ---- both repairs only move items around

  lemma SwapPermutes(h: Heap, i: nat, j: nat)
    requires 1 <= i <= |h| && 1 <= j <= |h|
    ensures multiset(Swap(h, i, j)) == multiset(h)
  {
  }

  lemma {:induction false} SiftDownPermutes(h: Heap, i: nat)
    requires 1 <= i
    ensures multiset(SiftDown(h, i)) == multiset(h) && |SiftDown(h, i)| == |h|
    decreases |h| - i
  {
    var s := Smallest(h, i);
    if s != i {
      SwapPermutes(h, s, i);
      SiftDownPermutes(Swap(h, s, i), s);
    }
  }

  lemma {:induction false} SiftUpPermutes(h: Heap, i: nat)
    requires 1 <= i <= |h|
    ensures multiset(SiftUp(h, i)) == multiset(h) && |SiftUp(h, i)| == |h|
    decreases i
  {
    if i != 1 && Count(h, i / 2) > Count(h, i) {
      SwapPermutes(h, i / 2, i);
      SiftUpPermutes(Swap(h, i / 2, i), i / 2);
    }
  }

  // ---- and restore the order

  /** Ordered but for the item in slot `i`, which may be too large. */
  predicate TooLargeAt(h: Heap, i: nat) {
    && (forall j :: 2 <= j <= |h| && j / 2 != i ==> Count(h, j / 2) <= Count(h, j))
    && (forall j :: 4 <= j <= |h| && j / 2 == i ==> Count(h, i / 2) <= Count(h, j))
  }

  lemma {:induction false} SiftDownOrders(h: Heap, i: nat)
    requires 1 <= i && TooLargeAt(h, i)
    ensures Ordered(SiftDown(h, i))
    decreases |h| - i
  {
    var s := Smallest(h, i);
    if s != i {
      var g := Swap(h, s, i);
      assert s / 2 == i;
      SiftDownOrders(g, s);
    } else {
      assert forall j :: 2 <= j <= |h| && j / 2 == i ==> j == 2 * i || j == 2 * i + 1;
    }
  }

  /** Ordered but for the item in slot `i`, which may be too small. */
  predicate TooSmallAt(h: Heap, i: nat) {
    && (forall j :: 2 <= j <= |h| && j != i ==> Count(h, j / 2) <= Count(h, j))
    && (forall j :: 4 <= j <= |h| && j / 2 == i ==> Count(h, i / 2) <= Count(h, j))
  }

  lemma {:induction false} SiftUpOrders(h: Heap, i: nat)
    requires 1 <= i <= |h| && TooSmallAt(h, i)
    ensures Ordered(SiftUp(h, i))
    decreases i
  {
    if i != 1 && Count(h, i / 2) > Count(h, i) {
      SiftUpOrders(Swap(h, i / 2, i), i / 2);
    }
  }

  /** The root of an ordered heap has the smallest count. */
  lemma {:induction false} RootIsMinimal(h: Heap, i: nat)
    requires Ordered(h) && 1 <= i <= |h|
    ensures Count(h, 1) <= Count(h, i)
  {
    if i > 1 {
      RootIsMinimal(h, i / 2);
    }
  }

  // ---- the cache operations

  /** The first slot that holds the key, one past the end when there is none. */
  function Slot(h: Heap, key: Str): (i: nat)
    ensures 1 <= i <= |h| + 1
    ensures i <= |h| ==> h[i - 1].key == key
    ensures forall j :: 0 <= j < i - 1 ==> h[j].key != key
  {
    if h == [] || h[0].key == key then 1 else Slot(h[1..], key) + 1
  }

  /** A hit bumps the count and sifts down. */
  function Hit(h: Heap, i: nat): Heap
    requires 1 <= i <= |h|
  {
    SiftDown(h[i - 1 := h[i - 1].(count := h[i - 1].count + 1)], i)
  }

  /** Slot `i` overwritten by the last item, which is then dropped from its own slot. */
  function Filled(h: Heap, i: nat): Heap
    requires 1 <= i <= |h|
  {
    h[i - 1 := h[|h| - 1]][..|h| - 1]
  }

  function RemoveAt(h: Heap, i: nat): Heap
    requires 1 <= i <= |h|
  {
    SiftDown(Filled(h, i), i)
  }

  /** A full heap evicts its root before it takes the new item at the bottom. */
  function Insert(h: Heap, capacity: nat, item: Item): Heap {
    var g := if |h| >= capacity && h != [] then RemoveAt(h, 1) else h;
    if |g| >= capacity then g else SiftUp(g + [item], |g| + 1)
  }

  lemma HitKeepsOrder(h: Heap, i: nat)
    requires Ordered(h) && 1 <= i <= |h|
    ensures Ordered(Hit(h, i))
  {
    hide SiftDown;
    var g := h[i - 1 := h[i - 1].(count := h[i - 1].count + 1)];
    assert forall j :: 2 <= j <= |h| ==> Count(h, j / 2) <= Count(h, j);
    forall j | 4 <= j <= |g| && j / 2 == i ensures Count(g, i / 2) <= Count(g, j) {
      assert Count(h, i / 2) <= Count(h, i) <= Count(h, j);
    }
    SiftDownOrders(g, i);
  }

  /** When may an item be removed from slot `i` without upsetting the order? */
  predicate Removable(h: Heap, i: nat)
    requires 1 <= i <= |h|
  {
    i == 1 || i == |h| || Count(h, i / 2) <= Count(h, |h|)
  }

  lemma RemovableKeepsOrder(h: Heap, i: nat)
    requires Ordered(h) && 1 <= i <= |h| && Removable(h, i)
    ensures Ordered(RemoveAt(h, i))
  {
    var g := Filled(h, i);
    forall j | 4 <= j <= |g| && j / 2 == i ensures Count(g, i / 2) <= Count(g, j) {
      assert Count(h, i / 2) <= Count(h, i) <= Count(h, j);
    }
    forall j | 2 <= j <= |g| && j / 2 != i ensures Count(g, j / 2) <= Count(g, j) {
      assert Count(h, j / 2) <= Count(h, j);
    }
    SiftDownOrders(g, i);
  }

  /** Otherwise the moved item is smaller than everything below the slot, stays, and is out of order. */
  lemma UnremovableBreaksOrder(h: Heap, i: nat)
    requires Ordered(h) && 1 <= i <= |h| && !Removable(h, i)
    ensures !Ordered(RemoveAt(h, i))
  {
    var g := Filled(h, i);
    forall j | 2 * i <= j <= 2 * i + 1 && j <= |g| ensures Count(g, i) < Count(g, j) {
      assert j / 2 == i;
      assert Count(h, i / 2) <= Count(h, i) <= Count(h, j);
    }
    assert Smallest(g, i) == i;
    assert Count(g, i / 2) > Count(g, i);
  }

  /** Deleting slot `i` of an ordered heap keeps it ordered exactly when the slot is removable. */
  lemma DeleteKeepsOrderIff(h: Heap, i: nat)
    requires Ordered(h) && 1 <= i <= |h|
    ensures Ordered(RemoveAt(h, i)) <==> Removable(h, i)
  {
    if Removable(h, i) {
      RemovableKeepsOrder(h, i);
    } else {
      UnremovableBreaksOrder(h, i);
    }
  }

  lemma AppendOrder(g: Heap, item: Item)
    requires Ordered(g)
    ensures TooSmallAt(g + [item], |g| + 1)
  {
    forall j | 2 <= j <= |g| ensures Count(g + [item], j / 2) <= Count(g + [item], j) {
      assert Count(g, j / 2) <= Count(g, j);
    }
  }

  lemma InsertKeepsOrder(h: Heap, capacity: nat, item: Item)
    requires Ordered(h)
    ensures Ordered(Insert(h, capacity, item))
  {
    hide Ordered, RemoveAt, SiftUp;
    var g := if |h| >= capacity && h != [] then RemoveAt(h, 1) else h;
    if |h| >= capacity && h != [] {
      RemovableKeepsOrder(h, 1);
    }
    if |g| < capacity {
      AppendOrder(g, item);
      SiftUpOrders(g + [item], |g| + 1);
    }
  }

  // ---- what the heap holds

  function Bindings(h: Heap): (s: seq<Pair>)
    ensures |s| == |h| && forall i :: 0 <= i < |h| ==> s[i] == (h[i].key, h[i].value)
  {
    seq(|h|, i requires 0 <= i < |h| => (h[i].key, h[i].value))
  }

  function Held(h: Heap): Bag {
    multiset(Bindings(h))
  }

  lemma SwapHolds(h: Heap, i: nat, j: nat)
    requires 1 <= i <= |h| && 1 <= j <= |h|
    ensures Held(Swap(h, i, j)) == Held(h)
  {
    var s := Bindings(h);
    assert Bindings(Swap(h, i, j)) == s[i - 1 := s[j - 1]][j - 1 := s[i - 1]];
  }

  lemma {:induction false} SiftDownHolds(h: Heap, i: nat)
    requires 1 <= i
    ensures Held(SiftDown(h, i)) == Held(h) && |SiftDown(h, i)| == |h|
    decreases |h| - i
  {
    var s := Smallest(h, i);
    if s != i {
      SwapHolds(h, s, i);
      SiftDownHolds(Swap(h, s, i), s);
    }
  }

  lemma {:induction false} SiftUpHolds(h: Heap, i: nat)
    requires 1 <= i <= |h|
    ensures Held(SiftUp(h, i)) == Held(h) && |SiftUp(h, i)| == |h|
    decreases i
  {
    if i != 1 && Count(h, i / 2) > Count(h, i) {
      SwapHolds(h, i / 2, i);
      SiftUpHolds(Swap(h, i / 2, i), i / 2);
    }
  }

  lemma HitHolds(h: Heap, i: nat)
    requires 1 <= i <= |h|
    ensures Held(Hit(h, i)) == Held(h) && |Hit(h, i)| == |h|
  {
    var g := h[i - 1 := h[i - 1].(count := h[i - 1].count + 1)];
    assert Bindings(g) == Bindings(h);
    SiftDownHolds(g, i);
  }

  lemma OverwriteWithLast(s: seq<Pair>, k: nat)
    requires k < |s|
    ensures multiset(s[k := s[|s| - 1]][..|s| - 1]) == multiset(s) - multiset{s[k]}
  {
    var n := |s| - 1;
    assert s == s[..n] + [s[n]];
    if k < n {
      var a, b := s[..k], s[k + 1..n];
      assert s[k := s[n]][..n] == a + [s[n]] + b;
      assert s[..n] == a + [s[k]] + b;
    } else {
      assert s[k := s[n]][..n] == s[..n];
    }
  }

  lemma RemoveHolds(h: Heap, i: nat)
    requires 1 <= i <= |h|
    ensures Held(RemoveAt(h, i)) == Held(h) - multiset{Bindings(h)[i - 1]} && |RemoveAt(h, i)| == |h| - 1
  {
    var s := Bindings(h);
    OverwriteWithLast(s, i - 1);
    assert Bindings(Filled(h, i)) == s[i - 1 := s[|s| - 1]][..|s| - 1];
    SiftDownHolds(Filled(h, i), i);
  }

  lemma InsertHolds(h: Heap, capacity: nat, item: Item)
    ensures Admits(Held(h), (item.key, item.value), Held(Insert(h, capacity, item)))
  {
    hide Held, RemoveAt, SiftUp;
    var g := if |h| >= capacity && h != [] then RemoveAt(h, 1) else h;
    if |h| >= capacity && h != [] {
      RemoveHolds(h, 1);
    }
    if |g| < capacity {
      AppendHolds(g, item);
    }
  }

  lemma AppendHolds(g: Heap, item: Item)
    ensures Held(SiftUp(g + [item], |g| + 1)) == Held(g) + multiset{(item.key, item.value)}
  {
    assert Bindings(g + [item]) == Bindings(g) + [(item.key, item.value)];
    SiftUpHolds(g + [item], |g| + 1);
  }

  lemma InsertStocks(h: Heap, capacity: nat, item: Item)
    requires |h| <= capacity && capacity > 0
    ensures Stocks(Held(h), (item.key, item.value), Held(Insert(h, capacity, item)), |h| == capacity)
  {
    hide Held, RemoveAt, SiftUp, Stocks, Bindings;
    if |h| == capacity {
      RemoveHolds(h, 1);
      AppendHolds(RemoveAt(h, 1), item);
      FirstHeld(h);
      Exchanged(Held(h), Bindings(h)[0], (item.key, item.value), Held(Insert(h, capacity, item)));
    } else {
      AppendHolds(h, item);
      Gained(Held(h), (item.key, item.value));
    }
  }

  lemma Gained(b: Bag, p: Pair)
    ensures Stocks(b, p, b + multiset{p}, false)
  {
  }

  lemma FirstHeld(h: Heap)
    requires h != []
    ensures Bindings(h)[0] in Held(h)
  {
    assert Bindings(h)[0] in Bindings(h);
  }

  lemma Exchanged(b: Bag, q: Pair, p: Pair, b': Bag)
    requires q in b && b' == b - multiset{q} + multiset{p}
    ensures Stocks(b, p, b', true)
  {
  }

  /** The slot scan finds a binding exactly when the bag has one. */
  lemma SlotAnswers(h: Heap, key: Str)
    ensures Answers(Held(h), key, if Slot(h, key) <= |h| then Some(h[Slot(h, key) - 1].value) else None)
  {
    var i := Slot(h, key);
    if i <= |h| {
      assert Bindings(h)[i - 1] in Bindings(h);
    } else {
      forall p | p in Held(h) ensures p.0 != key {
        assert p in Bindings(h);
      }
    }
  }

  function Del(h: Heap, key: Str): Heap {
    var i := Slot(h, key);
    if i <= |h| then RemoveAt(h, i) else h
  }

  lemma DelHolds(h: Heap, key: Str)
    requires Functional(Held(h))
    ensures Purges(Held(h), key, Held(Del(h, key)))
  {
    var i := Slot(h, key);
    SlotAnswers(h, key);
    if i <= |h| {
      RemoveHolds(h, i);
      DropPurges(Held(h), Bindings(h)[i - 1]);
    } else {
      AbsentPurges(Held(h), key);
    }
  }

  // ---- what leaves and what stays

  /** A hit counts up its own item and no other. */
  lemma HitExact(h: Heap, i: nat)
    requires 1 <= i <= |h|
    ensures multiset(Hit(h, i))
      == multiset(h) - multiset{h[i - 1]} + multiset{h[i - 1].(count := h[i - 1].count + 1)}
  {
    var x := h[i - 1].(count := h[i - 1].count + 1);
    ReplaceItem(h, i - 1, x);
    SiftDownPermutes(h[i - 1 := x], i);
  }

  lemma ReplaceItem(h: Heap, k: nat, x: Item)
    requires k < |h|
    ensures multiset(h[k := x]) == multiset(h) - multiset{h[k]} + multiset{x}
  {
    assert h == h[..k] + [h[k]] + h[k + 1..] && h[k := x] == h[..k] + [x] + h[k + 1..];
  }

  /** A removal takes out the item of its slot and leaves all others with their counts. */
  lemma RemoveExact(h: Heap, i: nat)
    requires 1 <= i <= |h|
    ensures multiset(RemoveAt(h, i)) == multiset(h) - multiset{h[i - 1]}
  {
    var n := |h| - 1;
    SiftDownPermutes(Filled(h, i), i);
    assert h == h[..n] + [h[n]];
    if i - 1 < n {
      assert Filled(h, i) == h[..n][i - 1 := h[n]];
      ReplaceItem(h[..n], i - 1, h[n]);
    } else {
      assert Filled(h, i) == h[..n];
    }
  }

  lemma AppendExact(g: Heap, item: Item)
    ensures multiset(SiftUp(g + [item], |g| + 1)) == multiset(g) + multiset{item}
  {
    SiftUpPermutes(g + [item], |g| + 1);
  }

  /** Below capacity an insertion loses nothing. */
  lemma InsertKeepsAll(h: Heap, capacity: nat, item: Item)
    requires |h| < capacity
    ensures multiset(Insert(h, capacity, item)) == multiset(h) + multiset{item}
  {
    AppendExact(h, item);
  }

  /** A full heap loses exactly one item, and none that stays has been used less. */
  lemma InsertEvicts(h: Heap, capacity: nat, item: Item) returns (lost: Item)
    requires Ordered(h) && |h| == capacity > 0
    ensures lost in h && multiset(Insert(h, capacity, item)) == multiset(h) - multiset{lost} + multiset{item}
    ensures forall x :: x in h ==> lost.count <= x.count
  {
    lost := h[0];
    RootLeast(h);
    hide Ordered, RemoveAt, SiftUp, Held;
    RemoveExact(h, 1);
    RemoveHolds(h, 1);
    AppendExact(RemoveAt(h, 1), item);
  }

  lemma RootLeast(h: Heap)
    requires Ordered(h) && h != []
    ensures forall x :: x in h ==> h[0].count <= x.count
  {
    forall x | x in h ensures h[0].count <= x.count {
      var i :| 0 <= i < |h| && h[i] == x;
      RootIsMinimal(h, i + 1);
      assert Count(h, 1) <= Count(h, i + 1);
    }
  }

  // ---- runs

  function Step(h: Heap, capacity: nat, e: Event): Heap {
    match e
    case Drop(k) => Del(h, k)
    case Look(k, stored) =>
      var i := Slot(h, k);
      if i <= |h| then Hit(h, i) else if stored.Some? then Insert(h, capacity, Item(k, stored.value, 1)) else h
  }

  function Run(capacity: nat, es: seq<Event>): Heap {
    if es == [] then [] else Step(Run(capacity, es[..|es| - 1]), capacity, es[|es| - 1])
  }

  /** The event does not delete from a slot where that upsets the order. */
  predicate Harmless(h: Heap, e: Event) {
    e.Look? || Slot(h, e.key) > |h| || Removable(h, Slot(h, e.key))
  }

  lemma StepKeeps(h: Heap, capacity: nat, e: Event)
    requires Ordered(h) && |h| <= capacity
    ensures Ordered(Step(h, capacity, e)) <==> Harmless(h, e)
    ensures |Step(h, capacity, e)| <= capacity
  {
    var i := Slot(h, e.key);
    if i <= |h| {
      if e.Drop? {
        DeleteKeepsOrderIff(h, i);
        SiftDownPermutes(Filled(h, i), i);
      } else {
        HitKeepsOrder(h, i);
        SiftDownPermutes(h[i - 1 := h[i - 1].(count := h[i - 1].count + 1)], i);
      }
    } else if e.Look? && e.stored.Some? {
      InsertKeepsOrder(h, capacity, Item(e.key, e.stored.value, 1));
      InsertFits(h, capacity, Item(e.key, e.stored.value, 1));
    }
  }

  lemma InsertFits(h: Heap, capacity: nat, item: Item)
    requires |h| <= capacity
    ensures |Insert(h, capacity, item)| <= capacity
  {
    if |h| >= capacity && h != [] {
      SiftDownPermutes(Filled(h, 1), 1);
    }
    var g := if |h| >= capacity && h != [] then RemoveAt(h, 1) else h;
    if |g| < capacity {
      SiftUpPermutes(g + [item], |g| + 1);
    }
  }

  /** Over every run of lookups, evictions and harmless deletions the array stays a min-heap, so what
      a full cache evicts, its root, has the smallest count of all. */
  lemma {:induction false} RunOrdered(capacity: nat, es: seq<Event>)
    requires forall n :: 0 <= n < |es| ==> Harmless(Run(capacity, es[..n]), es[n])
    ensures Ordered(Run(capacity, es)) && |Run(capacity, es)| <= capacity
    ensures forall i :: 1 <= i <= |Run(capacity, es)| ==> Count(Run(capacity, es), 1) <= Count(Run(capacity, es), i)
  {
    if es != [] {
      var init := es[..|es| - 1];
      forall n | 0 <= n < |init| ensures Harmless(Run(capacity, init[..n]), init[n]) {
        assert init[..n] == es[..n];
      }
      RunOrdered(capacity, init);
      StepKeeps(Run(capacity, init), capacity, es[|es| - 1]);
    }
    forall i | 1 <= i <= |Run(capacity, es)| ensures Count(Run(capacity, es), 1) <= Count(Run(capacity, es), i) {
      RootIsMinimal(Run(capacity, es), i);
    }
  }

  /** Over every such run, a read that misses a full cache evicts one item that has been used least. */
  lemma RunEvicts(capacity: nat, es: seq<Event>, k: Str, v: Str) returns (lost: Item)
    requires forall n :: 0 <= n < |es| ==> Harmless(Run(capacity, es[..n]), es[n])
    requires |Run(capacity, es)| == capacity > 0 && Slot(Run(capacity, es), k) > capacity
    ensures var h, h' := Run(capacity, es), Run(capacity, es + [Look(k, Some(v))]);
      lost in h && multiset(h') == multiset(h) - multiset{lost} + multiset{Item(k, v, 1)}
      && forall x :: x in h ==> lost.count <= x.count
  {
    RunOrdered(capacity, es);
    RunNext(capacity, es, Look(k, Some(v)));
    lost := InsertEvicts(Run(capacity, es), capacity, Item(k, v, 1));
  }

  // ---- what the counts count

  predicate Absent(h: Heap, key: Str) {
    forall i :: 0 <= i < |h| ==> h[i].key != key
  }

  lemma CountedTwice(s: seq<Pair>, i: nat, j: nat)
    requires i < j < |s| && s[i] == s[j]
    ensures multiset(s)[s[i]] >= 2
  {
    assert s == s[..j] + s[j..];
    assert s[i] in multiset(s[..j]) by {
      assert s[..j][i] == s[i];
    }
    assert s[i] in multiset(s[j..]) by {
      assert s[j..][0] == s[i];
    }
  }

  /** No two slots hold one key. */
  lemma KeysApart(h: Heap, i: nat, j: nat)
    requires Functional(Held(h)) && i < j < |h|
    ensures h[i].key != h[j].key
  {
    var s := Bindings(h);
    if h[i].key == h[j].key {
      assert s[i] in s && s[j] in s;
      CountedTwice(s, i, j);
    }
  }

  lemma OnePerKey(h: Heap, x: Item, y: Item)
    requires Functional(Held(h)) && x in h && y in h && x.key == y.key
    ensures x == y
  {
    var i :| 0 <= i < |h| && h[i] == x;
    var j :| 0 <= j < |h| && h[j] == y;
    if i < j {
      KeysApart(h, i, j);
    } else if j < i {
      KeysApart(h, j, i);
    }
  }

  lemma StepFunctional(h: Heap, capacity: nat, e: Event)
    requires Functional(Held(h))
    ensures Functional(Held(Step(h, capacity, e)))
  {
    var i := Slot(h, e.key);
    SlotAnswers(h, e.key);
    if e.Drop? {
      DelHolds(h, e.key);
      PurgesFunctional(Held(h), e.key, Held(Del(h, e.key)));
    } else if i <= |h| {
      HitHolds(h, i);
    } else if e.stored.Some? {
      var item := Item(e.key, e.stored.value, 1);
      InsertHolds(h, capacity, item);
      AdmitsFunctional(Held(h), (item.key, item.value), Held(Insert(h, capacity, item)));
    }
  }

  lemma {:induction false} RunFunctional(capacity: nat, es: seq<Event>)
    ensures Functional(Held(Run(capacity, es)))
  {
    if es == [] {
      assert Bindings([]) == [];
    } else {
      RunFunctional(capacity, es[..|es| - 1]);
      StepFunctional(Run(capacity, es[..|es| - 1]), capacity, es[|es| - 1]);
    }
  }

  lemma InsertFrom(h: Heap, capacity: nat, item: Item, x: Item)
    requires x in Insert(h, capacity, item)
    ensures x in h || x == item
  {
    var g := if |h| >= capacity && h != [] then RemoveAt(h, 1) else h;
    if |h| >= capacity && h != [] {
      RemoveExact(h, 1);
    }
    if |g| < capacity {
      AppendExact(g, item);
    }
    assert x in multiset(Insert(h, capacity, item));
    hide RemoveAt, SiftUp;
    assert x in multiset(g) || x == item;
    assert x in multiset(g) ==> x in multiset(h);
  }

  /** Where the items of a step come from. */
  lemma StepItems(h: Heap, capacity: nat, e: Event, x: Item)
    requires Functional(Held(h)) && x in Step(h, capacity, e)
    ensures e.key != x.key ==> x in h
    ensures e.key == x.key ==> e.Look?
    ensures e.key == x.key && Absent(h, x.key) ==> e.stored.Some? && x.count == 1
    ensures e.key == x.key && !Absent(h, x.key) ==> exists y :: y in h && y.key == x.key && x.count == y.count + 1
  {
    var i := Slot(h, e.key);
    assert x in multiset(Step(h, capacity, e));
    hide RemoveAt, SiftDown, SiftUp, Held, Functional, Insert, Hit;
    if i <= |h| {
      var y := h[i - 1];
      if e.Drop? {
        RemoveExact(h, i);
        DroppedOthers(h, y, x);
      } else {
        HitExact(h, i);
        if x != y.(count := y.count + 1) {
          DroppedOthers(h, y, x);
        }
      }
    } else if e.Look? && e.stored.Some? {
      InsertFrom(h, capacity, Item(e.key, e.stored.value, 1), x);
    }
  }

  lemma DroppedOthers(h: Heap, y: Item, x: Item)
    requires Functional(Held(h)) && y in h && x in multiset(h) - multiset{y}
    ensures x in h && x.key != y.key
  {
    assert x in multiset(h);
    if x.key == y.key {
      OnePerKey(h, x, y);
      OnlyOnce(h, y);
    }
  }

  lemma OnlyOnce(h: Heap, y: Item)
    requires Functional(Held(h)) && y in h
    ensures multiset(h)[y] == 1
  {
    var i :| 0 <= i < |h| && h[i] == y;
    assert h == h[..i] + [y] + h[i + 1..];
    forall j | 0 <= j < |h| && j != i ensures h[j] != y {
      if i < j {
        KeysApart(h, i, j);
      } else {
        KeysApart(h, j, i);
      }
    }
    assert y !in h[..i] && y !in h[i + 1..];
  }

  /** The reads of a key among the events. */
  function Reads(es: seq<Event>, key: Str): nat {
    if es == [] then 0
    else Reads(es[..|es| - 1], key) + if es[|es| - 1].Look? && es[|es| - 1].key == key then 1 else 0
  }

  /** The key came in with event `n` and has been cached ever since. */
  predicate Since(capacity: nat, es: seq<Event>, n: nat, key: Str) {
    && n < |es| && Absent(Run(capacity, es[..n]), key)
    && forall m :: n < m <= |es| ==> !Absent(Run(capacity, es[..m]), key)
  }

  lemma SinceNext(capacity: nat, es: seq<Event>, e: Event, n: nat, key: Str)
    requires Since(capacity, es, n, key) && !Absent(Run(capacity, es + [e]), key)
    ensures Since(capacity, es + [e], n, key)
    ensures Reads((es + [e])[n..], key) == Reads(es[n..], key) + if e.Look? && e.key == key then 1 else 0
  {
    hide Run, Absent;
    var next := es + [e];
    assert next[..|next|] == next && next[n..] == es[n..] + [e] && (es[n..] + [e])[..|es| - n] == es[n..];
    forall m | n < m <= |next| ensures !Absent(Run(capacity, next[..m]), key) {
      assert m <= |es| ==> next[..m] == es[..m];
    }
    assert next[..n] == es[..n];
  }

  lemma SinceNow(capacity: nat, es: seq<Event>, e: Event, key: Str)
    requires Absent(Run(capacity, es), key) && !Absent(Run(capacity, es + [e]), key) && e.Look? && e.key == key
    ensures Since(capacity, es + [e], |es|, key) && Reads((es + [e])[|es|..], key) == 1
  {
    hide Run, Absent;
    var next := es + [e];
    assert next[..|next|] == next && next[..|es|] == es && next[|es|..] == [e] && [e][..0] == [];
    assert Reads([], key) == 0;
  }

  /** In every run the count of a cached item is the number of reads of its key since it came in, the one that
      brought it in included. */
  lemma {:induction false} RunCounts(capacity: nat, es: seq<Event>, x: Item) returns (n: nat)
    requires x in Run(capacity, es)
    ensures Since(capacity, es, n, x.key) && x.count == Reads(es[n..], x.key)
  {
    assert es != [];
    var init, e := es[..|es| - 1], es[|es| - 1];
    assert es == init + [e];
    var h := Run(capacity, init);
    RunFunctional(capacity, init);
    StepItems(h, capacity, e, x);
    assert !Absent(Run(capacity, es), x.key);
    hide Run, Step, Since;
    if Absent(h, x.key) {
      assert e.key == x.key;
      SinceNow(capacity, init, e, x.key);
      n := |init|;
    } else {
      var y :| y in h && y.key == x.key && x.count == y.count + if e.key == x.key then 1 else 0;
      n := RunCounts(capacity, init, y);
      SinceNext(capacity, init, e, n, x.key);
    }
  }

  // ---- a run that a deletion upsets

  const A: Str := [97]
  const B: Str := [98]
  const C: Str := [99]
  const D: Str := [100]
  const E: Str := [101]
  const F: Str := [102]

  function See(k: Str): Event {
    Look(k, Some([]))
  }

  function At(k: Str, n: nat): Item {
    Item(k, [], n)
  }

  lemma KeysDiffer()
    ensures A != B && A != C && A != D && A != E && A != F && B != C && B != D && B != E && B != F
    ensures C != D && C != E && C != F && D != E && D != F && E != F
  {
    assert A[0] == 97 && B[0] == 98 && C[0] == 99 && D[0] == 100 && E[0] == 101 && F[0] == 102;
  }

  lemma RunNext(capacity: nat, es: seq<Event>, e: Event)
    ensures Run(capacity, es + [e]) == Step(Run(capacity, es), capacity, e)
  {
    assert (es + [e])[..|es|] == es;
  }

  /** A new key, which stays at the bottom or passes its parent. */
  lemma SeeNew(h: Heap, capacity: nat, k: Str)
    requires |h| < capacity && forall j :: 0 <= j < |h| ==> h[j].key != k
    ensures Step(h, capacity, See(k)) == SiftUp(h + [At(k, 1)], |h| + 1)
  {
  }

  /** A known key, whose count grows and which may fall below a child. */
  lemma SeeOld(h: Heap, capacity: nat, k: Str)
    requires h != [] && h[0].key == k
    ensures Step(h, capacity, See(k)) == SiftDown(h[0 := h[0].(count := h[0].count + 1)], 1)
  {
  }

  const H4 := [At(B, 1), At(D, 1), At(C, 1), At(A, 2)]
  const H5 := [At(D, 1), At(E, 1), At(C, 1), At(A, 2), At(B, 2)]
  const H6 := [At(E, 1), At(D, 2), At(C, 1), At(A, 2), At(B, 2), At(F, 1)]

  lemma FirstKey(capacity: nat)
    requires capacity >= 6
    ensures Step([], capacity, See(A)) == [At(A, 1)] && Step([At(A, 1)], capacity, See(A)) == [At(A, 2)]
  {
    SeeNew([], capacity, A);
    SeeOld([At(A, 1)], capacity, A);
  }

  lemma SecondKey(capacity: nat)
    requires capacity >= 6
    ensures Step([At(A, 2)], capacity, See(B)) == [At(B, 1), At(A, 2)]
  {
    KeysDiffer();
    SeeNew([At(A, 2)], capacity, B);
    assert SiftUp([At(A, 2), At(B, 1)], 2) == [At(B, 1), At(A, 2)];
  }

  lemma ThirdKey(capacity: nat)
    requires capacity >= 6
    ensures Step([At(B, 1), At(A, 2)], capacity, See(C)) == [At(B, 1), At(A, 2), At(C, 1)]
  {
    KeysDiffer();
    SeeNew([At(B, 1), At(A, 2)], capacity, C);
  }

  lemma FourthKey(capacity: nat)
    requires capacity >= 6
    ensures Step([At(B, 1), At(A, 2), At(C, 1)], capacity, See(D)) == H4
  {
    KeysDiffer();
    var h := [At(B, 1), At(A, 2), At(C, 1), At(D, 1)];
    SeeNew([At(B, 1), At(A, 2), At(C, 1)], capacity, D);
    assert Swap(h, 2, 4) == H4;
    assert SiftUp(H4, 2) == H4;
  }

  lemma FallB(capacity: nat)
    ensures Step(H4, capacity, See(B)) == [At(D, 1), At(B, 2), At(C, 1), At(A, 2)]
  {
    SeeOld(H4, capacity, B);
    var h, g := [At(B, 2), At(D, 1), At(C, 1), At(A, 2)], [At(D, 1), At(B, 2), At(C, 1), At(A, 2)];
    assert Swap(h, 2, 1) == g && Smallest(h, 1) == 2;
    assert Smallest(g, 2) == 2;
  }

  lemma FifthKey(capacity: nat)
    requires capacity >= 6
    ensures Step([At(D, 1), At(B, 2), At(C, 1), At(A, 2)], capacity, See(E)) == H5
  {
    KeysDiffer();
    var h := [At(D, 1), At(B, 2), At(C, 1), At(A, 2), At(E, 1)];
    SeeNew([At(D, 1), At(B, 2), At(C, 1), At(A, 2)], capacity, E);
    assert Swap(h, 2, 5) == H5;
    assert SiftUp(H5, 2) == H5;
  }

  lemma FallD(capacity: nat)
    ensures Step(H5, capacity, See(D)) == [At(E, 1), At(D, 2), At(C, 1), At(A, 2), At(B, 2)]
  {
    SeeOld(H5, capacity, D);
    var h := [At(D, 2), At(E, 1), At(C, 1), At(A, 2), At(B, 2)];
    var g := [At(E, 1), At(D, 2), At(C, 1), At(A, 2), At(B, 2)];
    assert Swap(h, 2, 1) == g && Smallest(h, 1) == 2;
    assert Smallest(g, 2) == 2;
  }

  lemma SixthKey(capacity: nat)
    requires capacity >= 6
    ensures Step([At(E, 1), At(D, 2), At(C, 1), At(A, 2), At(B, 2)], capacity, See(F)) == H6
  {
    KeysDiffer();
    SeeNew([At(E, 1), At(D, 2), At(C, 1), At(A, 2), At(B, 2)], capacity, F);
    assert SiftUp(H6, 6) == H6;
  }

  /** Nine events in a row. */
  function Row(a: Event, b: Event, c: Event, d: Event, e: Event, f: Event, g: Event, h: Event, i: Event): seq<Event> {
    [] + [a] + [b] + [c] + [d] + [e] + [f] + [g] + [h] + [i]
  }

  lemma RowRun(capacity: nat, a: Event, b: Event, c: Event, d: Event, e: Event, f: Event, g: Event, h: Event, i: Event)
    ensures Run(capacity, Row(a, b, c, d, e, f, g, h, i)) ==
      Step(Step(Step(Step(Step(Step(Step(Step(Step([], capacity, a), capacity, b), capacity, c), capacity, d),
        capacity, e), capacity, f), capacity, g), capacity, h), capacity, i)
  {
    RunNext(capacity, [], a);
    RunNext(capacity, [] + [a], b);
    RunNext(capacity, [] + [a] + [b], c);
    RunNext(capacity, [] + [a] + [b] + [c], d);
    RunNext(capacity, [] + [a] + [b] + [c] + [d], e);
    RunNext(capacity, [] + [a] + [b] + [c] + [d] + [e], f);
    RunNext(capacity, [] + [a] + [b] + [c] + [d] + [e] + [f], g);
    RunNext(capacity, [] + [a] + [b] + [c] + [d] + [e] + [f] + [g], h);
    RunNext(capacity, [] + [a] + [b] + [c] + [d] + [e] + [f] + [g] + [h], i);
  }

  function Looks(): seq<Event> {
    Row(See(A), See(A), See(B), See(C), See(D), See(B), See(E), See(D), See(F))
  }

  lemma LooksRun(capacity: nat)
    requires capacity >= 6
    ensures Run(capacity, Looks()) == H6
  {
    RowRun(capacity, See(A), See(A), See(B), See(C), See(D), See(B), See(E), See(D), See(F));
    FirstKey(capacity);
    SecondKey(capacity);
    ThirdKey(capacity);
    FourthKey(capacity);
    FallB(capacity);
    FifthKey(capacity);
    FallD(capacity);
    SixthKey(capacity);
  }

  lemma DropLast()
    ensures Ordered(H6) && Slot(H6, A) == 4 && !Removable(H6, 4)
  {
    KeysDiffer();
    assert H6[3].key == A && H6[0].key != A && H6[1].key != A && H6[2].key != A;
    assert Count(H6, 2) == 2 && Count(H6, 6) == 1;
  }

  /** Nine reads of six keys and one deletion, at any capacity that evicts nothing: the deleted slot is
      filled by a smaller item than its parent, and the array is no heap any more. */
  lemma DropUpsets(capacity: nat)
    requires capacity >= 6
    ensures Ordered(Run(capacity, Looks())) && !Ordered(Run(capacity, Looks() + [Drop(A)]))
  {
    LooksRun(capacity);
    DropLast();
    RunNext(capacity, Looks(), Drop(A));
    DeleteKeepsOrderIff(H6, 4);
  }
}
