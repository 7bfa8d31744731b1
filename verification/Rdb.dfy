/** Saving the four engines and loading them back. */
module Rdb {
  import opened Strings
  import opened Pairs
  import opened RdbFormat
  import Store
  import A = ArraySpec
  import H = HashSpec

  const ARRAY := 0
  const HASH := 1
  const TREE := 2
  const SKIP := 3

  /** What a save sees: the slots, the chains, and the two sorted engines in key order. */
  datatype Image = Image(slots: A.Slots, buckets: H.Buckets, tree: seq<Pair>, skip: seq<Pair>)

  ghost predicate Proper(im: Image) {
    && |im.slots| <= A.SIZE && UniqueKeys(A.Live(im.slots)) && H.Proper(im.buckets)
    && Sorted(im.tree) && Sorted(im.skip)
  }

  function Tagged(engine: int, s: seq<Pair>): (rs: seq<Record>)
    ensures |rs| == |s| && forall i :: 0 <= i < |s| ==> rs[i] == Record(engine, s[i].0, s[i].1)
  {
    seq(|s|, i requires 0 <= i < |s| => Record(engine, s[i].0, s[i].1))
  }

  /** The records `rdb_save` writes, in order. */
  function Dump(im: Image): seq<Record> {
    Tagged(ARRAY, A.Live(im.slots)) + Tagged(HASH, H.Flat(im.buckets)) + Tagged(TREE, im.tree) + Tagged(SKIP, im.skip)
  }

  /** The number in front of a record says which engine it belongs to. */
  lemma DumpTags(im: Image)
    ensures Dump(im)
      == Tagged(0, A.Live(im.slots)) + Tagged(1, H.Flat(im.buckets)) + Tagged(2, im.tree) + Tagged(3, im.skip)
  {
  }

  // ---- loading

  /** What a load changes: slots, chains, and the maps of the two sorted engines. */
  datatype Target = Target(slots: A.Slots, buckets: H.Buckets, tree: Store.Map, skip: Store.Map)

  /** The switch in `rdb_load`: records of unknown engines are skipped. */
  function Apply(t: Target, r: Record): Target {
    if r.engine == ARRAY then t.(slots := A.SetIn(t.slots, r.key, r.value))
    else if r.engine == HASH then t.(buckets := H.SetIn(t.buckets, r.key, r.value))
    else if r.engine == TREE then t.(tree := Store.Next(t.tree, Store.Set(r.key, r.value)))
    else if r.engine == SKIP then t.(skip := Store.Next(t.skip, Store.Set(r.key, r.value)))
    else t
  }

  lemma LoadTags(t: Target, k: Str, v: Str, n: int)
    ensures Apply(t, Record(0, k, v)) == t.(slots := A.SetIn(t.slots, k, v))
    ensures Apply(t, Record(1, k, v)) == t.(buckets := H.SetIn(t.buckets, k, v))
    ensures Apply(t, Record(2, k, v)) == t.(tree := if k in t.tree then t.tree else t.tree[k := v])
    ensures Apply(t, Record(3, k, v)) == t.(skip := if k in t.skip then t.skip else t.skip[k := v])
    ensures n < 0 || n > 3 ==> Apply(t, Record(n, k, v)) == t
  {
  }

  function ApplyAll(t: Target, rs: seq<Record>): Target {
    if rs == [] then t else Apply(ApplyAll(t, rs[..|rs| - 1]), rs[|rs| - 1])
  }

  lemma {:induction false} ApplyConcat(t: Target, a: seq<Record>, b: seq<Record>)
    ensures ApplyAll(t, a + b) == ApplyAll(ApplyAll(t, a), b)
  {
    if b == [] {
      assert a + b == a;
    } else {
      assert (a + b)[..|a + b| - 1] == a + b[..|b| - 1];
      ApplyConcat(t, a, b[..|b| - 1]);
    }
  }

  function Empty(): Target {
    Target([], seq(H.SLOTS, _ => []), map[], map[])
  }

  // ---- the sorted engines

  lemma {:induction false} LoadMap(m: Store.Map, s: seq<Pair>)
    requires m == map[] && UniqueKeys(s)
    ensures MapAll(m, s) == ToMap(s)
  {
    if s != [] {
      var init, last := s[..|s| - 1], s[|s| - 1];
      LoadMap(m, init);
      ToMapKeys(init, last.0);
    }
  }

  function MapAll(m: Store.Map, s: seq<Pair>): Store.Map {
    if s == [] then m else Store.Next(MapAll(m, s[..|s| - 1]), Store.Set(s[|s| - 1].0, s[|s| - 1].1))
  }

  lemma {:induction false} LoadTree(t: Target, s: seq<Pair>)
    ensures ApplyAll(t, Tagged(TREE, s)) == t.(tree := MapAll(t.tree, s))
  {
    if s != [] {
      assert Tagged(TREE, s)[..|s| - 1] == Tagged(TREE, s[..|s| - 1]);
      LoadTree(t, s[..|s| - 1]);
    }
  }

  lemma {:induction false} LoadSkip(t: Target, s: seq<Pair>)
    ensures ApplyAll(t, Tagged(SKIP, s)) == t.(skip := MapAll(t.skip, s))
  {
    if s != [] {
      assert Tagged(SKIP, s)[..|s| - 1] == Tagged(SKIP, s[..|s| - 1]);
      LoadSkip(t, s[..|s| - 1]);
    }
  }

  // ---- the array

  /** The slots without their holes. */
  function Compact(s: seq<Pair>): (r: A.Slots)
    ensures |r| == |s| && forall i :: 0 <= i < |s| ==> r[i] == A.Item(s[i].0, s[i].1)
  {
    seq(|s|, i requires 0 <= i < |s| => A.Item(s[i].0, s[i].1))
  }

  lemma {:induction false} CompactLive(s: seq<Pair>)
    ensures A.Live(Compact(s)) == s
  {
    if s != [] {
      CompactLive(s[..|s| - 1]);
      assert Compact(s)[..|s| - 1] == Compact(s[..|s| - 1]);
    }
  }

  /** Without holes the next new binding goes to the end. */
  lemma CompactNext(s: seq<Pair>, p: Pair)
    requires |s| < A.SIZE && NoKey(s, p.0)
    ensures A.SetIn(Compact(s), p.0, p.1) == Compact(s + [p])
  {
    CompactLive(s);
    ToMapKeys(s, p.0);
    A.PlacedFull(Compact(s), A.Item(p.0, p.1));
    assert Compact(s + [p]) == Compact(s) + [A.Item(p.0, p.1)];
  }

  lemma {:induction false} LoadArray(t: Target, s: seq<Pair>)
    requires t.slots == [] && UniqueKeys(s) && |s| <= A.SIZE
    ensures ApplyAll(t, Tagged(ARRAY, s)) == t.(slots := Compact(s))
  {
    if s == [] {
      assert Compact(s) == [];
    } else {
      var init, last := s[..|s| - 1], s[|s| - 1];
      assert Tagged(ARRAY, s)[..|s| - 1] == Tagged(ARRAY, init);
      LoadArray(t, init);
      assert s == init + [last];
      CompactNext(init, last);
    }
  }

  // ---- the chains

  /** Of the bindings in load order, those of one bucket, the latest in front. */
  function Pile(s: seq<Pair>, i: int): seq<Pair> {
    if s == [] then [] else
      (if H.Index(s[|s| - 1].0) == i then [s[|s| - 1]] else []) + Pile(s[..|s| - 1], i)
  }

  function Piles(s: seq<Pair>): (b: H.Buckets)
    ensures |b| == H.SLOTS && forall i :: 0 <= i < H.SLOTS ==> b[i] == Pile(s, i)
  {
    seq(H.SLOTS, i requires 0 <= i < H.SLOTS => Pile(s, i))
  }

  lemma PilesPut(s: seq<Pair>, p: Pair)
    requires H.Hashable(p.0)
    ensures Piles(s + [p]) == H.Put(Piles(s), p)
  {
    assert (s + [p])[..|s|] == s;
    forall i | 0 <= i < H.SLOTS ensures Piles(s + [p])[i] == H.Put(Piles(s), p)[i] {
    }
  }

  /** Loading bindings with distinct keys piles them up. */
  lemma {:induction false} PilesBind(s: seq<Pair>)
    requires UniqueKeys(s) && forall i :: 0 <= i < |s| ==> H.Hashable(s[i].0)
    ensures H.Proper(Piles(s)) && H.View(Piles(s)) == ToMap(s)
  {
    if s == [] {
      H.FlatEmpty(Piles(s));
    } else {
      var init, last := s[..|s| - 1], s[|s| - 1];
      PilesBind(init);
      ToMapKeys(init, last.0);
      assert s == init + [last];
      PilesPut(init, last);
      H.PutBinds(Piles(init), last);
    }
  }

  lemma {:induction false} LoadHash(t: Target, s: seq<Pair>)
    requires t.buckets == Piles([]) && UniqueKeys(s) && forall i :: 0 <= i < |s| ==> H.Hashable(s[i].0)
    ensures ApplyAll(t, Tagged(HASH, s)) == t.(buckets := Piles(s))
  {
    if s != [] {
      var init, last := s[..|s| - 1], s[|s| - 1];
      assert Tagged(HASH, s)[..|s| - 1] == Tagged(HASH, init);
      LoadHash(t, init);
      PilesBind(init);
      ToMapKeys(init, last.0);
      assert s == init + [last];
      PilesPut(init, last);
    }
  }

  function Mirror<T>(s: seq<T>): (r: seq<T>)
    ensures |r| == |s|
  {
    if s == [] then [] else [s[|s| - 1]] + Mirror(s[..|s| - 1])
  }

  lemma {:induction false} MirrorAt<T>(s: seq<T>, k: nat)
    requires k < |s|
    ensures Mirror(s)[k] == s[|s| - 1 - k]
  {
    if k > 0 {
      MirrorAt(s[..|s| - 1], k - 1);
    }
  }

  lemma MirrorTwice<T>(s: seq<T>)
    ensures Mirror(Mirror(s)) == s
  {
    forall k | 0 <= k < |s| ensures Mirror(Mirror(s))[k] == s[k] {
      MirrorAt(Mirror(s), k);
      MirrorAt(s, |s| - 1 - k);
    }
  }

  /** Every chain turned round. */
  function Flipped(b: H.Buckets): (r: H.Buckets)
    ensures |r| == |b| && forall i :: 0 <= i < |b| ==> r[i] == Mirror(b[i])
  {
    seq(|b|, i requires 0 <= i < |b| => Mirror(b[i]))
  }

  lemma PileNext(s: seq<Pair>, x: Pair, i: int)
    ensures Pile(s + [x], i) == (if H.Index(x.0) == i then [x] else []) + Pile(s, i)
  {
    assert (s + [x])[..|s|] == s;
  }

  lemma {:induction false} PileConcat(s: seq<Pair>, t: seq<Pair>, i: int)
    ensures Pile(s + t, i) == Pile(t, i) + Pile(s, i)
  {
    if t == [] {
      assert s + t == s;
    } else {
      var u, x := t[..|t| - 1], t[|t| - 1];
      assert t == u + [x] && s + t == (s + u) + [x];
      PileConcat(s, u, i);
      PileNext(s + u, x, i);
      PileNext(u, x, i);
    }
  }

  lemma {:induction false} PileOwn(s: seq<Pair>, j: int, i: int)
    requires forall k :: 0 <= k < |s| ==> H.Index(s[k].0) == j
    ensures Pile(s, i) == if i == j then Mirror(s) else []
  {
    if s != [] {
      PileOwn(s[..|s| - 1], j, i);
    }
  }

  lemma {:induction false} PileFlat(b: H.Buckets, i: nat)
    requires forall j, k :: 0 <= j < |b| && 0 <= k < |b[j]| ==> H.Index(b[j][k].0) == j
    ensures Pile(H.Flat(b), i) == if i < |b| then Mirror(b[i]) else []
  {
    if b != [] {
      var n := |b| - 1;
      PileFlat(b[..n], i);
      PileConcat(H.Flat(b[..n]), b[n], i);
      PileOwn(b[n], n, i);
    }
  }

  /** Writing the chains out and loading them back turns every chain round. */
  lemma PilesFlat(b: H.Buckets)
    requires H.Proper(b)
    ensures Piles(H.Flat(b)) == Flipped(b)
  {
    forall j, k | 0 <= j < |b| && 0 <= k < |b[j]| ensures H.Index(b[j][k].0) == j {
      assert b[j][k] in b[j];
    }
    forall i | 0 <= i < H.SLOTS ensures Piles(H.Flat(b))[i] == Flipped(b)[i] {
      PileFlat(b, i);
    }
  }

  // ---- the round trip

  /** What loading a dump into fresh engines leaves. */
  function Restored(im: Image): Target {
    Target(Compact(A.Live(im.slots)), Flipped(im.buckets), ToMap(im.tree), ToMap(im.skip))
  }

  lemma BucketsUnique(b: H.Buckets)
    requires H.Proper(b)
    ensures UniqueKeys(H.Flat(b)) && forall k :: 0 <= k < |H.Flat(b)| ==> H.Hashable(H.Flat(b)[k].0)
  {
    forall i, k | 0 <= i < |b| && 0 <= k < |b[i]| ensures H.Index(b[i][k].0) == i {
      assert b[i][k] in b[i];
    }
    H.FlatUnique(b);
  }

  /** Bindings for the four engines, in the order of a dump. */
  datatype Sections = Sections(table: seq<Pair>, hash: seq<Pair>, tree: seq<Pair>, skip: seq<Pair>)

  function SectionsOf(im: Image): Sections {
    Sections(A.Live(im.slots), H.Flat(im.buckets), im.tree, im.skip)
  }

  function Listing(x: Sections): seq<Record> {
    Tagged(ARRAY, x.table) + Tagged(HASH, x.hash) + Tagged(TREE, x.tree) + Tagged(SKIP, x.skip)
  }

  /** Each engine gets distinct keys that it has room for. */
  ghost predicate Fresh(x: Sections) {
    && UniqueKeys(x.table) && |x.table| <= A.SIZE && UniqueKeys(x.hash) && UniqueKeys(x.tree) && UniqueKeys(x.skip)
    && forall i :: 0 <= i < |x.hash| ==> H.Hashable(x.hash[i].0)
  }

  lemma ImageFresh(im: Image)
    requires Proper(im)
    ensures Fresh(SectionsOf(im)) && Listing(SectionsOf(im)) == Dump(im)
  {
    BucketsUnique(im.buckets);
    SortedUnique(im.tree);
    SortedUnique(im.skip);
  }

  /** What loading such bindings into empty engines leaves. */
  lemma ApplyListing(x: Sections)
    requires Fresh(x)
    ensures ApplyAll(Empty(), Listing(x)) == Target(Compact(x.table), Piles(x.hash), ToMap(x.tree), ToMap(x.skip))
  {
    var a, h := Tagged(ARRAY, x.table), Tagged(HASH, x.hash);
    var t, k := Tagged(TREE, x.tree), Tagged(SKIP, x.skip);
    ApplyConcat(Empty(), a + h + t, k);
    ApplyConcat(Empty(), a + h, t);
    ApplyConcat(Empty(), a, h);
    LoadArray(Empty(), x.table);
    assert Piles([]) == Empty().buckets;
    LoadHash(ApplyAll(Empty(), a), x.hash);
    LoadTree(ApplyAll(Empty(), a + h), x.tree);
    LoadSkip(ApplyAll(Empty(), a + h + t), x.skip);
    LoadMap(map[], x.tree);
    LoadMap(map[], x.skip);
  }

  lemma ListingMaps(x: Sections)
    requires Fresh(x)
    ensures Maps(ApplyAll(Empty(), Listing(x))) == (ToMap(x.table), ToMap(x.hash), ToMap(x.tree), ToMap(x.skip))
  {
    ApplyListing(x);
    CompactLive(x.table);
    PilesBind(x.hash);
  }

  lemma ApplyDump(im: Image)
    requires Proper(im)
    ensures ApplyAll(Empty(), Dump(im)) == Restored(im)
  {
    ImageFresh(im);
    ApplyListing(SectionsOf(im));
    PilesFlat(im.buckets);
  }

  /** Of a section that begins behind `before` records, how much the first `w` records cover. */
  function Covered(s: seq<Pair>, before: nat, w: nat): (r: seq<Pair>)
    ensures r <= s && |r| == if w <= before then 0 else if w - before < |s| then w - before else |s|
  {
    if w <= before then [] else if w - before < |s| then s[..w - before] else s
  }

  /** The part of each section that the first `w` records of a dump cover. */
  function CutSections(x: Sections, w: nat): Sections {
    var a := |x.table|;
    var h := a + |x.hash|;
    var t := h + |x.tree|;
    Sections(Covered(x.table, 0, w), Covered(x.hash, a, w), Covered(x.tree, h, w), Covered(x.skip, t, w))
  }

  lemma TaggedCut(engine: int, s: seq<Pair>, before: seq<Record>, w: nat)
    requires w <= |before| + |s|
    ensures (before + Tagged(engine, s))[..w]
      == (if w < |before| then before[..w] else before) + Tagged(engine, Covered(s, |before|, w))
  {
  }

  lemma ListingCut(x: Sections, w: nat)
    requires w <= |Listing(x)|
    ensures Listing(x)[..w] == Listing(CutSections(x, w))
  {
    var a, h := Tagged(ARRAY, x.table), Tagged(HASH, x.hash);
    var t, k := Tagged(TREE, x.tree), Tagged(SKIP, x.skip);
    var w1 := if w < |a + h + t| then w else |a + h + t|;
    var w2 := if w < |a + h| then w else |a + h|;
    var w3 := if w < |a| then w else |a|;
    TaggedCut(SKIP, x.skip, a + h + t, w);
    TaggedCut(TREE, x.tree, a + h, w1);
    TaggedCut(HASH, x.hash, a, w2);
    TaggedCut(ARRAY, x.table, [], w3);
    assert [] + a == a;
    assert Covered(x.tree, |a + h|, w1) == Covered(x.tree, |a + h|, w);
    assert Covered(x.hash, |a|, w2) == Covered(x.hash, |a|, w);
    assert Covered(x.table, 0, w3) == Covered(x.table, 0, w);
  }

  lemma CutFresh(x: Sections, w: nat)
    requires Fresh(x)
    ensures Fresh(CutSections(x, w))
  {
  }

  /** Loading the first `w` records of a dump into empty engines leaves each of them with the bindings of
      its own section that those records cover. */
  lemma CutMaps(im: Image, w: nat)
    requires Proper(im) && w <= |Dump(im)|
    ensures var y := CutSections(SectionsOf(im), w);
      Maps(ApplyAll(Empty(), Dump(im)[..w])) == (ToMap(y.table), ToMap(y.hash), ToMap(y.tree), ToMap(y.skip))
  {
    hide Fresh, Listing, CutSections, SectionsOf, Dump, Maps, ApplyAll;
    var x := SectionsOf(im);
    ImageFresh(im);
    ListingCut(x, w);
    CutFresh(x, w);
    ListingMaps(CutSections(x, w));
  }

  predicate Loadable(rs: seq<Record>) {
    forall i :: 0 <= i < |rs| ==> Writable(rs[i]) && Sound(rs[i])
  }

  /** The contents of the four engines as maps. */
  function Maps(t: Target): (Store.Map, Store.Map, Store.Map, Store.Map) {
    (A.View(t.slots), H.View(t.buckets), t.tree, t.skip)
  }

  /** Load after save, into fresh engines, restores all four maps, and turns every chain round. */
  lemma LoadAfterSave(im: Image, high: int, low: int)
    requires Proper(im) && Loadable(Dump(im))
    ensures var d := File(high, low, Dump(im));
      HeaderOk(d) && ApplyAll(Empty(), Records(d[17..])) == Restored(im)
    ensures Maps(Restored(im)) == (A.View(im.slots), H.View(im.buckets), ToMap(im.tree), ToMap(im.skip))
  {
    FileRound(high, low, Dump(im));
    ApplyDump(im);
    CompactLive(A.Live(im.slots));
    BucketsUnique(im.buckets);
    PilesBind(H.Flat(im.buckets));
    PilesFlat(im.buckets);
  }

  /** What a save of the restored engines sees. */
  ghost predicate Sees(again: Image, t: Target) {
    Proper(again) && again.slots == t.slots && again.buckets == t.buckets
    && ToMap(again.tree) == t.tree && ToMap(again.skip) == t.skip
  }

  /** The sorted engines come back with the same lists, and a second cycle also turns the chains back. */
  lemma SecondCycle(im: Image, again: Image)
    requires Proper(im) && Sees(again, Restored(im))
    ensures again == Image(Compact(A.Live(im.slots)), Flipped(im.buckets), im.tree, im.skip)
    ensures Restored(again) == Restored(im).(buckets := im.buckets)
  {
    SortedOnce(again.tree, im.tree);
    SortedOnce(again.skip, im.skip);
    CompactLive(A.Live(im.slots));
    forall i | 0 <= i < |im.buckets| ensures Flipped(Flipped(im.buckets))[i] == im.buckets[i] {
      MirrorTwice(im.buckets[i]);
    }
    assert Flipped(Flipped(im.buckets)) == im.buckets;
  }

  /** A chain turned round holds the same bindings. */
  lemma FlatFlipped(b: H.Buckets, p: Pair)
    requires p in H.Flat(Flipped(b))
    ensures p in H.Flat(b)
  {
    InFlat(Flipped(b), p);
    var i :| 0 <= i < |b| && p in Flipped(b)[i];
    var k :| 0 <= k < |b[i]| && Mirror(b[i])[k] == p;
    MirrorAt(b[i], k);
    InFlat(b, p);
  }

  lemma {:induction false} InFlat(b: H.Buckets, p: Pair)
    ensures p in H.Flat(b) <==> exists i :: 0 <= i < |b| && p in b[i]
  {
    if b != [] {
      InFlat(b[..|b| - 1], p);
    }
  }

  lemma LoadableConcat(a: seq<Record>, b: seq<Record>)
    ensures Loadable(a + b) <==> Loadable(a) && Loadable(b)
  {
    if Loadable(a + b) {
      forall i | 0 <= i < |a| ensures Writable(a[i]) && Sound(a[i]) {
        assert (a + b)[i] == a[i];
      }
      forall i | 0 <= i < |b| ensures Writable(b[i]) && Sound(b[i]) {
        assert (a + b)[|a| + i] == b[i];
      }
    }
  }

  lemma LoadableFewer(engine: int, s: seq<Pair>, t: seq<Pair>)
    requires Loadable(Tagged(engine, s)) && forall p :: p in t ==> p in s
    ensures Loadable(Tagged(engine, t))
  {
    forall i | 0 <= i < |t| ensures Writable(Tagged(engine, t)[i]) && Sound(Tagged(engine, t)[i]) {
      assert t[i] in t;
      var j :| 0 <= j < |s| && s[j] == t[i];
      assert Tagged(engine, s)[j] == Tagged(engine, t)[i];
    }
  }

  lemma LoadableSections(im: Image)
    ensures Loadable(Dump(im)) <==>
      && Loadable(Tagged(ARRAY, A.Live(im.slots))) && Loadable(Tagged(HASH, H.Flat(im.buckets)))
      && Loadable(Tagged(TREE, im.tree)) && Loadable(Tagged(SKIP, im.skip))
  {
    hide Loadable;
    var a, h := Tagged(ARRAY, A.Live(im.slots)), Tagged(HASH, H.Flat(im.buckets));
    var t, k := Tagged(TREE, im.tree), Tagged(SKIP, im.skip);
    LoadableConcat(a + h + t, k);
    LoadableConcat(a + h, t);
    LoadableConcat(a, h);
  }

  /** The second dump holds no record the first did not, so it can be loaded as well. */
  lemma LoadableAgain(im: Image, again: Image)
    requires Proper(im) && Sees(again, Restored(im)) && Loadable(Dump(im))
    ensures Loadable(Dump(again))
  {
    SecondCycle(im, again);
    hide Loadable, Dump, Proper, Sees, Restored;
    CompactLive(A.Live(im.slots));
    LoadableSections(im);
    forall p | p in H.Flat(Flipped(im.buckets)) ensures p in H.Flat(im.buckets) {
      FlatFlipped(im.buckets, p);
    }
    LoadableFewer(HASH, H.Flat(im.buckets), H.Flat(again.buckets));
    LoadableSections(again);
  }

  /** The sorted engines list their bindings in one way only, so the second save writes the same lists. */
  lemma {:induction false} SortedOnce(s: seq<Pair>, t: seq<Pair>)
    requires Sorted(s) && Sorted(t) && ToMap(s) == ToMap(t)
    ensures s == t
  {
    SortedUnique(s);
    SortedUnique(t);
    ToMapSize(s);
    ToMapSize(t);
    if s != [] {
      LastGreatest(s, t);
      var a, b, x := s[..|s| - 1], t[..|t| - 1], s[|s| - 1];
      assert a + [x] + [] == s && b + [t[|t| - 1]] + [] == t && a + [] == a && b + [] == b;
      UniqueUnbind(a, x, []);
      UniqueUnbind(b, t[|t| - 1], []);
      SortedOnce(a, b);
    }
  }

  lemma LastGreatest(s: seq<Pair>, t: seq<Pair>)
    requires Sorted(s) && Sorted(t) && ToMap(s) == ToMap(t) && s != [] && t != []
    ensures s[|s| - 1] == t[|t| - 1]
  {
    var x, y := s[|s| - 1], t[|t| - 1];
    StrictTotalOrder();
    ToMapKeys(s, y.0);
    ToMapKeys(t, x.0);
    ToMapKeys(s, x.0);
    ToMapKeys(t, y.0);
    assert x in s && y in t;
    assert !NoKey(s, y.0) && !NoKey(t, x.0);
  }
}
