/** `rdb_save` and `rdb_load` over the four engines, and what a cycle of the two does. */
module Persistence {
  import opened Pairs
  import opened RdbFormat
  import opened Rdb
  import opened RdbSave
  import Store
  import Srv = Server
  import E = Engines
  import B = Bank
  import ArraySpec
  import HashSpec
  import HashTable
  import SkipShape

  // ---- what the engines hold, as a save sees it and as a load changes it

  ghost function ImageOf(b: B.Bank): Image
    reads b.table, b.tree, b.hash, b.skip
  {
    Image(b.table.slots, b.hash.chains, b.tree.pairs, b.skip.pairs)
  }

  ghost function TargetOf(b: B.Bank): Target
    reads b.table, b.tree, b.hash, b.skip
  {
    Target(b.table.slots, b.hash.chains, b.tree.View(), b.skip.View())
  }

  lemma ArrayProper(a: E.ArrayEngine)
    requires a.Valid()
    ensures |a.slots| <= ArraySpec.SIZE && UniqueKeys(ArraySpec.Live(a.slots))
  {
  }

  lemma HashProper(h: E.HashEngine)
    requires h.Valid()
    ensures HashSpec.Proper(h.chains)
  {
    HashTable.ContentsProper(h.hash.chains, h.hash.Stored());
  }

  lemma TreeProper(t: E.TreeEngine)
    requires t.Valid()
    ensures Sorted(t.pairs)
  {
  }

  lemma SkipProper(k: E.SkipEngine)
    requires k.Valid()
    ensures Sorted(k.pairs)
  {
    SkipShape.EntriesSorted(k.skip.line, k.skip.Stored());
  }

  /** Valid engines give a save exactly what the round trip asks for. */
  lemma ValidProper(b: B.Bank)
    requires b.Valid()
    ensures Proper(ImageOf(b))
  {
    hide E.ArrayEngine.Valid, E.TreeEngine.Valid, E.HashEngine.Valid, E.SkipEngine.Valid;
    ArrayProper(b.table);
    HashProper(b.hash);
    TreeProper(b.tree);
    SkipProper(b.skip);
  }

  // ---- saving

  method SaveTable(a: E.ArrayEngine) returns (out: Bytes)
    requires a.Valid()
    ensures out == Section(ARRAY, ArraySpec.Live(a.slots))
  {
    out := SaveArray(a.table);
  }

  method SaveBuckets(h: E.HashEngine) returns (out: Bytes)
    requires h.Valid()
    ensures out == Section(HASH, HashSpec.Flat(h.chains))
  {
    out := SaveHash(h.hash);
  }

  method SaveRoot(t: E.TreeEngine) returns (out: Bytes)
    requires t.Valid()
    ensures out == Section(TREE, t.pairs)
  {
    out := SaveTree(t.tree);
  }

  method SaveLevels(k: E.SkipEngine) returns (out: Bytes)
    requires k.Valid()
    ensures out == Section(SKIP, k.pairs)
  {
    out := SaveSkip(k.skip);
  }

  /** `rdb_save`: header, the four engines in turn, terminator. */
  method Save(b: B.Bank, high: int, low: int) returns (out: Bytes)
    requires b.Valid()
    ensures b.Valid() && ImageOf(b) == old(ImageOf(b))
    ensures out == File(high, low, Dump(ImageOf(b)))
  {
    hide E.ArrayEngine.Valid, E.TreeEngine.Valid, E.HashEngine.Valid, E.SkipEngine.Valid;
    var a := SaveTable(b.table);
    var h := SaveBuckets(b.hash);
    var t := SaveRoot(b.tree);
    var k := SaveLevels(b.skip);
    FileSections(ImageOf(b), high, low);
    out := Header(high, low) + (a + h + t + k + Int(END));
  }

  // ---- loading

  /** The hash engine can place its records. */
  predicate Placeable(rs: seq<Record>) {
    forall i :: 0 <= i < |rs| && rs[i].engine == HASH ==> HashSpec.Hashable(rs[i].key)
  }

  /** The switch in the load loop: the record goes to its engine's own set. */
  method Restore(b: B.Bank, r: Record)
    requires b.Valid() && (r.engine == HASH ==> HashSpec.Hashable(r.key))
    modifies b, b.Repr
    ensures b.Valid() && fresh(b.Repr - old(b.Repr))
    ensures TargetOf(b) == Apply(old(TargetOf(b)), r)
  {
    hide B.Bank.Valid;
    var c := Store.Set(r.key, r.value);
    if r.engine == ARRAY {
      var _ := b.DoArray(c);
    } else if r.engine == HASH {
      var _ := b.DoHash(c);
    } else if r.engine == TREE {
      var _ := b.DoTree(c);
    } else if r.engine == SKIP {
      var _ := b.DoSkip(c);
    }
  }

  lemma PlaceableNext(done: seq<Record>, r: Record, rest: seq<Record>)
    requires Placeable(done + ([r] + rest))
    ensures r.engine == HASH ==> HashSpec.Hashable(r.key)
  {
    assert (done + ([r] + rest))[|done|] == r;
  }

  /** `rdb_load` of an open file into the engines, whatever they hold. */
  method Load(b: B.Bank, data: Bytes) returns (count: int)
    requires b.Valid() && (HeaderOk(data) ==> Placeable(Records(data[17..])))
    modifies b, b.Repr
    ensures b.Valid() && fresh(b.Repr - old(b.Repr))
    ensures if HeaderOk(data)
      then TargetOf(b) == ApplyAll(old(TargetOf(b)), Records(data[17..])) && count == Known(Records(data[17..]))
      else TargetOf(b) == old(TargetOf(b)) && count == -1
  {
    hide B.Bank.Valid, Apply;
    var file := new Reader(data);
    var ok := file.TakeHeader();
    if !ok {
      return -1;
    }
    count := 0;
    ghost var start := TargetOf(b);
    ghost var done: seq<Record> := [];
    ghost var all := Records(data[17..]);
    assert [] + all == all;
    while true
      invariant fresh(file) && file !in b.Repr && file.Valid() && all == done + Records(file.Rest())
      invariant b.Valid() && fresh(b.Repr - old(b.Repr))
      invariant TargetOf(b) == ApplyAll(start, done) && count == Known(done)
      decreases |file.Rest()|
    {
      ghost var rest := file.Rest();
      var r;
      r, ok := file.TakeEntry();
      if !ok {
        break;
      }
      RecordsNext(done, r, rest);
      PlaceableNext(done, r, Records(ReadEntry(rest).rest));
      ApplyNext(start, done, r);
      Restore(b, r);
      done := done + [r];
      if ARRAY <= r.engine <= SKIP {
        count := count + 1;
      }
    }
    assert done + [] == done;
  }

  // ---- cycles

  lemma DumpPlaceable(im: Image)
    requires Proper(im)
    ensures Placeable(Dump(im))
  {
    BucketsUnique(im.buckets);
  }

  /** Save, then load into fresh engines: the four maps come back and every chain is turned round. */
  method Cycle(b: B.Bank, high: int, low: int) returns (c: B.Bank)
    requires b.Valid() && Loadable(Dump(ImageOf(b)))
    ensures b.Valid() && ImageOf(b) == old(ImageOf(b))
    ensures c.Valid() && fresh(c) && fresh(c.Repr)
    ensures Sees(ImageOf(c), Restored(ImageOf(b)))
    ensures c.Stores() == b.Stores()
    ensures c.hash.chains == Flipped(b.hash.chains)
  {
    hide B.Bank.Valid;
    var data := Save(b, high, low);
    ghost var im := ImageOf(b);
    ValidProper(b);
    LoadAfterSave(im, high, low);
    FileRound(high, low, Dump(im));
    DumpPlaceable(im);
    c := new B.Bank();
    assert TargetOf(c) == Empty();
    var _ := Load(c, data);
    ValidProper(c);
  }

  /** Two cycles restore the engines exactly: the same lists, the same chains in the same order. */
  method TwoCycles(b: B.Bank, high: int, low: int) returns (d: B.Bank)
    requires b.Valid() && Loadable(Dump(ImageOf(b)))
    ensures d.Valid() && fresh(d) && fresh(d.Repr)
    ensures d.Stores() == b.Stores()
    ensures d.hash.chains == b.hash.chains && d.tree.pairs == b.tree.pairs && d.skip.pairs == b.skip.pairs
    ensures d.table.slots == Compact(ArraySpec.Live(b.table.slots))
  {
    hide B.Bank.Valid;
    ValidProper(b);
    var c := Cycle(b, high, low);
    LoadableAgain(ImageOf(b), ImageOf(c));
    SecondCycle(ImageOf(b), ImageOf(c));
    d := Cycle(c, high, low);
    SecondCycle(ImageOf(c), ImageOf(d));
  }

  /** `w` counts the records whose bytes all lie among the first `m`. */
  predicate Inside(rs: seq<Record>, m: nat, w: nat) {
    w <= |rs| && forall k :: 0 <= k <= |rs| ==> (k <= w <==> |Entries(rs[..k])| <= m)
  }

  lemma CutPlaceable(im: Image, high: int, low: int, n: nat)
    requires Proper(im) && Loadable(Dump(im)) && 17 <= n <= |File(high, low, Dump(im))|
    ensures var d := File(high, low, Dump(im))[..n];
      HeaderOk(d) && Placeable(Records(d[17..])) && Records(d[17..]) == Dump(im)[..Whole(Dump(im), n - 17)]
    ensures Inside(Dump(im), n - 17, Whole(Dump(im), n - 17))
  {
    var rs := Dump(im);
    CutFile(high, low, rs, n);
    DumpPlaceable(im);
    forall k | 0 <= k <= |rs| ensures k <= Whole(rs, n - 17) <==> |Entries(rs[..k])| <= n - 17 {
      WholeIs(rs, n - 17, k);
    }
  }

  /** A saved file cut anywhere behind its header restores exactly the records whose bytes lie wholly
      inside what is left. */
  method CutCycle(b: B.Bank, high: int, low: int, n: nat) returns (c: B.Bank)
    requires b.Valid() && Loadable(Dump(ImageOf(b)))
    requires 17 <= n <= |File(high, low, Dump(ImageOf(b)))|
    ensures b.Valid() && ImageOf(b) == old(ImageOf(b))
    ensures c.Valid() && fresh(c) && fresh(c.Repr)
    ensures Inside(Dump(ImageOf(b)), n - 17, Whole(Dump(ImageOf(b)), n - 17))
    ensures TargetOf(c) == ApplyAll(Empty(), Dump(ImageOf(b))[..Whole(Dump(ImageOf(b)), n - 17)])
    ensures var x := CutSections(SectionsOf(ImageOf(b)), Whole(Dump(ImageOf(b)), n - 17));
      c.Stores() == Srv.Stores(ToMap(x.table), ToMap(x.tree), ToMap(x.hash), ToMap(x.skip))
  {
    hide B.Bank.Valid, Dump, HeaderOk, Records, Inside, File, CutSections, SectionsOf, ApplyAll;
    var data := Save(b, high, low);
    CutPlaceable(ImageOf(b), high, low, n) by { ValidProper(b); }
    c := new B.Bank();
    assert TargetOf(c) == Empty();
    var _ := Load(c, data[..n]);
    CutMaps(ImageOf(b), Whole(Dump(ImageOf(b)), n - 17)) by { ValidProper(b); }
  }
}
