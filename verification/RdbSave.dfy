/** `rdb_save` over the engines' own structures, and the file cursor `rdb_load` reads with. */
module RdbSave {
  import opened Strings
  import opened Pairs
  import opened RdbFormat
  import opened Rdb
  import RbShape
  import RbLayout
  import RbContents
  import R = RbTree
  import A = ArraySpec
  import T = ArrayTable
  import H = HashSpec
  import C = HashTable
  import S = SkipShape
  import K = SkipList

  lemma {:induction false} EntriesConcat(a: seq<Record>, b: seq<Record>)
    ensures Entries(a + b) == Entries(a) + Entries(b)
  {
    if a == [] {
      assert a + b == b;
    } else {
      assert (a + b)[1..] == a[1..] + b;
      EntriesConcat(a[1..], b);
    }
  }

  /** The bytes of one engine's bindings. */
  function Section(engine: int, s: seq<Pair>): Bytes {
    Entries(Tagged(engine, s))
  }

  lemma SectionConcat(engine: int, a: seq<Pair>, b: seq<Pair>)
    ensures Section(engine, a + b) == Section(engine, a) + Section(engine, b)
  {
    assert Tagged(engine, a + b) == Tagged(engine, a) + Tagged(engine, b);
    EntriesConcat(Tagged(engine, a), Tagged(engine, b));
  }

  lemma SectionOne(engine: int, s: seq<Pair>, p: Pair)
    ensures Section(engine, s + [p]) == Section(engine, s) + Entry(Record(engine, p.0, p.1))
  {
    SectionConcat(engine, s, [p]);
    assert Tagged(engine, [p]) == [Record(engine, p.0, p.1)];
    assert Entries([Record(engine, p.0, p.1)]) == Entry(Record(engine, p.0, p.1)) + Entries([]);
  }

  /** The array's part of `rdb_save`. */
  method SaveArray(a: T.ArrayTable) returns (out: Bytes)
    requires a.Valid()
    ensures out == Section(ARRAY, A.Live(a.table[..a.idx]))
  {
    out := [];
    assert Section(ARRAY, A.Live(a.table[..0])) == [];
    hide Section;
    for i := 0 to a.idx
      invariant out == Section(ARRAY, A.Live(a.table[..i]))
    {
      assert a.table[..i + 1][..i] == a.table[..i];
      var x := a.table[i];
      if x.Item? {
        SectionOne(ARRAY, A.Live(a.table[..i]), (x.key, x.value));
        out := out + Entry(Record(ARRAY, x.key, x.value));
      } else {
        assert A.Live(a.table[..i]) + [] == A.Live(a.table[..i]);
      }
    }
  }

  /** One chain. */
  method SaveChain(h: C.HashTable, i: nat) returns (out: Bytes)
    requires h.Valid() && i < H.SLOTS
    ensures h.Links() == old(h.Links()) && h.Stored() == old(h.Stored()) && h.nodes[..] == old(h.nodes[..])
    ensures out == Section(HASH, h.Chains()[i])
  {
    ghost var c, b := h.chains[i], h.Chains()[i];
    out := [];
    var node, j := h.nodes[i], 0;
    while node != null
      invariant 0 <= j <= |c| && node == C.At(c, j) && out == Section(HASH, b[..j])
      decreases |c| - j
    {
      h.Linked(i, j);
      SectionPrefix(HASH, b, j);
      out := out + Entry(Record(HASH, node.key, node.value));
      node, j := node.next, j + 1;
    }
    assert b[..|b|] == b;
  }

  /** The hash engine's part of `rdb_save`, slot by slot. */
  method SaveHash(h: C.HashTable) returns (out: Bytes)
    requires h.Valid()
    ensures out == Section(HASH, H.Flat(h.Chains()))
  {
    ghost var b := h.Chains();
    out := [];
    for i := 0 to H.SLOTS
      invariant h.Links() == old(h.Links()) && h.Stored() == old(h.Stored()) && h.nodes[..] == old(h.nodes[..])
      invariant out == Section(HASH, H.Flat(b[..i]))
    {
      var chain := SaveChain(h, i);
      assert b[..i + 1][..i] == b[..i];
      SectionConcat(HASH, H.Flat(b[..i]), b[i]);
      out := out + chain;
    }
    assert b[..H.SLOTS] == b;
  }

  /** `save_rbtree_node` */
  method SaveNode(tree: R.RbTree, node: R.RbNode, ghost p: R.RbNode, ghost t: RbShape.Tree<R.RbNode>)
      returns (out: Bytes)
    requires RbLayout.Rep(t, node, p, tree.nil, tree.Links())
    ensures out == Section(TREE, RbContents.Listed(RbShape.Order(t), tree.Keyed()))
    decreases t
  {
    if node == tree.nil {
      return [];
    }
    var left := SaveNode(tree, node.left, node, t.left);
    out := left + Entry(Record(TREE, node.key, node.value));
    var right := SaveNode(tree, node.right, node, t.right);
    ghost var d := tree.Keyed();
    ghost var a, b := RbContents.Listed(RbShape.Order(t.left), d), RbContents.Listed(RbShape.Order(t.right), d);
    RbContents.ListedSplit(RbShape.Order(t.left), node, RbShape.Order(t.right), d);
    SectionOne(TREE, a, (node.key, node.value));
    SectionConcat(TREE, a + [(node.key, node.value)], b);
    out := out + right;
  }

  method SaveTree(tree: R.RbTree) returns (out: Bytes)
    requires tree.Valid()
    ensures out == Section(TREE, tree.Contents())
  {
    out := SaveNode(tree, tree.root, tree.nil, tree.shape);
  }

  lemma SectionPrefix(engine: int, s: seq<Pair>, i: nat)
    requires i < |s|
    ensures Section(engine, s[..i + 1]) == Section(engine, s[..i]) + Entry(Record(engine, s[i].0, s[i].1))
  {
    assert s[..i + 1] == s[..i] + [s[i]];
    SectionOne(engine, s[..i], s[i]);
  }

  /** The walk along level 0. */
  method SaveWalk(header: S.SkipNode, ghost line: S.Line, ghost e: seq<Pair>) returns (out: Bytes)
    requires line != [] && line[0] == header && |e| == |line| - 1
    requires forall c {:trigger line[c].forward} :: 0 <= c < |line| ==>
      line[c].forward != [] && line[c].forward[0] == S.At(line, c + 1)
    requires forall c :: 0 < c < |line| ==> e[c - 1] == (line[c].key, line[c].value)
    ensures out == Section(SKIP, e)
  {
    out := [];
    var x := header;
    ghost var i: nat := 0;
    while x.forward[0] != null
      invariant i < |line| && x == line[i] && out == Section(SKIP, e[..i])
      decreases |line| - i
    {
      SectionPrefix(SKIP, e, i);
      x, i := x.forward[0], i + 1;
      out := out + Entry(Record(SKIP, x.key, x.value));
    }
    assert e[..i] == e;
  }

  /** The skip list's part of `rdb_save`. */
  method SaveSkip(k: K.SkipList) returns (out: Bytes)
    requires k.Valid()
    ensures out == old(Section(SKIP, S.Entries(k.line, k.Stored())))
  {
    ghost var e := S.Entries(k.line, k.Stored());
    k.FollowBase();
    out := SaveWalk(k.header, k.line, e);
  }

  /** The file is the header, the four sections and the terminator. */
  lemma FileSections(im: Image, high: int, low: int)
    ensures File(high, low, Dump(im)) == Header(high, low) + (Section(ARRAY, A.Live(im.slots))
      + Section(HASH, H.Flat(im.buckets)) + Section(TREE, im.tree) + Section(SKIP, im.skip) + Int(END))
  {
    var a, h := Tagged(ARRAY, A.Live(im.slots)), Tagged(HASH, H.Flat(im.buckets));
    var t, k := Tagged(TREE, im.tree), Tagged(SKIP, im.skip);
    EntriesConcat(a + h + t, k);
    EntriesConcat(a + h, t);
    EntriesConcat(a, h);
  }

  // ---- loading

  /** An open file and the position of the next read. */
  class Reader {
    const data: Bytes
    var pos: nat

    ghost predicate Valid()
      reads this
    {
      pos <= |data|
    }

    ghost function Rest(): Bytes
      requires Valid()
      reads this
    {
      data[pos..]
    }

    constructor (data: Bytes)
      ensures Valid() && Rest() == data
    {
      this.data, pos := data, 0;
    }

    /** `read`: a short read returns fewer bytes. */
    method Take(n: nat) returns (b: Bytes)
      requires Valid()
      modifies this
      ensures Valid()
      ensures if n <= |old(Rest())| then b == old(Rest())[..n] && Rest() == old(Rest())[n..] else |b| < n
    {
      var end := if pos + n <= |data| then pos + n else |data|;
      b := data[pos..end];
      pos := end;
    }

    /** `rdb_read_int` */
    method TakeInt() returns (r: int, ok: bool)
      requires Valid()
      modifies this
      ensures Valid() && ok == ReadInt(old(Rest())).Got?
      ensures ok ==> ReadInt(old(Rest())) == Got(r, Rest())
    {
      var b := Take(4);
      if |b| != 4 {
        return 0, false;
      }
      return ToInt(b), true;
    }

    /** `rdb_read_string` */
    method TakeText() returns (s: Str, ok: bool)
      requires Valid()
      modifies this
      ensures Valid() && ok == ReadText(old(Rest())).Got?
      ensures ok ==> ReadText(old(Rest())) == Got(s, Rest())
    {
      var n;
      n, ok := TakeInt();
      if !ok || n <= 0 || n > MAX_TEXT {
        return [], false;
      }
      var b := Take(n);
      if |b| != n {
        return [], false;
      }
      return CString(b), true;
    }

    /** `rdb_load_header`; the time stamp is read and ignored. */
    method TakeHeader() returns (ok: bool)
      requires Valid()
      modifies this
      ensures Valid() && ok == HeaderOk(old(Rest())) && (ok ==> Rest() == old(Rest())[17..])
    {
      var magic := Take(5);
      if |magic| != 5 || magic != MAGIC {
        return false;
      }
      var version;
      version, ok := TakeInt();
      if !ok || version != VERSION {
        return false;
      }
      var stamp := Take(8);
      return |stamp| == 8;
    }

    /** One round of the load loop. */
    method TakeEntry() returns (r: Record, ok: bool)
      requires Valid()
      modifies this
      ensures Valid() && ok == ReadEntry(old(Rest())).Got?
      ensures ok ==> ReadEntry(old(Rest())) == Got(r, Rest())
    {
      r := Record(END, [], []);
      var engine, key, value;
      engine, ok := TakeInt();
      if !ok || engine == END {
        return r, false;
      }
      key, ok := TakeText();
      if ok {
        value, ok := TakeText();
        r := Record(engine, key, value);
      }
    }
  }

  /** The number of records with an engine of their own. */
  function Known(rs: seq<Record>): nat {
    if rs == [] then 0 else Known(rs[..|rs| - 1]) + if ARRAY <= rs[|rs| - 1].engine <= SKIP then 1 else 0
  }

  lemma RecordsNext(done: seq<Record>, r: Record, s: Bytes)
    requires ReadEntry(s).Got? && ReadEntry(s).value == r
    ensures done + Records(s) == (done + [r]) + Records(ReadEntry(s).rest)
  {
    var tail := Records(ReadEntry(s).rest);
    assert Records(s) == [r] + tail;
    assert done + ([r] + tail) == (done + [r]) + tail;
  }

  lemma ApplyNext(start: Target, done: seq<Record>, r: Record)
    ensures ApplyAll(start, done + [r]) == Apply(ApplyAll(start, done), r)
    ensures Known(done + [r]) == Known(done) + if ARRAY <= r.engine <= SKIP then 1 else 0
  {
    assert (done + [r])[..|done|] == done;
  }
}
