/** The slots of the array engine and the map they stand for. */
module ArraySpec {
  import opened Strings
  import opened Pairs
  import Store

  const SIZE := 12000

  /** A slot whose key is null, or a binding. */
  datatype Slot = Hole | Item(key: Str, value: Str)

  type Slots = seq<Slot>

  function One(x: Slot): seq<Pair> {
    match x
    case Hole => []
    case Item(k, v) => [(k, v)]
  }

  /** The bindings, in slot order. */
  function Live(s: Slots): (r: seq<Pair>)
    ensures |r| <= |s|
  {
    if s == [] then [] else Live(s[..|s| - 1]) + One(s[|s| - 1])
  }

  function View(s: Slots): map<Str, Str> {
    ToMap(Live(s))
  }

  lemma {:induction false} LiveAppend(a: Slots, b: Slots)
    ensures Live(a + b) == Live(a) + Live(b)
  {
    if b == [] {
      assert a + b == a;
    } else {
      assert (a + b)[..|a + b| - 1] == a + b[..|b| - 1];
      LiveAppend(a, b[..|b| - 1]);
    }
  }

  lemma LiveSplit(s: Slots, i: nat)
    requires i < |s|
    ensures Live(s) == Live(s[..i]) + One(s[i]) + Live(s[i + 1..])
  {
    assert s == s[..i + 1] + s[i + 1..];
    LiveAppend(s[..i + 1], s[i + 1..]);
    LiveNext(s, i);
  }

  lemma LiveNext(s: Slots, i: nat)
    requires i < |s|
    ensures Live(s[..i + 1]) == Live(s[..i]) + One(s[i])
  {
    assert s[..i + 1][..i] == s[..i];
  }

  lemma LivePut(s: Slots, i: nat, x: Slot)
    requires i < |s|
    ensures Live(s[i := x]) == Live(s[..i]) + One(x) + Live(s[i + 1..])
  {
    LiveSplit(s[i := x], i);
    assert s[i := x][..i] == s[..i] && s[i := x][i + 1..] == s[i + 1..];
  }

  lemma HoleSplit(s: Slots, i: nat)
    requires i < |s| && s[i].Hole?
    ensures Live(s) == Live(s[..i]) + Live(s[i + 1..])
  {
    hide Live;
    LiveSplit(s, i);
  }

  predicate Holds(x: Slot, key: Str) {
    x.Item? && x.key == key
  }

  lemma {:induction false} LiveNoKey(s: Slots, key: Str)
    ensures NoKey(Live(s), key) <==> forall i :: 0 <= i < |s| ==> !Holds(s[i], key)
  {
    if s != [] {
      LiveNoKey(s[..|s| - 1], key);
      var last := s[|s| - 1];
      if Holds(last, key) {
        assert (last.key, last.value) in Live(s);
      }
    }
  }

  /** A full table has no hole, so a table with room has a hole or a free end. */
  lemma {:induction false} FullIff(s: Slots)
    ensures |Live(s)| == |s| <==> forall i :: 0 <= i < |s| ==> s[i].Item?
  {
    if s != [] {
      FullIff(s[..|s| - 1]);
    }
  }

  lemma LookupAt(s: Slots, i: nat)
    requires i < |s| && s[i].Item? && UniqueKeys(Live(s))
    ensures s[i].key in View(s) && View(s)[s[i].key] == s[i].value
  {
    LiveSplit(s, i);
    UniqueRebind(Live(s[..i]), (s[i].key, s[i].value), Live(s[i + 1..]), []);
  }

  /** No two slots hold one key. */
  lemma OneSlot(s: Slots, i: nat, j: nat)
    requires i < j < |s| && s[i].Item? && s[j].Item? && UniqueKeys(Live(s))
    ensures s[i].key != s[j].key
  {
    LiveSplit(s, j);
    LiveSplit(s[..j], i);
    var a, b, c := Live(s[..i]), Live(s[..j][i + 1..]), Live(s[j + 1..]);
    assert s[..j][..i] == s[..i];
    var t := a + [(s[i].key, s[i].value)] + b + [(s[j].key, s[j].value)] + c;
    assert Live(s) == t;
    assert t[|a|] == (s[i].key, s[i].value) && t[|a| + 1 + |b|] == (s[j].key, s[j].value);
  }

  lemma LookupMissing(s: Slots, key: Str)
    requires forall i :: 0 <= i < |s| ==> !Holds(s[i], key)
    ensures key !in View(s)
  {
    LiveNoKey(s, key);
    ToMapKeys(Live(s), key);
  }

  /** A hole takes a new binding. */
  lemma FillBinds(s: Slots, i: nat, key: Str, value: Str)
    requires i < |s| && s[i].Hole? && UniqueKeys(Live(s)) && key !in View(s)
    ensures var s' := s[i := Item(key, value)];
      View(s') == View(s)[key := value] && UniqueKeys(Live(s')) && |Live(s')| == |Live(s)| + 1
  {
    HoleSplit(s, i);
    LivePut(s, i, Item(key, value));
    var a, b := Live(s[..i]), Live(s[i + 1..]);
    ToMapKeys(a + b, key);
    UniqueBind(a, (key, value), b);
  }

  /** So does the end. */
  lemma AppendBinds(s: Slots, key: Str, value: Str)
    requires UniqueKeys(Live(s)) && key !in View(s)
    ensures var s' := s + [Item(key, value)];
      View(s') == View(s)[key := value] && UniqueKeys(Live(s')) && |Live(s')| == |Live(s)| + 1
  {
    assert (s + [Item(key, value)])[..|s|] == s;
    ToMapKeys(Live(s), key);
    assert Live(s) + [] == Live(s) && Live(s) + [(key, value)] + [] == Live(s) + [(key, value)];
    UniqueBind(Live(s), (key, value), []);
  }

  lemma ClearUnbinds(s: Slots, i: nat)
    requires i < |s| && s[i].Item? && UniqueKeys(Live(s))
    ensures var s' := s[i := Hole];
      View(s') == View(s) - {s[i].key} && UniqueKeys(Live(s')) && |Live(s')| == |Live(s)| - 1
  {
    LiveSplit(s, i);
    LivePut(s, i, Hole);
    var a, b := Live(s[..i]), Live(s[i + 1..]);
    assert a + [] + b == a + b;
    UniqueUnbind(a, (s[i].key, s[i].value), b);
  }

  lemma RewriteBinds(s: Slots, i: nat, value: Str)
    requires i < |s| && s[i].Item? && UniqueKeys(Live(s))
    ensures var s' := s[i := Item(s[i].key, value)];
      View(s') == View(s)[s[i].key := value] && UniqueKeys(Live(s')) && |Live(s')| == |Live(s)|
  {
    LiveSplit(s, i);
    LivePut(s, i, Item(s[i].key, value));
    UniqueRebind(Live(s[..i]), (s[i].key, s[i].value), Live(s[i + 1..]), value);
  }

  /** The first hole, the length when there is none. */
  function FirstHole(s: Slots): (i: nat)
    ensures i <= |s| && (i < |s| ==> s[i].Hole?) && forall j :: 0 <= j < i ==> s[j].Item?
  {
    if s == [] || s[0].Hole? then 0 else 1 + FirstHole(s[1..])
  }

  /** A new item goes to the first hole, or to the end. */
  function Placed(s: Slots, x: Slot): Slots {
    var i := FirstHole(s);
    if i < |s| then s[i := x] else s + [x]
  }

  /** `kvs_array_set` on the slots. */
  function SetIn(s: Slots, key: Str, value: Str): Slots {
    if |Live(s)| >= SIZE || key in View(s) then s else Placed(s, Item(key, value))
  }

  /** A new key goes into the first hole, and to the end only if there is none. */
  lemma SetInExact(s: Slots, key: Str, value: Str)
    ensures var s' := SetIn(s, key, value); |Live(s)| < SIZE && key !in View(s) ==>
      && (forall i :: 0 <= i < |s| && s[i].Hole? && (forall j :: 0 <= j < i ==> s[j].Item?) ==>
        s' == s[i := Item(key, value)])
      && ((forall i :: 0 <= i < |s| ==> s[i].Item?) ==> s' == s + [Item(key, value)])
    ensures |Live(s)| >= SIZE || key in View(s) ==> SetIn(s, key, value) == s
  {
  }

  lemma FirstHoleIs(s: Slots, i: nat)
    requires i <= |s| && (i < |s| ==> s[i].Hole?) && forall j :: 0 <= j < i ==> s[j].Item?
    ensures i == FirstHole(s)
  {
  }

  lemma PlacedFull(s: Slots, x: Slot)
    requires forall i :: 0 <= i < |s| ==> s[i].Item?
    ensures Placed(s, x) == s + [x]
  {
  }

  /** Holes at the end stand for nothing. */
  lemma TrimView(s: Slots)
    requires s != [] && s[|s| - 1].Hole?
    ensures Live(s[..|s| - 1]) == Live(s)
  {
  }

  /** The slot of the key is a hole, or gone with the holes at the end; every other slot is as it was. */
  predicate Cleared(s: Slots, s': Slots, key: Str) {
    |s'| <= |s| && forall j :: 0 <= j < |s| ==>
      (if j < |s'| then s'[j] else Hole) == if Holds(s[j], key) then Hole else s[j]
  }

  predicate Trimmed(s: Slots, s': Slots) {
    s' <= s && forall j :: |s'| <= j < |s| ==> s[j] == Hole
  }

  lemma ClearedTrimmed(s: Slots, t: Slots, u: Slots, key: Str)
    requires Cleared(s, t, key) && Trimmed(t, u)
    ensures Cleared(s, u, key)
  {
  }

  // ---- runs

  /** A full table refuses every Set, even of a key it has. */
  predicate Refuses(m: Store.Map, c: Store.Command) {
    c.Set? && |m| >= SIZE
  }

  function ReplyTo(m: Store.Map, c: Store.Command): Store.Reply {
    if Refuses(m, c) then Store.Code(-1) else Store.ReplyTo(m, c)
  }

  function Next(m: Store.Map, c: Store.Command): Store.Map {
    if Refuses(m, c) then m else Store.Next(m, c)
  }

  function Run(m: Store.Map, cs: seq<Store.Command>): Store.Map {
    if cs == [] then m else Next(Run(m, cs[..|cs| - 1]), cs[|cs| - 1])
  }

  function Replies(m: Store.Map, cs: seq<Store.Command>): (rs: seq<Store.Reply>)
    ensures |rs| == |cs|
  {
    if cs == [] then []
    else Replies(m, cs[..|cs| - 1]) + [ReplyTo(Run(m, cs[..|cs| - 1]), cs[|cs| - 1])]
  }

  /** No Set of the run meets a full array. */
  ghost predicate Fits(m: Store.Map, cs: seq<Store.Command>) {
    forall i :: 0 <= i < |cs| ==> !Refuses(Store.Run(m, cs[..i]), cs[i])
  }

  lemma FitsNext(m: Store.Map, cs: seq<Store.Command>, c: Store.Command)
    ensures Fits(m, cs + [c]) <==> Fits(m, cs) && !Refuses(Store.Run(m, cs), c)
  {
    hide Refuses, Store.Run;
    var next := cs + [c];
    assert next[..|cs|] == cs && forall i :: 0 <= i < |cs| ==> next[..i] == cs[..i] && next[i] == cs[i];
    if Fits(m, next) {
      assert !Refuses(Store.Run(m, next[..|cs|]), next[|cs|]);
      forall i | 0 <= i < |cs| ensures !Refuses(Store.Run(m, cs[..i]), cs[i]) {
        assert !Refuses(Store.Run(m, next[..i]), next[i]);
      }
    }
  }

  lemma LastReply(a: seq<Store.Reply>, x: Store.Reply, b: seq<Store.Reply>, y: Store.Reply)
    ensures a + [x] == b + [y] <==> a == b && x == y
  {
    if a + [x] == b + [y] {
      assert (a + [x])[..|a|] == a && (b + [y])[..|b|] == b;
      assert (a + [x])[|a|] == x && (b + [y])[|b|] == y;
    }
  }

  /** The array answers a run as a finite map does if and only if no Set meets a full array. */
  lemma {:induction false} RunExact(m: Store.Map, cs: seq<Store.Command>)
    ensures Replies(m, cs) == Store.Replies(m, cs) <==> Fits(m, cs)
    ensures Fits(m, cs) ==> Run(m, cs) == Store.Run(m, cs)
  {
    if cs != [] {
      var init, c := cs[..|cs| - 1], cs[|cs| - 1];
      assert cs == init + [c];
      RunExact(m, init);
      FitsNext(m, init, c);
      var x, y := ReplyTo(Run(m, init), c), Store.ReplyTo(Store.Run(m, init), c);
      LastReply(Replies(m, init), x, Store.Replies(m, init), y);
    }
  }

  /** Setting keys one after the other. */
  function Sets(ks: seq<Str>, v: Str): (cs: seq<Store.Command>)
    ensures |cs| == |ks| && forall i :: 0 <= i < |ks| ==> cs[i] == Store.Set(ks[i], v)
  {
    seq(|ks|, i requires 0 <= i < |ks| => Store.Set(ks[i], v))
  }

  predicate Distinct(ks: seq<Str>) {
    forall i, j :: 0 <= i < j < |ks| ==> ks[i] != ks[j]
  }

  lemma SetsNext(ks: seq<Str>, k: Str, v: Str)
    ensures Sets(ks + [k], v) == Sets(ks, v) + [Store.Set(k, v)]
    ensures Store.Run(map[], Sets(ks + [k], v)) == Store.Next(Store.Run(map[], Sets(ks, v)), Store.Set(k, v))
  {
    var cs := Sets(ks, v) + [Store.Set(k, v)];
    assert Sets(ks + [k], v) == cs && cs[..|ks|] == Sets(ks, v);
  }

  /** The map holds exactly the keys. */
  ghost predicate Filled(m: Store.Map, ks: seq<Str>) {
    |m| == |ks| && forall k :: k in m <==> k in ks
  }

  lemma FilledNext(m: Store.Map, ks: seq<Str>, k: Str, v: Str)
    requires Filled(m, ks) && k !in ks
    ensures Filled(Store.Next(m, Store.Set(k, v)), ks + [k])
  {
  }

  lemma {:induction false} FillSteps(ks: seq<Str>, v: Str)
    requires Distinct(ks) && |ks| <= SIZE
    ensures Fits(map[], Sets(ks, v)) && Filled(Store.Run(map[], Sets(ks, v)), ks)
  {
    if ks == [] {
      assert Sets(ks, v) == [];
    } else {
      var init, k := ks[..|ks| - 1], ks[|ks| - 1];
      assert k !in init && ks == init + [k];
      FillSteps(init, v);
      var m := Store.Run(map[], Sets(init, v));
      assert |m| < SIZE;
      hide Fits, Store.Run, Filled, Sets;
      SetsNext(init, k, v);
      FitsNext(map[], Sets(init, v), Store.Set(k, v));
      FilledNext(m, init, k, v);
    }
  }

  /** After as many Sets of distinct keys as there are slots, a Set of a key the array holds is refused,
      where a finite map says that the key is there. */
  lemma FullRefuses(ks: seq<Str>, v: Str, k: Str, w: Str)
    requires Distinct(ks) && |ks| == SIZE && k in ks
    ensures var m := Run(map[], Sets(ks, v));
      k in m && ReplyTo(m, Store.Set(k, w)) == Store.Code(-1) && Store.ReplyTo(m, Store.Set(k, w)) == Store.Code(1)
    ensures Replies(map[], Sets(ks, v) + [Store.Set(k, w)]) != Store.Replies(map[], Sets(ks, v) + [Store.Set(k, w)])
  {
    FillSteps(ks, v);
    RunExact(map[], Sets(ks, v));
    FitsNext(map[], Sets(ks, v), Store.Set(k, w));
    RunExact(map[], Sets(ks, v) + [Store.Set(k, w)]);
  }

  /** A key of three printable bytes for each slot number. */
  function KeyOf(i: nat): Str
    requires i < SIZE
  {
    [33 + i / 94 / 94, 33 + i / 94 % 94, 33 + i % 94]
  }

  function Number(a: int, b: int, c: int): int {
    (a * 94 + b) * 94 + c
  }

  /** The slot number can be read off the key. */
  lemma NumberOf(i: nat)
    requires i < SIZE
    ensures Number(KeyOf(i)[0], KeyOf(i)[1], KeyOf(i)[2]) == i + Number(33, 33, 33)
  {
  }

  /** Such a run exists. */
  lemma FullReached(v: Str, w: Str)
    ensures var ks := seq(12000, i requires 0 <= i < 12000 => KeyOf(i));
      Distinct(ks) && ReplyTo(Run(map[], Sets(ks, v)), Store.Set(KeyOf(0), w)) == Store.Code(-1)
  {
    var ks := seq(SIZE, i requires 0 <= i < SIZE => KeyOf(i));
    forall i, j | 0 <= i < j < |ks| ensures ks[i] != ks[j] {
      NumberOf(i);
      NumberOf(j);
    }
    assert ks[0] == KeyOf(0);
    FullRefuses(ks, v, KeyOf(0), w);
  }
}

/** The array engine in place. */
module ArrayTable {
  import opened Strings
  import opened Pairs
  import opened ArraySpec
  import Store

  class ArrayTable {
    const table: array<Slot>
    /** One past the last slot in use. */
    var idx: nat
    /** The number of bindings. */
    var total: nat

    /** Holes at the end are still to be given up. */
    ghost predicate Loose()
      reads this, table
    {
      && table.Length == SIZE && idx <= SIZE
      && UniqueKeys(Live(table[..idx])) && total == |Live(table[..idx])|
    }

    ghost predicate Valid()
      reads this, table
    {
      Loose() && (idx > 0 ==> table[idx - 1].Item?)
    }

    ghost function View(): Store.Map
      requires idx <= table.Length
      reads this, table
    {
      ArraySpec.View(table[..idx])
    }

    /** `kvs_array_create` */
    constructor ()
      ensures Valid() && View() == map[] && idx == 0 && fresh(table)
    {
      table := new Slot[SIZE](_ => Hole);
      idx, total := 0, 0;
    }

    /** The scan for the slot of a key. */
    method Scan(key: Str) returns (i: nat)
      requires Valid()
      ensures i <= idx && (i < idx ==> Holds(table[i], key)) && (i == idx ==> key !in View())
      ensures i < idx ==> key in View() && View()[key] == table[i].value
      ensures forall j :: 0 <= j < idx && j != i ==> !Holds(table[j], key)
    {
      i := 0;
      while i < idx
        invariant i <= idx && forall j :: 0 <= j < i ==> !Holds(table[j], key)
      {
        if table[i].Item? && table[i].key == key {
          LookupAt(table[..idx], i);
          forall j | i < j < idx ensures !Holds(table[j], key) {
            if table[j].Item? {
              OneSlot(table[..idx], i, j);
            }
          }
          return;
        }
        i := i + 1;
      }
      LookupMissing(table[..idx], key);
    }

    /** `kvs_array_get` */
    method Get(key: Str) returns (r: Store.Reply)
      requires Valid()
      ensures r == if key in View() then Store.Value(View()[key]) else Store.Missing
    {
      var i := Scan(key);
      r := if i < idx then Store.Value(table[i].value) else Store.Missing;
    }

    /** `kvs_array_exist` */
    method Exist(key: Str) returns (code: int)
      requires Valid()
      ensures code == if key in View() then 0 else 1
    {
      var r := Get(key);
      code := if r.Missing? then 1 else 0;
    }

    /** The scan for a slot to reuse. */
    method FirstHole() returns (i: nat)
      requires Valid()
      ensures i == ArraySpec.FirstHole(table[..idx]) && (i == idx ==> total == idx)
    {
      i := 0;
      while i < idx
        invariant i <= idx && forall j :: 0 <= j < i ==> table[j].Item?
      {
        if table[i].Hole? {
          FirstHoleIs(table[..idx], i);
          return;
        }
        i := i + 1;
      }
      FirstHoleIs(table[..idx], i);
      FullIff(table[..idx]);
    }

    method Fill(i: nat, key: Str, value: Str)
      requires Valid() && key !in View() && i < idx && table[i].Hole?
      modifies this`total, table
      ensures Valid() && View() == old(View())[key := value]
      ensures table[..idx] == old(table[..idx])[i := Item(key, value)]
    {
      FillBinds(table[..idx], i, key, value);
      table[i] := Item(key, value);
      total := total + 1;
      assert table[..idx] == old(table[..idx])[i := Item(key, value)];
    }

    method Extend(x: Slot)
      requires idx < table.Length
      modifies this, table
      ensures idx == old(idx) + 1 && total == old(total) + 1 && idx <= table.Length
      ensures table[..idx] == old(table[..idx]) + [x] && table[idx - 1] == x
    {
      table[idx] := x;
      idx := idx + 1;
      total := total + 1;
    }

    method Append(key: Str, value: Str)
      requires Valid() && key !in View() && idx < SIZE
      modifies this, table
      ensures Valid() && View() == old(View())[key := value]
      ensures table[..idx] == old(table[..idx]) + [Item(key, value)]
    {
      AppendBinds(table[..idx], key, value);
      Extend(Item(key, value));
    }

    /** The placement of a new binding; with fewer bindings than slots it always finds room, so the
        source's last failure branch is never taken. */
    method Place(key: Str, value: Str)
      requires Valid() && key !in View() && total < SIZE
      modifies this, table
      ensures Valid() && View() == old(View())[key := value]
      ensures table[..idx] == Placed(old(table[..idx]), Item(key, value))
    {
      var i := FirstHole();
      if i < idx {
        Fill(i, key, value);
      } else {
        Append(key, value);
      }
    }

    /** `kvs_array_set` */
    method Set(key: Str, value: Str) returns (code: int)
      requires Valid()
      modifies this, table
      ensures Valid() && table[..idx] == SetIn(old(table[..idx]), key, value)
      ensures code == if old(|View()|) >= SIZE then -1 else if key in old(View()) then 1 else 0
      ensures View() == if code == 0 then old(View())[key := value] else old(View())
    {
      ToMapSize(Live(table[..idx]));
      if total >= SIZE {
        return -1;
      }
      var i := Scan(key);
      if i < idx {
        return 1;
      }
      Place(key, value);
      return 0;
    }

    /** `kvs_array_mod` */
    method Mod(key: Str, value: Str) returns (code: int)
      requires Valid()
      modifies table
      ensures Valid()
      ensures code == if key in old(View()) then 0 else 1
      ensures View() == if key in old(View()) then old(View())[key := value] else old(View())
      ensures forall j :: 0 <= j < idx ==>
        table[j] == if Holds(old(table[j]), key) then Item(key, value) else old(table[j])
    {
      var i := Scan(key);
      if i == idx {
        return 1;
      }
      RewriteBinds(table[..idx], i, value);
      table[i] := Item(table[i].key, value);
      assert table[..idx] == old(table[..idx])[i := Item(key, value)];
      return 0;
    }

    /** The loop that gives up holes at the end. */
    method Trim()
      requires Loose()
      modifies this`idx
      ensures Valid() && View() == old(View()) && Trimmed(old(table[..idx]), table[..idx])
    {
      ghost var was := table[..idx];
      hide Live, UniqueKeys, ToMap;
      while idx > 0 && table[idx - 1].Hole?
        invariant idx <= SIZE && Trimmed(was, table[..idx]) && Live(table[..idx]) == Live(was)
      {
        TrimView(table[..idx]);
        assert table[..idx][..idx - 1] == table[..idx - 1];
        idx := idx - 1;
      }
    }

    method Clear(i: nat, key: Str)
      requires Valid() && i < idx && Holds(table[i], key)
      requires forall j :: 0 <= j < idx && j != i ==> !Holds(table[j], key)
      modifies this`total, table
      ensures Loose() && View() == old(View()) - {key} && Cleared(old(table[..idx]), table[..idx], key)
    {
      ClearUnbinds(table[..idx], i);
      table[i] := Hole;
      total := total - 1;
      assert table[..idx] == old(table[..idx])[i := Hole];
    }

    /** `kvs_array_del` */
    method Del(key: Str) returns (code: int)
      requires Valid()
      modifies this, table
      ensures Valid() && Cleared(old(table[..idx]), table[..idx], key)
      ensures code == if key in old(View()) then 0 else 1
      ensures View() == old(View()) - {key}
    {
      var i := Scan(key);
      if i == idx {
        return 1;
      }
      hide Valid, Loose, View, Cleared, Trimmed;
      Clear(i, key);
      ghost var cleared := table[..idx];
      Trim();
      ClearedTrimmed(old(table[..idx]), cleared, table[..idx], key);
      return 0;
    }
  }
}
