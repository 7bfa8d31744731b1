/** The levels of a skip list: a line of nodes, the header first, and who follows whom where. */
module SkipShape {
  import opened Strings
  import opened Pairs

  const MAX_LEVEL := 6

  class SkipNode {
    const key: Str
    /** The highest level the node is linked on. */
    const top: nat
    var value: Str
    var forward: seq<SkipNode?>

    /** `createNode` */
    constructor (top: nat, key: Str, value: Str)
      ensures this.key == key && this.top == top && this.value == value
      ensures forward == seq(top + 1, _ => null)
    {
      this.key, this.top, this.value := key, top, value;
      forward := seq(top + 1, _ => null);
    }
  }

  type Line = seq<SkipNode>
  type Links = map<SkipNode, seq<SkipNode?>>

  function At(line: Line, i: nat): SkipNode? {
    if i < |line| then line[i] else null
  }

  /** The next position after `i` that reaches level `l`. */
  function Next(line: Line, i: nat, l: nat): (r: nat)
    requires i < |line|
    ensures i < r <= |line| && (r < |line| ==> line[r].top >= l)
    ensures forall j :: i < j < r ==> line[j].top < l
    decreases |line| - i
  {
    if i + 1 == |line| || line[i + 1].top >= l then i + 1 else Next(line, i + 1, l)
  }

  /** The last position before `p` that reaches level `l`; the header reaches every level. */
  function Prev(line: Line, p: nat, l: nat): (r: nat)
    requires 0 < p <= |line|
    ensures r < p && (r == 0 || line[r].top >= l)
    ensures forall j :: r < j < p ==> line[j].top < l
  {
    if p == 1 || line[p - 1].top >= l then p - 1 else Prev(line, p - 1, l)
  }

  /** The node after position `i` on level `l`. */
  function Succ(line: Line, i: nat, l: nat): SkipNode?
    requires i < |line|
  {
    At(line, Next(line, i, l))
  }

  predicate Apart(line: Line, i: nat, j: nat)
    requires i < |line| && j < |line|
  {
    line[i] != line[j]
  }

  ghost predicate Distinct(line: Line) {
    forall i, j :: 0 <= i < j < |line| ==> Apart(line, i, j)
  }

  lemma OnlyPrev(line: Line, p: nat, update: Line, top: nat)
    requires 0 < p <= |line| && Distinct(line) && top < |update|
    requires forall l :: 0 <= l <= top ==> update[l] == line[Prev(line, p, l)]
    ensures forall i, l :: 0 <= i < |line| && 0 <= l <= top ==> (line[i] == update[l] <==> i == Prev(line, p, l))
  {
    forall i, l | 0 <= i < |line| && 0 <= l <= top
      ensures line[i] == update[l] <==> i == Prev(line, p, l)
    {
      var j := Prev(line, p, l);
      assert i < j ==> Apart(line, i, j);
      assert j < i ==> Apart(line, j, i);
    }
  }

  /** Every link leads to the next node of its level. */
  ghost predicate Linked(line: Line, m: Links) {
    && Distinct(line)
    && (forall i :: 0 <= i < |line| ==> line[i] in m && |m[line[i]]| == line[i].top + 1)
    && (forall i, l {:trigger m[line[i]][l]} :: 0 <= i < |line| && 0 <= l <= line[i].top
          ==> m[line[i]][l] == Succ(line, i, l))
  }

  // ---- one node more

  function Inserted(line: Line, p: nat, n: SkipNode): Line
    requires p <= |line|
  {
    line[..p] + [n] + line[p..]
  }

  lemma NextBefore(line: Line, p: nat, n: SkipNode, i: nat, l: nat)
    requires i < p <= |line|
    ensures var r, line' := Next(line, i, l), Inserted(line, p, n);
      Next(line', i, l) == if r < p then r else if l <= n.top then p else r + 1
  {
    var r, line' := Next(line, i, l), Inserted(line, p, n);
    var r' := if r < p then r else if l <= n.top then p else r + 1;
    assert forall j :: i < j < r' && j < p ==> line'[j] == line[j];
    assert forall j :: p < j < r' && j < |line'| ==> line'[j] == line[j - 1];
    assert r' < |line'| ==> line'[r'] == if r < p then line[r] else if l <= n.top then n else line[r];
  }

  lemma NextAfter(line: Line, p: nat, n: SkipNode, i: nat, l: nat)
    requires 0 < p <= i < |line|
    ensures Next(Inserted(line, p, n), i + 1, l) == Next(line, i, l) + 1
  {
    var r, line' := Next(line, i, l), Inserted(line, p, n);
    assert forall j :: i + 1 < j <= r && j < |line'| ==> line'[j] == line[j - 1];
    assert r < |line| ==> line'[r + 1] == line[r];
  }

  lemma NextOfNew(line: Line, p: nat, n: SkipNode, l: nat)
    requires 0 < p <= |line|
    ensures Next(Inserted(line, p, n), p, l) == Next(line, Prev(line, p, l), l) + 1
  {
    var r, line' := Next(line, Prev(line, p, l), l), Inserted(line, p, n);
    assert forall j :: p < j <= r && j < |line'| ==> line'[j] == line[j - 1];
    assert r < |line| ==> line'[r + 1] == line[r];
  }

  /** On its levels the node before a position is the one whose link passes over that position. */
  lemma Passes(line: Line, p: nat, i: nat, l: nat)
    requires i < p <= |line| && (i == 0 || line[i].top >= l)
    ensures Next(line, i, l) >= p <==> i == Prev(line, p, l)
  {
  }

  lemma Moved(line: Line, p: nat, n: SkipNode, r: nat)
    requires 0 < p <= |line|
    ensures At(Inserted(line, p, n), if r < p then r else r + 1) == At(line, r)
    ensures At(Inserted(line, p, n), p) == n
  {
  }

  /** Where the position `i` goes when one is inserted at `p`. */
  function Shift(i: nat, p: nat): nat {
    if i < p then i else i + 1
  }

  lemma SuccBefore(line: Line, p: nat, n: SkipNode, i: nat, l: nat)
    requires i < p <= |line| && (i == 0 || line[i].top >= l)
    ensures Succ(Inserted(line, p, n), i, l) == if l <= n.top && i == Prev(line, p, l) then n else Succ(line, i, l)
  {
    NextBefore(line, p, n, i, l);
    Passes(line, p, i, l);
    Moved(line, p, n, Next(line, i, l));
  }

  lemma SuccAfter(line: Line, p: nat, n: SkipNode, i: nat, l: nat)
    requires 0 < p <= i < |line|
    ensures Succ(Inserted(line, p, n), i + 1, l) == Succ(line, i, l)
  {
    NextAfter(line, p, n, i, l);
    Moved(line, p, n, Next(line, i, l));
  }

  /** The new node takes over from the nodes that passed over its position, up to its own level. */
  lemma SuccInserted(line: Line, p: nat, n: SkipNode, i: nat, l: nat)
    requires 0 < p <= |line| && i < |line| && (i == 0 || line[i].top >= l)
    ensures Succ(Inserted(line, p, n), Shift(i, p), l)
      == if l <= n.top && i == Prev(line, p, l) then n else Succ(line, i, l)
  {
    if i < p {
      SuccBefore(line, p, n, i, l);
    } else {
      SuccAfter(line, p, n, i, l);
    }
  }

  lemma SuccOfNew(line: Line, p: nat, n: SkipNode, l: nat)
    requires 0 < p <= |line|
    ensures Succ(Inserted(line, p, n), p, l) == Succ(line, Prev(line, p, l), l)
  {
    NextOfNew(line, p, n, l);
    Passes(line, p, Prev(line, p, l), l);
    Moved(line, p, n, Next(line, Prev(line, p, l), l));
  }

  /** The links after the nodes that pass over position `p` let `n` in. */
  ghost predicate LetIn(line: Line, m: Links, p: nat, n: SkipNode, m': Links)
    requires 0 < p <= |line| && Linked(line, m)
  {
    && n in m' && |m'[n]| == n.top + 1
    && (forall l {:trigger m'[n][l]} :: 0 <= l <= n.top ==> m'[n][l] == Succ(line, Prev(line, p, l), l))
    && (forall i :: 0 <= i < |line| ==> line[i] in m' && |m'[line[i]]| == line[i].top + 1)
    && (forall i, l {:trigger m'[line[i]][l]} :: 0 <= i < |line| && 0 <= l <= line[i].top
          ==> m'[line[i]][l] == if l <= n.top && i == Prev(line, p, l) then n else m[line[i]][l])
  }

  lemma InsertLinked(line: Line, m: Links, p: nat, n: SkipNode, m': Links)
    requires 0 < p <= |line| && Linked(line, m) && n !in line && LetIn(line, m, p, n, m')
    requires line[0].top >= n.top
    ensures Linked(Inserted(line, p, n), m')
  {
    var line' := Inserted(line, p, n);
    forall i, j | 0 <= i < j < |line'| ensures Apart(line', i, j) {
      if i != p && j != p {
        assert Apart(line, if i < p then i else i - 1, if j < p then j else j - 1);
      }
    }
    forall i, l | 0 <= i < |line'| && 0 <= l <= line'[i].top
      ensures m'[line'[i]][l] == Succ(line', i, l)
    {
      InsertedLink(line, m, p, n, m', i, l);
    }
  }

  lemma InsertedLink(line: Line, m: Links, p: nat, n: SkipNode, m': Links, i: nat, l: nat)
    requires 0 < p <= |line| && Linked(line, m) && LetIn(line, m, p, n, m')
    requires i <= |line| && l <= Inserted(line, p, n)[i].top
    ensures var line' := Inserted(line, p, n);
      l < |m'[line'[i]]| && m'[line'[i]][l] == Succ(line', i, l)
  {
    var line' := Inserted(line, p, n);
    if i == p {
      SuccOfNew(line, p, n, l);
      assert m'[n][l] == m'[line'[i]][l];
    } else {
      var j := if i < p then i else i - 1;
      assert line'[i] == line[j] && m[line[j]][l] == Succ(line, j, l) && m'[line[j]][l] == m'[line'[i]][l];
      SuccInserted(line, p, n, j, l);
    }
  }

  // ---- one node less

  /** The links to the node `d` behind position `p` lead to what follows it. */
  ghost predicate LetOut(rest: Line, p: nat, d: SkipNode, m: Links, m': Links)
    requires 0 < p <= |rest|
  {
    && d in m && |m[d]| == d.top + 1
    && (forall i :: 0 <= i < |rest| ==> rest[i] in m && |m[rest[i]]| == rest[i].top + 1)
    && (forall i :: 0 <= i < |rest| ==> rest[i] in m' && |m'[rest[i]]| == rest[i].top + 1)
    && (forall i, l {:trigger m'[rest[i]][l]} :: 0 <= i < |rest| && 0 <= l <= rest[i].top
          ==> m'[rest[i]][l] == if l <= d.top && i == Prev(rest, p, l) then m[d][l] else m[rest[i]][l])
  }

  lemma DeleteLinked(rest: Line, p: nat, d: SkipNode, m: Links, m': Links)
    requires 0 < p <= |rest| && Linked(Inserted(rest, p, d), m) && LetOut(rest, p, d, m, m')
    ensures Linked(rest, m')
  {
    var line := Inserted(rest, p, d);
    forall i, j | 0 <= i < j < |rest| ensures Apart(rest, i, j) {
      assert Apart(line, Shift(i, p), Shift(j, p));
    }
    forall i, l | 0 <= i < |rest| && 0 <= l <= rest[i].top
      ensures m'[rest[i]][l] == Succ(rest, i, l)
    {
      DeletedLink(rest, p, d, m, m', i, l);
    }
  }

  lemma DeletedLink(rest: Line, p: nat, d: SkipNode, m: Links, m': Links, i: nat, l: nat)
    requires 0 < p <= |rest| && Linked(Inserted(rest, p, d), m) && LetOut(rest, p, d, m, m')
    requires i < |rest| && l <= rest[i].top
    ensures m'[rest[i]][l] == Succ(rest, i, l)
  {
    var line := Inserted(rest, p, d);
    SuccInserted(rest, p, d, i, l);
    assert line[Shift(i, p)] == rest[i] && m[line[Shift(i, p)]][l] == Succ(line, Shift(i, p), l);
    if l <= d.top && i == Prev(rest, p, l) {
      SuccOfNew(rest, p, d, l);
      assert line[p] == d && m[line[p]][l] == Succ(line, p, l);
    }
  }

  /** Some node reaches a level iff the header has a successor there. */
  lemma Reached(line: Line, l: nat)
    requires line != []
    ensures Succ(line, 0, l) == null <==> forall i :: 0 < i < |line| ==> line[i].top < l
  {
  }

  /** The top level is still reached after a node has come in. */
  lemma TopInserted(line: Line, p: nat, n: SkipNode, l: nat)
    requires 0 < p <= |line| && n.top <= l && (l > n.top && l > 0 ==> Succ(line, 0, l) != null)
    ensures l > 0 ==> Succ(Inserted(line, p, n), 0, l) != null
  {
    SuccInserted(line, p, n, 0, l);
    Reached(line, l);
    Reached(Inserted(line, p, n), l);
    assert Inserted(line, p, n)[p] == n;
  }

  // ---- bindings

  type Values = map<SkipNode, Str>

  /** The bindings behind the header. */
  ghost function Entries(line: Line, vals: Values): (s: seq<Pair>)
    requires Covers(line, vals)
    ensures |s| == |line| - 1
    ensures forall i :: 0 < i < |line| ==> s[i - 1] == (line[i].key, vals[line[i]])
  {
    seq(|line| - 1, i requires 0 <= i < |line| - 1 => (line[i + 1].key, vals[line[i + 1]]))
  }

  // ---- order and search

  /** Behind the header the keys grow strictly. */
  ghost predicate Ordered(line: Line) {
    forall i, j {:trigger Less(line[i].key, line[j].key)} :: 0 < i < j < |line| ==> Less(line[i].key, line[j].key)
  }

  /** The first position behind the header whose key is not below the given one. */
  function Rank(line: Line, key: Str, i: nat := 1): (p: nat)
    requires 0 < i <= |line|
    ensures i <= p <= |line| && (p < |line| ==> !Less(line[p].key, key))
    ensures forall j :: i <= j < p ==> Less(line[j].key, key)
    decreases |line| - i
  {
    if i < |line| && Less(line[i].key, key) then Rank(line, key, i + 1) else i
  }

  /** From the rank on no key is below the given one, and beyond it all keys are above. */
  lemma RankUp(line: Line, key: Str)
    requires line != [] && Ordered(line)
    ensures forall j :: Rank(line, key) <= j < |line| ==> !Less(line[j].key, key)
    ensures forall j :: Rank(line, key) < j < |line| ==> Less(key, line[j].key)
  {
    StrictTotalOrder();
    var p := Rank(line, key);
    forall j | p < j < |line| ensures Less(key, line[j].key) {
      assert Less(line[p].key, line[j].key);
    }
  }

  /** A key that is not there fits in at its rank. */
  lemma RankGap(line: Line, key: Str)
    requires line != [] && Ordered(line)
    requires var p := Rank(line, key); p == |line| || line[p].key != key
    ensures forall j :: Rank(line, key) <= j < |line| ==> Less(key, line[j].key)
  {
    StrictTotalOrder();
    RankUp(line, key);
  }

  lemma EntriesSorted(line: Line, vals: Values)
    requires Covers(line, vals) && Ordered(line)
    ensures Sorted(Entries(line, vals)) && UniqueKeys(Entries(line, vals))
  {
    var s := Entries(line, vals);
    forall i, j | 0 <= i < j < |s| ensures Less(s[i].0, s[j].0) {
      assert s[i].0 == line[i + 1].key && s[j].0 == line[j + 1].key;
    }
    SortedUnique(s);
  }

  /** The only place a key can be is its rank. */
  lemma Lookup(line: Line, vals: Values, key: Str)
    requires Covers(line, vals) && Ordered(line)
    ensures var p, m := Rank(line, key), ToMap(Entries(line, vals));
      (key in m <==> p < |line| && line[p].key == key) && (key in m ==> m[key] == vals[line[p]])
  {
    var p, s := Rank(line, key), Entries(line, vals);
    EntriesSorted(line, vals);
    if p < |line| && line[p].key == key {
      assert s[p - 1] == (key, vals[line[p]]);
      UniqueSplit(s, p - 1);
      ToMapRebind(s[..p - 1], s[p - 1], s[p..], []);
    } else {
      RankUp(line, key);
      StrictTotalOrder();
      assert NoKey(s, key);
      ToMapKeys(s, key);
    }
  }

  lemma OrderedInsert(line: Line, n: SkipNode)
    requires line != [] && Ordered(line)
    requires var p := Rank(line, n.key); p == |line| || line[p].key != n.key
    ensures Ordered(Inserted(line, Rank(line, n.key), n))
  {
    var p := Rank(line, n.key);
    var line' := Inserted(line, p, n);
    RankGap(line, n.key);
    forall i, j | 0 < i < j < |line'| ensures Less(line'[i].key, line'[j].key) {
      assert i < p ==> line'[i] == line[i];
      assert i > p ==> line'[i] == line[i - 1];
      assert j < p ==> line'[j] == line[j];
      assert j > p ==> line'[j] == line[j - 1];
      if j < p {
        assert Less(line[i].key, line[j].key);
      } else if i < p < j {
        assert Less(line[i].key, line[j - 1].key);
      } else if p < i {
        assert Less(line[i - 1].key, line[j - 1].key);
      }
    }
  }

  ghost predicate Covers(line: Line, vals: Values) {
    line != [] && forall i :: 0 <= i < |line| ==> line[i] in vals
  }

  lemma EntriesInserted(line: Line, vals: Values, p: nat, n: SkipNode, v: Str)
    requires Covers(line, vals) && n !in line && 0 < p <= |line|
    ensures Covers(Inserted(line, p, n), vals[n := v])
    ensures Entries(Inserted(line, p, n), vals[n := v])
      == Entries(line, vals)[..p - 1] + [(n.key, v)] + Entries(line, vals)[p - 1..]
  {
    var line', vals' := Inserted(line, p, n), vals[n := v];
    forall i | 0 <= i < |line'| ensures line'[i] in vals' {
      assert i != p ==> line'[i] == line[if i < p then i else i - 1];
    }
    var s, s' := Entries(line, vals), Entries(line', vals');
    forall i | 0 <= i < |s'| ensures s'[i] == (s[..p - 1] + [(n.key, v)] + s[p - 1..])[i] {
      assert s'[i] == (line'[i + 1].key, vals'[line'[i + 1]]);
      if i < p - 1 {
        assert line'[i + 1] == line[i + 1];
      } else if i > p - 1 {
        assert line'[i + 1] == line[i];
      }
    }
  }

  /** A new node binds its key. */
  lemma EntriesInsert(line: Line, vals: Values, n: SkipNode, v: Str)
    requires Covers(line, vals) && Ordered(line) && n !in line
    requires var p := Rank(line, n.key); p == |line| || line[p].key != n.key
    ensures Covers(Inserted(line, Rank(line, n.key), n), vals[n := v])
    ensures ToMap(Entries(Inserted(line, Rank(line, n.key), n), vals[n := v]))
      == ToMap(Entries(line, vals))[n.key := v]
  {
    var p, s := Rank(line, n.key), Entries(line, vals);
    EntriesInserted(line, vals, p, n, v);
    Lookup(line, vals, n.key);
    ToMapKeys(s, n.key);
    BindAt(s, p - 1, (n.key, v));
  }

  /** A node taken out unbinds its key. */
  lemma EntriesDelete(rest: Line, p: nat, d: SkipNode, vals: Values)
    requires 0 < p <= |rest| && Ordered(Inserted(rest, p, d)) && Covers(rest, vals) && d !in rest && d in vals
    ensures Covers(Inserted(rest, p, d), vals) && Covers(rest, vals - {d})
    ensures ToMap(Entries(rest, vals - {d})) == ToMap(Entries(Inserted(rest, p, d), vals)) - {d.key}
  {
    var line, s := Inserted(rest, p, d), Entries(rest, vals);
    EntriesInserted(rest, vals, p, d, vals[d]);
    assert vals[d := vals[d]] == vals;
    assert Entries(rest, vals - {d}) == s;
    EntriesSorted(line, vals);
    UnbindAt(s, p - 1, (d.key, vals[d]));
  }

  /** A node given a new value rebinds its key. */
  lemma EntriesRebind(line: Line, x: SkipNode, vals: Values, v: Str)
    requires Covers(line, vals) && Ordered(line) && Distinct(line) && x in line[1..]
    ensures Covers(line, vals[x := v])
    ensures ToMap(Entries(line, vals[x := v])) == ToMap(Entries(line, vals))[x.key := v]
  {
    var p :| 0 < p < |line| && line[p] == x;
    var s := Entries(line, vals);
    EntriesSorted(line, vals);
    EntriesAt(line, p, vals, v);
    UniqueSplit(s, p - 1);
    UniqueRebind(s[..p - 1], s[p - 1], s[p..], v);
  }

  lemma EntriesAt(line: Line, p: nat, vals: Values, v: Str)
    requires Covers(line, vals) && Distinct(line) && 0 < p < |line|
    ensures Covers(line, vals[line[p] := v])
    ensures var s := Entries(line, vals);
      s[p - 1] == (line[p].key, vals[line[p]])
      && Entries(line, vals[line[p] := v]) == s[..p - 1] + [(line[p].key, v)] + s[p..]
  {
    var s, s' := Entries(line, vals), Entries(line, vals[line[p] := v]);
    forall i | 0 <= i < |s| && i != p - 1 ensures s'[i] == s[i] {
      assert if i < p - 1 then Apart(line, i + 1, p) else Apart(line, p, i + 1);
    }
    assert s' == s[..p - 1] + [(line[p].key, v)] + s[p..];
  }

  lemma OrderedDelete(rest: Line, p: nat, d: SkipNode)
    requires 0 < p <= |rest| && Ordered(Inserted(rest, p, d))
    ensures Ordered(rest)
  {
    var line := Inserted(rest, p, d);
    forall i, j | 0 < i < j < |rest| ensures Less(rest[i].key, rest[j].key) {
      assert line[Shift(i, p)] == rest[i] && line[Shift(j, p)] == rest[j];
    }
  }

  /** What precedes a position depends only on what stands before it. */
  lemma PrevPrefix(line: Line, other: Line, p: nat, l: nat)
    requires 0 < p <= |line| && p <= |other| && line[..p] == other[..p]
    ensures Prev(line, p, l) == Prev(other, p, l)
  {
    assert forall j :: 0 <= j < p ==> line[j] == line[..p][j] == other[j];
  }

  /** The recorded predecessors of a node point to it exactly on its own levels. */
  lemma PointsTo(rest: Line, p: nat, d: SkipNode, l: nat)
    requires 0 < p <= |rest| && d !in rest
    ensures Prev(Inserted(rest, p, d), p, l) == Prev(rest, p, l)
    ensures Succ(Inserted(rest, p, d), Prev(rest, p, l), l) == d <==> l <= d.top
  {
    assert Inserted(rest, p, d)[..p] == rest[..p];
    PrevPrefix(Inserted(rest, p, d), rest, p, l);
    SuccBefore(rest, p, d, Prev(rest, p, l), l);
  }

  /** The nodes of a line that reach a level, in order. */
  function Reaching(line: Line, l: nat): Line {
    if line == [] then [] else
      Reaching(line[..|line| - 1], l) + (if line[|line| - 1].top >= l then [line[|line| - 1]] else [])
  }

  lemma {:induction false} ReachingSkip(line: Line, i: nat, j: nat, l: nat)
    requires 0 < i <= j <= |line| && forall k :: i <= k < j ==> line[k].top < l
    ensures Reaching(line[1..j], l) == Reaching(line[1..i], l)
    decreases j
  {
    if i < j {
      ReachingSkip(line, i, j - 1, l);
      assert line[1..j][..j - 2] == line[1..j - 1];
    }
  }

  /** The nodes up to position `i` that reach a level. */
  function Collected(line: Line, i: nat, l: nat): Line
    requires i < |line|
  {
    Reaching(line[1..i + 1], l)
  }

  /** One step along a level collects one more of the nodes that reach it. */
  lemma CollectStep(line: Line, i: nat, l: nat)
    requires i < |line|
    ensures var r := Next(line, i, l);
      if r < |line| then Collected(line, r, l) == Collected(line, i, l) + [line[r]]
      else Collected(line, i, l) == Reaching(line[1..], l)
  {
    var r := Next(line, i, l);
    ReachingSkip(line, i + 1, r, l);
    if r < |line| {
      assert line[1..r + 1][..r - 1] == line[1..r];
    } else {
      assert line[1..r] == line[1..];
    }
  }

  function Removed(line: Line, p: nat): Line
    requires p < |line|
  {
    line[..p] + line[p + 1..]
  }

  lemma RemovedInserted(line: Line, p: nat)
    requires 0 < p < |line| && Distinct(line)
    ensures Inserted(Removed(line, p), p, line[p]) == line && line[p] !in Removed(line, p)
    ensures Distinct(Removed(line, p)) && forall x :: x in Removed(line, p) ==> x in line
  {
    var rest := Removed(line, p);
    forall i, j | 0 <= i < j < |rest| ensures Apart(rest, i, j) {
      assert Apart(line, Shift(i, p), Shift(j, p));
    }
    forall i | 0 <= i < |rest| ensures rest[i] != line[p] && rest[i] in line {
      assert rest[i] == line[Shift(i, p)];
      assert if i < p then Apart(line, i, p) else Apart(line, p, i + 1);
    }
  }

  // ---- the invariant

  /** Each level holds exactly the nodes that reach it, no node reaches above `level`, and level 0
      is strictly sorted. */
  ghost predicate Good(line: Line, m: Links, level: nat) {
    && line != [] && line[0].top == MAX_LEVEL
    && Linked(line, m) && Ordered(line)
    && level <= MAX_LEVEL && (forall i :: 0 < i < |line| ==> line[i].top <= level)
  }

  /** Some node reaches `level`, unless it is zero. */
  ghost predicate Tight(line: Line, level: nat) {
    level > 0 ==> line != [] && Succ(line, 0, level) != null
  }

  /** The bindings as a map. */
  ghost function Bindings(line: Line, vals: Values): map<Str, Str> {
    if Covers(line, vals) then ToMap(Entries(line, vals)) else map[]
  }

  ghost predicate Vacant(line: Line, key: Str) {
    line != [] && var p := Rank(line, key); p == |line| || line[p].key != key
  }

  lemma InsertGood(line: Line, m: Links, level: nat, n: SkipNode, m': Links)
    requires Good(line, m, level) && n !in line && n.top <= level && Vacant(line, n.key)
    requires LetIn(line, m, Rank(line, n.key), n, m') && (level > n.top ==> Tight(line, level))
    ensures var line' := Inserted(line, Rank(line, n.key), n);
      Good(line', m', level) && Tight(line', level)
  {
    var p := Rank(line, n.key);
    var line' := Inserted(line, p, n);
    InsertLinked(line, m, p, n, m');
    OrderedInsert(line, n);
    TopInserted(line, p, n, level);
    forall i | 0 < i < |line'| ensures line'[i].top <= level {
      assert i < p ==> line'[i] == line[i];
      assert i > p ==> line'[i] == line[i - 1];
    }
  }

  lemma InsertBinds(line: Line, vals: Values, n: SkipNode, v: Str)
    requires Covers(line, vals) && Ordered(line) && n !in line && Vacant(line, n.key)
    ensures Bindings(Inserted(line, Rank(line, n.key), n), vals[n := v]) == Bindings(line, vals)[n.key := v]
  {
    EntriesInsert(line, vals, n, v);
  }

  lemma DeleteGood(rest: Line, p: nat, d: SkipNode, m: Links, level: nat, m': Links)
    requires 0 < p <= |rest| && Good(Inserted(rest, p, d), m, level) && LetOut(rest, p, d, m, m')
    ensures Good(rest, m', level)
  {
    var line := Inserted(rest, p, d);
    DeleteLinked(rest, p, d, m, m');
    OrderedDelete(rest, p, d);
    forall i | 0 <= i < |rest| ensures rest[i] == line[Shift(i, p)] {
    }
  }

  lemma DeleteUnbinds(rest: Line, p: nat, d: SkipNode, vals: Values)
    requires 0 < p <= |rest| && Ordered(Inserted(rest, p, d)) && Covers(Inserted(rest, p, d), vals) && d !in rest
    ensures Bindings(rest, vals - {d}) == Bindings(Inserted(rest, p, d), vals) - {d.key}
  {
    var line := Inserted(rest, p, d);
    assert line[p] == d;
    forall i | 0 <= i < |rest| ensures rest[i] in vals {
      assert rest[i] == line[Shift(i, p)];
    }
    EntriesDelete(rest, p, d, vals);
  }

  lemma LowerGood(line: Line, m: Links, level: nat)
    requires Good(line, m, level) && level > 0 && Succ(line, 0, level) == null
    ensures Good(line, m, level - 1)
  {
    Reached(line, level);
  }
}
