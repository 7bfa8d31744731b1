/** C strings under `strcmp`, and association lists over them. */
module Strings {

  /** A byte of a C string: any byte value but the terminator. */
  type Char = c: int | 1 <= c < 256 witness 1
  type Str = seq<Char>

  /** What a C string holds at offset `i`, the terminator included. */
  function ByteAt(s: Str, i: nat): int {
    if i < |s| then s[i] else 0
  }

  /** `strcmp`: the difference of the first two bytes that differ, read as unsigned. */
  function Compare(a: Str, b: Str): int {
    if ByteAt(a, 0) != ByteAt(b, 0) then ByteAt(a, 0) - ByteAt(b, 0)
    else if a == [] then 0
    else Compare(a[1..], b[1..])
  }

  predicate Less(a: Str, b: Str) {
    Compare(a, b) < 0
  }

  lemma {:induction false} CompareZero(a: Str, b: Str)
    ensures Compare(a, b) == 0 <==> a == b
  {
    if a != [] && b != [] && a[0] == b[0] {
      CompareZero(a[1..], b[1..]);
      assert a == [a[0]] + a[1..] && b == [b[0]] + b[1..];
    }
  }

  lemma {:induction false} CompareFlip(a: Str, b: Str)
    ensures Compare(a, b) == -Compare(b, a)
  {
    if a != [] && b != [] && a[0] == b[0] {
      CompareFlip(a[1..], b[1..]);
    }
  }

  lemma {:induction false} CompareTransitive(a: Str, b: Str, c: Str)
    requires Less(a, b) && Less(b, c)
    ensures Less(a, c)
  {
    if a != [] && b != [] && c != [] && a[0] == b[0] == c[0] {
      CompareTransitive(a[1..], b[1..], c[1..]);
    }
  }

  /** The first offset at which two strings differ decides, the terminator counting as zero. */
  lemma {:induction false} CompareAt(a: Str, b: Str, i: nat)
    requires i <= |a| && i <= |b| && a[..i] == b[..i] && ByteAt(a, i) != ByteAt(b, i)
    ensures Compare(a, b) == ByteAt(a, i) - ByteAt(b, i)
  {
    if i > 0 {
      assert a[0] == a[..i][0] == b[..i][0] == b[0];
      assert a[1..][..i - 1] == a[..i][1..] == b[..i][1..] == b[1..][..i - 1];
      CompareAt(a[1..], b[1..], i - 1);
    }
  }

  lemma {:induction false} FirstDifference(a: Str, b: Str) returns (i: nat)
    requires a != b
    ensures i <= |a| && i <= |b| && a[..i] == b[..i] && ByteAt(a, i) != ByteAt(b, i)
  {
    if a == [] || b == [] || a[0] != b[0] {
      i := 0;
    } else {
      assert a == [a[0]] + a[1..] && b == [b[0]] + b[1..];
      var j := FirstDifference(a[1..], b[1..]);
      i := j + 1;
      assert a[..i] == [a[0]] + a[1..][..j] && b[..i] == [b[0]] + b[1..][..j];
    }
  }

  /** One string is less than another if and only if it has the smaller byte where they first differ. */
  lemma LessExact(a: Str, b: Str)
    ensures Less(a, b) <==>
      exists i :: 0 <= i <= |a| && i <= |b| && a[..i] == b[..i] && ByteAt(a, i) < ByteAt(b, i)
  {
    if a != b {
      var i := FirstDifference(a, b);
      CompareAt(a, b, i);
      forall j | 0 <= j <= |a| && j <= |b| && a[..j] == b[..j] && ByteAt(a, j) < ByteAt(b, j) ensures Less(a, b) {
        CompareAt(a, b, j);
      }
    } else {
      CompareZero(a, b);
    }
  }

  /** `strcmp` is a strict total order on strings. */
  lemma StrictTotalOrder()
    ensures forall a: Str :: !Less(a, a)
    ensures forall a: Str, b: Str :: Less(a, b) || a == b || Less(b, a)
    ensures forall a: Str, b: Str, c: Str :: Less(a, b) && Less(b, c) ==> Less(a, c)
  {
    forall a: Str, b: Str ensures Less(a, b) || a == b || Less(b, a) {
      CompareZero(a, b);
      CompareFlip(a, b);
    }
    forall a: Str ensures !Less(a, a) {
      CompareZero(a, a);
    }
    forall a: Str, b: Str, c: Str | Less(a, b) && Less(b, c) ensures Less(a, c) {
      CompareTransitive(a, b, c);
    }
  }
}

/** Association lists with distinct keys, and the finite maps they stand for. */
module Pairs {
  import opened Strings

  type Pair = (Str, Str)

  predicate Sorted(s: seq<Pair>) {
    forall i, j :: 0 <= i < j < |s| ==> Less(s[i].0, s[j].0)
  }

  predicate UniqueKeys(s: seq<Pair>) {
    forall i, j :: 0 <= i < j < |s| ==> s[i].0 != s[j].0
  }

  predicate NoKey(s: seq<Pair>, k: Str) {
    forall p :: p in s ==> p.0 != k
  }

  /** The map an association list stands for; a later binding of a key wins. */
  function ToMap(s: seq<Pair>): map<Str, Str> {
    if s == [] then map[] else ToMap(s[..|s| - 1])[s[|s| - 1].0 := s[|s| - 1].1]
  }

  /** The first position that holds the key, the length when there is none. */
  function Find(s: seq<Pair>, key: Str): (i: nat)
    ensures i <= |s| && (i < |s| ==> s[i].0 == key)
    ensures forall j :: 0 <= j < i ==> s[j].0 != key
  {
    if s == [] || s[0].0 == key then 0 else Find(s[1..], key) + 1
  }

  function Without<T>(s: seq<T>, i: nat): seq<T>
    requires i < |s|
  {
    s[..i] + s[i + 1..]
  }

  lemma SortedUnique(s: seq<Pair>)
    requires Sorted(s)
    ensures UniqueKeys(s)
  {
    StrictTotalOrder();
  }

  lemma {:induction false} ToMapKeys(s: seq<Pair>, k: Str)
    ensures k in ToMap(s) <==> !NoKey(s, k)
  {
    if s != [] {
      var init, last := s[..|s| - 1], s[|s| - 1];
      ToMapKeys(init, k);
      assert s == init + [last];
    }
  }

  lemma ToMapLast(s: seq<Pair>, x: Pair)
    ensures ToMap(s + [x]) == ToMap(s)[x.0 := x.1]
  {
    assert (s + [x])[..|s|] == s;
  }

  /** A binding whose key occurs nowhere later acts as if it were made last. */
  lemma {:induction false} ToMapSplit(a: seq<Pair>, x: Pair, b: seq<Pair>)
    requires NoKey(b, x.0)
    ensures ToMap(a + [x] + b) == ToMap(a + b)[x.0 := x.1]
  {
    if b == [] {
      assert a + b == a && a + [x] + b == a + [x];
      assert (a + [x])[..|a|] == a;
    } else {
      var init, last := b[..|b| - 1], b[|b| - 1];
      assert last in b;
      ToMapSplit(a, x, init);
      ToMapLast(a + [x] + init, last);
      ToMapLast(a + init, last);
      assert a + [x] + b == a + [x] + init + [last] && a + b == a + init + [last];
      hide ToMap;
    }
  }

  /** Dropping the only binding of a key removes that key from the map. */
  lemma ToMapDrop(a: seq<Pair>, x: Pair, b: seq<Pair>)
    requires NoKey(a, x.0) && NoKey(b, x.0)
    ensures ToMap(a + b) == ToMap(a + [x] + b) - {x.0}
  {
    ToMapSplit(a, x, b);
    ToMapKeys(a + b, x.0);
  }

  /** Looking up the only binding of a key, and rebinding it in place. */
  lemma ToMapRebind(a: seq<Pair>, x: Pair, b: seq<Pair>, v: Str)
    requires NoKey(a, x.0) && NoKey(b, x.0)
    ensures x.0 in ToMap(a + [x] + b) && ToMap(a + [x] + b)[x.0] == x.1
    ensures ToMap(a + [(x.0, v)] + b) == ToMap(a + [x] + b)[x.0 := v]
  {
    ToMapSplit(a, x, b);
    ToMapSplit(a, (x.0, v), b);
  }

  /** With distinct keys, splitting at one binding leaves its key on neither side. */
  lemma UniqueSplit(s: seq<Pair>, i: nat)
    requires UniqueKeys(s) && i < |s|
    ensures NoKey(s[..i], s[i].0) && NoKey(s[i + 1..], s[i].0)
    ensures s == s[..i] + [s[i]] + s[i + 1..]
  {
  }

  predicate AllLess(s: seq<Pair>, k: Str) {
    forall p :: p in s ==> Less(p.0, k)
  }

  predicate AllGreater(s: seq<Pair>, k: Str) {
    forall p :: p in s ==> Less(k, p.0)
  }

  /** Around any binding of a sorted list the smaller keys lie left and the larger ones right. */
  lemma SortedSplit(a: seq<Pair>, x: Pair, b: seq<Pair>)
    requires Sorted(a + [x] + b)
    ensures AllLess(a, x.0) && AllGreater(b, x.0)
    ensures NoKey(a, x.0) && NoKey(b, x.0)
  {
    var s := a + [x] + b;
    StrictTotalOrder();
    forall p | p in a ensures Less(p.0, x.0) {
      var i :| 0 <= i < |a| && a[i] == p;
      assert s[i] == p && s[|a|] == x;
    }
    forall p | p in b ensures Less(x.0, p.0) {
      var i :| 0 <= i < |b| && b[i] == p;
      assert s[|a| + 1 + i] == p && s[|a|] == x;
    }
  }

  lemma SortedDrop(a: seq<Pair>, x: Pair, b: seq<Pair>)
    requires Sorted(a + [x] + b)
    ensures Sorted(a + b)
  {
    var s, r := a + [x] + b, a + b;
    forall i, j | 0 <= i < j < |r| ensures Less(r[i].0, r[j].0) {
      assert r[i] == s[if i < |a| then i else i + 1] && r[j] == s[if j < |a| then j else j + 1];
    }
  }

  /** A gap between smaller and larger keys takes a new binding. */
  lemma SortedInsert(a: seq<Pair>, x: Pair, b: seq<Pair>)
    requires Sorted(a + b) && AllLess(a, x.0) && AllGreater(b, x.0)
    ensures Sorted(a + [x] + b)
    ensures NoKey(a + b, x.0)
  {
    var s, r := a + b, a + [x] + b;
    StrictTotalOrder();
    forall i, j | 0 <= i < j < |r| ensures Less(r[i].0, r[j].0) {
      assert i < |a| ==> r[i] == s[i] && r[i] in a;
      assert i > |a| ==> r[i] == s[i - 1];
      assert j < |a| ==> r[j] == s[j];
      assert j > |a| ==> r[j] == s[j - 1] && r[j] == b[j - 1 - |a|];
    }
  }

  lemma AllLessGrow(a: seq<Pair>, x: Pair, k: Str)
    requires AllLess(a, x.0) && Less(x.0, k)
    ensures AllLess(a + [x], k)
  {
    StrictTotalOrder();
  }

  lemma AllGreaterGrow(x: Pair, b: seq<Pair>, k: Str)
    requires AllGreater(b, x.0) && Less(k, x.0)
    ensures AllGreater([x] + b, k)
  {
    StrictTotalOrder();
  }

  /** A new key may be bound anywhere in the list. */
  lemma BindAt(s: seq<Pair>, q: nat, x: Pair)
    requires q <= |s| && NoKey(s, x.0)
    ensures ToMap(s[..q] + [x] + s[q..]) == ToMap(s)[x.0 := x.1]
  {
    assert forall p :: p in s[q..] ==> p in s;
    ToMapSplit(s[..q], x, s[q..]);
    assert s[..q] + s[q..] == s;
  }

  /** Taking the binding at `q` back out. */
  lemma UnbindAt(s: seq<Pair>, q: nat, x: Pair)
    requires q <= |s| && UniqueKeys(s[..q] + [x] + s[q..])
    ensures ToMap(s) == ToMap(s[..q] + [x] + s[q..]) - {x.0}
  {
    var t := s[..q] + [x] + s[q..];
    UniqueSplit(t, q);
    assert t[..q] == s[..q] && t[q + 1..] == s[q..];
    ToMapDrop(s[..q], x, s[q..]);
    assert s[..q] + s[q..] == s;
  }

  /** With distinct keys the list and its map have one size. */
  lemma {:induction false} ToMapSize(s: seq<Pair>)
    requires UniqueKeys(s)
    ensures |ToMap(s)| == |s|
  {
    if s != [] {
      var init, last := s[..|s| - 1], s[|s| - 1];
      ToMapSize(init);
      ToMapKeys(init, last.0);
    }
  }

  /** A new key anywhere in a list of distinct keys. */
  lemma UniqueBind(a: seq<Pair>, x: Pair, b: seq<Pair>)
    requires UniqueKeys(a + b) && NoKey(a + b, x.0)
    ensures UniqueKeys(a + [x] + b) && ToMap(a + [x] + b) == ToMap(a + b)[x.0 := x.1]
  {
    hide ToMap;
    var s, t := a + b, a + [x] + b;
    forall i, j | 0 <= i < j < |t| ensures t[i].0 != t[j].0 {
      assert i != |a| ==> t[i] == s[if i < |a| then i else i - 1];
      assert j != |a| ==> t[j] == s[if j < |a| then j else j - 1];
    }
    BindAt(s, |a|, x);
    assert s[..|a|] == a && s[|a|..] == b;
  }

  /** A binding of a list of distinct keys taken out, looked up, or given another value. */
  lemma UniqueUnbind(a: seq<Pair>, x: Pair, b: seq<Pair>)
    requires UniqueKeys(a + [x] + b)
    ensures UniqueKeys(a + b) && ToMap(a + b) == ToMap(a + [x] + b) - {x.0}
  {
    UniqueAround(a, x, b);
    var s, t := a + b, a + [x] + b;
    forall i, j | 0 <= i < j < |s| ensures s[i].0 != s[j].0 {
      assert s[i] == t[if i < |a| then i else i + 1] && s[j] == t[if j < |a| then j else j + 1];
    }
    ToMapDrop(a, x, b);
  }

  lemma UniqueAround(a: seq<Pair>, x: Pair, b: seq<Pair>)
    requires UniqueKeys(a + [x] + b)
    ensures NoKey(a, x.0) && NoKey(b, x.0)
  {
    UniqueSplit(a + [x] + b, |a|);
    assert (a + [x] + b)[..|a|] == a && (a + [x] + b)[|a| + 1..] == b;
  }

  lemma UniqueRebind(a: seq<Pair>, x: Pair, b: seq<Pair>, v: Str)
    requires UniqueKeys(a + [x] + b)
    ensures x.0 in ToMap(a + [x] + b) && ToMap(a + [x] + b)[x.0] == x.1
    ensures UniqueKeys(a + [(x.0, v)] + b) && ToMap(a + [(x.0, v)] + b) == ToMap(a + [x] + b)[x.0 := v]
  {
    UniqueAround(a, x, b);
    ToMapRebind(a, x, b, v);
    var s, t := a + [(x.0, v)] + b, a + [x] + b;
    assert forall i :: 0 <= i < |s| ==> s[i].0 == t[i].0;
  }

  // ---- a stretch of bindings between others that do not have its key

  lemma MiddleSplit(a: seq<Pair>, c: seq<Pair>, z: seq<Pair>, j: nat)
    requires j < |c| && UniqueKeys(c) && NoKey(a, c[j].0) && NoKey(z, c[j].0)
    ensures a + c + z == (a + c[..j]) + [c[j]] + (c[j + 1..] + z)
    ensures NoKey(a + c[..j], c[j].0) && NoKey(c[j + 1..] + z, c[j].0)
  {
    UniqueSplit(c, j);
  }

  lemma MiddleLookup(a: seq<Pair>, c: seq<Pair>, z: seq<Pair>, k: Str)
    requires UniqueKeys(c) && NoKey(a, k) && NoKey(z, k)
    ensures k in ToMap(a + c + z) <==> Find(c, k) < |c|
    ensures Find(c, k) < |c| ==> ToMap(a + c + z)[k] == c[Find(c, k)].1
  {
    var j := Find(c, k);
    if j < |c| {
      MiddleSplit(a, c, z, j);
      ToMapRebind(a + c[..j], c[j], c[j + 1..] + z, []);
    } else {
      forall p | p in a + c + z ensures p.0 != k {
      }
      ToMapKeys(a + c + z, k);
    }
  }

  lemma MiddleDrop(a: seq<Pair>, c: seq<Pair>, z: seq<Pair>, j: nat)
    requires j < |c| && UniqueKeys(c) && NoKey(a, c[j].0) && NoKey(z, c[j].0)
    ensures ToMap(a + Without(c, j) + z) == ToMap(a + c + z) - {c[j].0}
  {
    MiddleSplit(a, c, z, j);
    assert a + Without(c, j) + z == (a + c[..j]) + (c[j + 1..] + z);
    ToMapDrop(a + c[..j], c[j], c[j + 1..] + z);
  }

  lemma MiddleRebind(a: seq<Pair>, c: seq<Pair>, z: seq<Pair>, j: nat, v: Str)
    requires j < |c| && UniqueKeys(c) && NoKey(a, c[j].0) && NoKey(z, c[j].0)
    ensures ToMap(a + c[j := (c[j].0, v)] + z) == ToMap(a + c + z)[c[j].0 := v]
  {
    MiddleSplit(a, c, z, j);
    assert a + c[j := (c[j].0, v)] + z == (a + c[..j]) + [(c[j].0, v)] + (c[j + 1..] + z);
    ToMapRebind(a + c[..j], c[j], c[j + 1..] + z, v);
  }

  lemma MiddlePut(a: seq<Pair>, c: seq<Pair>, z: seq<Pair>, p: Pair)
    requires NoKey(c, p.0) && NoKey(z, p.0)
    ensures ToMap(a + ([p] + c) + z) == ToMap(a + c + z)[p.0 := p.1]
  {
    assert a + ([p] + c) + z == a + [p] + (c + z) && a + c + z == a + (c + z);
    ToMapSplit(a, p, c + z);
  }
}
