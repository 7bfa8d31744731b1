/** The ARC cache: two lists of cached entries, two lists of ghosts and an adaptive target. */
module Arc {
  import opened Strings
  import opened Pairs
  import opened CacheBag
  import opened LruSpec

  /** A ghost is an entry without a value. */
  datatype Entry = Entry(key: Str, value: Option<Str>)

  datatype State = State(t1: seq<Entry>, t2: seq<Entry>, b1: seq<Entry>, b2: seq<Entry>, target: int, max: nat)

  datatype Outcome = Miss | HitT1 | HitT2 | HitB1 | HitB2

  /** `lru_find`: the first position with the key, the length when there is none. */
  function Locate(s: seq<Entry>, key: Str): (i: nat)
    ensures i <= |s| && (i < |s| ==> s[i].key == key)
    ensures forall j :: 0 <= j < i ==> s[j].key != key
  {
    if s == [] || s[0].key == key then 0 else Locate(s[1..], key) + 1
  }

  function AtLeastOne(n: int): int {
    if n < 1 then 1 else n
  }

  /** How far a ghost hit moves the target. */
  function Delta(other: nat, own: nat): int
    requires own > 0
  {
    if other > 0 then AtLeastOne(other / own) else 1
  }

  function Raised(a: State): int
    requires a.b1 != []
  {
    var target := a.target + Delta(|a.b2|, |a.b1|);
    if target > a.max then a.max else target
  }

  function Lowered(a: State): int
    requires a.b2 != []
  {
    var target := a.target - Delta(|a.b1|, |a.b2|);
    if target < 0 then 0 else target
  }

  /** The part of `arc_access` that looks among the ghosts. */
  function AccessGhosts(a: State, key: Str): (State, Outcome) {
    var k, l := Locate(a.b1, key), Locate(a.b2, key);
    if k < |a.b1| then
      (a.(b1 := Without(a.b1, k), t2 := [a.b1[k]] + a.t2, target := Raised(a)), HitB1)
    else if l < |a.b2| then
      (a.(b2 := Without(a.b2, l), t2 := [a.b2[l]] + a.t2, target := Lowered(a)), HitB2)
    else
      (a, Miss)
  }

  /** `arc_access` */
  function Access(a: State, key: Str): (State, Outcome) {
    var i, j := Locate(a.t1, key), Locate(a.t2, key);
    if i < |a.t1| then
      (a.(t1 := Without(a.t1, i), t2 := [a.t1[i]] + a.t2), HitT1)
    else if j < |a.t2| then
      (a.(t2 := Front(a.t2, j)), HitT2)
    else
      AccessGhosts(a, key)
  }

  function Ghost(e: Entry): Entry {
    Entry(e.key, None)
  }

  function Trim(s: seq<Entry>, max: nat): seq<Entry> {
    if |s| > max then s[..max] else s
  }

  function Init<T>(s: seq<T>): seq<T>
    requires s != []
  {
    s[..|s| - 1]
  }

  function Last<T>(s: seq<T>): T
    requires s != []
  {
    s[|s| - 1]
  }

  /** `arc_evict` */
  function Evict(a: State): State {
    if |a.t1| + |a.t2| < a.max then a
    else if |a.t1| > a.target && a.t1 != [] then
      a.(t1 := Init(a.t1), b1 := Trim([Ghost(Last(a.t1))] + a.b1, a.max))
    else if a.t2 != [] then
      a.(t2 := Init(a.t2), b2 := Trim([Ghost(Last(a.t2))] + a.b2, a.max))
    else a
  }

  /** `arc_add` */
  function Add(a: State, key: Str, value: Str): State {
    var e := Evict(a);
    e.(t1 := [Entry(key, Some(value))] + e.t1)
  }

  /** `arc_get` */
  function Get(a: State, key: Str): (State, Option<Str>) {
    var (b, hit) := Access(a, key);
    var j, i := Locate(b.t2, key), Locate(b.t1, key);
    if hit.HitT1? || hit.HitT2? then
      if j < |b.t2| then (b, b.t2[j].value)
      else if i < |b.t1| then (b, b.t1[i].value)
      else (b, None)
    else (b, None)
  }

  /** The key is in one of the four lists. */
  predicate Knows(a: State, key: Str) {
    Locate(a.t1, key) < |a.t1| || Locate(a.t2, key) < |a.t2| || Locate(a.b1, key) < |a.b1| || Locate(a.b2, key) < |a.b2|
  }

  /** `arc_del` */
  function Del(a: State, key: Str): State {
    var i, j, k, l := Locate(a.t1, key), Locate(a.t2, key), Locate(a.b1, key), Locate(a.b2, key);
    if i < |a.t1| then a.(t1 := Without(a.t1, i))
    else if j < |a.t2| then a.(t2 := Without(a.t2, j))
    else if k < |a.b1| then a.(b1 := Without(a.b1, k))
    else if l < |a.b2| then a.(b2 := Without(a.b2, l))
    else a
  }

  // ---- what the cache holds

  function Binding(e: Entry): seq<Pair> {
    if e.value.Some? then [(e.key, e.value.value)] else []
  }

  function Valued(s: seq<Entry>): seq<Pair> {
    if s == [] then [] else Binding(s[0]) + Valued(s[1..])
  }

  function Held(a: State): Bag {
    Tally(a.t1) + Tally(a.t2)
  }

  lemma {:induction false} ValuedConcat(s: seq<Entry>, t: seq<Entry>)
    ensures Valued(s + t) == Valued(s) + Valued(t)
  {
    if s == [] {
      assert s + t == t;
    } else {
      ValuedConcat(s[1..], t);
      assert (s + t)[1..] == s[1..] + t;
      Associate(Binding(s[0]), Valued(s[1..]), Valued(t));
    }
  }

  lemma Associate<T>(a: seq<T>, b: seq<T>, c: seq<T>)
    ensures a + (b + c) == a + b + c
  {
  }

  function One(e: Entry): Bag {
    if e.value.Some? then multiset{(e.key, e.value.value)} else multiset{}
  }

  /** The values of a list, counted. */
  function Tally(s: seq<Entry>): Bag {
    multiset(Valued(s))
  }

  lemma TallyConcat(s: seq<Entry>, t: seq<Entry>)
    ensures Tally(s + t) == Tally(s) + Tally(t)
  {
    ValuedConcat(s, t);
  }

  lemma TallyOne(e: Entry)
    ensures Tally([e]) == One(e)
  {
    assert [e][1..] == [] && Valued([e]) == Binding(e) + Valued([]);
    assert Binding(e) + [] == Binding(e);
  }

  lemma TallyMiddle(a: seq<Entry>, e: Entry, b: seq<Entry>)
    ensures Tally(a + [e] + b) == Tally(a + b) + One(e)
  {
    TallyConcat(a, b);
    TallyConcat(a, [e]);
    TallyConcat(a + [e], b);
    TallyOne(e);
  }

  lemma Cut<T>(s: seq<T>, i: nat)
    requires i < |s|
    ensures s == s[..i] + [s[i]] + s[i + 1..] && Without(s, i) == s[..i] + s[i + 1..]
  {
  }

  lemma ValuedSplit(s: seq<Entry>, i: nat)
    requires i < |s|
    ensures Tally(s) == Tally(Without(s, i)) + One(s[i])
  {
    Cut(s, i);
    TallyMiddle(s[..i], s[i], s[i + 1..]);
  }

  lemma {:induction false} ValuedMembers(s: seq<Entry>, p: Pair)
    ensures p in Valued(s) <==> Entry(p.0, Some(p.1)) in s
  {
    if s != [] {
      ValuedMembers(s[1..], p);
    }
  }

  // ---- invariants

  /** No valueless copy of a key comes before its valued copy. */
  predicate ValuedFirst(s: seq<Entry>) {
    forall i, j :: 0 <= i < j < |s| && s[i].key == s[j].key && s[j].value.Some? ==> s[i].value.Some?
  }

  ghost predicate Inv(a: State) {
    AllValued(a.t1) && AllGhosts(a.b1) && AllGhosts(a.b2) && Functional(Held(a)) && ValuedFirst(a.t2)
  }

  /** The first entry found under a key decides whether the list has a value for it. */
  lemma LocateAnswers(s: seq<Entry>, key: Str)
    requires ValuedFirst(s)
    ensures Answers(Tally(s), key, if Locate(s, key) < |s| then s[Locate(s, key)].value else None)
  {
    var i := Locate(s, key);
    if i < |s| && s[i].value.Some? {
      ValuedMembers(s, (key, s[i].value.value));
      assert s[i] in s;
    } else {
      hide Tally;
      forall p | p in Tally(s) ensures p.0 != key {
        ValuedMembers(s, p);
        var j :| 0 <= j < |s| && s[j] == Entry(p.0, Some(p.1));
        assert p.0 == key ==> i < j;
      }
    }
  }

  lemma ValuedFirstAll(s: seq<Entry>)
    requires forall e :: e in s ==> e.value.Some?
    ensures ValuedFirst(s)
  {
    assert forall i :: 0 <= i < |s| ==> s[i] in s;
  }

  lemma WithoutEntries(s: seq<Entry>, i: nat)
    requires i < |s|
    ensures ValuedFirst(s) ==> ValuedFirst(Without(s, i))
    ensures forall e :: e in Without(s, i) ==> e in s
  {
    var w := Without(s, i);
    assert forall j :: 0 <= j < |w| ==> w[j] == s[if j < i then j else j + 1];
  }

  /** A new front entry keeps the order if it is valued or no valued copy follows. */
  lemma FrontEntries(e: Entry, s: seq<Entry>)
    requires ValuedFirst(s) && (e.value.Some? || !Has(Tally(s), e.key))
    ensures ValuedFirst([e] + s)
    ensures Tally([e] + s) == Tally(s) + One(e)
  {
    TallyConcat([e], s);
    TallyOne(e);
    forall j | 0 <= j < |s| && s[j].key == e.key && s[j].value.Some? ensures e.value.Some? {
      var p := (s[j].key, s[j].value.value);
      ValuedMembers(s, p);
      assert s[j] in s && p in Tally(s);
    }
  }

  lemma HeldParts(a: State, key: Str)
    ensures Has(Held(a), key) <==> Has(Tally(a.t1), key) || Has(Tally(a.t2), key)
  {
    var b, c := Tally(a.t1), Tally(a.t2);
    assert forall p :: p in Held(a) <==> p in b || p in c;
  }

  lemma GetValue(a: State, key: Str)
    ensures var i, j := Locate(a.t1, key), Locate(a.t2, key);
      Get(a, key).1 == if i < |a.t1| then a.t1[i].value else if j < |a.t2| then a.t2[j].value else None
  {
  }

  /** A lookup answers exactly from the values held. */
  lemma GetAnswers(a: State, key: Str)
    requires Inv(a)
    ensures Answers(Held(a), key, Get(a, key).1)
  {
    var i := Locate(a.t1, key);
    GetValue(a, key);
    HeldParts(a, key);
    ValuedFirstAll(a.t1);
    LocateAnswers(a.t1, key);
    LocateAnswers(a.t2, key);
    assert i < |a.t1| ==> a.t1[i] in a.t1;
  }

  ghost predicate AllValued(s: seq<Entry>) {
    forall e :: e in s ==> e.value.Some?
  }

  ghost predicate AllGhosts(s: seq<Entry>) {
    forall e :: e in s ==> e.value.None?
  }

  lemma AccessT1(a: State, key: Str)
    requires Inv(a) && Locate(a.t1, key) < |a.t1|
    ensures var b := Access(a, key).0; Inv(b) && Held(b) == Held(a)
  {
    var i, b := Locate(a.t1, key), Access(a, key).0;
    assert a.t1[i] in a.t1;
    ValuedSplit(a.t1, i);
    WithoutEntries(a.t1, i);
    FrontEntries(a.t1[i], a.t2);
    assert Held(b) == Held(a);
  }

  lemma AccessT2(a: State, key: Str)
    requires Inv(a) && Locate(a.t1, key) == |a.t1| && Locate(a.t2, key) < |a.t2|
    ensures var b := Access(a, key).0; Inv(b) && Held(b) == Held(a)
  {
    var j := Locate(a.t2, key);
    LocateAnswers(a.t2, key);
    ValuedSplit(a.t2, j);
    WithoutEntries(a.t2, j);
    assert a.t2[j].value.None? ==> Tally(Without(a.t2, j)) == Tally(a.t2);
    FrontEntries(a.t2[j], Without(a.t2, j));
  }

  /** A ghost hit moves a valueless entry to the front of T2, where no valued copy can follow. */
  lemma AdoptGhost(a: State, b: State, g: Entry)
    requires Inv(a) && g.value.None? && !Has(Tally(a.t2), g.key)
    requires b.t1 == a.t1 && b.t2 == [g] + a.t2 && AllGhosts(b.b1) && AllGhosts(b.b2)
    ensures Inv(b) && Held(b) == Held(a)
  {
    FrontEntries(g, a.t2);
    assert Held(b) == Held(a);
  }

  lemma AccessGhost(a: State, key: Str)
    requires Inv(a) && Locate(a.t1, key) == |a.t1| && Locate(a.t2, key) == |a.t2|
    ensures var b := Access(a, key).0; Inv(b) && Held(b) == Held(a)
  {
    var k, l, b := Locate(a.b1, key), Locate(a.b2, key), Access(a, key).0;
    LocateAnswers(a.t2, key);
    if k < |a.b1| {
      assert a.b1[k] in a.b1;
      WithoutEntries(a.b1, k);
      AdoptGhost(a, b, a.b1[k]);
    } else if l < |a.b2| {
      assert a.b2[l] in a.b2;
      WithoutEntries(a.b2, l);
      AdoptGhost(a, b, a.b2[l]);
    }
  }

  lemma GetKeeps(a: State, key: Str)
    requires Inv(a)
    ensures Inv(Get(a, key).0) && Held(Get(a, key).0) == Held(a)
  {
    AccessKeeps(a, key);
    GetState(a, key);
  }

  lemma GetState(a: State, key: Str)
    ensures Get(a, key).0 == Access(a, key).0
  {
  }

  lemma AccessKeeps(a: State, key: Str)
    requires Inv(a)
    ensures var b := Access(a, key).0; Inv(b) && Held(b) == Held(a)
  {
    if Locate(a.t1, key) < |a.t1| {
      AccessT1(a, key);
    } else if Locate(a.t2, key) < |a.t2| {
      AccessT2(a, key);
    } else {
      AccessGhost(a, key);
    }
  }

  lemma TrimGhosts(e: Entry, s: seq<Entry>, max: nat)
    requires forall g :: g in s ==> g.value.None?
    ensures forall g :: g in Trim([Ghost(e)] + s, max) ==> g.value.None?
  {
  }

  lemma InitKeeps(s: seq<Entry>)
    requires s != []
    ensures Tally(Init(s)) <= Tally(s) && (ValuedFirst(s) ==> ValuedFirst(Init(s)))
    ensures forall e :: e in Init(s) ==> e in s
  {
    assert Init(s) == Without(s, |s| - 1);
    ValuedSplit(s, |s| - 1);
    WithoutEntries(s, |s| - 1);
  }

  lemma EvictKeeps(a: State)
    requires Inv(a)
    ensures Inv(Evict(a)) && Held(Evict(a)) <= Held(a)
  {
    if |a.t1| + |a.t2| >= a.max {
      if |a.t1| > a.target && a.t1 != [] {
        InitKeeps(a.t1);
        TrimGhosts(Last(a.t1), a.b1, a.max);
      } else if a.t2 != [] {
        InitKeeps(a.t2);
        TrimGhosts(Last(a.t2), a.b2, a.max);
      }
    }
    FunctionalSubset(Held(a), Held(Evict(a)));
  }

  lemma FunctionalSubset(b: Bag, c: Bag)
    requires Functional(b) && c <= b
    ensures Functional(c)
  {
    assert forall p :: p in c ==> p in b && c[p] <= b[p];
  }

  lemma AddKeeps(a: State, key: Str, value: Str)
    requires Inv(a) && !Has(Held(a), key)
    ensures Inv(Add(a, key, value)) && Admits(Held(a), (key, value), Held(Add(a, key, value)))
  {
    var e, p := Evict(a), (key, value);
    EvictKeeps(a);
    TallyConcat([Entry(key, Some(value))], e.t1);
    TallyOne(Entry(key, Some(value)));
    assert Held(Add(a, key, value)) == Held(e) + multiset{p};
    assert forall q :: q in Held(e) ==> q in Held(a);
    AdmitsFunctional(Held(e), p, Held(Add(a, key, value)));
  }

  lemma InitTally(s: seq<Entry>)
    requires s != []
    ensures Tally(s) == Tally(Init(s)) + One(Last(s))
  {
    var n := |s| - 1;
    assert s == s[..n] + [s[n]] + [] && s[..n] + [] == s[..n];
    TallyMiddle(s[..n], s[n], []);
  }

  lemma AddStocks(a: State, key: Str, value: Str)
    ensures Stocks(Held(a), (key, value), Held(Add(a, key, value)), |a.t1| + |a.t2| >= a.max)
  {
    var e, p := Evict(a), (key, value);
    TallyConcat([Entry(key, Some(value))], e.t1);
    TallyOne(Entry(key, Some(value)));
    assert Held(Add(a, key, value)) == Held(e) + multiset{p};
    EvictTally(a);
  }

  lemma EvictTally(a: State)
    ensures |a.t1| + |a.t2| < a.max ==> Held(Evict(a)) == Held(a)
    ensures Held(Evict(a)) == Held(a) || exists q :: q in Held(a) && Held(Evict(a)) == Held(a) - multiset{q}
  {
    hide Tally, One, Trim, Init, Last;
    if |a.t1| + |a.t2| >= a.max {
      if |a.t1| > a.target && a.t1 != [] {
        InitTally(a.t1);
        OneLess(Tally(Init(a.t1)), Tally(a.t2), Last(a.t1));
      } else if a.t2 != [] {
        InitTally(a.t2);
        OneLess(Tally(Init(a.t2)), Tally(a.t1), Last(a.t2));
        assert Held(a) == Tally(Init(a.t2)) + One(Last(a.t2)) + Tally(a.t1);
        assert Held(Evict(a)) == Tally(Init(a.t2)) + Tally(a.t1);
      }
    }
  }

  lemma OneLess(b: Bag, c: Bag, e: Entry)
    ensures var d := b + One(e) + c;
      b + c == d || exists q :: q in d && b + c == d - multiset{q}
  {
    if e.value.Some? {
      assert (e.key, e.value.value) in b + One(e) + c;
    }
  }

  lemma DelT1(a: State, key: Str)
    requires Inv(a) && Locate(a.t1, key) < |a.t1|
    ensures Inv(Del(a, key)) && Purges(Held(a), key, Held(Del(a, key)))
  {
    var i, b := Locate(a.t1, key), Del(a, key);
    assert a.t1[i] in a.t1;
    ValuedSplit(a.t1, i);
    WithoutEntries(a.t1, i);
    assert Held(b) == Held(a) - One(a.t1[i]);
    DropPurges(Held(a), (key, a.t1[i].value.value));
    FunctionalSubset(Held(a), Held(b));
  }

  lemma DelT2(a: State, key: Str)
    requires Inv(a) && Locate(a.t1, key) == |a.t1| && Locate(a.t2, key) < |a.t2|
    ensures Inv(Del(a, key)) && Purges(Held(a), key, Held(Del(a, key)))
  {
    var e := a.t2[Locate(a.t2, key)];
    T2Answers(a, key);
    DelT2Held(a, key);
    PurgeOne(Held(a), e);
  }

  /** Taking out the entry that answers for a key leaves no binding of it. */
  lemma PurgeOne(b: Bag, e: Entry)
    requires Functional(b) && Answers(b, e.key, e.value)
    ensures Purges(b, e.key, b - One(e))
  {
    if e.value.Some? {
      DropPurges(b, (e.key, e.value.value));
    } else {
      assert b - One(e) == b;
      AbsentPurges(b, e.key);
    }
  }

  lemma T2Answers(a: State, key: Str)
    requires Inv(a) && Locate(a.t1, key) == |a.t1| && Locate(a.t2, key) < |a.t2|
    ensures Answers(Held(a), key, a.t2[Locate(a.t2, key)].value)
  {
    GetAnswers(a, key);
    GetValue(a, key);
  }

  lemma DelT2Held(a: State, key: Str)
    requires Inv(a) && Locate(a.t1, key) == |a.t1| && Locate(a.t2, key) < |a.t2|
    ensures Inv(Del(a, key)) && Held(Del(a, key)) == Held(a) - One(a.t2[Locate(a.t2, key)])
  {
    var j, b := Locate(a.t2, key), Del(a, key);
    ValuedSplit(a.t2, j);
    WithoutEntries(a.t2, j);
    assert Held(b) == Held(a) - One(a.t2[j]);
    FunctionalSubset(Held(a), Held(b));
  }

  /** A deletion leaves no value under the key, although valueless copies may stay. */
  lemma DelKeeps(a: State, key: Str)
    requires Inv(a)
    ensures Inv(Del(a, key)) && Purges(Held(a), key, Held(Del(a, key)))
  {
    var k, l := Locate(a.b1, key), Locate(a.b2, key);
    if Locate(a.t1, key) < |a.t1| {
      DelT1(a, key);
    } else if Locate(a.t2, key) < |a.t2| {
      DelT2(a, key);
    } else {
      GetAnswers(a, key);
      AbsentPurges(Held(a), key);
      if k < |a.b1| {
        WithoutEntries(a.b1, k);
      } else if l < |a.b2| {
        WithoutEntries(a.b2, l);
      }
    }
  }

  // ---- runs

  /** A read always goes through `arc_access`, so a ghost may move and the target with it, even when
      the store has nothing to bring in. */
  function Step(a: State, e: Event): State {
    match e
    case Drop(k) => Del(a, k)
    case Look(k, stored) =>
      var (b, r) := Get(a, k);
      Fetched(b, k, r, stored)
  }

  predicate GhostHit(a: State, e: Event) {
    e.Look? && (Access(a, e.key).1.HitB1? || Access(a, e.key).1.HitB2?)
  }

  function Start(max: nat): State {
    State([], [], [], [], max / 2, max)
  }

  function Run(max: nat, es: seq<Event>): State {
    if es == [] then Start(max) else Step(Run(max, es[..|es| - 1]), es[|es| - 1])
  }

  function GhostHits(max: nat, es: seq<Event>): nat {
    if es == [] then 0
    else GhostHits(max, es[..|es| - 1]) + if GhostHit(Run(max, es[..|es| - 1]), es[|es| - 1]) then 1 else 0
  }

  lemma StepKeeps(a: State, e: Event)
    requires Inv(a)
    ensures Inv(Step(a, e))
  {
    match e
    case Drop(k) => DelKeeps(a, k);
    case Look(k, stored) =>
      GetKeeps(a, k);
      GetAnswers(a, k);
      if Get(a, k).1.None? && stored.Some? {
        AddKeeps(Get(a, k).0, k, stored.value);
      }
  }

  /** Sizes after `g` ghost hits; before the first one the target has not moved above its start. */
  predicate Sized(a: State, g: nat) {
    && a.max > 0 && 0 <= a.target <= a.max && |a.b1| <= a.max && |a.b2| <= a.max
    && |a.t1| + |a.t2| <= a.max + g && (g == 0 ==> a.target <= a.max / 2)
  }

  lemma AccessSized(a: State, key: Str, g: nat)
    requires Sized(a, g)
    ensures var (b, o) := Access(a, key); Sized(b, if o.HitB1? || o.HitB2? then g + 1 else g) && b.max == a.max
  {
  }

  /** Only with an empty T2 and a target at its maximum does eviction free nothing. */
  lemma AddSized(a: State, key: Str, value: Str, g: nat)
    requires Sized(a, g)
    ensures Sized(Add(a, key, value), g)
  {
  }

  /** What a read does once `arc_access` is over. */
  function Fetched(b: State, key: Str, r: Option<Str>, stored: Option<Str>): State {
    if r.None? && stored.Some? then Add(b, key, stored.value) else b
  }

  lemma FetchedSized(b: State, key: Str, r: Option<Str>, stored: Option<Str>, g: nat)
    requires Sized(b, g)
    ensures Sized(Fetched(b, key, r, stored), g) && Fetched(b, key, r, stored).max == b.max
  {
    if stored.Some? {
      AddSized(b, key, stored.value, g);
    }
  }

  lemma StepSized(a: State, e: Event, g: nat)
    requires Sized(a, g)
    ensures Sized(Step(a, e), if GhostHit(a, e) then g + 1 else g) && Step(a, e).max == a.max
  {
    if e.Look? {
      var (b, o) := Access(a, e.key);
      AccessSized(a, e.key, g);
      GetState(a, e.key);
      FetchedSized(b, e.key, Get(a, e.key).1, e.stored, if o.HitB1? || o.HitB2? then g + 1 else g);
    }
  }

  /** In every run T1 holds only values, each key has at most one value, T2 keeps it in front of its
      valueless copies, and T1 and T2 together exceed the capacity by at most the ghost hits so far. */
  lemma {:induction false} RunInvariant(max: nat, es: seq<Event>)
    requires max > 0
    ensures Inv(Run(max, es)) && Sized(Run(max, es), GhostHits(max, es)) && Run(max, es).max == max
  {
    if es == [] {
      assert Inv(Start(max)) && Sized(Start(max), 0);
    } else {
      var init, e := es[..|es| - 1], es[|es| - 1];
      var a, g := Run(max, init), GhostHits(max, init);
      RunInvariant(max, init);
      StepKeeps(a, e);
      StepSized(a, e, g);
      assert Run(max, es) == Step(a, e) && GhostHits(max, es) == if GhostHit(a, e) then g + 1 else g;
    }
  }

  lemma RunNext(max: nat, es: seq<Event>, e: Event)
    ensures Run(max, es + [e]) == Step(Run(max, es), e)
    ensures GhostHits(max, es + [e]) == GhostHits(max, es) + if GhostHit(Run(max, es), e) then 1 else 0
  {
    assert (es + [e])[..|es|] == es;
  }

  function Row(a: Event, b: Event, c: Event): seq<Event> {
    [] + [a] + [b] + [c]
  }

  lemma RowRun(max: nat, a: Event, b: Event, c: Event)
    ensures Run(max, Row(a, b, c)) == Step(Step(Step(Start(max), a), b), c)
    ensures var s, t := Step(Start(max), a), Step(Step(Start(max), a), b);
      GhostHits(max, Row(a, b, c)) == (if GhostHit(Start(max), a) then 1 else 0)
        + (if GhostHit(s, b) then 1 else 0) + (if GhostHit(t, c) then 1 else 0)
  {
    RunNext(max, [], a);
    RunNext(max, [] + [a], b);
    RunNext(max, [] + [a] + [b], c);
  }

  /** The first read of a key goes to T1, the second key pushes it out to B1. */
  lemma TwoReads(k: Str, j: Str, v: Str, w: Str)
    requires k != j
    ensures var a := State([Entry(k, Some(v))], [], [], [], 0, 1);
      var b := State([Entry(j, Some(w))], [], [Entry(k, None)], [], 0, 1);
      Step(Start(1), Look(k, Some(v))) == a && Step(a, Look(j, Some(w))) == b
      && !GhostHit(Start(1), Look(k, Some(v))) && !GhostHit(a, Look(j, Some(w)))
  {
    assert Trim([Entry(k, None)] + [], 1) == [Entry(k, None)];
  }

  /** The ghost of the first key moves to T2 and on to B2, and the key comes back to T1. */
  lemma ThirdRead(k: Str, j: Str, v: Str, w: Str)
    requires k != j
    ensures var b := State([Entry(j, Some(w))], [], [Entry(k, None)], [], 0, 1);
      Get(b, k) == (State([Entry(j, Some(w))], [Entry(k, None)], [], [], 1, 1), None) && Access(b, k).1.HitB1?
      && Step(b, Look(k, Some(v))) == State([Entry(k, Some(v)), Entry(j, Some(w))], [], [], [Entry(k, None)], 1, 1)
  {
    var b := State([Entry(j, Some(w))], [], [Entry(k, None)], [], 0, 1);
    assert Locate(b.t1, k) == 1 && Locate(b.t2, k) == 0 && Locate(b.b1, k) == 0;
    assert Without(b.b1, 0) == [];
    assert Trim([Entry(k, None)] + [], 1) == [Entry(k, None)];
  }

  /** The bound is reached: one ghost hit takes a cache of one entry to two. */
  lemma BoundReached(k: Str, j: Str, v: Str, w: Str)
    requires k != j
    ensures var es := Row(Look(k, Some(v)), Look(j, Some(w)), Look(k, Some(v)));
      GhostHits(1, es) == 1 && |Run(1, es).t1| + |Run(1, es).t2| == 2
  {
    var e, f := Look(k, Some(v)), Look(j, Some(w));
    RowRun(1, e, f, e);
    TwoReads(k, j, v, w);
    ThirdRead(k, j, v, w);
  }

  // ---- exactly when T1 and T2 outgrow the capacity

  function Total(a: State): nat {
    |a.t1| + |a.t2|
  }

  /** A full cache takes one entry more: on a ghost hit, and on a miss whose eviction finds nothing to
      evict, because T2 is empty and the target stands at the maximum. */
  predicate Bursts(a: State, e: Event) {
    && Total(a) == a.max && e.Look?
    && (GhostHit(a, e) || (Access(a, e.key).1.Miss? && e.stored.Some? && a.t2 == [] && a.target == a.max))
  }

  /** A deletion that takes an entry out of T1 or T2. */
  predicate Frees(a: State, e: Event) {
    e.Drop? && (Locate(a.t1, e.key) < |a.t1| || Locate(a.t2, e.key) < |a.t2|)
  }

  predicate Aimed(a: State) {
    0 <= a.target <= a.max
  }

  lemma AccessTotal(a: State, key: Str)
    requires Aimed(a)
    ensures var (b, o) := Access(a, key);
      Total(b) == Total(a) + (if o.HitB1? || o.HitB2? then 1 else 0)
      && Aimed(b) && b.max == a.max && (o.Miss? ==> b == a) && (!o.Miss? ==> b.t2 != [])
  {
  }

  lemma AddTotal(b: State, key: Str, value: Str)
    requires Aimed(b)
    ensures Total(Add(b, key, value))
      == if Total(b) < b.max || (b.t2 == [] && |b.t1| <= b.target) then Total(b) + 1 else Total(b)
  {
  }

  lemma MissValue(a: State, key: Str)
    requires Access(a, key).1.Miss?
    ensures Get(a, key).1 == None
  {
  }

  /** A read takes a cache that is not overfull beyond its capacity exactly in the two cases, and never
      brings an overfull one back. */
  lemma LookTotal(a: State, key: Str, stored: Option<Str>)
    requires Aimed(a)
    ensures Total(Step(a, Look(key, stored))) <= a.max
      <==> Total(a) <= a.max && !Bursts(a, Look(key, stored))
  {
    AccessTotal(a, key);
    GetState(a, key);
    var (b, r) := Get(a, key);
    if Access(a, key).1.Miss? {
      MissValue(a, key);
    }
    if r.None? && stored.Some? {
      AddTotal(b, key, stored.value);
    }
    hide Access, Get, Add, Locate;
  }

  /** Exactly when a step leaves T1 and T2 within the capacity: a cache within it must not burst, and
      one beyond it comes back only when a deletion frees its single surplus entry. */
  lemma StepWithin(a: State, e: Event)
    requires Aimed(a)
    ensures Total(Step(a, e)) <= a.max
      <==> if Total(a) <= a.max then !Bursts(a, e) else Total(a) == a.max + 1 && Frees(a, e)
  {
    match e
    case Look(k, stored) => LookTotal(a, k, stored);
    case Drop(k) =>
  }

  /** At no time in the run do T1 and T2 exceed the capacity. */
  predicate StaysWithin(max: nat, es: seq<Event>) {
    forall n :: 0 <= n <= |es| ==> Total(Run(max, es[..n])) <= max
  }

  predicate NeverBursts(max: nat, es: seq<Event>) {
    forall n :: 0 <= n < |es| ==> !Bursts(Run(max, es[..n]), es[n])
  }

  lemma WithinNext(max: nat, es: seq<Event>, e: Event)
    ensures StaysWithin(max, es + [e]) <==> StaysWithin(max, es) && Total(Run(max, es + [e])) <= max
  {
    hide Run, Total;
    var next := es + [e];
    assert next[..|next|] == next && forall n :: 0 <= n <= |es| ==> next[..n] == es[..n];
    if StaysWithin(max, next) {
      forall n | 0 <= n <= |es| ensures Total(Run(max, es[..n])) <= max {
        assert Total(Run(max, next[..n])) <= max;
      }
    }
  }

  lemma BurstsNext(max: nat, es: seq<Event>, e: Event)
    ensures NeverBursts(max, es + [e]) <==> NeverBursts(max, es) && !Bursts(Run(max, es), e)
  {
    hide Run, Bursts;
    var next := es + [e];
    assert next[..|es|] == es && forall n :: 0 <= n < |es| ==> next[..n] == es[..n] && next[n] == es[n];
    if NeverBursts(max, next) {
      assert !Bursts(Run(max, next[..|es|]), next[|es|]);
      forall n | 0 <= n < |es| ensures !Bursts(Run(max, es[..n]), es[n]) {
        assert !Bursts(Run(max, next[..n]), next[n]);
      }
    }
  }

  /** Over every run: T1 and T2 stay within the capacity throughout if and only if no event bursts. */
  lemma {:induction false} RunWithin(max: nat, es: seq<Event>)
    requires max > 0
    ensures StaysWithin(max, es) <==> NeverBursts(max, es)
  {
    if es == [] {
      assert es[..0] == [];
    } else {
      hide StaysWithin, NeverBursts, Total, Bursts, Run, Step, Inv;
      var init, e := es[..|es| - 1], es[|es| - 1];
      assert es == init + [e];
      RunWithin(max, init);
      WithinHere(max, init);
      RunInvariant(max, init);
      RunNext(max, init, e);
      StepWithin(Run(max, init), e);
      WithinNext(max, init, e);
      BurstsNext(max, init, e);
    }
  }

  lemma WithinHere(max: nat, es: seq<Event>)
    ensures StaysWithin(max, es) ==> Total(Run(max, es)) <= max
  {
    assert es[..|es|] == es;
  }

  /** A read of a ghost that the store does not hold, then the deletion of its valueless entry. */
  lemma ReadAndDrop(k: Str, j: Str, w: Str)
    requires k != j
    ensures var b := State([Entry(j, Some(w))], [], [Entry(k, None)], [], 0, 1);
      var c := State([Entry(j, Some(w))], [Entry(k, None)], [], [], 1, 1);
      Step(b, Look(k, None)) == c && Step(c, Drop(k)) == State([Entry(j, Some(w))], [], [], [], 1, 1)
  {
    ThirdRead(k, j, w, w);
    var c := State([Entry(j, Some(w))], [Entry(k, None)], [], [], 1, 1);
    assert Locate(c.t1, k) == 1 && Locate(c.t2, k) == 0 && Without(c.t2, 0) == [];
  }

  /** The other case happens as well: after a read of two keys, a read of the first while the store does
      not hold it, and its deletion, a plain miss takes a cache of one entry to two. */
  lemma MissBursts(k: Str, j: Str, m: Str, v: Str, w: Str, x: Str)
    requires k != j && m != j
    ensures var es := Row(Look(k, Some(v)), Look(j, Some(w)), Look(k, None)) + [Drop(k)];
      !GhostHit(Run(1, es), Look(m, Some(x))) && Bursts(Run(1, es), Look(m, Some(x)))
      && Total(Run(1, es)) == 1 && Total(Run(1, es + [Look(m, Some(x))])) == 2
  {
    hide Run, Row, GhostHits;
    var a, b, c := Look(k, Some(v)), Look(j, Some(w)), Look(k, None);
    RowRun(1, a, b, c);
    TwoReads(k, j, v, w);
    ReadAndDrop(k, j, w);
    RunNext(1, Row(a, b, c), Drop(k));
    RunNext(1, Row(a, b, c) + [Drop(k)], Look(m, Some(x)));
    var s := State([Entry(j, Some(w))], [], [], [], 1, 1);
    assert Locate(s.t1, m) == 1;
    LookTotal(s, m, Some(x));
    assert Access(s, m) == (s, Miss);
    MissValue(s, m);
    AddTotal(s, m, x);
  }

  // ---- what each operation does to the four lists, entry by entry

  predicate Lacks(s: seq<Entry>, key: Str) {
    forall i :: 0 <= i < |s| ==> s[i].key != key
  }

  /** `e` is the first entry of the key in `s`, and `s'` the others in their order. */
  predicate Taken(s: seq<Entry>, e: Entry, s': seq<Entry>, key: Str) {
    exists i :: 0 <= i < |s| && s[i] == e && e.key == key && Lacks(s[..i], key) && s' == s[..i] + s[i + 1..]
  }

  lemma LocateTakes(s: seq<Entry>, key: Str)
    ensures var i := Locate(s, key);
      if i < |s| then Taken(s, s[i], Without(s, i), key) else Lacks(s, key)
  {
    var i := Locate(s, key);
    if i < |s| {
      assert Lacks(s[..i], key) && Without(s, i) == s[..i] + s[i + 1..];
    }
  }

  /** The last entry of a list of cached entries has left it, and the list of ghosts begins with its ghost
      and goes on with the youngest of the old ghosts. */
  predicate Banished(s: seq<Entry>, s': seq<Entry>, g: seq<Entry>, g': seq<Entry>, max: nat)
    requires max > 0
  {
    && s != [] && s' == s[..|s| - 1] && g' != [] && g'[0] == Entry(s[|s| - 1].key, None)
    && g'[1..] == if |g| < max then g else g[..max - 1]
  }

  lemma TrimBanishes(s: seq<Entry>, g: seq<Entry>, max: nat)
    requires s != [] && max > 0
    ensures Banished(s, Init(s), g, Trim([Ghost(Last(s))] + g, max), max)
  {
  }

  /** An add puts the new entry in front of T1. Below capacity it changes nothing else; otherwise the last
      entry of T1 goes if T1 is longer than the target, else the last of T2, and its ghost remains. */
  lemma AddExact(a: State, key: Str, value: Str)
    requires a.max > 0
    ensures var b := Add(a, key, value);
      && b.t1 != [] && b.t1[0] == Entry(key, Some(value)) && b.target == a.target && b.max == a.max
      && if |a.t1| + |a.t2| < a.max then b.t1[1..] == a.t1 && b.t2 == a.t2 && b.b1 == a.b1 && b.b2 == a.b2
         else if a.t1 != [] && |a.t1| > a.target then
           Banished(a.t1, b.t1[1..], a.b1, b.b1, a.max) && b.t2 == a.t2 && b.b2 == a.b2
         else if a.t2 != [] then
           Banished(a.t2, b.t2, a.b2, b.b2, a.max) && b.t1[1..] == a.t1 && b.b1 == a.b1
         else b.t1[1..] == a.t1 && b.t2 == a.t2 && b.b1 == a.b1 && b.b2 == a.b2
  {
    var e := Evict(a);
    assert ([Entry(key, Some(value))] + e.t1)[1..] == e.t1;
    if a.t1 != [] {
      TrimBanishes(a.t1, a.b1, a.max);
    }
    if a.t2 != [] {
      TrimBanishes(a.t2, a.b2, a.max);
    }
    hide Trim, Init, Last, Banished;
  }

  function Least(x: int, y: int): int {
    if x < y then x else y
  }

  function Most(x: int, y: int): int {
    if x < y then y else x
  }

  /** A hit in B1 raises the target by the ratio of B2 to B1, a hit in B2 lowers it by the ratio of B1 to B2, by
      one at least and within 0 and the maximum. */
  lemma TargetExact(a: State)
    ensures a.b1 != [] ==> Raised(a) == Least(a.max, a.target + Most(1, |a.b2| / |a.b1|))
    ensures a.b2 != [] ==> Lowered(a) == Most(0, a.target - Most(1, |a.b1| / |a.b2|))
  {
  }

  /** `e` has moved from the list of ghosts `g` to the front of T2. */
  ghost predicate Revived(a: State, b: State, g: seq<Entry>, g': seq<Entry>, key: Str) {
    Lacks(a.t1, key) && Lacks(a.t2, key) && exists e :: Taken(g, e, g', key) && b.t2 == [e] + a.t2
  }

  /** Where an access finds the key, in the order T1, T2, B1, B2, and what it moves to the front of T2. */
  lemma AccessExact(a: State, key: Str)
    ensures var (b, o) := Access(a, key);
      match o
      case HitT1 => (exists e :: Taken(a.t1, e, b.t1, key) && b.t2 == [e] + a.t2) && b == a.(t1 := b.t1, t2 := b.t2)
      case HitT2 => Lacks(a.t1, key) && b == a.(t2 := b.t2) && exists e, r :: Taken(a.t2, e, r, key) && b.t2 == [e] + r
      case HitB1 => Revived(a, b, a.b1, b.b1, key) && a.b1 != []
        && b == a.(b1 := b.b1, t2 := b.t2, target := Raised(a))
      case HitB2 => Revived(a, b, a.b2, b.b2, key) && a.b2 != [] && Lacks(a.b1, key)
        && b == a.(b2 := b.b2, t2 := b.t2, target := Lowered(a))
      case Miss => b == a && Lacks(a.t1, key) && Lacks(a.t2, key) && Lacks(a.b1, key) && Lacks(a.b2, key)
  {
    LocateTakes(a.t1, key);
    LocateTakes(a.t2, key);
    LocateTakes(a.b1, key);
    LocateTakes(a.b2, key);
    hide Taken, Lacks, Locate, Without, Raised, Lowered;
  }

  /** A deletion takes the first entry of the key out of the first of T1, T2, B1 and B2 that has one. */
  lemma DelExact(a: State, key: Str)
    ensures var b := Del(a, key);
      if !Lacks(a.t1, key) then b == a.(t1 := b.t1) && exists e :: Taken(a.t1, e, b.t1, key)
      else if !Lacks(a.t2, key) then b == a.(t2 := b.t2) && exists e :: Taken(a.t2, e, b.t2, key)
      else if !Lacks(a.b1, key) then b == a.(b1 := b.b1) && exists e :: Taken(a.b1, e, b.b1, key)
      else if !Lacks(a.b2, key) then b == a.(b2 := b.b2) && exists e :: Taken(a.b2, e, b.b2, key)
      else b == a
  {
    LocateTakes(a.t1, key);
    LocateTakes(a.t2, key);
    LocateTakes(a.b1, key);
    LocateTakes(a.b2, key);
    TakenHas(a.t1, key);
    TakenHas(a.t2, key);
    TakenHas(a.b1, key);
    TakenHas(a.b2, key);
    hide Taken, Lacks, Locate, Without;
  }

  lemma TakenHas(s: seq<Entry>, key: Str)
    ensures Locate(s, key) < |s| <==> !Lacks(s, key)
  {
  }

  // ---- where ghosts come from

  predicate HasGhost(a: State, key: Str) {
    !Lacks(a.b1, key) || !Lacks(a.b2, key)
  }

  /** The step evicts an entry of the key: it was the last of T1 or of T2 and is gone, while every other entry
      stays where it was behind the new one. */
  predicate Leaves(a: State, e: Event, key: Str) {
    && e.Look? && var b, c := Access(a, e.key).0, Step(a, e);
    && c.t1 != []
    && (|| (b.t1 != [] && b.t1[|b.t1| - 1].key == key && c.t1[1..] == b.t1[..|b.t1| - 1] && c.t2 == b.t2)
        || (b.t2 != [] && b.t2[|b.t2| - 1].key == key && c.t2 == b.t2[..|b.t2| - 1] && c.t1[1..] == b.t1))
  }

  lemma TakenLacks(s: seq<Entry>, s': seq<Entry>, key: Str, k: Str)
    requires Lacks(s, k) && exists e :: Taken(s, e, s', key)
    ensures Lacks(s', k)
  {
  }

  lemma AccessNoGhost(a: State, key: Str, k: Str)
    requires !HasGhost(a, k)
    ensures !HasGhost(Access(a, key).0, k)
  {
    AccessExact(a, key);
    var (b, o) := Access(a, key);
    if o.HitB1? {
      TakenLacks(a.b1, b.b1, key, k);
    } else if o.HitB2? {
      TakenLacks(a.b2, b.b2, key, k);
    }
  }

  lemma DelNoGhost(a: State, key: Str, k: Str)
    requires !HasGhost(a, k)
    ensures !HasGhost(Del(a, key), k)
  {
    DelExact(a, key);
    var b := Del(a, key);
    if b.b1 != a.b1 {
      TakenLacks(a.b1, b.b1, key, k);
    } else if b.b2 != a.b2 {
      TakenLacks(a.b2, b.b2, key, k);
    }
  }

  lemma BanishedGhost(s: seq<Entry>, s': seq<Entry>, g: seq<Entry>, g': seq<Entry>, max: nat, k: Str)
    requires max > 0 && Banished(s, s', g, g', max) && Lacks(g, k) && !Lacks(g', k)
    ensures s[|s| - 1].key == k
  {
    assert g' == [g'[0]] + g'[1..];
  }

  /** A step gives a ghost to no key but one whose own entry it evicts. */
  lemma GhostOrigin(a: State, e: Event, k: Str)
    requires a.max > 0 && !HasGhost(a, k) && HasGhost(Step(a, e), k)
    ensures Leaves(a, e, k)
  {
    match e
    case Drop(key) => DelNoGhost(a, key, k);
    case Look(key, stored) =>
      var b, c := Access(a, key).0, Step(a, e);
      AccessNoGhost(a, key, k);
      GetState(a, key);
      assert c != b;
      AccessMax(a, key);
      AddExact(b, key, stored.value);
      if c.b1 != b.b1 {
        BanishedGhost(b.t1, c.t1[1..], b.b1, c.b1, b.max, k);
      } else {
        BanishedGhost(b.t2, c.t2, b.b2, c.b2, b.max, k);
      }
  }

  lemma AccessMax(a: State, key: Str)
    ensures Access(a, key).0.max == a.max
  {
  }

  /** At its n-th step the run evicts an entry of the key. */
  predicate EvictedAt(max: nat, es: seq<Event>, n: nat, k: Str) {
    n < |es| && Leaves(Run(max, es[..n]), es[n], k)
  }

  lemma EvictedBefore(max: nat, es: seq<Event>, e: Event, n: nat, k: Str)
    requires EvictedAt(max, es, n, k)
    ensures EvictedAt(max, es + [e], n, k)
  {
    assert (es + [e])[..n] == es[..n] && (es + [e])[n] == es[n];
  }

  lemma EvictedNow(max: nat, es: seq<Event>, e: Event, k: Str)
    requires Leaves(Run(max, es), e, k)
    ensures EvictedAt(max, es + [e], |es|, k)
  {
    assert (es + [e])[..|es|] == es && (es + [e])[|es|] == e;
  }

  /** In every run, a key has a ghost only if at some step its own entry was evicted. */
  lemma {:induction false} RunGhosts(max: nat, es: seq<Event>, k: Str) returns (n: nat)
    requires max > 0 && HasGhost(Run(max, es), k)
    ensures EvictedAt(max, es, n, k)
  {
    assert es != [];
    var init, e := es[..|es| - 1], es[|es| - 1];
    hide Leaves, Inv, Sized, Step, Run, HasGhost, EvictedAt;
    assert es == init + [e];
    RunInvariant(max, init);
    RunNext(max, init, e);
    if HasGhost(Run(max, init), k) {
      n := RunGhosts(max, init, k);
      EvictedBefore(max, init, e, n, k);
    } else {
      GhostOrigin(Run(max, init), e, k);
      EvictedNow(max, init, e, k);
      n := |init|;
    }
  }
}
