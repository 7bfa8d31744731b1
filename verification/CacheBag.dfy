/** What a cache holds, whatever its policy: a bag of bindings with at most one per key. */
module CacheBag {
  import opened Strings
  import opened Pairs

  datatype Option<T> = None | Some(value: T)

  /** A read together with what the store behind the cache answers, or an invalidation. A read that
      misses the cache brings in what the store holds, if anything. */
  datatype Event = Look(key: Str, stored: Option<Str>) | Drop(key: Str)

  type Bag = multiset<Pair>

  predicate Has(b: Bag, key: Str) {
    exists p :: p in b && p.0 == key
  }

  ghost predicate Functional(b: Bag) {
    && (forall p :: p in b ==> b[p] == 1)
    && (forall p, q :: p in b && q in b && p.0 == q.0 ==> p == q)
  }

  /** A lookup answers from the bag. */
  ghost predicate Answers(b: Bag, key: Str, r: Option<Str>) {
    match r
    case None => !Has(b, key)
    case Some(v) => (key, v) in b
  }

  /** Caching a new binding may push others out but invents none. */
  ghost predicate Admits(b: Bag, p: Pair, b': Bag) {
    b' <= b + multiset{p}
  }

  /** A binding has come in; while there was room nothing has gone, and otherwise one binding at most. */
  ghost predicate Stocks(b: Bag, p: Pair, b': Bag, full: bool) {
    p in b' && (b' == b + multiset{p} || (full && exists q :: q in b && b' == b - multiset{q} + multiset{p}))
  }

  lemma StocksAdmits(b: Bag, p: Pair, b': Bag, full: bool)
    requires Stocks(b, p, b', full)
    ensures Admits(b, p, b')
  {
  }

  /** Nothing is left under the key and everything else stays. */
  ghost predicate Purges(b: Bag, key: Str, b': Bag) {
    b' <= b && !Has(b', key) && forall p :: p in b && p.0 != key ==> b'[p] == b[p]
  }

  lemma AdmitsFunctional(b: Bag, p: Pair, b': Bag)
    requires Functional(b) && !Has(b, p.0) && Admits(b, p, b')
    ensures Functional(b')
  {
    assert forall q :: q in b' ==> q == p || q in b;
  }

  lemma PurgesFunctional(b: Bag, key: Str, b': Bag)
    requires Functional(b) && Purges(b, key, b')
    ensures Functional(b')
  {
    assert forall q :: q in b' ==> q in b && b'[q] <= b[q];
  }

  /** Dropping the only binding of a key purges it. */
  lemma DropPurges(b: Bag, p: Pair)
    requires Functional(b) && p in b
    ensures Purges(b, p.0, b - multiset{p})
  {
  }

  lemma AbsentPurges(b: Bag, key: Str)
    requires !Has(b, key)
    ensures Purges(b, key, b)
  {
  }
}
