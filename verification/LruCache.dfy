/** The LRU cache in place. */
module LruCache {
  import opened Strings
  import opened Pairs
  import opened CacheBag
  import opened LruSpec
  import opened LruList

  /** The bindings of a list of nodes. */
  function Entries(s: seq<EvictNode<Str>>): (e: seq<Pair>)
    ensures |e| == |s| && forall i :: 0 <= i < |s| ==> e[i] == (s[i].key, s[i].value)
  {
    seq(|s|, i requires 0 <= i < |s| => (s[i].key, s[i].value))
  }

  lemma MoveEntries(s: seq<EvictNode<Str>>, i: nat)
    requires i < |s| && forall j, k :: 0 <= j < k < |s| ==> s[j] != s[k]
    ensures Entries(Without(s, i)) == Without(Entries(s), i) && Entries(Front(s, i)) == Front(Entries(s), i)
    ensures forall n :: n in Without(s, i) ==> n in s && n != s[i]
  {
  }

  lemma SeatFind(s: seq<EvictNode<Str>>, key: Str, i: nat)
    requires Seat(s, key, i)
    ensures i == Find(Entries(s), key)
  {
  }

  class LruCache {
    const capacity: nat
    const list: LruList<Str>

    ghost predicate Valid()
      reads list, list.nodes`prev, list.nodes`next, list.nodes`home
    {
      list.Valid() && capacity > 0
    }

    ghost function Contents(): seq<Pair>
      reads list`nodes
    {
      Entries(list.nodes)
    }

    constructor (capacity: nat)
      requires capacity > 0
      ensures Valid() && fresh(list) && this.capacity == capacity && Contents() == []
    {
      this.capacity := capacity;
      list := new LruList<Str>();
    }

    /** The LRU case of `kvs_cache_get`; a hit is moved to the front as in `lru_touch`. */
    method Get(key: Str) returns (r: Option<Str>)
      requires Valid()
      modifies list, list.nodes
      ensures Valid() && (Contents(), r) == LruSpec.Get(old(Contents()), key)
      ensures forall n :: n in list.nodes ==> n in old(list.nodes)
    {
      var node;
      ghost var i;
      node, i := list.Search(key);
      SeatFind(list.nodes, key, i);
      if node != null {
        MoveEntries(list.nodes, i);
        list.Touch(node, i);
        return Some(node.value);
      }
      return None;
    }

    /** The LRU case of `kvs_cache_lru_add`. */
    method Add(key: Str, value: Str)
      requires Valid()
      modifies list, list.nodes
      ensures Valid() && Contents() == LruSpec.Add(old(Contents()), capacity, (key, value))
      ensures forall n :: n in list.nodes ==> n in old(list.nodes) || fresh(n)
    {
      var node := new EvictNode<Str>(key, value);
      list.Shrink(capacity);
      list.AddFront(node);
    }

    /** The LRU case of `kvs_cache_del`. */
    method Del(key: Str) returns (code: int)
      requires Valid()
      modifies list, list.nodes
      ensures Valid() && Contents() == LruSpec.Del(old(Contents()), key)
      ensures code == if Find(old(Contents()), key) < |old(Contents())| then 0 else -2
      ensures forall n :: n in list.nodes ==> n in old(list.nodes)
    {
      var node;
      ghost var i;
      node, i := list.Search(key);
      SeatFind(list.nodes, key, i);
      if node != null {
        MoveEntries(list.nodes, i);
        list.Remove(node, i);
        return 0;
      }
      return -2;
    }
  }
}
