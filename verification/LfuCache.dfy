/** The LFU cache in place: the heap array of the cache manager. */
module LfuCache {
  import opened Strings
  import opened CacheBag
  import opened LfuHeap

  const EMPTY: Item := Item([], [], 0)

  class LfuCache {
    const capacity: nat
    const nodes: array<Item>
    var size: nat

    ghost predicate Valid()
      reads this
    {
      nodes.Length == capacity + 1 && size <= capacity
    }

    ghost function Items(): (h: Heap)
      requires Valid()
      reads this, nodes
    {
      nodes[1..size + 1]
    }

    /** `lfu_init` */
    constructor (capacity: nat)
      ensures Valid() && fresh(nodes) && this.capacity == capacity && Items() == []
    {
      this.capacity := capacity;
      nodes := new Item[capacity + 1](_ => EMPTY);
      size := 0;
    }

    /** `lfu_swap` */
    method SwapSlots(i: nat, j: nat)
      requires Valid() && 1 <= i <= size && 1 <= j <= size
      modifies nodes
      ensures Items() == Swap(old(Items()), i, j)
    {
      nodes[i], nodes[j] := nodes[j], nodes[i];
    }

    /** `lfu_heapify_down` */
    method HeapifyDown(start: nat)
      requires Valid() && 1 <= start
      modifies nodes
      ensures Items() == SiftDown(old(Items()), start)
    {
      var idx := start;
      while true
        invariant 1 <= idx && SiftDown(Items(), idx) == SiftDown(old(Items()), start)
        decreases size - idx
      {
        var smallest := idx;
        var left, right := idx * 2, idx * 2 + 1;
        if left <= size && nodes[left].count < nodes[smallest].count {
          smallest := left;
        }
        if right <= size && nodes[right].count < nodes[smallest].count {
          smallest := right;
        }
        assert smallest == Smallest(Items(), idx);
        if smallest == idx {
          break;
        }
        SwapSlots(smallest, idx);
        idx := smallest;
      }
    }

    /** `lfu_heapify_up` */
    method HeapifyUp(start: nat)
      requires Valid() && 1 <= start <= size
      modifies nodes
      ensures Items() == SiftUp(old(Items()), start)
    {
      var idx := start;
      while idx > 1
        invariant 1 <= idx <= size && SiftUp(Items(), idx) == SiftUp(old(Items()), start)
      {
        var parent := idx / 2;
        if nodes[parent].count <= nodes[idx].count {
          break;
        }
        SwapSlots(parent, idx);
        idx := parent;
      }
    }

    /** Both `lfu_evict` and the delete case of `kvs_cache_del`: the last item takes the slot. */
    method Remove(i: nat)
      requires Valid() && 1 <= i <= size
      modifies this`size, nodes
      ensures Valid() && Items() == RemoveAt(old(Items()), i)
    {
      nodes[i] := nodes[size];
      size := size - 1;
      assert Items() == Filled(old(Items()), i);
      HeapifyDown(i);
    }

    /** `lfu_add` */
    method Append(item: Item)
      requires Valid() && size < capacity
      modifies this`size, nodes
      ensures Valid() && Items() == SiftUp(old(Items()) + [item], old(size) + 1)
    {
      size := size + 1;
      nodes[size] := item;
      assert Items() == old(Items()) + [item];
      HeapifyUp(size);
    }

    /** The LFU case of `kvs_cache_lru_add`. */
    method Add(key: Str, value: Str)
      requires Valid()
      modifies this`size, nodes
      ensures Valid() && Items() == Insert(old(Items()), capacity, Item(key, value, 1))
    {
      hide SiftDown, SiftUp, Held;
      if size >= capacity {
        if size != 0 {
          SiftDownHolds(Filled(Items(), 1), 1);
          Remove(1);
        }
      }
      if size < capacity {
        Append(Item(key, value, 1));
      }
    }

    /** The scan of the heap array for a key. */
    method Scan(key: Str) returns (i: nat)
      requires Valid()
      ensures i == Slot(Items(), key)
    {
      i := 1;
      while i <= size
        invariant 1 <= i <= size + 1
        invariant forall j :: 0 <= j < i - 1 ==> Items()[j].key != key
      {
        if nodes[i].key == key {
          return;
        }
        i := i + 1;
      }
    }

    /** The LFU case of `kvs_cache_get`. */
    method Get(key: Str) returns (r: Option<Str>)
      requires Valid()
      modifies nodes
      ensures var h, i := old(Items()), Slot(old(Items()), key);
        if i <= |h| then Items() == Hit(h, i) && r == Some(h[i - 1].value) else Items() == h && r == None
    {
      var i := Scan(key);
      if i <= size {
        var node := nodes[i];
        nodes[i] := node.(count := node.count + 1);
        assert Items() == old(Items())[i - 1 := node.(count := node.count + 1)];
        HeapifyDown(i);
        return Some(node.value);
      }
      return None;
    }

    /** The LFU case of `kvs_cache_del`. */
    method Del(key: Str) returns (code: int)
      requires Valid()
      modifies this`size, nodes
      ensures Valid()
      ensures Items() == LfuHeap.Del(old(Items()), key)
      ensures code == if Slot(old(Items()), key) <= |old(Items())| then 0 else -2
    {
      var i := Scan(key);
      if i <= size {
        Remove(i);
        return 0;
      }
      return -2;
    }
  }
}
