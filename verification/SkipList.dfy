/** The skip list engine in place. */
module SkipList {
  import opened Strings
  import opened SkipShape
  import Store

  class SkipList {
    const header: SkipNode
    var level: nat
    /** The header, then the nodes of level 0. */
    ghost var line: Line

    ghost function Arrows(): Links
      reads this`line, line`forward
    {
      map n | n in line :: n.forward
    }

    ghost predicate Shaped()
      reads this, line`forward
    {
      line != [] && line[0] == header && Good(line, Arrows(), level)
    }

    ghost predicate Valid()
      reads this, line`forward
    {
      Shaped() && Tight(line, level)
    }

    ghost function Stored(): Values
      reads this`line, line`value
    {
      map n | n in line :: n.value
    }

    ghost function View(): Store.Map
      reads this`line, line`value
    {
      Bindings(line, Stored())
    }

    /** `kvs_skip_create` */
    constructor ()
      ensures Valid() && View() == map[] && line == [header] && fresh(header)
    {
      var h := new SkipNode(MAX_LEVEL, [], []);
      header, level, line := h, 0, [h];
    }

    lemma Follow(c: nat, l: nat)
      requires Valid() && c < |line| && l <= line[c].top
      ensures |line[c].forward| == line[c].top + 1 && line[c].forward[l] == Succ(line, c, l)
    {
      assert Arrows()[line[c]][l] == Succ(line, c, l);
    }

    lemma FollowLevel(l: nat)
      requires Valid()
      ensures forall c {:trigger line[c].forward} | 0 <= c < |line| && l <= line[c].top ::
        l < |line[c].forward| && line[c].forward[l] == Succ(line, c, l)
    {
      forall c | 0 <= c < |line| && l <= line[c].top
        ensures l < |line[c].forward| && line[c].forward[l] == Succ(line, c, l)
      {
        Follow(c, l);
      }
    }

    lemma FollowBase()
      requires Valid()
      ensures forall c {:trigger line[c].forward} :: 0 <= c < |line| ==>
        line[c].forward != [] && line[c].forward[0] == At(line, c + 1)
    {
      FollowLevel(0);
    }

    /** The walk along one level to the last node below the key. */
    method Advance(start: SkipNode, l: nat, key: Str, ghost from: nat) returns (current: SkipNode, ghost c: nat)
      requires Valid() && l <= MAX_LEVEL && from < Rank(line, key)
      requires line[from] == start && (from == 0 || start.top >= l)
      ensures Arrows() == old(Arrows()) && c == Prev(line, Rank(line, key), l) && current == line[c]
    {
      current, c := start, from;
      ghost var p := Rank(line, key);
      RankUp(line, key);
      FollowLevel(l);
      while current.forward[l] != null && Less(current.forward[l].key, key)
        invariant c < p && current == line[c] && current.top >= l
        decreases |line| - c
      {
        current, c := current.forward[l], Next(line, c, l);
      }
      Passes(line, p, c, l);
    }

    /** The descent shared by all commands: the last node below the key on each level. */
    method Seek(key: Str) returns (current: SkipNode, update: seq<SkipNode>)
      requires Valid()
      ensures Arrows() == old(Arrows()) && |update| == MAX_LEVEL + 1 && current == line[Rank(line, key) - 1]
      ensures forall l :: 0 <= l <= level ==> update[l] == line[Prev(line, Rank(line, key), l)]
    {
      current := header;
      update := seq(MAX_LEVEL + 1, _ => header);
      ghost var p, c: nat := Rank(line, key), 0;
      var i := level + 1;
      while i > 0
        invariant Arrows() == old(Arrows()) && 0 <= i <= level + 1 && |update| == MAX_LEVEL + 1
        invariant c < p && current == line[c] && (c == 0 || current.top >= i)
        invariant i == 0 ==> c == Prev(line, p, 0)
        invariant forall l :: i <= l <= level ==> update[l] == line[Prev(line, p, l)]
      {
        i := i - 1;
        current, c := Advance(current, i, key, c);
        update := update[i := current];
      }
    }

    /** The node behind the last one below the key, which is the key's own if there is one. */
    method Locate(key: Str) returns (node: SkipNode?, update: seq<SkipNode>)
      requires Valid()
      ensures Arrows() == old(Arrows()) && Stored() == old(Stored())
      ensures |update| == MAX_LEVEL + 1 && node == At(line, Rank(line, key))
      ensures forall l :: 0 <= l <= level ==> update[l] == line[Prev(line, Rank(line, key), l)]
    {
      var current;
      current, update := Seek(key);
      Follow(Rank(line, key) - 1, 0);
      node := current.forward[0];
    }

    /** The node that binds a key. */
    method Find(key: Str) returns (node: SkipNode?)
      requires Valid()
      ensures Arrows() == old(Arrows()) && Stored() == old(Stored())
      ensures node == null <==> key !in View()
      ensures node != null ==> node in line[1..] && node.key == key && View()[key] == node.value
    {
      var update;
      node, update := Locate(key);
      Lookup(line, Stored(), key);
      if node != null && node.key != key {
        node := null;
      }
    }

    /** `kvs_skip_get` */
    method Get(key: Str) returns (r: Store.Reply)
      requires Valid()
      ensures r == if key in View() then Store.Value(View()[key]) else Store.Missing
    {
      var node := Find(key);
      r := if node != null then Store.Value(node.value) else Store.Missing;
    }

    /** `kvs_skip_exist` */
    method Exist(key: Str) returns (code: int)
      requires Valid()
      ensures code == if key in View() then 0 else 1
    {
      var r := Get(key);
      code := if r.Missing? then 1 else 0;
    }

    method Assign(node: SkipNode, value: Str)
      requires node in line
      modifies node`value
      ensures Arrows() == old(Arrows()) && Stored() == old(Stored())[node := value]
    {
      node.value := value;
    }

    /** `kvs_skip_mod` */
    method Mod(key: Str, value: Str) returns (code: int)
      requires Valid()
      modifies line`value
      ensures Valid() && line == old(line)
      ensures code == if key in old(View()) then 0 else 1
      ensures View() == if key in old(View()) then old(View())[key := value] else old(View())
    {
      var node := Find(key);
      if node == null {
        return 1;
      }
      Assign(node, value);
      EntriesRebind(line, node, old(Stored()), value);
      return 0;
    }

    /** Exactly one node has come in, with the key and the height. */
    twostate predicate Joined(key: Str, height: nat)
      reads this, line
    {
      exists n :: n in line && fresh(n) && n.key == key && n.top == height
        && (forall x :: x in line ==> x in old(line) || x == n) && (forall x :: x in old(line) ==> x in line)
    }

    /** New levels start at the header. */
    method Raise(update: seq<SkipNode>, height: nat, ghost p: nat) returns (u: seq<SkipNode>)
      requires Valid() && |update| == MAX_LEVEL + 1 && height <= MAX_LEVEL && 0 < p <= |line|
      requires forall l :: 0 <= l <= level ==> update[l] == line[Prev(line, p, l)]
      modifies this`level
      ensures Shaped() && Arrows() == old(Arrows()) && Stored() == old(Stored())
      ensures level == if height > old(level) then height else old(level)
      ensures |u| == MAX_LEVEL + 1 && forall l :: 0 <= l <= level ==> u[l] == line[Prev(line, p, l)]
    {
      u := update;
      if height > level {
        var i := level + 1;
        while i <= height
          modifies {}
          invariant level < i <= height + 1 && |u| == MAX_LEVEL + 1
          invariant forall l :: 0 <= l < i ==> u[l] == line[Prev(line, p, l)]
        {
          u := u[i := header];
          i := i + 1;
        }
        level := height;
      }
    }

    /** The recorded predecessors reach their levels. */
    lemma Reachable(p: nat, l: nat)
      requires Shaped() && 0 < p <= |line| && l <= MAX_LEVEL
      ensures var x := line[Prev(line, p, l)];
        x in line && l <= x.top && |x.forward| == x.top + 1 && x.forward[l] == Succ(line, Prev(line, p, l), l)
    {
      assert Arrows()[line[Prev(line, p, l)]][l] == Succ(line, Prev(line, p, l), l);
    }

    method Attach(update: seq<SkipNode>, n: SkipNode, ghost p: nat)
      requires Shaped() && n !in line && n.top <= level && |n.forward| == n.top + 1
      requires 0 < p <= |line| && |update| == MAX_LEVEL + 1
      requires forall l :: 0 <= l <= level ==> update[l] == line[Prev(line, p, l)]
      modifies line`forward, n`forward
      ensures LetIn(line, old(Arrows()), p, n, Arrows()[n := n.forward]) && Stored() == old(Stored())
    {
      hide Prev, Succ;
      forall l | 0 <= l <= n.top
        ensures update[l] in line && l < |update[l].forward| && update[l].forward[l] == Succ(line, Prev(line, p, l), l)
      {
        Reachable(p, l);
      }
      LinkIn(update, n, set x | x in line);
      OnlyPrev(line, p, update, n.top);
    }

    ghost method Extend(n: SkipNode, p: nat)
      requires p <= |line|
      modifies this`line
      ensures line == Inserted(old(line), p, n) && forall x :: x in line <==> x in old(line) || x == n
      ensures Arrows() == old(Arrows())[n := n.forward] && Stored() == old(Stored())[n := n.value]
    {
      line := Inserted(line, p, n);
    }

    /** The line takes in a node that has been linked. */
    ghost method TakeIn(n: SkipNode, was: Links)
      requires line != [] && line[0] == header && Good(line, was, level) && n !in line && n.top <= level
      requires Vacant(line, n.key) && LetIn(line, was, Rank(line, n.key), n, Arrows()[n := n.forward])
      requires level > n.top ==> Tight(line, level)
      modifies this`line
      ensures Valid() && forall x :: x in line <==> x in old(line) || x == n
      ensures View() == old(View())[n.key := n.value]
    {
      InsertGood(line, was, level, n, Arrows()[n := n.forward]);
      InsertBinds(line, Stored(), n, n.value);
      Extend(n, Rank(line, n.key));
    }

    /** A new node goes behind the recorded predecessors. */
    method Enter(update: seq<SkipNode>, n: SkipNode)
      requires Shaped() && n !in line && n.top <= level && |n.forward| == n.top + 1
      requires Vacant(line, n.key) && |update| == MAX_LEVEL + 1 && (level > n.top ==> Tight(line, level))
      requires forall l :: 0 <= l <= level ==> update[l] == line[Prev(line, Rank(line, n.key), l)]
      modifies this, line`forward, n`forward
      ensures Valid() && View() == old(View())[n.key := n.value]
      ensures forall x :: x in line <==> x in old(line) || x == n
    {
      Attach(update, n, Rank(line, n.key));
      TakeIn(n, old(Arrows()));
    }

    method Create(update: seq<SkipNode>, key: Str, value: Str, height: nat)
      requires Shaped() && height <= level && Vacant(line, key) && |update| == MAX_LEVEL + 1
      requires level > height ==> Tight(line, level)
      requires forall l :: 0 <= l <= level ==> update[l] == line[Prev(line, Rank(line, key), l)]
      modifies this, line`forward
      ensures Valid() && View() == old(View())[key := value] && Joined(key, height)
    {
      hide Shaped, Tight, Vacant;
      var n := new SkipNode(height, key, value);
      Enter(update, n);
    }

    method Place(update: seq<SkipNode>, key: Str, value: Str, height: nat)
      requires Valid() && height <= MAX_LEVEL && Vacant(line, key) && |update| == MAX_LEVEL + 1
      requires forall l :: 0 <= l <= level ==> update[l] == line[Prev(line, Rank(line, key), l)]
      modifies this, line`forward
      ensures Valid() && View() == old(View())[key := value] && Joined(key, height)
    {
      var u := Raise(update, height, Rank(line, key));
      Create(u, key, value, height);
    }

    /** `kvs_skip_set`, for any height the random choice may give. */
    method Set(key: Str, value: Str, height: nat) returns (code: int)
      requires Valid() && height <= 6
      modifies this, line`forward
      ensures Valid() && if code == 0 then Joined(key, height) else line == old(line) && level == old(level)
      ensures code == if key in old(View()) then 1 else 0
      ensures View() == if key in old(View()) then old(View()) else old(View())[key := value]
    {
      var node, update := Locate(key);
      Lookup(line, Stored(), key);
      if node != null && node.key == key {
        return 1;
      }
      Place(update, key, value, height);
      return 0;
    }

    /** Where the node's predecessors point, before it goes. */
    lemma Pointing(p: nat, l: nat)
      requires Shaped() && 0 < p < |line| && l <= MAX_LEVEL
      ensures var rest, i := Removed(line, p), Prev(line, p, l);
        i == Prev(rest, p, l) && line[i] == rest[i] && rest[i] in rest && l < |rest[i].forward|
        && (rest[i].forward[l] == line[p] <==> l <= line[p].top)
    {
      RemovedInserted(line, p);
      PointsTo(Removed(line, p), p, line[p], l);
      Reachable(p, l);
    }

    ghost predicate Recorded(update: seq<SkipNode>, rest: Line, p: nat, d: SkipNode)
      requires 0 < p <= |rest|
      reads this`level, rest`forward
    {
      && |update| > level && d !in rest && d.top <= level
      && forall l {:trigger update[l]} :: 0 <= l <= level ==>
        && update[l] == rest[Prev(rest, p, l)] && l < |update[l].forward|
        && (update[l].forward[l] == d <==> l <= d.top)
    }

    lemma Forwards()
      requires Shaped()
      ensures forall x :: x in line ==> |x.forward| == x.top + 1
    {
      forall x | x in line ensures |x.forward| == x.top + 1 {
        assert |Arrows()[x]| == x.top + 1;
      }
    }

    lemma DetachReady(update: seq<SkipNode>, p: nat)
      requires Shaped() && 0 < p < |line| && |update| == MAX_LEVEL + 1
      requires forall l :: 0 <= l <= level ==> update[l] == line[Prev(line, p, l)]
      ensures Inserted(Removed(line, p), p, line[p]) == line && (forall x :: x in Removed(line, p) ==> x in line)
      ensures Distinct(Removed(line, p)) && Recorded(update, Removed(line, p), p, line[p])
      ensures |line[p].forward| == line[p].top + 1
      ensures forall x :: x in Removed(line, p) ==> |x.forward| == x.top + 1
    {
      RemovedInserted(line, p);
      Forwards();
      assert line[p].top <= level;
      hide Shaped, Removed, Inserted, Distinct, Prev;
      var rest := Removed(line, p);
      RemovedLength(p);
      assert Recorded(update, rest, p, line[p]) by {
        forall l | 0 <= l <= level
          ensures update[l] == rest[Prev(rest, p, l)] && l < |update[l].forward|
          ensures update[l].forward[l] == line[p] <==> l <= line[p].top
        {
          Pointing(p, l);
        }
      }
    }

    lemma RemovedLength(p: nat)
      requires p < |line|
      ensures |Removed(line, p)| == |line| - 1
    {
    }

    method Detach(update: seq<SkipNode>, d: SkipNode, ghost p: nat)
      requires Shaped() && 0 < p < |line| && line[p] == d && |update| == MAX_LEVEL + 1
      requires forall l :: 0 <= l <= level ==> update[l] == line[Prev(line, p, l)]
      modifies line`forward
      ensures Stored() == old(Stored()) && Inserted(Removed(line, p), p, d) == line
      ensures LetOut(Removed(line, p), p, d, old(Arrows()), Arrows() - {d})
    {
      DetachReady(update, p);
      Bypass(update, d, Removed(line, p), p);
    }

    /** The links that led to `d` lead past it. */
    method Bypass(update: seq<SkipNode>, d: SkipNode, ghost rest: Line, ghost p: nat)
      requires 0 < p <= |rest| && Distinct(rest) && Recorded(update, rest, p, d) && d in line
      requires |d.forward| == d.top + 1 && forall x :: x in rest ==> x in line && |x.forward| == x.top + 1
      modifies rest`forward
      ensures Stored() == old(Stored()) && LetOut(rest, p, d, old(Arrows()), Arrows() - {d})
    {
      OnlyPrev(rest, p, update, d.top);
      LinkOut(update, d, level, set x | x in rest);
    }

    ghost method Shrink(p: nat)
      requires p < |line| && line[p] !in Removed(line, p)
      modifies this`line
      ensures line == Removed(old(line), p) && forall x :: x in line ==> x in old(line)
      ensures Arrows() == old(Arrows()) - {old(line)[p]} && Stored() == old(Stored()) - {old(line)[p]}
    {
      line := Removed(line, p);
    }

    /** The line gives up a node that nothing leads to any more. */
    ghost method TakeOut(p: nat, was: Links)
      requires 0 < p < |line| && line[0] == header && Good(line, was, level)
      requires Inserted(Removed(line, p), p, line[p]) == line
      requires LetOut(Removed(line, p), p, line[p], was, Arrows() - {line[p]})
      modifies this`line
      ensures Shaped() && forall x :: x in line ==> x in old(line)
      ensures View() == old(View()) - {old(line)[p].key}
    {
      RemovedInserted(line, p);
      DeleteGood(Removed(line, p), p, line[p], was, level, Arrows() - {line[p]});
      DeleteUnbinds(Removed(line, p), p, line[p], Stored());
      Shrink(p);
    }

    /** The loop that drops empty top levels. */
    method Lower()
      requires Shaped()
      modifies this`level
      ensures Valid() && Stored() == old(Stored())
    {
      HeaderLink(level);
      while level > 0 && header.forward[level] == null
        invariant Shaped() && Arrows() == old(Arrows()) && Stored() == old(Stored())
        invariant level < |header.forward| && header.forward[level] == Succ(line, 0, level)
      {
        LowerGood(line, Arrows(), level);
        level := level - 1;
        HeaderLink(level);
      }
    }

    lemma HeaderLink(l: nat)
      requires Shaped() && l <= MAX_LEVEL
      ensures l < |header.forward| && header.forward[l] == Succ(line, 0, l)
    {
      assert Arrows()[line[0]][l] == Succ(line, 0, l);
    }

    method Expel(update: seq<SkipNode>, node: SkipNode, ghost p: nat)
      requires Shaped() && 0 < p < |line| && line[p] == node && |update| == MAX_LEVEL + 1
      requires forall l :: 0 <= l <= level ==> update[l] == line[Prev(line, p, l)]
      modifies this`line, line`forward
      ensures Shaped() && forall x :: x in line ==> x in old(line)
      ensures View() == old(View()) - {node.key}
    {
      Detach(update, node, p);
      TakeOut(p, old(Arrows()));
    }

    /** `kvs_skip_del` */
    method Del(key: Str) returns (code: int)
      requires Valid()
      modifies this, line`forward
      ensures Valid() && forall x :: x in line ==> x in old(line)
      ensures code == if key in old(View()) then 0 else 1
      ensures View() == old(View()) - {key}
    {
      hide Prev;
      var node, update := Locate(key);
      Lookup(line, Stored(), key);
      if node == null || node.key != key {
        return 1;
      }
      hide Good, Tight, Rank;
      Expel(update, node, Rank(line, key));
      Lower();
      return 0;
    }

    /** The walk along one level, which meets exactly the nodes that reach it, in order. */
    method Level(l: nat) returns (nodes: Line)
      requires Valid() && l <= 6
      ensures nodes == Reaching(line[1..], l)
    {
      nodes := [];
      var current := header;
      ghost var c: nat := 0;
      Follow(0, l);
      while current.forward[l] != null
        invariant c < |line| && current == line[c] && current.top >= l && nodes == Collected(line, c, l)
        invariant |current.forward| == current.top + 1 && current.forward[l] == Succ(line, c, l)
        decreases |line| - c
      {
        CollectStep(line, c, l);
        current, c := current.forward[l], Next(line, c, l);
        nodes := nodes + [current];
        Follow(c, l);
      }
      CollectStep(line, c, l);
    }
  }

  // ---- relinking

  /** The loop that lets a new node in on each of its levels. */
  method LinkIn(update: seq<SkipNode>, n: SkipNode, ghost all: set<SkipNode>)
    requires n.top < |update| && n !in all && |n.forward| == n.top + 1
    requires forall l :: 0 <= l <= n.top ==> update[l] in all && l < |update[l].forward|
    modifies all`forward, n`forward
    ensures |n.forward| == n.top + 1
    ensures forall l :: 0 <= l <= n.top ==> n.forward[l] == old(update[l].forward)[l]
    ensures forall x :: x in all ==> |x.forward| == |old(x.forward)|
    ensures forall x, l {:trigger x.forward[l]} | x in all && 0 <= l < |x.forward| ::
      x.forward[l] == if l <= n.top && x == update[l] then n else old(x.forward)[l]
  {
    var i := 0;
    while i <= n.top
      invariant 0 <= i <= n.top + 1 && |n.forward| == n.top + 1
      invariant forall l :: 0 <= l < i ==> n.forward[l] == old(update[l].forward)[l]
      invariant forall x :: x in all ==> |x.forward| == |old(x.forward)|
      invariant forall x, l {:trigger x.forward[l]} | x in all && 0 <= l < |x.forward| ::
        x.forward[l] == if l < i && x == update[l] then n else old(x.forward)[l]
    {
      assert update[i].forward[i] == old(update[i].forward)[i];
      n.forward := n.forward[i := update[i].forward[i]];
      update[i].forward := update[i].forward[i := n];
      i := i + 1;
    }
  }

  /** The loop that takes a node out of each level on which the recorded predecessor points to it. */
  method LinkOut(update: seq<SkipNode>, d: SkipNode, level: nat, ghost all: set<SkipNode>)
    requires level < |update| && d !in all && d.top <= level && |d.forward| == d.top + 1
    requires forall l :: 0 <= l <= level ==> update[l] in all && l < |update[l].forward|
    requires forall l :: 0 <= l <= level ==> (update[l].forward[l] == d <==> l <= d.top)
    modifies all`forward
    ensures forall x :: x in all ==> |x.forward| == |old(x.forward)|
    ensures forall x, l {:trigger x.forward[l]} | x in all && 0 <= l < |x.forward| ::
      x.forward[l] == if l <= d.top && x == update[l] then d.forward[l] else old(x.forward)[l]
  {
    var i := 0;
    while i <= level
      invariant 0 <= i <= d.top + 1
      invariant forall x :: x in all ==> |x.forward| == |old(x.forward)|
      invariant forall x, l {:trigger x.forward[l]} | x in all && 0 <= l < |x.forward| ::
        x.forward[l] == if l < i && x == update[l] then d.forward[l] else old(x.forward)[l]
    {
      assert update[i].forward[i] == old(update[i].forward)[i];
      if update[i].forward[i] != d {
        break;
      }
      update[i].forward := update[i].forward[i := d.forward[i]];
      i := i + 1;
    }
  }
}
