/** The file cache as the source keeps it: a hash map onto the nodes of a doubly linked list between two
    sentinels, and a byte counter. */
module FileLru {
  import opened Basics
  import opened LruSpec
  import opened LruPromises

  class Node {
    const key: string
    var buf: string
    var prev: Node?
    var next: Node?

    constructor (key: string, buf: string)
      ensures this.key == key && this.buf == buf && prev == null && next == null
    {
      this.key, this.buf := key, buf;
      prev, next := null, null;
    }
  }

  class FileLRU {
    const capacity: nat
    const head: Node
    const tail: Node
    var size: int
    var entries: map<string, Node>
    ghost var list: seq<Node>   // the nodes between the sentinels, least recently used first
    ghost var items: seq<Item>  // what these nodes hold
    ghost var repr: set<Node>   // every node there has been

    /** The list with its sentinels. */
    ghost function Chain(): seq<Node>
      reads this`list
    {
      [head] + list + [tail]
    }

    static ghost predicate Distinct(c: seq<Node>) {
      forall i, j :: 0 <= i < j < |c| ==> c[i] != c[j]
    }

    static ghost predicate Linked(c: seq<Node>)
      reads (set n | n in c)`prev, (set n | n in c)`next
    {
      && (forall i {:trigger c[i].next} :: 0 <= i < |c| - 1 ==> c[i].next == c[i + 1])
      && (forall i {:trigger c[i].prev} :: 1 <= i < |c| ==> c[i].prev == c[i - 1])
    }

    /** The list is doubly linked and acyclic. */
    ghost predicate ListOk()
      reads this`list, this`repr, repr`prev, repr`next
    {
      && head in repr && tail in repr && (forall i :: 0 <= i < |list| ==> list[i] in repr)
      && Distinct(Chain()) && Linked(Chain())
    }

    static ghost predicate Holds(c: seq<Node>, q: seq<Item>)
      reads (set n | n in c)`buf
    {
      |q| == |c| && forall i :: 0 <= i < |c| ==> q[i] == Item(c[i].key, c[i].buf)
    }

    /** The map is a bijection onto the nodes, by their keys. */
    static ghost predicate MapsTo(c: seq<Node>, m: map<string, Node>) {
      && (forall n :: n in c ==> n.key in m && m[n.key] == n)
      && (forall k :: k in m ==> m[k] in c && m[k].key == k)
    }

    /** List, map and contents fit; only the byte counter may be ahead. */
    ghost predicate Consistent()
      reads this`list, this`items, this`entries, this`repr, repr
    {
      ListOk() && MapsTo(list, entries) && Holds(list, items)
    }

    ghost predicate Valid()
      reads this, repr
    {
      Consistent() && size == SizeOf(items)
    }

    constructor (capacity: nat)
      ensures Valid() && items == [] && this.capacity == capacity && fresh(repr)
    {
      this.capacity := capacity;
      var h := new Node("", "");
      var t := new Node("", "");
      head, tail := h, t;
      size, entries, list, items, repr := 0, map[], [], [], {h, t};
      new;
      head.next := tail;
      tail.prev := head;
    }

    // -------------------------------------------------------------- the linked list

    /** `push_back`. */
    method PushBack(node: Node)
      requires ListOk() && node !in Chain() && node in repr
      modifies this`list, repr`prev, repr`next
      ensures ListOk() && list == old(list) + [node]
    {
      ghost var c := Chain();
      ghost var m := |list|;
      assert c[m].next == c[m + 1] == tail;
      node.prev := tail.prev;
      node.next := tail;
      tail.prev.next := node;
      tail.prev := node;
      list := list + [node];
      assert Chain() == c[..m + 1] + [node, tail];
    }

    /** `remove`: unlinks a node from the list. */
    method Remove(node: Node, ghost i: nat)
      requires ListOk() && i < |list| && list[i] == node
      modifies this`list, repr`prev, repr`next
      ensures ListOk() && list == old(list)[..i] + old(list)[i + 1..] && node !in Chain()
    {
      ghost var c := Chain();
      DistinctRemoved(c, i + 1);
      Unlink(node, c, i + 1);
      list := list[..i] + list[i + 1..];
      assert Chain() == c[..i + 1] + c[i + 2..];
    }

    /** Its neighbours are linked to each other. */
    method Unlink(node: Node, ghost c: seq<Node>, ghost k: nat)
      requires 0 < k < |c| - 1 && c[k] == node && Distinct(c) && Linked(c) && forall n :: n in c ==> n in repr
      modifies repr`prev, repr`next
      ensures Linked(c[..k] + c[k + 1..])
    {
      assert c[k - 1].next == c[k] && c[k].next == c[k + 1];
      node.prev.next := node.next;
      node.next.prev := node.prev;
      node.prev := null;
      node.next := null;
    }

    static lemma DistinctRemoved(c: seq<Node>, k: nat)
      requires Distinct(c) && k < |c|
      ensures Distinct(c[..k] + c[k + 1..]) && c[k] !in c[..k] + c[k + 1..]
    {
    }

    lemma DistinctInside()
      requires ListOk()
      ensures Distinct(list)
    {
      forall i, j | 0 <= i < j < |list|
        ensures list[i] != list[j]
      {
        assert Chain()[i + 1] == list[i] && Chain()[j + 1] == list[j];
      }
    }

    // -------------------------------------------------------------- map, list and contents

    static lemma MapsToMoved(c: seq<Node>, m: map<string, Node>, i: nat)
      requires MapsTo(c, m) && i < |c|
      ensures MapsTo(c[..i] + c[i + 1..] + [c[i]], m)
    {
      assert c == c[..i] + [c[i]] + c[i + 1..];
      var c' := c[..i] + c[i + 1..] + [c[i]];
      forall k | k in m
        ensures m[k] in c'
      {
        assert m[k] in c;
      }
    }

    static lemma MapsToRemoved(c: seq<Node>, m: map<string, Node>, i: nat)
      requires MapsTo(c, m) && i < |c| && Distinct(c)
      ensures MapsTo(c[..i] + c[i + 1..], m - {c[i].key})
    {
      var c', m' := c[..i] + c[i + 1..], m - {c[i].key};
      RemovedMembers(c, i);
      forall n | n in c'
        ensures n.key in m' && m'[n.key] == n
      {
        assert m[n.key] == n && m[c[i].key] == c[i];
      }
    }

    static lemma RemovedMembers(c: seq<Node>, i: nat)
      requires i < |c| && Distinct(c)
      ensures forall n :: n in c[..i] + c[i + 1..] <==> n in c && n != c[i]
    {
      assert c == c[..i] + [c[i]] + c[i + 1..];
      forall j | 0 <= j < |c| && j != i
        ensures c[j] != c[i]
      {
      }
    }

    static lemma MapsToAdded(c: seq<Node>, m: map<string, Node>, n: Node)
      requires MapsTo(c, m) && n.key !in m
      ensures MapsTo(c + [n], m[n.key := n])
    {
      var c' := c + [n];
      assert c'[|c|] == n;
      forall k | k in m
        ensures m[k] in c'
      {
        assert m[k] in c;
      }
    }

    static lemma HoldsRemoved(c: seq<Node>, q: seq<Item>, i: nat)
      requires Holds(c, q) && i < |c|
      ensures Holds(c[..i] + c[i + 1..], q[..i] + q[i + 1..])
    {
    }

    static lemma HoldsAdded(c: seq<Node>, q: seq<Item>, n: Node)
      requires Holds(c, q)
      ensures Holds(c + [n], q + [Item(n.key, n.buf)])
    {
    }

    lemma UniqueKeys()
      requires Consistent()
      ensures Unique(items)
    {
      DistinctInside();
      forall i, j | 0 <= i < j < |list|
        ensures items[i].key != items[j].key
      {
        assert list[i] in list && list[j] in list;
      }
    }

    /** The map tells what the sequence holds. */
    lemma MapTellsItems(key: string)
      requires Consistent()
      ensures key in entries <==> HasKey(items, key)
    {
      if key in entries {
        var i :| 0 <= i < |list| && list[i] == entries[key];
        assert items[i].key == key;
      }
      if HasKey(items, key) {
        var i :| 0 <= i < |items| && items[i].key == key;
        assert list[i].key == key && list[i] in list;
      }
    }

    /** A key's node and its place in the list. */
    lemma Find(key: string) returns (i: nat)
      requires Consistent() && key in entries
      ensures i < |list| && list[i] == entries[key] && items[i] == Item(key, entries[key].buf)
      ensures Unique(items) && HasKey(items, key) && Lookup(items, key) == entries[key].buf
    {
      UniqueKeys();
      i :| 0 <= i < |list| && list[i] == entries[key];
      LookupAt(items, i);
    }

    // -------------------------------------------------------------- operations

    /** `push_back(remove(node))`. */
    method MoveToBack(node: Node, ghost i: nat)
      requires ListOk() && i < |list| && list[i] == node
      modifies this`list, repr`prev, repr`next
      ensures ListOk() && list == old(list)[..i] + old(list)[i + 1..] + [node]
    {
      assert list[i] in repr;
      Remove(node, i);
      PushBack(node);
    }

    /** The node of an item becomes the most recently used. */
    method Touch(node: Node, ghost i: nat)
      requires Consistent() && i < |list| && list[i] == node && Unique(items)
      modifies this`list, this`items, repr`prev, repr`next
      ensures Consistent() && SizeOf(items) == SizeOf(old(items))
      ensures items == Without(old(items), {node.key}) + [Item(node.key, node.buf)]
    {
      ghost var q, c := items, list;
      MapsToMoved(c, entries, i);
      HoldsRemoved(c, q, i);
      HoldsAdded(c[..i] + c[i + 1..], q[..i] + q[i + 1..], node);
      WithoutOne(q, i);
      LookupAt(q, i);
      MovedSize(q, node.key, node.buf);
      MoveToBack(node, i);
      items := q[..i] + q[i + 1..] + [Item(node.key, node.buf)];
    }

    /** `get`: a hit moves the node to the recently used end. */
    method Get(key: string) returns (r: Result)
      requires Valid()
      modifies this`list, this`items, repr`prev, repr`next
      ensures Valid() && items == LruSpec.Get(old(items), key)
      ensures r == if HasKey(old(items), key) then Cached(Lookup(old(items), key)) else NotFound
    {
      MapTellsItems(key);
      if key in entries {
        ghost var i := Find(key);
        Touch(entries[key], i);
        return Cached(entries[key].buf);
      }
      return NotFound;
    }

    /** `put`: reads a file into the cache; `file` is its content, if it exists. */
    method Put(key: string, file: Option<string>) returns (r: Result)
      requires Valid()
      modifies this, repr
      ensures Valid() && fresh(repr - old(repr))
      ensures r == (match file case None => NotFound case Some(v) => if |v| > capacity then TooBig else Cached(v))
      ensures items == if r.Cached? then LruSpec.Put(old(items), capacity, key, r.buf) else old(items)
      ensures r.Cached? && !HasKey(old(items), key) ==>
                exists k: nat :: MakesRoom(old(items), capacity, r.buf, k) &&
                                 items == old(items)[k..] + [Item(key, r.buf)]
      ensures r.Cached? && HasKey(old(items), key) ==>
                exists i: nat :: i < |old(items)| && old(items)[i].key == key &&
                                 items == But(old(items), i) + [Item(key, r.buf)]
    {
      if file.None? {
        return NotFound;
      }
      var value := file.value;
      if |value| > capacity {
        return TooBig;
      }
      MapTellsItems(key);
      if key in entries {
        ghost var i := Find(key);
        PutOld(items, capacity, i, value);
        Overwrite(key, value);
      } else {
        ghost var k := PutNew(items, capacity, key, value);
        Insert(key, value);
      }
      return Cached(value);
    }

    method Overwrite(key: string, value: string)
      requires Valid() && key in entries
      modifies this`list, this`items, this`size, repr
      ensures Valid() && items == Without(old(items), {key}) + [Item(key, value)]
    {
      ghost var q := items;
      ghost var i := Find(key);
      var node := entries[key];
      WriteNode(node, i, value);
      OverwriteItem(q, items, i);
      Touch(node, i);
    }

    /** A file's new content, and the counter. */
    method WriteNode(node: Node, ghost i: nat, value: string)
      requires Valid() && i < |list| && list[i] == node && Unique(items)
      modifies this`items, this`size, node`buf
      ensures Valid() && items == old(items)[i := Item(node.key, value)] && node.buf == value
    {
      size := size - |node.buf|;
      size := size + |value|;
      DistinctInside();
      OverwriteItem(items, items[i := Item(node.key, value)], i);
      SetBuf(node, i, value);
      items := items[i := Item(node.key, value)];
    }

    method SetBuf(node: Node, ghost i: nat, value: string)
      requires i < |list| && list[i] == node && Distinct(list) && Holds(list, items)
      modifies node`buf
      ensures Holds(list, items[i := Item(node.key, value)]) && node.buf == value
    {
      node.buf := value;
    }

    method Insert(key: string, value: string)
      requires Valid() && key !in entries && |value| <= capacity
      modifies this, repr
      ensures Valid() && fresh(repr - old(repr))
      ensures items == Evict(old(items), capacity - |value|) + [Item(key, value)]
    {
      size := size + |value|;
      MakeRoom(|value|);
      SizeAdded(items, key, value);
      InsertNew(key, value);
    }

    method MakeRoom(extra: nat)
      requires Consistent() && extra <= capacity && size == SizeOf(items) + extra
      modifies this`list, this`items, this`size, this`entries, repr`prev, repr`next
      ensures Consistent() && size == SizeOf(items) + extra
      ensures items == Evict(old(items), capacity - extra)
      ensures entries.Keys <= old(entries.Keys)
    {
      if size > capacity {
        EvictUntilFits(extra);
      }
    }

    /** A new node at the recently used end. */
    method InsertNew(key: string, value: string)
      requires Consistent() && key !in entries
      modifies this`list, this`items, this`entries, this`repr, repr`prev, repr`next
      ensures Consistent() && fresh(repr - old(repr))
      ensures items == old(items) + [Item(key, value)]
    {
      var tmp := new Node(key, value);
      repr := repr + {tmp};
      AddNode(tmp);
    }

    method AddNode(node: Node)
      requires Consistent() && node in repr && node !in Chain() && node.key !in entries
      modifies this`list, this`items, this`entries, repr`prev, repr`next
      ensures Consistent() && items == old(items) + [Item(node.key, node.buf)]
    {
      MapsToAdded(list, entries, node);
      HoldsAdded(list, items, node);
      entries := entries[node.key := node];
      PushBack(node);
      items := items + [Item(node.key, node.buf)];
    }

    /** The do-while loop of `put`.  It never reaches the sentinel at the end, since the new file alone fits. */
    method EvictUntilFits(extra: nat)
      requires Consistent() && extra <= capacity && size == SizeOf(items) + extra && size > capacity
      modifies this`list, this`items, this`size, this`entries, repr`prev, repr`next
      ensures Consistent() && size == SizeOf(items) + extra
      ensures items == Evict(old(items), capacity - extra)
      ensures entries.Keys <= old(entries.Keys)
    {
      while true
        invariant Consistent() && size == SizeOf(items) + extra && size > capacity
        invariant Evict(items, capacity - extra) == Evict(old(items), capacity - extra)
        invariant entries.Keys <= old(entries.Keys)
        decreases |list|
      {
        assert list != [];
        EvictFirst();
        if size <= capacity {
          break;
        }
      }
    }

    /** Drops the least recently used node. */
    method EvictFirst()
      requires Consistent() && list != []
      modifies this`list, this`items, this`size, this`entries, repr`prev, repr`next
      ensures Consistent() && |list| == |old(list)| - 1
      ensures items == old(items)[1..] && size == old(size) - |old(items)[0].buf|
      ensures entries.Keys <= old(entries.Keys)
    {
      assert Chain()[0].next == Chain()[1] == list[0];
      var node := head.next;
      assert items[..0] + items[1..] == items[1..];
      RemoveMapped(node, 0);
      size := size - |node.buf|;
    }

    /** `remove` and the erasure from the map, for a node about to be deleted. */
    method RemoveMapped(node: Node, ghost i: nat)
      requires Consistent() && i < |list| && list[i] == node
      modifies this`list, this`items, this`entries, repr`prev, repr`next
      ensures Consistent() && |list| == |old(list)| - 1 && entries == old(entries) - {node.key}
      ensures items == old(items)[..i] + old(items)[i + 1..]
    {
      DistinctInside();
      MapsToRemoved(list, entries, i);
      HoldsRemoved(list, items, i);
      EraseNode(node, i);
      items := items[..i] + items[i + 1..];
    }

    /** The erasure, by the node's own key. */
    method EraseNode(node: Node, ghost i: nat)
      requires ListOk() && i < |list| && list[i] == node
      modifies this`list, this`entries, repr`prev, repr`next
      ensures ListOk() && list == old(list)[..i] + old(list)[i + 1..] && node !in Chain()
      ensures entries == old(entries) - {node.key}
    {
      entries := entries - {node.key};
      Remove(node, i);
    }

    /** `getFile`: a hit, or else a load. */
    method GetFile(key: string, file: Option<string>) returns (r: Result)
      requires Valid()
      modifies this, repr
      ensures Valid() && fresh(repr - old(repr))
      ensures HasKey(old(items), key) ==>
                r == Cached(Lookup(old(items), key)) && items == LruSpec.Get(old(items), key)
      ensures !HasKey(old(items), key) ==>
                r == (match file case None => NotFound case Some(v) => if |v| > capacity then TooBig else Cached(v)) &&
                items == if r.Cached? then LruSpec.Put(old(items), capacity, key, r.buf) else old(items)
    {
      r := Get(key);
      if r.NotFound? {
        r := Put(key, file);
      }
    }

    /** Drops the node of a key. */
    method Drop(key: string)
      requires Valid() && key in entries
      modifies this`list, this`items, this`size, this`entries, repr`prev, repr`next
      ensures Valid() && items == Without(old(items), {key}) && entries == old(entries) - {key}
    {
      ghost var i := Find(key);
      var node := entries[key];
      WithoutOne(items, i);
      size := size - |node.buf|;
      RemoveMapped(node, i);
    }

    /** `delFile`. */
    method DelFile(key: string)
      requires Valid()
      modifies this`list, this`items, this`size, this`entries, repr`prev, repr`next
      ensures Valid() && items == Without(old(items), {key})
    {
      MapTellsItems(key);
      if key in entries {
        Drop(key);
      } else {
        WithoutNothing(items, {key});
      }
    }

    /** `delDir`: drops every key with a prefix. */
    method DelDir(prefix: string)
      requires Valid()
      modifies this`list, this`items, this`size, this`entries, repr`prev, repr`next
      ensures Valid() && items == Step(old(items), capacity, DelDirOp(prefix))
    {
      ghost var q := items;
      KeysTellItems();
      ghost var dropped := DropAll(prefix);
      assert dropped == set k | k in KeysOf(q) && IsPrefix(prefix, k);
    }

    lemma KeysTellItems()
      requires Consistent()
      ensures entries.Keys == KeysOf(items)
    {
      forall k: string
        ensures k in entries <==> k in KeysOf(items)
      {
        MapTellsItems(k);
      }
    }

    /** The loop of `delDir`; a hash map is walked in no particular order. */
    method DropAll(prefix: string) returns (ghost dropped: set<string>)
      requires Valid()
      modifies this`list, this`items, this`size, this`entries, repr`prev, repr`next
      ensures Valid() && items == Without(old(items), dropped)
      ensures forall k :: k in dropped <==> k in old(entries) && prefix <= k
    {
      var left := entries.Keys;
      dropped := {};
      WithoutNothing(items, {});
      while left != {}
        invariant Valid() && items == Without(old(items), dropped)
        invariant forall k :: k in left ==> k in entries
        invariant forall k :: k in dropped ==> k in old(entries) && prefix <= k
        invariant forall k :: k in old(entries) && prefix <= k ==> k in left || k in dropped
        decreases left
      {
        var key :| key in left;
        left := left - {key};
        if prefix <= key {
          WithoutMore(old(items), dropped, {key});
          Drop(key);
          dropped := dropped + {key};
        }
      }
    }

    /** `moveFile` renames the map's entry but not the node: the cache is consistent afterwards if and only if
        nothing was renamed. */
    method MoveFile(oldKey: string, newKey: string)
      requires Valid()
      modifies this`entries
      ensures Valid() <==> oldKey !in old(entries) || oldKey == newKey
      ensures oldKey in old(entries) ==>
                newKey in entries && entries[newKey].buf == Lookup(old(items), oldKey)
      ensures entries == if oldKey in old(entries) then (old(entries) - {oldKey})[newKey := old(entries)[oldKey]]
                         else old(entries)
    {
      if oldKey in entries {
        ghost var i := Find(oldKey);
        var node := entries[oldKey];
        entries := entries - {oldKey};
        entries := entries[newKey := node];
        assert entries[newKey].key == oldKey;
      }
    }

    /** What comes of it: when the renamed node is evicted, its own key is erased, and the map leads to a node that
        has been deleted. */
    method EvictMoved(oldKey: string, newKey: string) returns (node: Node)
      requires Valid() && oldKey != newKey && list != [] && oldKey in entries && entries[oldKey] == list[0]
      modifies this`list, this`entries, repr`prev, repr`next
      ensures ListOk() && list == old(list)[1..] && node == old(list)[0]
      ensures node !in Chain() && newKey in entries && entries[newKey] == node
    {
      assert Chain()[0].next == Chain()[1] == list[0];
      assert list[0] in list && list[0].key == oldKey;
      MoveFile(oldKey, newKey);
      node := head.next;
      EraseNode(node, 0);
    }
  }
}
