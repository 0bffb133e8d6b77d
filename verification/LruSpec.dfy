/** The file cache as a sequence, least recently used first. */
module LruSpec {
  datatype Item = Item(key: string, buf: string)

  /** How `put` ends: with the file's bytes, or with one of its two exceptions. */
  datatype Result = Cached(buf: string) | NotFound | TooBig

  predicate HasKey(q: seq<Item>, key: string) {
    exists i :: 0 <= i < |q| && q[i].key == key
  }

  ghost predicate Unique(q: seq<Item>) {
    forall i, j :: 0 <= i < j < |q| ==> q[i].key != q[j].key
  }

  function Lookup(q: seq<Item>, key: string): string
    requires HasKey(q, key)
  {
    if q[0].key == key then q[0].buf else Lookup(q[1..], key)
  }

  function SizeOf(q: seq<Item>): nat {
    if q == [] then 0 else |q[0].buf| + SizeOf(q[1..])
  }

  /** The cache without the keys of a set. */
  function Without(q: seq<Item>, keys: set<string>): seq<Item> {
    if q == [] then []
    else (if q[0].key in keys then [] else [q[0]]) + Without(q[1..], keys)
  }

  /** Drops items from the least recently used end until the rest leaves room. */
  function Evict(q: seq<Item>, room: int): seq<Item> {
    if SizeOf(q) <= room || q == [] then q else Evict(q[1..], room)
  }

  // ---------------------------------------------------------------- the operations

  function Get(q: seq<Item>, key: string): seq<Item> {
    if HasKey(q, key) then Without(q, {key}) + [Item(key, Lookup(q, key))] else q
  }

  /** `file` is the content of the file, if there is one. */
  function Put(q: seq<Item>, capacity: nat, key: string, file: string): seq<Item> {
    if HasKey(q, key) then Without(q, {key}) + [Item(key, file)]
    else Evict(q, capacity - |file|) + [Item(key, file)]
  }

  ghost predicate IsPrefix(p: string, s: string) {
    p <= s
  }

  // ---------------------------------------------------------------- facts about the sequence

  lemma {:induction false} LookupAt(q: seq<Item>, i: nat)
    requires i < |q| && Unique(q)
    ensures HasKey(q, q[i].key) && Lookup(q, q[i].key) == q[i].buf
  {
    if i > 0 {
      LookupAt(q[1..], i - 1);
      assert q[1..][i - 1] == q[i];
    }
  }

  lemma {:induction false} WithoutNothing(q: seq<Item>, keys: set<string>)
    requires forall i :: 0 <= i < |q| ==> q[i].key !in keys
    ensures Without(q, keys) == q
  {
    if q != [] {
      WithoutNothing(q[1..], keys);
      assert q == [q[0]] + q[1..];
    }
  }

  /** Taking one item out of a cache with unique keys. */
  lemma WithoutOne(q: seq<Item>, i: nat)
    requires i < |q| && Unique(q)
    ensures Without(q, {q[i].key}) == q[..i] + q[i + 1..]
    ensures SizeOf(Without(q, {q[i].key})) == SizeOf(q) - |q[i].buf|
  {
    WithoutJust(q, q[i].key, i);
    SizeWithout(q, i);
  }

  lemma SizeWithout(q: seq<Item>, i: nat)
    requires i < |q|
    ensures SizeOf(q[..i] + q[i + 1..]) == SizeOf(q) - |q[i].buf|
  {
    SizeAppend(q[..i], q[i + 1..]);
    SizeAppend(q[..i], q[i..]);
    assert q == q[..i] + q[i..];
    assert q[i..][1..] == q[i + 1..];
  }

  lemma {:induction false} WithoutJust(q: seq<Item>, key: string, i: nat)
    requires i < |q| && Unique(q) && q[i].key == key
    ensures Without(q, {key}) == q[..i] + q[i + 1..]
  {
    if i == 0 {
      WithoutNothing(q[1..], {key});
      assert q[..0] + q[1..] == q[1..];
    } else {
      WithoutJust(q[1..], key, i - 1);
      assert q[..i] + q[i + 1..] == [q[0]] + (q[1..][..i - 1] + q[1..][i..]);
    }
  }

  lemma {:induction false} WithoutMore(q: seq<Item>, keys: set<string>, more: set<string>)
    ensures Without(Without(q, keys), more) == Without(q, keys + more)
  {
    if q != [] {
      WithoutMore(q[1..], keys, more);
      if q[0].key !in keys {
        assert ([q[0]] + Without(q[1..], keys))[1..] == Without(q[1..], keys);
      } else {
        assert [] + Without(q[1..], keys) == Without(q[1..], keys);
      }
    }
  }

  lemma {:induction false} SizeAppend(q: seq<Item>, r: seq<Item>)
    ensures SizeOf(q + r) == SizeOf(q) + SizeOf(r)
  {
    if q == [] {
      assert q + r == r;
    } else {
      SizeAppend(q[1..], r);
      assert (q + r)[1..] == q[1..] + r;
    }
  }

  lemma SizeAdded(q: seq<Item>, key: string, value: string)
    ensures SizeOf(q + [Item(key, value)]) == SizeOf(q) + |value|
  {
    SizeAppend(q, [Item(key, value)]);
    assert SizeOf([Item(key, value)]) == |value|;
  }

  /** Eviction drops a prefix, and the shortest that leaves room. */
  lemma {:induction false} EvictIsShortest(q: seq<Item>, room: nat) returns (k: nat)
    ensures k <= |q| && Evict(q, room) == q[k..]
    ensures SizeOf(q[k..]) <= room
    ensures forall j :: 0 <= j < k ==> SizeOf(q[j..]) > room
  {
    if SizeOf(q) <= room || q == [] {
      k := 0;
    } else {
      var k' := EvictIsShortest(q[1..], room);
      k := k' + 1;
      assert q[k..] == q[1..][k'..];
      forall j | 0 <= j < k
        ensures SizeOf(q[j..]) > room
      {
        assert j > 0 ==> q[j..] == q[1..][j - 1..];
      }
    }
  }

  // ---------------------------------------------------------------- runs

  datatype Op =
    | GetOp(key: string)
    | PutOp(key: string, file: string)
    | DelFileOp(key: string)
    | DelDirOp(prefix: string)

  ghost predicate Enabled(capacity: nat, op: Op) {
    op.PutOp? ==> |op.file| <= capacity
  }

  function KeysOf(q: seq<Item>): set<string> {
    set i | 0 <= i < |q| :: q[i].key
  }

  ghost function Step(q: seq<Item>, capacity: nat, op: Op): seq<Item> {
    match op
    case GetOp(key) => Get(q, key)
    case PutOp(key, file) => Put(q, capacity, key, file)
    case DelFileOp(key) => Without(q, {key})
    case DelDirOp(prefix) => Without(q, set k | k in KeysOf(q) && IsPrefix(prefix, k))
  }

  /** The directory itself, or something in it. */
  ghost predicate IsInside(prefix: string, key: string) {
    prefix <= key && (|key| == |prefix| || key[|prefix|] == '/')
  }

  /** Deleting a directory drops no more than the directory if and only if no other key begins with its name. */
  lemma DelDirDropsDirectory(q: seq<Item>, capacity: nat, prefix: string)
    ensures Step(q, capacity, DelDirOp(prefix)) == Without(q, set k | k in KeysOf(q) && IsInside(prefix, k)) <==>
            forall k :: k in KeysOf(q) && prefix <= k ==> IsInside(prefix, k)
  {
    var dropped, inside := set k | k in KeysOf(q) && IsPrefix(prefix, k), set k | k in KeysOf(q) && IsInside(prefix, k);
    if k :| k in KeysOf(q) && prefix <= k && !IsInside(prefix, k) {
      var i :| 0 <= i < |q| && q[i].key == k;
      assert IsPrefix(prefix, k);
      WithoutKeeps(q, dropped);
      WithoutKeeps(q, inside);
      assert q[i] in Without(q, inside) && q[i] !in Without(q, dropped);
    } else {
      forall k
        ensures k in dropped <==> k in inside
      {
        assert IsPrefix(prefix, k) <==> prefix <= k;
      }
      assert dropped == inside;
    }
  }

  /** A cache with, for every key ever put, when it was last used (hit or put) and what was put last. */
  datatype Traced = Traced(q: seq<Item>, time: nat, used: map<string, nat>, stored: map<string, string>)

  ghost function TracedStep(t: Traced, capacity: nat, op: Op): Traced {
    var q' := Step(t.q, capacity, op);
    match op
    case GetOp(key) =>
      if HasKey(t.q, key) then Traced(q', t.time + 1, t.used[key := t.time], t.stored)
      else t.(q := q', time := t.time + 1)
    case PutOp(key, file) => Traced(q', t.time + 1, t.used[key := t.time], t.stored[key := file])
    case _ => t.(q := q', time := t.time + 1)
  }

  /** In order of last use, so with unique keys. */
  ghost predicate Ordered(q: seq<Item>, used: map<string, nat>) {
    q == [] ||
    (q[0].key in used && Ordered(q[1..], used) &&
     forall x :: x in q[1..] ==> x.key in used && used[q[0].key] < used[x.key])
  }

  /** Keys are in order of their last use, and every item holds what was last put under its key. */
  ghost predicate InOrderOfUse(t: Traced) {
    && Ordered(t.q, t.used)
    && (forall k :: k in t.used ==> t.used[k] < t.time)
    && (forall x :: x in t.q ==> x.key in t.used && x.key in t.stored && x.buf == t.stored[x.key])
  }

  lemma {:induction false} OrderedIsUnique(q: seq<Item>, used: map<string, nat>)
    requires Ordered(q, used)
    ensures Unique(q)
  {
    if q != [] {
      OrderedIsUnique(q[1..], used);
      forall i, j | 0 <= i < j < |q|
        ensures q[i].key != q[j].key
      {
        assert q[j] == q[1..][j - 1];
        assert i > 0 ==> q[i] == q[1..][i - 1];
        assert q[j] in q[1..];
      }
    }
  }

  lemma {:induction false} WithoutKeeps(q: seq<Item>, keys: set<string>)
    ensures forall x :: x in Without(q, keys) <==> x in q && x.key !in keys
  {
    if q != [] {
      WithoutKeeps(q[1..], keys);
      assert q == [q[0]] + q[1..];
    }
  }

  lemma {:induction false} WithoutOrdered(q: seq<Item>, keys: set<string>, used: map<string, nat>)
    requires Ordered(q, used)
    ensures Ordered(Without(q, keys), used)
  {
    if q != [] {
      WithoutOrdered(q[1..], keys, used);
      WithoutKeeps(q[1..], keys);
      assert ([q[0]] + Without(q[1..], keys))[1..] == Without(q[1..], keys);
      assert [] + Without(q[1..], keys) == Without(q[1..], keys);
    }
  }

  lemma {:induction false} SuffixOrdered(q: seq<Item>, k: nat, used: map<string, nat>)
    requires Ordered(q, used) && k <= |q|
    ensures Ordered(q[k..], used)
  {
    if k == 0 {
      assert q[0..] == q;
    } else {
      SuffixOrdered(q[1..], k - 1, used);
      assert q[k..] == q[1..][k - 1..];
    }
  }

  /** The item used now goes last. */
  lemma {:induction false} UsedGoesLast(q: seq<Item>, e: Item, used: map<string, nat>, time: nat)
    requires Ordered(q, used)
    requires forall x :: x in q ==> x.key in used && used[x.key] < time && x.key != e.key
    ensures Ordered(q + [e], used[e.key := time])
  {
    if q == [] {
      assert (q + [e])[1..] == [];
    } else {
      assert q == [q[0]] + q[1..];
      assert q[0] in q;
      UsedGoesLast(q[1..], e, used, time);
      assert (q + [e])[1..] == q[1..] + [e];
    }
  }

  lemma GetInOrder(t: Traced, capacity: nat, key: string)
    requires InOrderOfUse(t)
    ensures InOrderOfUse(TracedStep(t, capacity, GetOp(key)))
  {
    if HasKey(t.q, key) {
      OrderedIsUnique(t.q, t.used);
      var i :| 0 <= i < |t.q| && t.q[i].key == key;
      LookupAt(t.q, i);
      assert t.q[i] in t.q;
      MoveInOrder(t, Item(key, Lookup(t.q, key)));
    }
  }

  lemma PutInOrder(t: Traced, capacity: nat, key: string, file: string)
    requires InOrderOfUse(t) && |file| <= capacity
    ensures InOrderOfUse(TracedStep(t, capacity, PutOp(key, file)))
  {
    if HasKey(t.q, key) {
      MoveInOrder(t, Item(key, file));
    } else {
      var k := EvictIsShortest(t.q, capacity - |file|);
      var rest := t.q[k..];
      SuffixOrdered(t.q, k, t.used);
      forall x | x in rest
        ensures x in t.q && x.key != key
      {
      }
      UsedGoesLast(rest, Item(key, file), t.used, t.time);
    }
  }

  lemma DeleteInOrder(t: Traced, keys: set<string>)
    requires InOrderOfUse(t)
    ensures InOrderOfUse(t.(q := Without(t.q, keys), time := t.time + 1))
  {
    WithoutOrdered(t.q, keys, t.used);
    WithoutKeeps(t.q, keys);
  }

  lemma StepInOrder(t: Traced, capacity: nat, op: Op)
    requires InOrderOfUse(t) && Enabled(capacity, op)
    ensures InOrderOfUse(TracedStep(t, capacity, op))
  {
    match op
    case GetOp(key) => GetInOrder(t, capacity, key);
    case PutOp(key, file) => PutInOrder(t, capacity, key, file);
    case DelFileOp(key) => DeleteInOrder(t, {key});
    case DelDirOp(prefix) => DeleteInOrder(t, set k | k in KeysOf(t.q) && IsPrefix(prefix, k));
  }

  lemma MoveInOrder(t: Traced, e: Item)
    requires InOrderOfUse(t)
    ensures Ordered(Without(t.q, {e.key}) + [e], t.used[e.key := t.time])
    ensures forall x :: x in Without(t.q, {e.key}) ==> x in t.q && x.key != e.key
  {
    WithoutOrdered(t.q, {e.key}, t.used);
    WithoutKeeps(t.q, {e.key});
    UsedGoesLast(Without(t.q, {e.key}), e, t.used, t.time);
  }

  /** `states` is a run of the cache, from empty. */
  ghost predicate IsRun(states: seq<Traced>, capacity: nat, ops: seq<Op>) {
    && |states| == |ops| + 1 && states[0] == Traced([], 0, map[], map[])
    && forall k :: 0 <= k < |ops| ==>
         Enabled(capacity, ops[k]) && states[k + 1] == TracedStep(states[k], capacity, ops[k])
  }

  /** In every state of every run: what an eviction drops first is what was used longest ago, and a hit
      returns what was last put. */
  lemma {:induction false} RunsAreInOrder(states: seq<Traced>, capacity: nat, ops: seq<Op>, k: nat)
    requires IsRun(states, capacity, ops) && k < |states|
    ensures InOrderOfUse(states[k]) && Unique(states[k].q)
  {
    if k > 0 {
      RunsAreInOrder(states, capacity, ops, k - 1);
      StepInOrder(states[k - 1], capacity, ops[k - 1]);
    }
    OrderedIsUnique(states[k].q, states[k].used);
  }

  /** The capacity bound survives every operation but one: overwriting a key with a longer file, which
      does not evict. */
  lemma CapacityKept(q: seq<Item>, capacity: nat, op: Op)
    requires Unique(q) && SizeOf(q) <= capacity && Enabled(capacity, op)
    ensures SizeOf(Step(q, capacity, op)) <= capacity <==>
            (op.PutOp? && HasKey(q, op.key) ==> SizeOf(q) - |Lookup(q, op.key)| + |op.file| <= capacity)
  {
    match op
    case GetOp(key) =>
      if HasKey(q, key) {
        MovedSize(q, key, Lookup(q, key));
      }
    case PutOp(key, file) =>
      if HasKey(q, key) {
        MovedSize(q, key, file);
      } else {
        var k := EvictIsShortest(q, capacity - |file|);
        SizeAppend(q[k..], [Item(key, file)]);
      }
    case DelFileOp(key) =>
      WithoutIsSmaller(q, {key});
    case DelDirOp(prefix) =>
      WithoutIsSmaller(q, set k | k in KeysOf(q) && IsPrefix(prefix, k));
  }

  lemma MovedSize(q: seq<Item>, key: string, buf: string)
    requires Unique(q) && HasKey(q, key)
    ensures SizeOf(Without(q, {key}) + [Item(key, buf)]) == SizeOf(q) - |Lookup(q, key)| + |buf|
  {
    var i :| 0 <= i < |q| && q[i].key == key;
    LookupAt(q, i);
    WithoutOne(q, i);
    SizeAppend(Without(q, {key}), [Item(key, buf)]);
    assert SizeOf([Item(key, buf)]) == |buf|;
  }

  lemma {:induction false} WithoutIsSmaller(q: seq<Item>, keys: set<string>)
    ensures SizeOf(Without(q, keys)) <= SizeOf(q)
  {
    if q != [] {
      WithoutIsSmaller(q[1..], keys);
      SizeAppend([q[0]], Without(q[1..], keys));
      SizeAppend([], Without(q[1..], keys));
    }
  }

  /** Changing the content of an item. */
  lemma OverwriteItem(q: seq<Item>, q': seq<Item>, i: nat)
    requires Unique(q) && i < |q| == |q'| && q' == q[i := Item(q[i].key, q'[i].buf)]
    ensures Unique(q') && Without(q', {q[i].key}) == Without(q, {q[i].key})
    ensures SizeOf(q') == SizeOf(q) - |q[i].buf| + |q'[i].buf|
  {
    var k := q[i].key;
    WithoutOne(q, i);
    UniqueOverwrite(q, q', i);
    WithoutOne(q', i);
    assert q'[..i] + q'[i + 1..] == q[..i] + q[i + 1..];
  }

  lemma UniqueOverwrite(q: seq<Item>, q': seq<Item>, i: nat)
    requires Unique(q) && i < |q| == |q'| && q' == q[i := Item(q[i].key, q'[i].buf)]
    ensures Unique(q')
  {
    forall j, k | 0 <= j < k < |q'|
      ensures q'[j].key != q'[k].key
    {
      assert q'[j].key == q[j].key && q'[k].key == q[k].key;
    }
  }
}
