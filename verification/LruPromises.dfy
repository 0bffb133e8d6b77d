/** What each operation of the cache does to every item, in terms of the items and their sizes alone. */
module LruPromises {
  import opened LruSpec

  /** The items but the i-th. */
  function But(q: seq<Item>, i: nat): seq<Item>
    requires i < |q|
  {
    q[..i] + q[i + 1..]
  }

  /** A file under a new key goes to the recently used end, and the fewest items that make room for it go from the
      other. */
  ghost predicate MakesRoom(q: seq<Item>, capacity: nat, file: string, k: nat) {
    && k <= |q| && SizeOf(q[k..]) + |file| <= capacity
    && forall j :: 0 <= j < k ==> SizeOf(q[j..]) + |file| > capacity
  }

  lemma PutNew(q: seq<Item>, capacity: nat, key: string, file: string) returns (k: nat)
    requires |file| <= capacity && forall i :: 0 <= i < |q| ==> q[i].key != key
    ensures MakesRoom(q, capacity, file, k) && Put(q, capacity, key, file) == q[k..] + [Item(key, file)]
    ensures SizeOf(q) + |file| <= capacity ==> k == 0
  {
    k := EvictIsShortest(q, capacity - |file|);
    assert q[0..] == q;
  }

  /** A file under a key that is there takes the place of the old one, at the recently used end, and every other item
      stays. */
  lemma PutOld(q: seq<Item>, capacity: nat, i: nat, file: string)
    requires i < |q| && Unique(q)
    ensures Put(q, capacity, q[i].key, file) == But(q, i) + [Item(q[i].key, file)]
  {
    WithoutOne(q, i);
  }

  /** A hit moves the item to the recently used end, and a miss changes nothing. */
  lemma GetMoves(q: seq<Item>, key: string)
    requires Unique(q)
    ensures (forall i :: 0 <= i < |q| ==> q[i].key != key) ==> Get(q, key) == q
    ensures forall i :: 0 <= i < |q| && q[i].key == key ==> Get(q, key) == But(q, i) + [q[i]]
  {
    forall i | 0 <= i < |q| && q[i].key == key
      ensures Get(q, key) == But(q, i) + [q[i]]
    {
      WithoutOne(q, i);
      LookupAt(q, i);
    }
  }

  /** Why an item may go: it is deleted, by its name or with a directory, or it is among the fewest that make room
      for a new key. */
  ghost predicate MayGo(q: seq<Item>, capacity: nat, op: Op, i: nat)
    requires i < |q|
  {
    match op
    case GetOp(_) => false
    case PutOp(key, file) => (forall j :: 0 <= j < |q| ==> q[j].key != key) && SizeOf(q[i..]) + |file| > capacity
    case DelFileOp(key) => q[i].key == key
    case DelDirOp(prefix) => prefix <= q[i].key
  }

  ghost predicate IsGone(q: seq<Item>, key: string) {
    forall j :: 0 <= j < |q| ==> q[j].key != key
  }

  /** A key goes for one of these reasons only, and then it does; what stays keeps its content, unless it is put. */
  lemma GoesIff(q: seq<Item>, capacity: nat, op: Op, i: nat)
    requires Unique(q) && Enabled(capacity, op) && i < |q|
    ensures var q' := Step(q, capacity, op);
            if MayGo(q, capacity, op, i) then IsGone(q', q[i].key)
            else if op.PutOp? && op.key == q[i].key then Item(op.key, op.file) in q'
            else q[i] in q'
  {
    match op
    case GetOp(key) => GetKeepsItem(q, key, i);
    case PutOp(key, file) =>
      if x :| 0 <= x < |q| && q[x].key == key {
        PutOld(q, capacity, x, file);
        StaysBut(q, x, i, Item(key, file));
      } else {
        PutKeepsItem(q, capacity, key, file, i);
      }
    case DelFileOp(key) => GoesWithout(q, {key}, i);
    case DelDirOp(prefix) => GoesWithDirectory(q, prefix, i);
  }

  lemma GoesWithDirectory(q: seq<Item>, prefix: string, i: nat)
    requires i < |q|
    ensures var q' := Without(q, set k | k in KeysOf(q) && IsPrefix(prefix, k));
            if prefix <= q[i].key then IsGone(q', q[i].key) else q[i] in q'
  {
    assert q[i].key in KeysOf(q);
    var keys := set k | k in KeysOf(q) && IsPrefix(prefix, k);
    GoesWithout(q, keys, i);
  }

  lemma StaysBut(q: seq<Item>, x: nat, i: nat, last: Item)
    requires x < |q| && i < |q|
    ensures last in But(q, x) + [last] && (i != x ==> q[i] in But(q, x) + [last])
  {
    var r := But(q, x) + [last];
    assert r[|q| - 1] == last;
    if i != x {
      assert r[if i < x then i else i - 1] == q[i];
    }
  }

  lemma GetKeepsItem(q: seq<Item>, key: string, i: nat)
    requires Unique(q) && i < |q|
    ensures q[i] in Get(q, key)
  {
    GetMoves(q, key);
    if x :| 0 <= x < |q| && q[x].key == key {
      StaysBut(q, x, i, q[x]);
    }
  }

  lemma PutKeepsItem(q: seq<Item>, capacity: nat, key: string, file: string, i: nat)
    requires Unique(q) && |file| <= capacity && i < |q| && forall j :: 0 <= j < |q| ==> q[j].key != key
    ensures var q' := Put(q, capacity, key, file);
            if SizeOf(q[i..]) + |file| > capacity then IsGone(q', q[i].key)
            else q[i] in q'
  {
    var k := PutNew(q, capacity, key, file);
    var q' := q[k..] + [Item(key, file)];
    if i < k {
      forall j | 0 <= j < |q'|
        ensures q'[j].key != q[i].key
      {
        assert j < |q| - k ==> q'[j] == q[k + j];
      }
    } else {
      SuffixFits(q, k, i);
      assert q'[i - k] == q[i];
    }
  }

  lemma {:induction false} SuffixFits(q: seq<Item>, k: nat, i: nat)
    requires k <= i <= |q|
    ensures SizeOf(q[i..]) <= SizeOf(q[k..])
    decreases i - k
  {
    if k < i {
      SuffixFits(q, k + 1, i);
      assert q[k..][1..] == q[k + 1..];
    }
  }

  lemma GoesWithout(q: seq<Item>, keys: set<string>, i: nat)
    requires i < |q|
    ensures var q' := Without(q, keys);
            if q[i].key in keys then IsGone(q', q[i].key) else q[i] in q'
  {
    WithoutKeeps(q, keys);
    var q' := Without(q, keys);
    forall j | 0 <= j < |q'|
      ensures q'[j].key !in keys
    {
      assert q'[j] in q';
    }
  }

  /** And nothing comes but what is put. */
  lemma ComesIff(q: seq<Item>, capacity: nat, op: Op, x: Item)
    requires Unique(q) && Enabled(capacity, op) && x in Step(q, capacity, op)
    ensures x in q || (op.PutOp? && x == Item(op.key, op.file))
  {
    match op
    case GetOp(key) => GetBringsNothing(q, key, x);
    case PutOp(key, file) => PutBringsFile(q, capacity, key, file, x);
    case DelFileOp(key) => WithoutKeeps(q, {key});
    case DelDirOp(prefix) => WithoutKeeps(q, set k | k in KeysOf(q) && IsPrefix(prefix, k));
  }

  lemma GetBringsNothing(q: seq<Item>, key: string, x: Item)
    requires Unique(q) && x in Get(q, key)
    ensures x in q
  {
    GetMoves(q, key);
    if i :| 0 <= i < |q| && q[i].key == key {
      assert x in q[..i] || x in q[i + 1..] || x == q[i];
    }
  }

  lemma PutBringsFile(q: seq<Item>, capacity: nat, key: string, file: string, x: Item)
    requires Unique(q) && |file| <= capacity && x in Put(q, capacity, key, file)
    ensures x in q || x == Item(key, file)
  {
    if i :| 0 <= i < |q| && q[i].key == key {
      PutOld(q, capacity, i, file);
      assert x in q[..i] || x in q[i + 1..] || x == Item(key, file);
    } else {
      var k := PutNew(q, capacity, key, file);
      assert x in q[k..] || x == Item(key, file);
    }
  }
}
