/** The chained hash table behind the sensors and the sensor groups, against a finite map. */
module HashTable {
  import opened Text

  /** SENSORS_TABLE_SIZE and SENSORGROUPS_TABLE_SIZE */
  const TABLE_SIZE := 10

  // ---------- The bucket index

  /** A `char` is signed. */
  function SignedChar(c: byte): int {
    if c < 128 then c else c - 256
  }

  /** The sum of an unsigned int and a char wraps around. */
  function HashStep(hash: nat, c: byte, size: nat): (h: nat)
    requires size > 0
    ensures h < size
  {
    (hash + SignedChar(c)) % 0x1_0000_0000 % size
  }

  /** hash, from the `i`th byte of the key on. */
  function HashFrom(key: bytes, i: nat, hash: nat, size: nat): (h: nat)
    requires size > 0 && i <= |key| && hash < size
    ensures h < size
    decreases |key| - i
  {
    if i == |key| then hash else HashFrom(key, i + 1, HashStep(hash, key[i], size), size)
  }

  function Bucket(key: bytes, size: nat): (h: nat)
    requires size > 0
    ensures h < size
  {
    HashFrom(key, 0, 0, size)
  }

  method Hash(key: bytes, size: nat) returns (hash: nat)
    requires size > 0
    ensures hash == Bucket(key, size) < size
  {
    hash := 0;
    var i := 0;
    while i < |key|
      invariant 0 <= i <= |key| && hash < size && HashFrom(key, i, hash, size) == Bucket(key, size)
    {
      hash := HashStep(hash, key[i], size);
      i := i + 1;
    }
  }

  /** The sum of the key's bytes. */
  function Sum(key: bytes): nat {
    if key == [] then 0 else Sum(key[..|key| - 1]) + key[|key| - 1]
  }

  lemma SumStep(sum: nat, c: byte)
    requires c < 128
    ensures HashStep(sum % TABLE_SIZE, c, TABLE_SIZE) == (sum + c) % TABLE_SIZE
  {
    assert sum == 10 * (sum / 10) + sum % 10;
  }

  lemma {:induction false} HashIsSumFrom(key: bytes, i: nat, hash: nat)
    requires i <= |key| && (forall k :: 0 <= k < |key| ==> key[k] < 128)
    requires hash == Sum(key[..i]) % TABLE_SIZE
    ensures HashFrom(key, i, hash, TABLE_SIZE) == Sum(key) % TABLE_SIZE
    decreases |key| - i
  {
    if i == |key| {
      assert key[..i] == key;
    } else {
      assert key[..i + 1][..i] == key[..i];
      SumStep(Sum(key[..i]), key[i]);
      HashIsSumFrom(key, i + 1, HashStep(hash, key[i], TABLE_SIZE));
    }
  }

  /** An ASCII key goes into the bucket of the sum of its characters: keys with the same letters share one. */
  lemma HashIsSum(key: bytes)
    requires forall k :: 0 <= k < |key| ==> key[k] < 128
    ensures Bucket(key, TABLE_SIZE) == Sum(key) % TABLE_SIZE
  {
    assert key[..0] == [];
    HashIsSumFrom(key, 0, 0);
  }

  // ---------- Chains

  class ListNode<V> {
    const key: bytes
    var value: V
    var next: ListNode?<V>

    constructor (key: bytes, value: V)
      ensures this.key == key && this.value == value && next == null
    {
      this.key := key;
      this.value := value;
      next := null;
    }
  }

  /** The nodes from `head` on, in order. */
  ghost predicate Linked<V>(head: ListNode?<V>, chain: seq<ListNode<V>>)
    reads chain
  {
    && (if chain == [] then head == null else head == chain[0])
    && forall j {:trigger chain[j].next} :: 0 <= j < |chain| ==>
         chain[j].next == if j + 1 < |chain| then chain[j + 1] else null
  }

  /** The key is that of a node of the chain. */
  ghost predicate HasKey<V>(chain: seq<ListNode<V>>, key: bytes) {
    exists j :: 0 <= j < |chain| && chain[j].key == key
  }

  /** The chain holds exactly the keys of the map that belong into bucket `i`, each once, with their values. */
  ghost predicate Holds<V>(chain: seq<ListNode<V>>, i: nat, size: nat, contents: map<bytes, V>)
    requires size > 0
    reads chain
  {
    && (forall j :: 0 <= j < |chain| ==> NodeHolds(chain[j], i, size, contents))
    && (forall j, k :: 0 <= j < k < |chain| ==> chain[j].key != chain[k].key)
    && (forall key :: key in contents && Bucket(key, size) == i ==> HasKey(chain, key))
  }

  ghost predicate NodeHolds<V>(node: ListNode<V>, i: nat, size: nat, contents: map<bytes, V>)
    requires size > 0
    reads node
  {
    Bucket(node.key, size) == i && node.key in contents && contents[node.key] == node.value
  }

  ghost predicate BucketHolds<V>(
    head: ListNode?<V>, chain: seq<ListNode<V>>, i: nat, size: nat, contents: map<bytes, V>)
    requires size > 0
    reads chain
  {
    Linked(head, chain) && Holds(chain, i, size, contents)
  }

  /** The buckets other than the `i`th are good, with nodes from `others`. */
  ghost predicate OthersHold<V>(heads: seq<ListNode?<V>>, chains: seq<seq<ListNode<V>>>, i: nat,
                                contents: map<bytes, V>, others: set<ListNode<V>>)
    requires |heads| == |chains|
    reads others
  {
    forall k :: 0 <= k < |chains| && k != i ==>
      (forall h :: 0 <= h < |chains[k]| ==> chains[k][h] in others) &&
      BucketHolds(heads[k], chains[k], k, |chains|, contents)
  }

  /** They are as good with, and without, a key that belongs into the `i`th. */
  lemma OthersHoldWith<V>(heads: seq<ListNode?<V>>, chains: seq<seq<ListNode<V>>>, i: nat,
                          contents: map<bytes, V>, others: set<ListNode<V>>, key: bytes, value: V)
    requires |heads| == |chains| > 0 && i == Bucket(key, |chains|) && OthersHold(heads, chains, i, contents, others)
    ensures OthersHold(heads, chains, i, contents[key := value], others)
    ensures OthersHold(heads, chains, i, contents - {key}, others)
  {
    forall k | 0 <= k < |chains| && k != i
      ensures BucketHolds(heads[k], chains[k], k, |chains|, contents[key := value])
      ensures BucketHolds(heads[k], chains[k], k, |chains|, contents - {key})
    {
      assert BucketHolds(heads[k], chains[k], k, |chains|, contents);
      OtherBucketHolds(chains[k], k, |chains|, contents, key, value);
    }
  }

  /** The loop over a chain that put, get and delete share. */
  method Search<V>(head: ListNode?<V>, key: bytes, ghost chain: seq<ListNode<V>>)
    returns (prev: ListNode?<V>, tmp: ListNode?<V>, ghost j: nat)
    requires Linked(head, chain)
    ensures j <= |chain| && tmp == (if j < |chain| then chain[j] else null)
    ensures prev == if j == 0 then null else chain[j - 1]
    ensures if tmp == null then !HasKey(chain, key) else tmp.key == key
  {
    prev, tmp, j := null, head, 0;
    while tmp != null && tmp.key != key
      invariant j <= |chain| && tmp == if j < |chain| then chain[j] else null
      invariant prev == if j == 0 then null else chain[j - 1]
      invariant forall k :: 0 <= k < j ==> chain[k].key != key
      decreases |chain| - j
    {
      assert tmp == chain[j];
      prev, tmp, j := tmp, tmp.next, j + 1;
    }
  }

  /** The chain without its `j`th node. */
  ghost predicate IsRest<V>(rest: seq<ListNode<V>>, chain: seq<ListNode<V>>, j: nat) {
    |chain| == |rest| + 1 && forall k :: 0 <= k < |rest| ==> rest[k] == chain[if k < j then k else k + 1]
  }

  lemma TailLinked<V>(head: ListNode?<V>, chain: seq<ListNode<V>>, rest: seq<ListNode<V>>)
    requires Linked(head, chain) && IsRest(rest, chain, 0)
    ensures Linked(chain[0].next, rest)
  {
    assert chain[0].next == if 1 < |chain| then chain[1] else null;
    forall k | 0 <= k < |rest| ensures rest[k].next == if k + 1 < |rest| then rest[k + 1] else null {
      assert rest[k] == chain[k + 1];
      assert chain[k + 1].next == if k + 2 < |chain| then chain[k + 2] else null;
    }
  }

  /** The node before a node is linked to the one after it. */
  method Bypass<V>(head: ListNode?<V>, prev: ListNode<V>, tmp: ListNode<V>, ghost chain: seq<ListNode<V>>, ghost j: nat,
                   ghost rest: seq<ListNode<V>>)
    requires Linked(head, chain) && 0 < j < |chain| && prev == chain[j - 1] && tmp == chain[j]
    requires forall a, b :: 0 <= a < b < |chain| ==> chain[a].key != chain[b].key
    requires IsRest(rest, chain, j)
    modifies prev`next
    ensures Linked(head, rest)
  {
    assert chain[j].next == if j + 1 < |chain| then chain[j + 1] else null;
    label Before:
    prev.next := tmp.next;
    forall k | 0 <= k < |rest| ensures rest[k].next == if k + 1 < |rest| then rest[k + 1] else null {
      var from := if k < j then k else k + 1;
      assert rest[k] == chain[from];
      assert old@Before(chain[from].next) == if from + 1 < |chain| then chain[from + 1] else null;
      if k != j - 1 {
        assert chain[from] != prev;
      }
    }
    assert rest[0] == chain[0];
  }

  /** That, in the `i`th bucket. */
  method BypassIn<V>(
    head: ListNode?<V>, prev: ListNode<V>, tmp: ListNode<V>, ghost chain: seq<ListNode<V>>, ghost j: nat,
    ghost rest: seq<ListNode<V>>, ghost i: nat, ghost size: nat, ghost now: map<bytes, V>)
    requires Linked(head, chain) && 0 < j < |chain| && prev == chain[j - 1] && tmp == chain[j]
    requires forall a, b :: 0 <= a < b < |chain| ==> chain[a].key != chain[b].key
    requires IsRest(rest, chain, j) && size > 0 && Holds(rest, i, size, now)
    modifies prev`next
    ensures BucketHolds(head, rest, i, size, now)
  {
    Bypass(head, prev, tmp, chain, j, rest);
    forall h | 0 <= h < |rest| ensures NodeHolds(rest[h], i, size, now) {
      assert old(NodeHolds(rest[h], i, size, now));
    }
  }

  /** A node's value changes in place, in the `i`th bucket. */
  method Overwrite<V>(node: ListNode<V>, value: V, ghost head: ListNode?<V>, ghost chain: seq<ListNode<V>>,
                      ghost i: nat, ghost size: nat, ghost contents: map<bytes, V>)
    requires size > 0 && BucketHolds(head, chain, i, size, contents) && node in chain
    modifies node`value
    ensures BucketHolds(head, chain, i, size, contents[node.key := value]) && node.value == value
  {
    ghost var now := contents[node.key := value];
    node.value := value;
    forall h | 0 <= h < |chain| ensures NodeHolds(chain[h], i, size, now) {
      assert old(NodeHolds(chain[h], i, size, contents));
    }
    assert forall h :: 0 <= h < |chain| ==> chain[h].next == old(chain[h].next);
  }

  class HashTable<V> {
    const buckets: array<ListNode?<V>>
    ghost var chains: seq<seq<ListNode<V>>>
    ghost var contents: map<bytes, V>
    ghost var nodes: set<ListNode<V>>

    /** Every key sits in one node, in the chain of its bucket. */
    ghost predicate Valid()
      reads this, buckets, nodes
    {
      && 0 < buckets.Length == |chains|
      && forall i :: 0 <= i < |chains| ==> BucketIsValid(i)
    }

    ghost predicate BucketIsValid(i: nat)
      requires i < |chains| == buckets.Length
      reads this, buckets, nodes
    {
      (forall j :: 0 <= j < |chains[i]| ==> chains[i][j] in nodes) &&
      BucketHolds(buckets[i], chains[i], i, |chains|, contents)
    }

    /** hts_create */
    constructor (size: nat)
      requires size > 0
      ensures Valid() && contents == map[] && buckets.Length == size && fresh(buckets) && nodes == {}
    {
      buckets := new ListNode?<V>[size](_ => null);
      chains, contents, nodes := seq(size, _ => []), map[], {};
    }

    /** hts_get */
    method Get(key: bytes) returns (r: Option<V>)
      requires Valid()
      ensures r == if key in contents then Some(contents[key]) else None
    {
      var i := Hash(key, buckets.Length);
      assert BucketIsValid(i);
      var _, tmp, j := Search(buckets[i], key, chains[i]);
      if tmp == null {
        return None;
      }
      assert NodeHolds(chains[i][j], i, |chains|, contents);
      return Some(tmp.value);
    }

    /** hts_put and node_handler_sensors, and the values they free: where the key was there, that of the entry and the
        one that has just been stored in its place. */
    method Put(key: bytes, value: V) returns (freed: seq<V>)
      requires Valid()
      modifies this, buckets, nodes
      ensures Valid() && contents == old(contents)[key := value]
      ensures freed == if key in old(contents) then [old(contents)[key], value] else []
      ensures nodes >= old(nodes) && fresh(nodes - old(nodes))
    {
      var i := Hash(key, buckets.Length);
      assert BucketIsValid(i);
      var _, tmp, j := Search(buckets[i], key, chains[i]);
      if tmp == null {
        var node := new ListNode(key, value);
        Link(node, i);
        return [];
      }
      assert NodeHolds(chains[i][j], i, |chains|, contents);
      freed := [tmp.value, value];
      SetValue(tmp, value);
    }

    /** The new node points to the first of its bucket and becomes the first. */
    method Link(node: ListNode<V>, i: nat)
      requires Valid() && node !in nodes && node.key !in contents && i == Bucket(node.key, buckets.Length)
      modifies this, buckets, node`next
      ensures Valid() && contents == old(contents)[node.key := node.value] && nodes == old(nodes) + {node}
    {
      ghost var size, heads := |chains|, buckets[..];
      label Before:
      node.next := buckets[i];
      forall k | 0 <= k < |chains| ensures BucketIsValid(k) {
        assert old@Before(BucketIsValid(k));
      }
      Prepend(node, i);
    }

    /** A node that points to the first of its bucket becomes the first. */
    method Prepend(node: ListNode<V>, i: nat)
      requires Valid() && node !in nodes && node.key !in contents
      requires i == Bucket(node.key, buckets.Length) && node.next == buckets[i]
      modifies this, buckets
      ensures Valid() && contents == old(contents)[node.key := node.value] && nodes == old(nodes) + {node}
    {
      ghost var heads, before, now := buckets[..], chains, contents[node.key := node.value];
      Split(i);
      PrependedHolds(node, chains[i], i, |chains|, contents);
      ghost var others := OthersOf(i);
      OthersHoldWith(heads, chains, i, contents, others, node.key, node.value);
      buckets[i] := node;
      chains, nodes, contents := chains[i := [node] + chains[i]], nodes + {node}, now;
      Join(i, heads, before, others);
    }

    /** The nodes that are not in the bucket: all other buckets have theirs among them. */
    ghost function OthersOf(i: nat): (others: set<ListNode<V>>)
      requires i < |chains|
      reads this
    {
      set node | node in nodes && node !in chains[i]
    }

    lemma Split(i: nat)
      requires Valid() && i < |chains|
      ensures BucketIsValid(i) && OthersHold(buckets[..], chains, i, contents, OthersOf(i))
    {
      assert BucketIsValid(i);
      forall k | 0 <= k < |chains| && k != i
        ensures BucketHolds(buckets[k], chains[k], k, |chains|, contents)
        ensures forall h :: 0 <= h < |chains[k]| ==> chains[k][h] in OthersOf(i)
      {
        assert BucketIsValid(k);
        BucketsAreApart(chains[k], chains[i], k, i, |chains|, contents);
      }
    }

    /** One bucket has changed. */
    lemma Join(i: nat, heads: seq<ListNode?<V>>, before: seq<seq<ListNode<V>>>, others: set<ListNode<V>>)
      requires i < |before| == |heads| == buckets.Length == |chains|
      requires BucketHolds(buckets[i], chains[i], i, |chains|, contents)
      requires forall h :: 0 <= h < |chains[i]| ==> chains[i][h] in nodes
      requires forall k :: 0 <= k < |chains| && k != i ==> buckets[k] == heads[k] && chains[k] == before[k]
      requires others <= nodes && OthersHold(heads, before, i, contents, others)
      ensures Valid()
    {
      forall k | 0 <= k < |chains| ensures BucketIsValid(k) {
        if k != i {
          assert BucketHolds(heads[k], before[k], k, |chains|, contents);
        }
      }
    }

    /** hts_delete */
    method Delete(key: bytes) returns (r: Option<V>)
      requires Valid()
      modifies this, buckets, nodes
      ensures Valid() && nodes == old(nodes)
      ensures contents == old(contents) - {key} && (r.None? ==> contents == old(contents))
      ensures r == if key in old(contents) then Some(old(contents)[key]) else None
    {
      var i := Hash(key, buckets.Length);
      assert BucketIsValid(i);
      var prev, tmp, j := Search(buckets[i], key, chains[i]);
      if tmp == null {
        return None;
      }
      assert NodeHolds(chains[i][j], i, |chains|, contents);
      Unlink(i, prev, tmp, j);
      return Some(tmp.value);
    }

    /** Without its `j`th node, the bucket holds what is left, and so do the others. */
    lemma ReadyToUnlink(i: nat, j: nat) returns (rest: seq<ListNode<V>>)
      requires Valid() && i < |chains| && j < |chains[i]|
      ensures var now := contents - {chains[i][j].key};
              && BucketIsValid(i) && OthersHold(buckets[..], chains, i, now, OthersOf(i))
              && IsRest(rest, chains[i], j) && Holds(rest, i, |chains|, now)
      ensures forall h :: 0 <= h < |rest| ==> rest[h] in nodes
    {
      Split(i);
      rest := chains[i][..j] + chains[i][j + 1..];
      RemovedHolds(chains[i], j, rest, i, |chains|, contents);
      var node := chains[i][j];
      assert NodeHolds(node, i, |chains|, contents);
      OthersHoldWith(buckets[..], chains, i, contents, OthersOf(i), node.key, node.value);
    }

    /** The `j`th node of a bucket leaves its chain. */
    method Unlink(i: nat, prev: ListNode?<V>, tmp: ListNode<V>, ghost j: nat)
      requires Valid() && i < |chains| && j < |chains[i]| && tmp == chains[i][j]
      requires prev == if j == 0 then null else chains[i][j - 1]
      modifies this, buckets, nodes`next
      ensures Valid() && nodes == old(nodes) && contents == old(contents) - {tmp.key}
    {
      if prev == null {
        UnlinkFirst(i, tmp);
      } else {
        assert BucketIsValid(i);
        UnlinkLater(i, prev, tmp, j);
      }
    }

    lemma ReadyToUnlinkFirst(i: nat) returns (rest: seq<ListNode<V>>)
      requires Valid() && i < |chains| && 0 < |chains[i]|
      ensures var now := contents - {chains[i][0].key};
              && OthersHold(buckets[..], chains, i, now, OthersOf(i))
              && BucketHolds(chains[i][0].next, rest, i, |chains|, now)
      ensures forall h :: 0 <= h < |rest| ==> rest[h] in nodes
    {
      rest := ReadyToUnlink(i, 0);
      TailLinked(buckets[i], chains[i], rest);
    }

    method UnlinkFirst(i: nat, tmp: ListNode<V>)
      requires Valid() && i < |chains| && 0 < |chains[i]| && tmp == chains[i][0]
      modifies this, buckets
      ensures Valid() && nodes == old(nodes) && contents == old(contents) - {tmp.key}
    {
      ghost var heads, before, others, now := buckets[..], chains, OthersOf(i), contents - {tmp.key};
      ghost var rest := ReadyToUnlinkFirst(i);
      buckets[i] := tmp.next;
      assert OthersHold(heads, before, i, now, others) && BucketHolds(buckets[i], rest, i, |chains|, now);
      chains, contents := chains[i := rest], now;
      Join(i, heads, before, others);
    }

    method UnlinkLater(i: nat, prev: ListNode<V>, tmp: ListNode<V>, ghost j: nat)
      requires Valid() && i < |chains| && 0 < j < |chains[i]| && prev == chains[i][j - 1] && tmp == chains[i][j]
      modifies this, prev`next
      ensures Valid() && nodes == old(nodes) && contents == old(contents) - {tmp.key}
    {
      ghost var heads, before, others, now := buckets[..], chains, OthersOf(i), contents - {tmp.key};
      ghost var rest := ReadyToUnlink(i, j);
      assert prev !in others;
      BypassIn(buckets[i], prev, tmp, chains[i], j, rest, i, |chains|, now);
      assert OthersHold(heads, before, i, now, others);
      chains, contents := chains[i := rest], now;
      Join(i, heads, before, others);
    }

    // ---------- Sweeps

    /** The node is in the chain of its bucket. */
    ghost predicate Owns(node: ListNode<V>)
      reads this
    {
      |chains| > 0 && node in chains[Bucket(node.key, |chains|)]
    }

    lemma OwnedIsHeld(node: ListNode<V>)
      requires Valid() && Owns(node)
      ensures node.key in contents && contents[node.key] == node.value && node in nodes
    {
      var i := Bucket(node.key, |chains|);
      assert BucketIsValid(i);
      var j :| 0 <= j < |chains[i]| && chains[i][j] == node;
      assert NodeHolds(chains[i][j], i, |chains|, contents);
    }

    /** A bucket-by-bucket sweep: every entry of the table, once. */
    method Sweep() returns (order: seq<ListNode<V>>)
      requires Valid()
      ensures forall a, b :: 0 <= a < b < |order| ==> order[a].key != order[b].key
      ensures forall a :: 0 <= a < |order| ==> Owns(order[a]) && order[a] in nodes
      ensures forall a :: 0 <= a < |order| ==> order[a].key in contents && contents[order[a].key] == order[a].value
      ensures forall key :: key in contents ==> HasKey(order, key)
    {
      order := [];
      for i := 0 to buckets.Length
        invariant forall a, b :: 0 <= a < b < |order| ==> order[a].key != order[b].key
        invariant forall a :: 0 <= a < |order| ==> Listed(order[a]) && Bucket(order[a].key, |chains|) < i
        invariant forall key :: key in contents && Bucket(key, |chains|) < i ==> HasKey(order, key)
      {
        ghost var before := order;
        assert BucketIsValid(i);
        order := SweepBucket(i, order);
        forall a | |before| <= a < |order| ensures Listed(order[a]) && Bucket(order[a].key, |chains|) == i {
          assert NodeHolds(chains[i][a - |before|], i, |chains|, contents);
        }
        forall key | key in contents && Bucket(key, |chains|) < i + 1 ensures HasKey(order, key) {
          KeyInSum(before, chains[i], key);
        }
      }
    }

    ghost predicate Listed(node: ListNode<V>)
      reads this, node
    {
      Owns(node) && node in nodes && node.key in contents && contents[node.key] == node.value
    }

    method SweepBucket(i: nat, before: seq<ListNode<V>>) returns (order: seq<ListNode<V>>)
      requires Valid() && i < buckets.Length
      ensures order == before + chains[i]
    {
      assert BucketIsValid(i);
      order := before;
      var tmp := buckets[i];
      ghost var j := 0;
      while tmp != null
        invariant j <= |chains[i]| && tmp == if j < |chains[i]| then chains[i][j] else null
        invariant order == before + chains[i][..j]
        decreases |chains[i]| - j
      {
        assert tmp == chains[i][j];
        order := order + [tmp];
        tmp, j := tmp.next, j + 1;
      }
    }

    /** Overwrites the value of an entry in place. */
    method SetValue(node: ListNode<V>, value: V)
      requires Valid() && Owns(node)
      modifies this`contents, node`value
      ensures Valid() && node.key in old(contents) && contents == old(contents)[node.key := value]
      ensures node.value == value
    {
      ghost var i, heads, before := Bucket(node.key, |chains|), buckets[..], chains;
      ghost var now, others := contents[node.key := value], OthersOf(i);
      OwnedIsHeld(node);
      Split(i);
      OthersHoldWith(heads, chains, i, contents, others, node.key, value);
      Overwrite(node, value, heads[i], chains[i], i, |chains|, contents);
      assert OthersHold(heads, before, i, now, others);
      contents := now;
      Join(i, heads, before, others);
    }
  }

  lemma KeyInSum<V>(a: seq<ListNode<V>>, b: seq<ListNode<V>>, key: bytes)
    ensures HasKey(a + b, key) <==> HasKey(a, key) || HasKey(b, key)
  {
    if j :| 0 <= j < |a| && a[j].key == key {
      assert (a + b)[j].key == key;
    }
    if j :| 0 <= j < |b| && b[j].key == key {
      assert (a + b)[|a| + j].key == key;
    }
    if j :| 0 <= j < |a + b| && (a + b)[j].key == key {
      assert j < |a| ==> a[j].key == key;
      assert j >= |a| ==> b[j - |a|].key == key;
    }
  }

  lemma RemovedHolds<V>(chain: seq<ListNode<V>>, j: nat, rest: seq<ListNode<V>>, i: nat, size: nat,
                        contents: map<bytes, V>)
    requires size > 0 && j < |chain| && Holds(chain, i, size, contents) && IsRest(rest, chain, j)
    ensures Holds(rest, i, size, contents - {chain[j].key})
  {
    var now := contents - {chain[j].key};
    forall k | 0 <= k < |rest| ensures NodeHolds(rest[k], i, size, now) {
      assert NodeHolds(chain[if k < j then k else k + 1], i, size, contents);
    }
    forall key | key in now && Bucket(key, size) == i ensures HasKey(rest, key) {
      var k :| 0 <= k < |chain| && chain[k].key == key;
      assert rest[if k < j then k else k - 1].key == key;
    }
  }

  lemma BucketsAreApart<V>(
    a: seq<ListNode<V>>, b: seq<ListNode<V>>, i: nat, k: nat, size: nat, contents: map<bytes, V>)
    requires size > 0 && i != k && Holds(a, i, size, contents) && Holds(b, k, size, contents)
    ensures forall j :: 0 <= j < |a| ==> a[j] !in b
  {
    forall j, h | 0 <= j < |a| && 0 <= h < |b| ensures a[j] != b[h] {
      assert NodeHolds(a[j], i, size, contents) && NodeHolds(b[h], k, size, contents);
    }
  }

  lemma PrependedHolds<V>(node: ListNode<V>, chain: seq<ListNode<V>>, i: nat, size: nat, contents: map<bytes, V>)
    requires size > 0 && Holds(chain, i, size, contents) && node.key !in contents && Bucket(node.key, size) == i
    requires (forall j :: 0 <= j < |chain| ==> chain[j] != node) && Linked(node.next, chain)
    ensures BucketHolds(node, [node] + chain, i, size, contents[node.key := node.value])
  {
    var after, now := [node] + chain, contents[node.key := node.value];
    forall j | 0 <= j < |after| ensures NodeHolds(after[j], i, size, now) {
      if j > 0 {
        assert NodeHolds(chain[j - 1], i, size, contents);
      }
    }
    forall key | key in now && Bucket(key, size) == i ensures HasKey(after, key) {
      if key != node.key {
        var j :| 0 <= j < |chain| && chain[j].key == key;
        assert after[j + 1].key == key;
      } else {
        assert after[0].key == key;
      }
    }
  }

  lemma OtherBucketHolds<V>(
    chain: seq<ListNode<V>>, k: nat, size: nat, contents: map<bytes, V>, key: bytes, value: V)
    requires size > 0 && Holds(chain, k, size, contents) && Bucket(key, size) != k
    ensures Holds(chain, k, size, contents[key := value])
    ensures Holds(chain, k, size, contents - {key})
  {
    forall j | 0 <= j < |chain|
      ensures NodeHolds(chain[j], k, size, contents[key := value]) && NodeHolds(chain[j], k, size, contents - {key})
    {
      assert NodeHolds(chain[j], k, size, contents);
    }
  }
}
