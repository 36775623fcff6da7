/** The jansson hash table (compat/jansson/hashtable.c): one circular, intrusive,
    doubly linked list carries every pair; a bucket is only a first/last window
    into that list.  The table is proved to refine a finite map. */

/** Pure facts about windows over the sequence of bucket numbers of the list. */
module BucketWindows {

  /** lo[b]..hi[b] is exactly the set of list positions that belong to bucket b, so the
      windows are contiguous, pairwise disjoint and together cover the list. */
  ghost predicate Windows(ids: seq<nat>, lo: seq<nat>, hi: seq<nat>, n: nat)
  {
    && |lo| == n && |hi| == n
    && (forall i :: 0 <= i < |ids| ==> ids[i] < n)
    && (forall b :: 0 <= b < n ==> lo[b] <= hi[b] <= |ids|)
    && (forall b, i :: 0 <= b < n && 0 <= i < |ids| ==> (lo[b] <= i < hi[b] <==> ids[i] == b))
  }

  function InsertAt<T>(s: seq<T>, p: nat, x: T): (r: seq<T>)
    requires p <= |s|
    ensures |r| == |s| + 1
    ensures forall i :: 0 <= i < p ==> r[i] == s[i]
    ensures r[p] == x
    ensures forall i :: p < i < |r| ==> r[i] == s[i - 1]
  {
    s[..p] + [x] + s[p..]
  }

  function RemoveAt<T>(s: seq<T>, p: nat): (r: seq<T>)
    requires p < |s|
    ensures |r| == |s| - 1
    ensures forall i :: 0 <= i < p ==> r[i] == s[i]
    ensures forall i :: p <= i < |r| ==> r[i] == s[i + 1]
  {
    s[..p] + s[p + 1..]
  }

  ghost function GrowLo(lo: seq<nat>, hi: seq<nat>, b: nat, p: nat): (r: seq<nat>)
    requires b < |lo| == |hi|
  {
    seq(|lo|, c requires 0 <= c < |lo| => if c == b then p else if lo[c] >= p then lo[c] + 1 else lo[c])
  }

  ghost function GrowHi(lo: seq<nat>, hi: seq<nat>, b: nat, p: nat): (r: seq<nat>)
    requires b < |lo| == |hi|
  {
    seq(|lo|, c requires 0 <= c < |lo| =>
      if c == b then (if lo[b] == hi[b] then p + 1 else hi[b] + 1)
      else if lo[c] >= p then hi[c] + 1 else hi[c])
  }

  /** Inserting a member of bucket b at position p keeps every window contiguous when b was
      empty and p is the end of the list, or when p is where b's window starts. */
  lemma InsertKeepsWindows(ids: seq<nat>, lo: seq<nat>, hi: seq<nat>, n: nat, b: nat, p: nat)
    requires Windows(ids, lo, hi, n)
    requires b < n && p <= |ids|
    requires if lo[b] == hi[b] then p == |ids| else p == lo[b]
    ensures Windows(InsertAt(ids, p, b), GrowLo(lo, hi, b, p), GrowHi(lo, hi, b, p), n)
    ensures forall c :: 0 <= c < n && c != b ==> lo[c] >= p || hi[c] <= p
  {
    var ids', lo', hi' := InsertAt(ids, p, b), GrowLo(lo, hi, b, p), GrowHi(lo, hi, b, p);
    forall c | 0 <= c < n && c != b
      ensures lo[c] >= p || hi[c] <= p
    {
      if p < |ids| {
        assert lo[b] <= p < hi[b];
        assert ids[p] == b;
      }
    }
    forall c, i | 0 <= c < n && 0 <= i < |ids'|
      ensures lo'[c] <= i < hi'[c] <==> ids'[i] == c
    {
      if i < p {
        assert ids'[i] == ids[i];
      } else if i > p {
        assert ids'[i] == ids[i - 1];
      }
    }
  }

  ghost function ShrinkLo(lo: seq<nat>, p: nat): (r: seq<nat>) {
    seq(|lo|, c requires 0 <= c < |lo| => if lo[c] > p then lo[c] - 1 else lo[c])
  }

  ghost function ShrinkHi(hi: seq<nat>, p: nat): (r: seq<nat>) {
    seq(|hi|, c requires 0 <= c < |hi| => if hi[c] > p then hi[c] - 1 else hi[c])
  }

  lemma RemoveKeepsWindows(ids: seq<nat>, lo: seq<nat>, hi: seq<nat>, n: nat, p: nat)
    requires Windows(ids, lo, hi, n)
    requires p < |ids|
    ensures Windows(RemoveAt(ids, p), ShrinkLo(lo, p), ShrinkHi(hi, p), n)
    ensures lo[ids[p]] <= p < hi[ids[p]]
    ensures forall c :: 0 <= c < n && c != ids[p] ==> lo[c] > p || hi[c] <= p
  {
    var ids', lo', hi' := RemoveAt(ids, p), ShrinkLo(lo, p), ShrinkHi(hi, p);
    forall c, i | 0 <= c < n && 0 <= i < |ids'|
      ensures lo'[c] <= i < hi'[c] <==> ids'[i] == c
    {
      if i < p {
        assert ids'[i] == ids[i];
      } else {
        assert ids'[i] == ids[i + 1];
      }
      assert lo[c] <= p < hi[c] <==> ids[p] == c;
    }
  }
}

module HashTables {
  import opened BucketWindows
  import opened Options

  /** A key is a C string: bytes up to, and not including, the terminating NUL. */
  type CByte = x: int | 1 <= x < 256 witness 1
  type Key = seq<CByte>

  const SIZE_MAX_PLUS_1: int := 0x1_0000_0000_0000_0000

  /** char is signed where this is built, so (size_t)*str sign-extends. */
  function SignExtend(c: CByte): int {
    if c < 128 then c else c - 256 + SIZE_MAX_PLUS_1
  }

  function HashStep(hash: int, c: CByte): (r: int)
  {
    ((hash * 32) % SIZE_MAX_PLUS_1 + hash + SignExtend(c)) % SIZE_MAX_PLUS_1
  }

  function HashStr(key: Key): (r: int)
    ensures 0 <= r < SIZE_MAX_PLUS_1
  {
    if key == [] then 5381 else HashStep(HashStr(key[..|key| - 1]), key[|key| - 1])
  }

  method ComputeHash(key: Key) returns (hash: int)
    ensures hash == HashStr(key)
  {
    hash := 5381;
    var i := 0;
    while i < |key|
      invariant 0 <= i <= |key|
      invariant hash == HashStr(key[..i])
    {
      assert key[..i + 1][..i] == key[..i];
      hash := HashStep(hash, key[i]);
      i := i + 1;
    }
    assert key[..i] == key;
  }

  /** The polynomial in 33 whose last coefficients are the signed characters, over the integers. */
  function Polynomial(key: Key): int {
    if key == [] then 5381
    else
      var c := key[|key| - 1];
      33 * Polynomial(key[..|key| - 1]) + c as int - (if c <= 127 then 0 else 256)
  }

  /** The shifts and sums that wrap around give its value modulo the width of size_t. */
  lemma {:induction false} HashIsPolynomial(key: Key)
    ensures HashStr(key) == Polynomial(key) % 0x1_0000_0000_0000_0000
  {
    if key != [] {
      HashIsPolynomial(key[..|key| - 1]);
      StepWraps(Polynomial(key[..|key| - 1]), key[|key| - 1]);
    }
  }

  lemma StepWraps(p: int, c: CByte)
    ensures HashStep(p % SIZE_MAX_PLUS_1, c) == (33 * p + c as int - (if c <= 127 then 0 else 256)) % SIZE_MAX_PLUS_1
  {
    var q, h := p / SIZE_MAX_PLUS_1, p % SIZE_MAX_PLUS_1;
    assert p == q * SIZE_MAX_PLUS_1 + h;
  }

  const PRIMES: seq<nat> := [
    5, 13, 23, 53, 97, 193, 389, 769, 1543, 3079, 6151, 12289, 24593,
    49157, 98317, 196613, 393241, 786433, 1572869, 3145739, 6291469,
    12582917, 25165843, 50331653, 100663319, 201326611, 402653189,
    805306457, 1610612741
  ]

  lemma PrimesIncrease(i: nat)
    requires i < |PRIMES|
    ensures 5 == PRIMES[0] <= PRIMES[i] <= PRIMES[28] == 1610612741 && |PRIMES| == 29
    ensures i + 1 < |PRIMES| ==> PRIMES[i] < PRIMES[i + 1]
  {
  }

  lemma {:induction false} PrimesOrdered(i: nat, j: nat)
    requires i <= j < |PRIMES|
    ensures PRIMES[i] <= PRIMES[j] && (PRIMES[i] == PRIMES[j] ==> i == j)
  {
    if i < j {
      PrimesOrdered(i, j - 1);
      PrimesIncrease(j - 1);
    }
  }

  /** A json_t pointer: the table stores it and never looks behind it. */
  type Ref = nat

  /** A list_t embedded in a pair_t; the table's own list_t is a Node whose pair is unused. */
  class Node {
    const hash: int
    const serial: nat
    const key: Key
    var value: Ref
    var prev: Node
    var next: Node

    constructor Pair(hash: int, serial: nat, key: Key, value: Ref)
      ensures this.hash == hash && this.serial == serial && this.key == key && this.value == value
      ensures next == this && prev == this
    {
      this.hash, this.serial, this.key, this.value := hash, serial, key, value;
      next, prev := this, this;
    }

    constructor Sentinel()
      ensures next == this && prev == this
    {
      hash, serial, key, value := 0, 0, [], 0;
      next, prev := this, this;
    }
  }

  datatype Bucket = Bucket(first: Node, last: Node)

  datatype Entry = Entry(serial: nat, value: Ref)

  /** What follows element i of the list, and what precedes it: the head closes the circle. */
  ghost function After(head: Node, items: seq<Node>, i: nat): Node {
    if i + 1 < |items| then items[i + 1] else head
  }

  ghost function Before(head: Node, items: seq<Node>, i: nat): Node
    requires i <= |items|
  {
    if i > 0 then items[i - 1] else head
  }

  /** head and items, in this order, form one circular doubly linked list. */
  ghost predicate Linked(head: Node, items: seq<Node>)
    reads head, items
  {
    && head.next == (if |items| == 0 then head else items[0])
    && head.prev == Before(head, items, |items|)
    && (forall i :: 0 <= i < |items| ==> items[i].next == After(head, items, i))
    && (forall i :: 0 <= i < |items| ==> items[i].prev == Before(head, items, i))
  }

  /** index says at which list position each key is: keys, and so nodes, occur once. */
  ghost predicate Indexed(head: Node, items: seq<Node>, index: map<Key, nat>)
  {
    && (forall i :: 0 <= i < |items| ==> items[i] != head)
    && (forall i :: 0 <= i < |items| ==> items[i].hash == HashStr(items[i].key))
    && (forall i :: 0 <= i < |items| ==> items[i].key in index && index[items[i].key] == i)
    && (forall k :: k in index ==> index[k] < |items| && items[index[k]].key == k)
  }

  lemma IndexedAt(head: Node, items: seq<Node>, index: map<Key, nat>, i: nat)
    requires Indexed(head, items, index) && i < |items|
    ensures items[i] != head && items[i].hash == HashStr(items[i].key)
    ensures items[i].key in index && index[items[i].key] == i
  {
  }

  lemma LinkedAt(head: Node, items: seq<Node>, i: nat)
    requires Linked(head, items) && i < |items|
    ensures items[i].next == After(head, items, i) && items[i].prev == Before(head, items, i)
  {
  }

  ghost function IndexInsert(index: map<Key, nat>, p: nat, key: Key): (r: map<Key, nat>) {
    map k | k in index.Keys + {key} :: if k == key then p else if index[k] >= p then index[k] + 1 else index[k]
  }

  lemma InsertKeepsIndex(head: Node, items: seq<Node>, index: map<Key, nat>, p: nat, node: Node)
    requires Indexed(head, items, index) && p <= |items|
    requires node != head && node.key !in index && node.hash == HashStr(node.key)
    ensures Indexed(head, InsertAt(items, p, node), IndexInsert(index, p, node.key))
  {
    hide HashStr;
    var items', index' := InsertAt(items, p, node), IndexInsert(index, p, node.key);
    forall i | 0 <= i < |items'|
      ensures items'[i] != head && items'[i].hash == HashStr(items'[i].key)
      ensures items'[i].key in index' && index'[items'[i].key] == i
    {
      if i < p {
        assert items'[i] == items[i];
      } else if i > p {
        assert items'[i] == items[i - 1];
      }
    }
  }

  ghost function IndexRemove(index: map<Key, nat>, p: nat, key: Key): (r: map<Key, nat>) {
    map k | k in index.Keys - {key} :: if index[k] > p then index[k] - 1 else index[k]
  }

  lemma RemoveKeepsIndex(head: Node, items: seq<Node>, index: map<Key, nat>, p: nat)
    requires Indexed(head, items, index) && p < |items|
    ensures Indexed(head, RemoveAt(items, p), IndexRemove(index, p, items[p].key))
  {
    var items', index' := RemoveAt(items, p), IndexRemove(index, p, items[p].key);
    forall i | 0 <= i < |items'|
      ensures items'[i] != head && items'[i].hash == HashStr(items'[i].key)
      ensures items'[i].key in index' && index'[items'[i].key] == i
    {
      if i < p {
        assert items'[i] == items[i];
      } else {
        assert items'[i] == items[i + 1];
      }
    }
    forall k | k in index'
      ensures index'[k] < |items'| && items'[index'[k]].key == k
    {
      assert items[index[k]].key == k;
    }
  }

  ghost function Ids(items: seq<Node>, n: nat): (ids: seq<nat>)
    requires n > 0
    ensures |ids| == |items|
    ensures forall i :: 0 <= i < |items| ==> ids[i] == items[i].hash % n
  {
    seq(|items|, i requires 0 <= i < |items| => items[i].hash % n)
  }

  /** Every bucket's first/last are the ends of its window, or the list itself when it is empty. */
  ghost predicate Pointers(bs: seq<Bucket>, head: Node, items: seq<Node>, lo: seq<nat>, hi: seq<nat>)
  {
    && |bs| == |lo| == |hi|
    && (forall b :: 0 <= b < |bs| ==> lo[b] <= hi[b] <= |items|)
    && (forall b :: 0 <= b < |bs| ==>
          bs[b] == if lo[b] == hi[b] then Bucket(head, head) else Bucket(items[lo[b]], items[hi[b] - 1]))
  }

  /** A key that is present lies in the window of the bucket its hash selects. */
  lemma KeyInWindow(head: Node, items: seq<Node>, index: map<Key, nat>, lo: seq<nat>, hi: seq<nat>, n: nat, b: nat, key: Key)
    requires Indexed(head, items, index) && n > 0 && Windows(Ids(items, n), lo, hi, n)
    requires b == HashStr(key) % n
    ensures b < |lo| == |hi| && (key in index ==> index[key] < |items| && items[index[key]].key == key && lo[b] <= index[key] < hi[b])
  {
    if key in index {
      assert Ids(items, n)[index[key]] == b;
    }
  }

  lemma PointersAt(bs: seq<Bucket>, head: Node, items: seq<Node>, lo: seq<nat>, hi: seq<nat>, b: nat)
    requires Pointers(bs, head, items, lo, hi) && b < |bs|
    ensures |bs| == |lo| == |hi| && lo[b] <= hi[b] <= |items|
    ensures bs[b] == if lo[b] == hi[b] then Bucket(head, head) else Bucket(items[lo[b]], items[hi[b] - 1])
  {
  }

  ghost function BucketInsert(bs: seq<Bucket>, lo: seq<nat>, hi: seq<nat>, b: nat, node: Node): (r: seq<Bucket>)
    requires b < |bs| == |lo| == |hi|
  {
    bs[b := if lo[b] == hi[b] then Bucket(node, node) else Bucket(node, bs[b].last)]
  }

  lemma InsertKeepsPointers(bs: seq<Bucket>, head: Node, items: seq<Node>, lo: seq<nat>, hi: seq<nat>,
                            b: nat, p: nat, node: Node)
    requires Pointers(bs, head, items, lo, hi)
    requires b < |bs| && p == (if lo[b] == hi[b] then |items| else lo[b])
    requires forall c :: 0 <= c < |bs| && c != b ==> lo[c] >= p || hi[c] <= p
    ensures Pointers(BucketInsert(bs, lo, hi, b, node), head, InsertAt(items, p, node),
                     GrowLo(lo, hi, b, p), GrowHi(lo, hi, b, p))
  {
  }

  ghost function BucketRemove(bs: seq<Bucket>, head: Node, items: seq<Node>, lo: seq<nat>, hi: seq<nat>, b: nat, p: nat): (r: seq<Bucket>)
    requires b < |bs| == |lo| == |hi| && lo[b] <= p < hi[b] <= |items|
  {
    bs[b := if lo[b] + 1 == hi[b] then Bucket(head, head)
            else if p == lo[b] then Bucket(items[p + 1], bs[b].last)
            else if p == hi[b] - 1 then Bucket(bs[b].first, items[p - 1])
            else bs[b]]
  }

  lemma RemoveKeepsPointers(bs: seq<Bucket>, head: Node, items: seq<Node>, lo: seq<nat>, hi: seq<nat>, b: nat, p: nat)
    requires Pointers(bs, head, items, lo, hi)
    requires b < |bs| && lo[b] <= p < hi[b]
    requires forall c :: 0 <= c < |bs| && c != b ==> lo[c] > p || hi[c] <= p
    ensures Pointers(BucketRemove(bs, head, items, lo, hi, b, p), head, RemoveAt(items, p), ShrinkLo(lo, p), ShrinkHi(hi, p))
  {
  }

  /** list_insert: links node in front of at, which is element p of the list or its head. */
  method ListInsert(at: Node, node: Node, ghost head: Node, ghost items: seq<Node>, ghost p: nat)
    requires Linked(head, items)
    requires p <= |items| && at == (if p < |items| then items[p] else head)
    requires forall i :: 0 <= i < |items| ==> items[i] != node && items[i] != head
    requires forall i :: 0 <= i < |items| ==> (i != p ==> items[i] != at) && (i + 1 != p ==> items[i] != Before(head, items, p))
    requires node != head
    modifies node`next, node`prev, head`next, head`prev, items`next, items`prev
    ensures Linked(head, InsertAt(items, p, node))
  {
    assert at.prev == Before(head, items, p);
    node.next := at;
    node.prev := at.prev;
    at.prev.next := node;
    at.prev := node;
    ghost var all := InsertAt(items, p, node);
    forall i | 0 <= i < |all|
      ensures all[i].next == After(head, all, i)
      ensures all[i].prev == Before(head, all, i)
    {
      if i < p {
        assert old(items[i].next) == After(head, items, i);
        assert old(items[i].prev) == Before(head, items, i);
      } else if i > p {
        assert old(items[i - 1].next) == After(head, items, i - 1);
        assert old(items[i - 1].prev) == Before(head, items, i - 1);
      }
    }
  }

  /** list_remove: unlinks element p; its own links stay as they were. */
  method ListRemove(node: Node, ghost head: Node, ghost items: seq<Node>, ghost p: nat)
    requires Linked(head, items)
    requires p < |items| && node == items[p]
    requires forall i :: 0 <= i < |items| ==> items[i] != head
    requires forall i :: 0 <= i < |items| ==>
               (i != p ==> items[i] != node) && (i + 1 != p ==> items[i] != Before(head, items, p))
               && (i != p + 1 ==> items[i] != After(head, items, p))
    modifies head`next, head`prev, items`next, items`prev
    ensures Linked(head, RemoveAt(items, p))
  {
    assert items[p].prev == Before(head, items, p);
    assert items[p].next == After(head, items, p);
    node.prev.next := node.next;
    node.next.prev := node.prev;
    ghost var rest := RemoveAt(items, p);
    forall i | 0 <= i < |rest|
      ensures rest[i].next == After(head, rest, i)
      ensures rest[i].prev == Before(head, rest, i)
    {
      var k := if i < p then i else i + 1;
      assert old(items[k].next) == After(head, items, k);
      assert old(items[k].prev) == Before(head, items, k);
    }
  }

  /** A list element is found at one position only, so its neighbours' links are its alone. */
  lemma UniqueAround(head: Node, items: seq<Node>, index: map<Key, nat>, p: nat, node: Node)
    requires Indexed(head, items, index) && p <= |items|
    requires node.key !in index
    ensures forall i :: 0 <= i < |items| ==> items[i] != node && items[i] != head
    ensures forall i :: 0 <= i < |items| ==> i + 1 != p ==> items[i] != Before(head, items, p)
    ensures p < |items| ==> forall i :: 0 <= i < |items| && i != p ==> items[i] != items[p]
  {
    if p > 0 {
      assert index[items[p - 1].key] == p - 1;
    }
    if p < |items| {
      assert index[items[p].key] == p;
    }
  }

  lemma NeighboursUnique(head: Node, items: seq<Node>, index: map<Key, nat>, p: nat)
    requires Indexed(head, items, index) && p < |items|
    ensures forall i :: 0 <= i < |items| ==> items[i] != head
    ensures forall i :: 0 <= i < |items| ==>
              (i != p ==> items[i] != items[p]) && (i + 1 != p ==> items[i] != Before(head, items, p))
              && (i != p + 1 ==> items[i] != After(head, items, p))
  {
    assert index[items[p].key] == p;
    if p > 0 {
      assert index[items[p - 1].key] == p - 1;
    }
    if p + 1 < |items| {
      assert index[items[p + 1].key] == p + 1;
    }
  }

  lemma StructureRemove(bs: seq<Bucket>, head: Node, items: seq<Node>, index: map<Key, nat>,
                        lo: seq<nat>, hi: seq<nat>, b: nat, p: nat)
    requires Indexed(head, items, index) && Pointers(bs, head, items, lo, hi)
    requires |bs| > 0 && Windows(Ids(items, |bs|), lo, hi, |bs|)
    requires p < |items| && b < |bs| == |lo| == |hi| && b == items[p].hash % |bs| && lo[b] <= p < hi[b] <= |items|
    ensures Indexed(head, RemoveAt(items, p), IndexRemove(index, p, items[p].key))
    ensures Windows(Ids(RemoveAt(items, p), |bs|), ShrinkLo(lo, p), ShrinkHi(hi, p), |bs|)
    ensures Pointers(BucketRemove(bs, head, items, lo, hi, b, p), head, RemoveAt(items, p), ShrinkLo(lo, p), ShrinkHi(hi, p))
  {
    hide Indexed, Windows, Pointers, ShrinkLo, ShrinkHi;
    assert Ids(RemoveAt(items, p), |bs|) == RemoveAt(Ids(items, |bs|), p);
    RemoveKeepsWindows(Ids(items, |bs|), lo, hi, |bs|, p);
    RemoveKeepsPointers(bs, head, items, lo, hi, b, p);
    RemoveKeepsIndex(head, items, index, p);
  }

  /** After a removal every other key still names the same node. */
  lemma RemoveKeepsNodes(head: Node, items: seq<Node>, index: map<Key, nat>, p: nat)
    requires Indexed(head, items, index) && p < |items|
    ensures (forall k :: k in index ==> index[k] < |items|)
    ensures var index', items' := IndexRemove(index, p, items[p].key), RemoveAt(items, p);
            index'.Keys == index.Keys - {items[p].key} &&
            forall k :: k in index' ==> index'[k] < |items'| && items'[index'[k]] == items[index[k]]
  {
    forall k | k in index && k != items[p].key
      ensures index[k] != p
    {
      assert items[index[k]].key == k;
    }
  }

  /** After an insertion every old key still names the same node. */
  lemma InsertKeepsNodes(head: Node, items: seq<Node>, index: map<Key, nat>, p: nat, node: Node)
    requires Indexed(head, items, index) && p <= |items| && node.key !in index
    ensures (forall k :: k in index ==> index[k] < |items|)
    ensures var index', items' := IndexInsert(index, p, node.key), InsertAt(items, p, node);
            index'.Keys == index.Keys + {node.key} && index'[node.key] == p && items'[p] == node &&
            forall k :: k in index ==> index'[k] < |items'| && items'[index'[k]] == items[index[k]]
  {
  }

  /** Part-way through a rehash: exactly the first k nodes of the old list are in the new one. */
  ghost predicate Relinked(items: seq<Node>, index: map<Key, nat>, all: seq<Node>, where: map<Key, nat>, k: nat)
  {
    && |items| == k
    && (forall key :: key in index <==> key in where && where[key] < k)
    && (forall key :: key in index && where[key] < |all| ==> index[key] < k && items[index[key]] == all[where[key]])
  }

  /** The part of the old list that is still to be walked; only its next links are still in order. */
  ghost predicate Chain(head: Node, all: seq<Node>, k: nat)
    reads all
  {
    forall i :: k <= i < |all| ==> all[i].next == After(head, all, i)
  }

  lemma RelinkedApart(head: Node, items: seq<Node>, index: map<Key, nat>, all: seq<Node>, where: map<Key, nat>, k: nat)
    requires Indexed(head, items, index) && Indexed(head, all, where)
    requires Relinked(items, index, all, where, k) && k < |all|
    ensures forall j :: 0 <= j < |items| ==> items[j] in all[..k]
    ensures forall i :: k < i < |all| ==> all[i] !in items && all[i] != all[k] && all[i] != head
    ensures all[k].key !in index
  {
    forall j | 0 <= j < |items|
      ensures items[j] in all[..k]
    {
      var key := items[j].key;
      assert items[index[key]] == all[where[key]];
      assert all[..k][where[key]] == items[j];
    }
    forall i | k < i < |all|
      ensures all[i] !in items && all[i] != all[k] && all[i] != head
    {
      assert where[all[i].key] == i && where[all[k].key] == k;
    }
  }

  lemma RelinkedStep(head: Node, items: seq<Node>, index: map<Key, nat>, all: seq<Node>, where: map<Key, nat>, k: nat, p: nat)
    requires Indexed(head, items, index) && Indexed(head, all, where)
    requires Relinked(items, index, all, where, k) && k < |all| && p <= |items|
    ensures Relinked(InsertAt(items, p, all[k]), IndexInsert(index, p, all[k].key), all, where, k + 1)
  {
    var node := all[k];
    assert where[node.key] == k;
    InsertKeepsNodes(head, items, index, p, node);
    var items', index' := InsertAt(items, p, node), IndexInsert(index, p, node.key);
    forall key
      ensures key in index' <==> key in where && where[key] < k + 1
    {
      if key in where && where[key] == k {
        assert all[k].key == key;
      }
    }
  }

  lemma NotHead(head: Node, all: seq<Node>, where: map<Key, nat>)
    requires Indexed(head, all, where)
    ensures forall i :: 0 <= i < |all| ==> all[i] != head
  {
  }

  lemma RehashStarts(head: Node, all: seq<Node>, where: map<Key, nat>, cur: Node)
    requires Linked(head, all) && Indexed(head, all, where) && cur == head.next
    ensures cur == if 0 < |all| then all[0] else head
    ensures forall i :: 0 <= i < |all| ==> all[i] != head
    ensures Chain(head, all, 0) && Relinked([], map[], all, where, 0)
  {
  }

  lemma EmptyStructure(bs: seq<Bucket>, head: Node, lo: seq<nat>, hi: seq<nat>)
    requires |bs| > 0 && |lo| == |hi| == |bs|
    requires forall b :: 0 <= b < |bs| ==> bs[b] == Bucket(head, head) && lo[b] == hi[b] == 0
    requires head.next == head && head.prev == head
    ensures Linked(head, []) && Indexed(head, [], map[])
    ensures Windows(Ids([], |bs|), lo, hi, |bs|) && Pointers(bs, head, [], lo, hi)
  {
  }

  lemma RehashEnds(head: Node, items: seq<Node>, index: map<Key, nat>, all: seq<Node>, where: map<Key, nat>)
    requires Relinked(items, index, all, where, |all|) && Indexed(head, all, where)
    ensures |items| == |all| && index.Keys == where.Keys
    ensures forall key :: key in where ==> where[key] < |all| && index[key] < |items| && items[index[key]] == all[where[key]]
  {
  }

  lemma KeysAt(head: Node, items: seq<Node>, index: map<Key, nat>)
    requires Indexed(head, items, index)
    ensures forall k :: k in index ==> index[k] < |items| && items[index[k]].key == k
  {
  }

  /** list_init on a list head, seen by those who still have to walk the old list. */
  method ListInit(head: Node, ghost all: seq<Node>)
    requires Chain(head, all, 0) && forall i :: 0 <= i < |all| ==> all[i] != head
    modifies head`next, head`prev
    ensures head.next == head && head.prev == head && Chain(head, all, 0)
  {
    head.next := head;
    head.prev := head;
  }

  method SetValue(pair: Node, value: Ref, ghost head: Node, ghost items: seq<Node>)
    requires Linked(head, items)
    modifies pair`value
    ensures Linked(head, items) && pair.value == value
  {
    pair.value := value;
  }

  lemma InsertMembers(items: seq<Node>, p: nat, node: Node)
    requires p <= |items|
    ensures forall n :: n in InsertAt(items, p, node) ==> n in items || n == node
  {
  }

  /** The value-level half of an insertion: order, index, windows and bucket pointers move together. */
  lemma StructureInsert(bs: seq<Bucket>, head: Node, items: seq<Node>, index: map<Key, nat>,
                        lo: seq<nat>, hi: seq<nat>, b: nat, p: nat, node: Node)
    requires Indexed(head, items, index) && Pointers(bs, head, items, lo, hi)
    requires |bs| > 0 && Windows(Ids(items, |bs|), lo, hi, |bs|)
    requires node != head && node.key !in index && node.hash == HashStr(node.key)
    requires b < |bs| && b == node.hash % |bs| && p == (if lo[b] == hi[b] then |items| else lo[b]) <= |items|
    ensures Indexed(head, InsertAt(items, p, node), IndexInsert(index, p, node.key))
    ensures Windows(Ids(InsertAt(items, p, node), |bs|), GrowLo(lo, hi, b, p), GrowHi(lo, hi, b, p), |bs|)
    ensures Pointers(BucketInsert(bs, lo, hi, b, node), head, InsertAt(items, p, node), GrowLo(lo, hi, b, p), GrowHi(lo, hi, b, p))
  {
    hide Indexed, Windows, Pointers, GrowLo, GrowHi;
    assert Ids(InsertAt(items, p, node), |bs|) == InsertAt(Ids(items, |bs|), p, b);
    InsertKeepsWindows(Ids(items, |bs|), lo, hi, |bs|, b, p);
    InsertKeepsPointers(bs, head, items, lo, hi, b, p, node);
    InsertKeepsIndex(head, items, index, p, node);
  }

  // The order of the list.

  ghost function KeysOf(items: seq<Node>): (keys: seq<Key>)
    ensures |keys| == |items|
  {
    seq(|items|, i requires 0 <= i < |items| => items[i].key)
  }

  /** The first place with a key of bucket b of n, or the end. */
  ghost function FirstIn(keys: seq<Key>, n: nat, b: nat): (i: nat)
    requires n > 0
    ensures i <= |keys|
  {
    if keys == [] || HashStr(keys[0]) % n == b then 0 else 1 + FirstIn(keys[1..], n, b)
  }

  /** A new key goes in front of its bucket, or to the end if the bucket is empty. */
  ghost function Placed(keys: seq<Key>, key: Key, n: nat): (r: seq<Key>)
    requires n > 0
    ensures |r| == |keys| + 1
  {
    InsertAt(keys, FirstIn(keys, n, HashStr(key) % n), key)
  }

  /** The keys placed one after the other. */
  ghost function Replaced(keys: seq<Key>, n: nat): (r: seq<Key>)
    requires n > 0
    ensures |r| == |keys|
  {
    if keys == [] then [] else Placed(Replaced(keys[..|keys| - 1], n), keys[|keys| - 1], n)
  }

  datatype TableShape = TableShape(order: seq<Key>, grown: nat)

  /** A full table first moves to the next prime. */
  ghost function Enlarged(s: TableShape): TableShape {
    if s.grown < |PRIMES| - 1 && |s.order| >= PRIMES[s.grown] then TableShape(Replaced(s.order, PRIMES[s.grown + 1]), s.grown + 1) else s
  }

  ghost function AfterSet(s: TableShape, key: Key): TableShape {
    var t := Enlarged(s);
    if key in t.order || t.grown >= |PRIMES| then t else TableShape(Placed(t.order, key, PRIMES[t.grown]), t.grown)
  }

  ghost function Without(keys: seq<Key>, key: Key): seq<Key> {
    if keys == [] then [] else if keys[0] == key then keys[1..] else [keys[0]] + Without(keys[1..], key)
  }

  lemma {:induction false} WithoutAt(keys: seq<Key>, key: Key, p: nat)
    requires p <= |keys| && (p < |keys| ==> keys[p] == key) && forall i :: 0 <= i < p ==> keys[i] != key
    ensures Without(keys, key) == if p < |keys| then RemoveAt(keys, p) else keys
  {
    if p > 0 {
      var rest := keys[1..];
      WithoutAt(rest, key, p - 1);
      assert keys == [keys[0]] + rest;
      if p < |keys| { RemovedBehind(keys, p); }
    }
  }

  lemma RemovedBehind(keys: seq<Key>, p: nat)
    requires 0 < p < |keys|
    ensures RemoveAt(keys, p) == [keys[0]] + RemoveAt(keys[1..], p - 1)
  {
  }

  lemma KeyTaken(head: Node, items: seq<Node>, index: map<Key, nat>, key: Key)
    requires Indexed(head, items, index)
    ensures key in index ==> index[key] < |items| && KeysOf(RemoveAt(items, index[key])) == Without(KeysOf(items), key)
    ensures key !in index ==> KeysOf(items) == Without(KeysOf(items), key)
  {
    hide HashStr;
    WithoutAt(KeysOf(items), key, if key in index then index[key] else |items|);
    if key in index { KeysRemoved(items, index[key]); }
  }

  lemma {:induction false} FirstInWindow(keys: seq<Key>, n: nat, b: nat, i: nat)
    requires n > 0 && i <= |keys|
    requires forall j :: 0 <= j < i ==> HashStr(keys[j]) % n != b
    requires i < |keys| ==> HashStr(keys[i]) % n == b
    ensures FirstIn(keys, n, b) == i
  {
    hide HashStr;
    if i > 0 { FirstInWindow(keys[1..], n, b, i - 1); }
  }

  /** Where a bucket's window starts is where its first key is. */
  lemma PointIsFirst(head: Node, items: seq<Node>, index: map<Key, nat>, lo: seq<nat>, hi: seq<nat>, n: nat, b: nat)
    requires Indexed(head, items, index) && n > 0 && Windows(Ids(items, n), lo, hi, n) && b < n
    ensures FirstIn(KeysOf(items), n, b) == if lo[b] == hi[b] then |items| else lo[b]
  {
    hide HashStr;
    var i := if lo[b] == hi[b] then |items| else lo[b];
    forall j | 0 <= j < |items| ensures HashStr(KeysOf(items)[j]) % n == b <==> lo[b] <= j < hi[b] {
      assert Ids(items, n)[j] == items[j].hash % n;
    }
    FirstInWindow(KeysOf(items), n, b, i);
  }

  lemma ReplacedStep(all: seq<Node>, k: nat, n: nat)
    requires k < |all| && n > 0
    ensures Replaced(KeysOf(all)[..k + 1], n) == Placed(Replaced(KeysOf(all)[..k], n), all[k].key, n)
  {
    hide Placed;
    assert KeysOf(all)[..k + 1][..k] == KeysOf(all)[..k];
  }

  lemma NothingRelinked(items: seq<Node>, index: map<Key, nat>, all: seq<Node>, where: map<Key, nat>, n: nat)
    requires Relinked(items, index, all, where, 0) && n > 0
    ensures KeysOf(items) == Replaced(KeysOf(all)[..0], n)
  {
  }

  lemma KeysInserted(items: seq<Node>, p: nat, node: Node)
    requires p <= |items|
    ensures KeysOf(InsertAt(items, p, node)) == InsertAt(KeysOf(items), p, node.key)
  {
  }

  lemma KeysRemoved(items: seq<Node>, p: nat)
    requires p < |items|
    ensures KeysOf(RemoveAt(items, p)) == RemoveAt(KeysOf(items), p)
  {
  }

  /** What hashtable_set does to the map: a key that is present keeps its serial. */
  ghost function Put(m: map<Key, Entry>, key: Key, serial: nat, value: Ref): map<Key, Entry> {
    m[key := Entry(if key in m then m[key].serial else serial, value)]
  }

  class HashTable {
    var size: nat
    var buckets: array<Bucket>
    var numBuckets: nat  // index into PRIMES
    const list: Node

    ghost var Items: seq<Node>
    ghost var index: map<Key, nat>
    ghost var lo: seq<nat>
    ghost var hi: seq<nat>

    /** The list, the buckets and the ghost view of them agree. */
    ghost predicate Structure()
      reads this, buckets, list, Items
    {
      && buckets.Length > 0
      && Linked(list, Items)
      && Indexed(list, Items, index)
      && Windows(Ids(Items, buckets.Length), lo, hi, buckets.Length)
      && Pointers(buckets[..], list, Items, lo, hi)
    }

    ghost predicate Valid()
      reads this, buckets, list, Items
    {
      && Structure()
      && numBuckets < |PRIMES| && buckets.Length == PRIMES[numBuckets]
      && size == |Items| <= PRIMES[numBuckets]
    }

    /** The finite map the table stands for. */
    ghost function Contents(): (m: map<Key, Entry>)
      requires Valid()
      reads this, buckets, list, Items
    {
      map k | k in index :: Entry(Items[index[k]].serial, Items[index[k]].value)
    }

    /** The order in which the table is walked, and how far it has grown. */
    ghost function Shape(): TableShape
      reads this
    {
      TableShape(KeysOf(Items), numBuckets)
    }

    /** The map depends only on which node each key names and on that node's value. */
    twostate lemma SameContents()
      requires old(Valid()) && Valid()
      requires index.Keys == old(index.Keys)
      requires forall k :: k in old(index) ==> index[k] < |Items| && old(index[k]) < |old(Items)| && Items[index[k]] == old(Items[index[k]])
      requires forall n :: n in old(Items) ==> n.value == old(n.value)
      ensures Contents() == old(Contents())
    {
      hide Structure;
      forall k | k in index
        ensures Contents()[k] == old(Contents()[k])
      {
        assert Items[index[k]] in old(Items);
      }
    }

    /** hashtable_init; the loop that empties every bucket is the array's initialiser. */
    constructor ()
      ensures Valid() && Contents() == map[] && Items == [] && Shape() == TableShape([], 0)
      ensures fresh(list) && fresh(buckets)
    {
      var sentinel := new Node.Sentinel();
      list := sentinel;
      buckets := new Bucket[PRIMES[0]](_ => Bucket(sentinel, sentinel));
      size, numBuckets := 0, 0;
      Items, index := [], map[];
      lo, hi := seq(PRIMES[0], _ => 0), seq(PRIMES[0], _ => 0);
    }

    ghost function InsertPoint(b: nat): nat
      requires b < |lo| == |hi|
      reads this
    {
      if lo[b] == hi[b] then |Items| else lo[b]
    }

    method BucketIsEmpty(b: nat) returns (empty: bool)
      requires Structure() && b < buckets.Length
      ensures empty <==> lo[b] == hi[b]
    {
      empty := buckets[b].first == list && buckets[b].first == buckets[b].last;
    }

    method SetBucket(b: nat, first: Node, last: Node)
      requires b < buckets.Length
      modifies buckets
      ensures buckets[..] == old(buckets[..])[b := Bucket(first, last)]
    {
      buckets[b] := Bucket(first, last);
    }

    /** The two branches of insert_to_bucket, on the links and the bucket only. */
    method LinkIntoBucket(b: nat, node: Node)
      requires Structure()
      requires node != list && node.key !in index && b < buckets.Length
      modifies buckets, node`next, node`prev, list`next, list`prev, Items`next, Items`prev
      ensures |lo| == |hi| == buckets.Length && InsertPoint(b) <= |Items|
      ensures Linked(list, InsertAt(Items, InsertPoint(b), node))
      ensures buckets[..] == BucketInsert(old(buckets[..]), lo, hi, b, node)
    {
      hide Linked, Indexed, Windows, Pointers;
      PointersAt(buckets[..], list, Items, lo, hi, b);
      UniqueAround(list, Items, index, InsertPoint(b), node);
      var empty := BucketIsEmpty(b);
      if empty {
        ListInsert(list, node, list, Items, |Items|);
        SetBucket(b, node, node);
      } else {
        ListInsert(buckets[b].first, node, list, Items, lo[b]);
        SetBucket(b, node, buckets[b].last);
      }
    }

    method InsertToBucket(b: nat, node: Node)
      requires Structure()
      requires node != list && node.key !in index && node.hash == HashStr(node.key)
      requires b < buckets.Length && b == node.hash % buckets.Length
      modifies this`Items, this`index, this`lo, this`hi, buckets
      modifies node`next, node`prev, list`next, list`prev, Items`next, Items`prev
      ensures Structure()
      ensures Items == InsertAt(old(Items), old(InsertPoint(b)), node)
      ensures index == IndexInsert(old(index), old(InsertPoint(b)), node.key)
      ensures KeysOf(Items) == Placed(old(KeysOf(Items)), node.key, buckets.Length)
    {
      hide Linked, Indexed, Windows, Pointers, Ids, InsertAt, GrowLo, GrowHi, IndexInsert, BucketInsert, KeysOf, HashStr;
      ghost var bs := buckets[..];
      LinkIntoBucket(b, node);
      ghost var p := InsertPoint(b);
      PointIsFirst(list, Items, index, lo, hi, buckets.Length, b);
      KeysInserted(Items, p, node);
      StructureInsert(bs, list, Items, index, lo, hi, b, p, node);
      Items := InsertAt(Items, p, node);
      index := IndexInsert(index, p, node.key);
      lo, hi := GrowLo(lo, hi, b, p), GrowHi(lo, hi, b, p);
    }

    /** hashtable_find_pair: walks the bucket's window from first to last. */
    method FindPair(b: nat, key: Key, hash: int) returns (pair: Node?, ghost p: nat)
      requires Structure()
      requires hash == HashStr(key) && b < buckets.Length && b == hash % buckets.Length
      ensures pair == null <==> key !in index
      ensures pair != null ==> p < |Items| && pair == Items[p] && p == index[key] && pair.key == key && pair.hash == hash
    {
      hide Linked, Indexed, Windows, Pointers, Ids;
      PointersAt(buckets[..], list, Items, lo, hi, b);
      KeyInWindow(list, Items, index, lo, hi, buckets.Length, b, key);
      p := 0;
      var empty := BucketIsEmpty(b);
      if empty {
        return null, 0;
      }
      p := lo[b];
      var cur := buckets[b].first;
      while true
        invariant lo[b] <= p < hi[b] <= |Items| && cur == Items[p]
        invariant key in index ==> p <= index[key]
        decreases hi[b] - p
      {
        IndexedAt(list, Items, index, p);
        if cur.hash == hash && cur.key == key {
          return cur, p;
        }
        if cur == buckets[b].last {
          IndexedAt(list, Items, index, hi[b] - 1);
          break;
        }
        LinkedAt(list, Items, p);
        cur := cur.next;
        p := p + 1;
      }
      return null, 0;
    }

    /** The bucket and link updates of hashtable_do_del, before the pair is freed. */
    method UnlinkFromBucket(b: nat, pair: Node, ghost p: nat)
      requires Structure()
      requires p < |Items| && pair == Items[p] && b < buckets.Length && b == pair.hash % buckets.Length
      modifies buckets, list`next, list`prev, Items`next, Items`prev
      ensures |lo| == |hi| == buckets.Length && lo[b] <= p < hi[b] <= |Items|
      ensures Linked(list, RemoveAt(Items, p))
      ensures buckets[..] == BucketRemove(old(buckets[..]), list, Items, lo, hi, b, p)
    {
      hide Linked, Indexed, Windows, Pointers, Ids;
      PointersAt(buckets[..], list, Items, lo, hi, b);
      IndexedAt(list, Items, index, p);
      KeyInWindow(list, Items, index, lo, hi, buckets.Length, b, pair.key);
      IndexedAt(list, Items, index, lo[b]);
      IndexedAt(list, Items, index, hi[b] - 1);
      LinkedAt(list, Items, p);
      if pair == buckets[b].first && pair == buckets[b].last {
        SetBucket(b, list, list);
      } else if pair == buckets[b].first {
        SetBucket(b, pair.next, buckets[b].last);
      } else if pair == buckets[b].last {
        SetBucket(b, buckets[b].first, pair.prev);
      }
      NeighboursUnique(list, Items, index, p);
      ListRemove(pair, list, Items, p);
    }

    /** hashtable_do_del */
    method DoDel(key: Key, hash: int) returns (rc: int)
      requires Valid() && hash == HashStr(key)
      modifies this`size, this`Items, this`index, this`lo, this`hi, buckets, list`next, list`prev, Items`next, Items`prev
      ensures Valid()
      ensures rc == (if key in old(Contents()) then 0 else -1)
      ensures Contents() == old(Contents()) - {key}
      ensures Items == if key in old(index) then RemoveAt(old(Items), old(index[key])) else old(Items)
    {
      hide Linked, Indexed, Windows, Pointers, PRIMES;
      var b := hash % buckets.Length;
      var pair, p := FindPair(b, key, hash);
      if pair == null {
        return -1;
      }
      RemovePair(b, pair, p);
      Removed(key);
      return 0;
    }

    /** The part of hashtable_do_del after the pair has been found. */
    method RemovePair(b: nat, pair: Node, ghost p: nat)
      requires Valid()
      requires p < |Items| && pair == Items[p] && b < buckets.Length && b == pair.hash % buckets.Length
      modifies this`size, this`Items, this`index, this`lo, this`hi, buckets, list`next, list`prev, Items`next, Items`prev
      ensures Valid()
      ensures Items == RemoveAt(old(Items), p) && index.Keys == old(index.Keys) - {pair.key}
      ensures forall k :: k in old(index) ==> old(index[k]) < |old(Items)|
      ensures forall k :: k in index ==> index[k] < |Items| && Items[index[k]] == old(Items[index[k]])
    {
      hide Linked, Indexed, Windows, Pointers, Ids, IndexRemove, ShrinkLo, ShrinkHi, BucketRemove, PRIMES, HashStr;
      ghost var bs := buckets[..];
      UnlinkFromBucket(b, pair, p);
      StructureRemove(bs, list, Items, index, lo, hi, b, p);
      RemoveKeepsNodes(list, Items, index, p);
      Items, index := RemoveAt(Items, p), IndexRemove(index, p, pair.key);
      lo, hi := ShrinkLo(lo, p), ShrinkHi(hi, p);
      size := size - 1;
    }

    twostate lemma Removed(key: Key)
      requires old(Valid()) && Valid()
      requires forall k :: k in old(index) ==> old(index[k]) < |old(Items)|
      requires index.Keys == old(index.Keys) - {key}
      requires forall k :: k in index ==> index[k] < |Items| && Items[index[k]] == old(Items[index[k]])
      requires forall n :: n in old(Items) ==> n.value == old(n.value)
      ensures Contents() == old(Contents()) - {key}
    {
      hide Structure;
      forall k | k in index
        ensures Contents()[k] == old(Contents()[k])
      {
        assert old(Items[index[k]]) in old(Items);
      }
    }

    method Del(key: Key) returns (rc: int)
      requires Valid()
      modifies this`size, this`Items, this`index, this`lo, this`hi, buckets, list`next, list`prev, Items`next, Items`prev
      ensures Valid()
      ensures rc == (if key in old(Contents()) then 0 else -1)
      ensures Contents() == old(Contents()) - {key}
      ensures Items == if key in old(index) then RemoveAt(old(Items), old(index[key])) else old(Items)
      ensures Shape() == TableShape(Without(old(KeysOf(Items)), key), old(numBuckets))
    {
      hide Linked, Indexed, Windows, Pointers, HashStr, PRIMES, KeysOf, Contents;
      KeyTaken(list, Items, index, key);
      var hash := ComputeHash(key);
      rc := DoDel(key, hash);
    }

    /** The loop body of hashtable_do_rehash: moves element k of the old list to its new bucket. */
    method RelinkNext(cur: Node, ghost all: seq<Node>, ghost where: map<Key, nat>, ghost k: nat) returns (next: Node)
      requires Structure() && Indexed(list, all, where)
      requires Relinked(Items, index, all, where, k) && Chain(list, all, k)
      requires k < |all| && cur == all[k]
      modifies this`Items, this`index, this`lo, this`hi, buckets
      modifies all`next, all`prev, list`next, list`prev
      ensures Structure() && Relinked(Items, index, all, where, k + 1) && Chain(list, all, k + 1)
      ensures KeysOf(Items) == Placed(old(KeysOf(Items)), all[k].key, buckets.Length)
      ensures next == After(list, all, k)
    {
      hide Linked, Indexed, Windows, Pointers, Ids, InsertAt, IndexInsert, Relinked, KeysOf, Placed;
      RelinkedApart(list, Items, index, all, where, k);
      IndexedAt(list, all, where, k);
      next := cur.next;
      var b := cur.hash % buckets.Length;
      PointersAt(buckets[..], list, Items, lo, hi, b);
      ghost var p := InsertPoint(b);
      RelinkedStep(list, Items, index, all, where, k, p);
      InsertToBucket(b, cur);
    }

    /** The relinking loop of hashtable_do_rehash.  It stops at the sentinel, which already heads the
        new list, because only relinked nodes change: the rest of the old list still leads to it. */
    method RelinkAll(first: Node, ghost all: seq<Node>, ghost where: map<Key, nat>)
      requires Structure() && Indexed(list, all, where)
      requires Relinked(Items, index, all, where, 0) && Chain(list, all, 0)
      requires buckets.Length > 0 && first == if 0 < |all| then all[0] else list
      modifies this`Items, this`index, this`lo, this`hi, buckets
      modifies all`next, all`prev, list`next, list`prev
      ensures Structure() && Relinked(Items, index, all, where, |all|)
      ensures KeysOf(Items) == Replaced(KeysOf(all), buckets.Length)
    {
      hide Structure, Indexed, Relinked, Chain, KeysOf, Replaced, Placed;
      var cur := first;
      ghost var k := 0;
      NotHead(list, all, where);
      NothingRelinked(Items, index, all, where, buckets.Length);
      while cur != list
        invariant 0 <= k <= |all|
        invariant KeysOf(Items) == Replaced(KeysOf(all)[..k], buckets.Length)
        invariant cur == if k < |all| then all[k] else list
        invariant Structure() && Relinked(Items, index, all, where, k) && Chain(list, all, k)
        decreases |all| - k
      {
        ReplacedStep(all, k, buckets.Length);
        cur := RelinkNext(cur, all, where, k);
        k := k + 1;
      }
      assert KeysOf(all)[..k] == KeysOf(all);
    }

    /** hashtable_do_rehash: moves to the next prime and relinks the old list in place. */
    method DoRehash()
      requires Valid() && numBuckets + 1 < |PRIMES|
      modifies this`buckets, this`numBuckets, this`Items, this`index, this`lo, this`hi
      modifies list`next, list`prev, Items`next, Items`prev
      ensures Valid() && numBuckets == old(numBuckets) + 1 && fresh(buckets)
      ensures size == old(size) < buckets.Length
      ensures index.Keys == old(index.Keys)
      ensures forall k :: k in old(index) ==> Items[index[k]] == old(Items[index[k]])
      ensures Contents() == old(Contents())
      ensures KeysOf(Items) == Replaced(old(KeysOf(Items)), buckets.Length)
    {
      hide Structure, Indexed, Relinked, Chain, PRIMES, KeysOf, Replaced;
      ghost var all, where := Items, index;
      var first := MoreBuckets();
      RelinkAll(first, all, where);
      RehashEnds(list, Items, index, all, where);
      SameContents();
    }

    /** The new table of buckets, all empty, and the list head on its own; the old list is still to be walked. */
    method MoreBuckets() returns (first: Node)
      requires Valid() && numBuckets + 1 < |PRIMES|
      modifies this`buckets, this`numBuckets, this`Items, this`index, this`lo, this`hi
      modifies list`next, list`prev
      ensures numBuckets == old(numBuckets) + 1 && fresh(buckets) && buckets.Length == PRIMES[numBuckets] > PRIMES[old(numBuckets)]
      ensures Structure() && Items == [] && Indexed(list, old(Items), old(index))
      ensures Relinked(Items, index, old(Items), old(index), 0) && Chain(list, old(Items), 0)
      ensures first == if 0 < |old(Items)| then old(Items)[0] else list
    {
      hide Linked, Indexed, Windows, Pointers, Ids, Relinked, Chain, PRIMES;
      ghost var all, where := Items, index;
      PrimesIncrease(numBuckets);
      numBuckets := numBuckets + 1;
      var newSize := PRIMES[numBuckets];
      buckets := new Bucket[newSize](_ => Bucket(list, list));
      first := list.next;
      RehashStarts(list, all, where, first);
      ListInit(list, all);
      Items, index := [], map[];
      lo, hi := seq(newSize, _ => 0), seq(newSize, _ => 0);
      EmptyStructure(buckets[..], list, lo, hi);
    }

    /** The part of hashtable_set after the growth check. */
    method Store(key: Key, serial: nat, value: Ref, hash: int)
      requires Valid() && size < buckets.Length && hash == HashStr(key)
      modifies this`size, this`Items, this`index, this`lo, this`hi, buckets, list`next, list`prev, Items
      ensures Valid()
      ensures Contents() == Put(old(Contents()), key, serial, value)
      ensures forall k :: k in old(index) ==> k in index && Items[index[k]] == old(Items[index[k]])
      ensures forall n :: n in Items ==> n in old(Items) || fresh(n)
      ensures KeysOf(Items) == if key in old(index) then old(KeysOf(Items)) else Placed(old(KeysOf(Items)), key, buckets.Length)
    {
      hide Linked, Indexed, Windows, Pointers, Ids, HashStr, PRIMES, KeysOf, Placed;
      var b := hash % buckets.Length;
      var pair, p := FindPair(b, key, hash);
      if pair != null {
        ReplaceValue(pair, key, value);
      } else {
        AddPair(b, key, serial, value, hash);
      }
    }

    /** The else branch of hashtable_set. */
    method AddPair(b: nat, key: Key, serial: nat, value: Ref, hash: int)
      requires Valid() && size < buckets.Length && hash == HashStr(key)
      requires b == hash % buckets.Length && key !in index
      modifies this`size, this`Items, this`index, this`lo, this`hi, buckets, list`next, list`prev, Items`next, Items`prev
      ensures Valid()
      ensures Contents() == Put(old(Contents()), key, serial, value)
      ensures forall k :: k in old(index) ==> k in index && Items[index[k]] == old(Items[index[k]])
      ensures forall n :: n in Items ==> n in old(Items) || fresh(n)
      ensures KeysOf(Items) == Placed(old(KeysOf(Items)), key, buckets.Length)
    {
      hide Linked, Indexed, Windows, Pointers, Ids, InsertAt, IndexInsert, HashStr, PRIMES, KeysOf, Placed;
      var node := new Node.Pair(hash, serial, key, value);
      PointersAt(buckets[..], list, Items, lo, hi, b);
      ghost var p := InsertPoint(b);
      InsertKeepsNodes(list, Items, index, p, node);
      InsertMembers(Items, p, node);
      InsertToBucket(b, node);
      size := size + 1;
      Added(node);
    }

    /** Overwriting one node's value leaves the structure alone and changes one entry of the map. */
    method ReplaceValue(pair: Node, key: Key, value: Ref)
      requires Valid()
      requires key in index && index[key] < |Items| && pair == Items[index[key]]
      modifies pair`value
      ensures Valid()
      ensures Contents() == Put(old(Contents()), key, 0, value)
    {
      hide Linked, Indexed, Windows, Pointers, Ids;
      SetValue(pair, value, list, Items);
      KeysAt(list, Items, index);
      ReplacedContents(key);
    }

    twostate lemma ReplacedContents(key: Key)
      requires old(Valid()) && Valid()
      requires index == old(index) && Items == old(Items)
      requires forall k :: k in index ==> index[k] < |Items| && Items[index[k]].key == k
      requires key in index
      requires forall n :: n in old(Items) && n != Items[index[key]] ==> n.value == old(n.value)
      ensures Contents() == Put(old(Contents()), key, 0, Items[index[key]].value)
    {
      hide Structure;
      forall k | k in index && k != key
        ensures Contents()[k] == old(Contents()[k])
      {
        assert Items[index[k]] in old(Items);
      }
    }

    twostate lemma Added(new node: Node)
      requires old(Valid()) && Valid()
      requires forall k :: k in old(index) ==> old(index[k]) < |old(Items)|
      requires node.key !in old(index) && index.Keys == old(index.Keys) + {node.key}
      requires forall k :: k in index ==> index[k] < |Items|
      requires Items[index[node.key]] == node
      requires forall k :: k in old(index) ==> Items[index[k]] == old(Items[index[k]])
      requires forall n :: n in old(Items) ==> n.value == old(n.value)
      ensures Contents() == Put(old(Contents()), node.key, node.serial, node.value)
    {
      hide Structure;
      forall k | k in old(index)
        ensures Contents()[k] == old(Contents()[k])
      {
        assert old(Items[index[k]]) in old(Items);
      }
    }

    /** The growth check of hashtable_set. */
    method GrowIfFull()
      requires Valid()
      requires size >= PRIMES[numBuckets] ==> numBuckets + 1 < |PRIMES|
      modifies this`buckets, this`numBuckets, this`Items, this`index, this`lo, this`hi
      modifies list`next, list`prev, Items`next, Items`prev
      ensures Valid() && size == old(size) < buckets.Length && (buckets == old(buckets) || fresh(buckets))
      ensures index.Keys == old(index.Keys)
      ensures forall k :: k in old(index) ==> Items[index[k]] == old(Items[index[k]])
      ensures Contents() == old(Contents()) && Shape() == Enlarged(old(Shape()))
    {
      hide Structure, PRIMES, KeysOf, Replaced, HashStr;
      OrderKnown();
      if size >= buckets.Length {
        DoRehash();
      }
    }

    /** hashtable_set; -1 is left to allocation failure.  Past the last prime the C code reads beyond
        its table of primes, so a caller must stop there. */
    method Set(key: Key, serial: nat, value: Ref) returns (rc: int)
      requires Valid()
      requires size >= PRIMES[numBuckets] ==> numBuckets + 1 < |PRIMES|
      modifies this, buckets, list, Items
      ensures Valid() && rc == 0
      ensures Contents() == Put(old(Contents()), key, serial, value)
      ensures forall k :: k in old(index) ==> k in index && Items[index[k]] == old(Items[index[k]])
      ensures buckets == old(buckets) || fresh(buckets)
      ensures forall n :: n in Items ==> n in old(Items) || fresh(n)
      ensures Shape() == AfterSet(old(Shape()), key)
    {
      hide Structure, PRIMES, KeysOf, Placed, HashStr, Contents, Enlarged;
      GrowIfFull();
      OrderKnown();
      SameNodes();
      var hash := ComputeHash(key);
      Store(key, serial, value, hash);
      rc := 0;
    }

    lemma OrderKnown()
      requires Valid()
      ensures |KeysOf(Items)| == size && forall k :: k in KeysOf(Items) <==> k in index
    {
      hide Linked, Windows, Pointers, PRIMES, HashStr;
      forall k | k in index ensures k in KeysOf(Items) { assert KeysOf(Items)[index[k]] == k; }
    }

    twostate lemma SameNodes()
      requires old(Valid()) && Valid()
      requires index.Keys == old(index.Keys)
      requires forall k :: k in old(index) ==> Items[index[k]] == old(Items[index[k]])
      ensures forall i :: 0 <= i < |Items| ==> Items[i] in old(Items)
    {
      forall i | 0 <= i < |Items|
        ensures Items[i] in old(Items)
      {
        assert index[Items[i].key] == i;
      }
    }

    /** hashtable_get */
    method Get(key: Key) returns (value: Option<Ref>)
      requires Valid()
      ensures value == if key in Contents() then Some(Contents()[key].value) else None
    {
      hide Structure;
      var hash := ComputeHash(key);
      var pair, p := FindPair(hash % buckets.Length, key, hash);
      value := if pair == null then None else Some(pair.value);
    }

    lemma SizeIsCount()
      requires Valid()
      ensures size == |Contents()|
    {
      hide Linked, Indexed, Windows, Pointers;
      assert Contents().Keys == index.Keys;
      ItemCount(list, Items, index);
    }

    /** A pair can be set, growing first if the table is full, exactly while the map is smaller than the largest prime. */
    lemma GrowthFits()
      requires Valid()
      ensures (size >= PRIMES[numBuckets] ==> numBuckets + 1 < |PRIMES|) <==> |Contents()| < PRIMES[|PRIMES| - 1]
    {
      hide Structure, Contents;
      SizeIsCount();
      PrimesOrdered(numBuckets, |PRIMES| - 1);
    }

    /** hashtable_do_clear: the walk that releases every pair, reading next before the release. */
    method DoClear() returns (ghost freed: seq<Node>)
      requires Valid()
      ensures freed == Items
    {
      hide Linked, Indexed, Windows, Pointers;
      freed := [];
      NotHead(list, Items, index);
      FirstAt(list, Items);
      var cur := list.next;
      while cur != list
        invariant |freed| <= |Items| && freed == Items[..|freed|]
        invariant cur == if |freed| < |Items| then Items[|freed|] else list
        decreases |Items| - |freed|
      {
        LinkedAt(list, Items, |freed|);
        var next := cur.next;
        freed := freed + [cur];
        cur := next;
      }
    }

    /** hashtable_clear: the number of buckets stays. */
    method Clear()
      requires Valid()
      modifies this`size, this`Items, this`index, this`lo, this`hi, buckets, list`next, list`prev
      ensures Valid() && Contents() == map[] && Items == [] && numBuckets == old(numBuckets)
    {
      hide Linked, Indexed, Windows, Pointers, PRIMES;
      ghost var freed := DoClear();
      assert buckets.Length > 0;
      for i := 0 to buckets.Length
        invariant forall j :: 0 <= j < i ==> buckets[j] == Bucket(list, list)
      {
        buckets[i] := Bucket(list, list);
      }
      list.next, list.prev := list, list;
      size := 0;
      Items, index := [], map[];
      lo, hi := seq(buckets.Length, _ => 0), seq(buckets.Length, _ => 0);
      EmptyStructure(buckets[..], list, lo, hi);
    }

    /** hashtable_iter_next, also hashtable_iter when iter is the list itself. */
    method IterNext(iter: Node, ghost i: int) returns (next: Node?)
      requires Valid()
      requires -1 <= i < |Items| && iter == (if i == -1 then list else Items[i])
      ensures next == if i + 1 < |Items| then Items[i + 1] else null
    {
      hide Linked, Indexed, Windows, Pointers;
      NotHead(list, Items, index);
      FirstAt(list, Items);
      if i >= 0 {
        LinkedAt(list, Items, i);
      }
      if iter.next == list {
        return null;
      }
      next := iter.next;
    }

    /** A full iteration, as dump.c does it: every key of the map once, and nothing else. */
    method Keys() returns (keys: seq<Key>)
      requires Valid()
      ensures keys == Shape().order && |keys| == |Contents()|
      ensures forall k :: k in keys <==> k in Contents()
      ensures forall i, j :: 0 <= i < j < |keys| ==> keys[i] != keys[j]
    {
      hide Linked, Indexed, Windows, Pointers;
      keys := [];
      var iter := IterNext(list, -1);
      while iter != null
        invariant |keys| <= |Items| && (forall i :: 0 <= i < |keys| ==> keys[i] == Items[i].key)
        invariant iter == if |keys| < |Items| then Items[|keys|] else null
        decreases |Items| - |keys|
      {
        var i := |keys|;
        keys := keys + [iter.key];
        iter := IterNext(iter, i);
      }
      KeysOnce(list, Items, index, keys);
      assert Contents().Keys == index.Keys;
    }
  }

  lemma FirstAt(head: Node, items: seq<Node>)
    requires Linked(head, items)
    ensures head.next == if 0 < |items| then items[0] else head
  {
  }

  lemma KeysOnce(head: Node, items: seq<Node>, index: map<Key, nat>, keys: seq<Key>)
    requires Indexed(head, items, index)
    requires |keys| == |items| && forall i :: 0 <= i < |keys| ==> keys[i] == items[i].key
    ensures |keys| == |index.Keys|
    ensures forall k :: k in keys <==> k in index
    ensures forall i, j :: 0 <= i < j < |keys| ==> keys[i] != keys[j]
  {
    forall i, j | 0 <= i < j < |keys|
      ensures keys[i] != keys[j]
    {
      assert index[items[i].key] == i && index[items[j].key] == j;
    }
    forall k
      ensures k in keys <==> k in index
    {
      if k in index {
        assert keys[index[k]] == k;
      }
    }
    CountDistinct(keys, index.Keys);
  }

  lemma ItemCount(head: Node, items: seq<Node>, index: map<Key, nat>)
    requires Indexed(head, items, index)
    ensures |items| == |index.Keys|
  {
    hide Indexed;
    KeysAt(head, items, index);
    var keys := seq(|items|, i requires 0 <= i < |items| => items[i].key);
    KeysOnce(head, items, index, keys);
  }

  lemma CountDistinct(keys: seq<Key>, all: set<Key>)
    requires forall i, j :: 0 <= i < j < |keys| ==> keys[i] != keys[j]
    requires forall k :: k in keys <==> k in all
    ensures |keys| == |all|
  {
    if keys == [] {
      assert all == {};
    } else {
      var last := |keys| - 1;
      forall k
        ensures k in keys[..last] <==> k in all - {keys[last]}
      {
        if k in all - {keys[last]} {
          var i :| 0 <= i < |keys| && keys[i] == k;
          assert keys[..last][i] == k;
        }
      }
      CountDistinct(keys[..last], all - {keys[last]});
    }
  }

  // ---- whole runs -------------------------------------------------------------------------

  datatype Op = SetOp(key: Key, serial: nat, value: Ref) | DelOp(key: Key) | GetOp(key: Key) | ClearOp

  datatype Reply = Code(rc: int) | Found(value: Option<Ref>) | Done

  ghost function Next(m: map<Key, Entry>, op: Op): map<Key, Entry> {
    match op
    case SetOp(key, serial, value) => Put(m, key, serial, value)
    case DelOp(key) => m - {key}
    case GetOp(_) => m
    case ClearOp => map[]
  }

  ghost function ReplyTo(m: map<Key, Entry>, op: Op): Reply {
    match op
    case SetOp(_, _, _) => Code(0)
    case DelOp(key) => Code(if key in m then 0 else -1)
    case GetOp(key) => Found(if key in m then Some(m[key].value) else None)
    case ClearOp => Done
  }

  /** What an operation does to the order. */
  ghost function NextShape(s: TableShape, op: Op): TableShape {
    match op
    case SetOp(key, _, _) => AfterSet(s, key)
    case DelOp(key) => TableShape(Without(s.order, key), s.grown)
    case GetOp(_) => s
    case ClearOp => TableShape([], s.grown)
  }

  ghost function FinalShape(s: TableShape, ops: seq<Op>): TableShape {
    if ops == [] then s else NextShape(FinalShape(s, ops[..|ops| - 1]), ops[|ops| - 1])
  }

  /** The map after a run of operations. */
  ghost function Final(m: map<Key, Entry>, ops: seq<Op>): map<Key, Entry> {
    if ops == [] then m else Next(Final(m, ops[..|ops| - 1]), ops[|ops| - 1])
  }

  lemma FinalStart(m: map<Key, Entry>, s: TableShape, ops: seq<Op>)
    ensures Final(m, ops[..0]) == m && FinalShape(s, ops[..0]) == s
  {
  }

  lemma FinalNext(m: map<Key, Entry>, s: TableShape, ops: seq<Op>, n: nat)
    requires n < |ops|
    ensures Final(m, ops[..n + 1]) == Next(Final(m, ops[..n]), ops[n])
    ensures FinalShape(s, ops[..n + 1]) == NextShape(FinalShape(s, ops[..n]), ops[n])
  {
    hide Next, NextShape;
    assert ops[..n + 1][..n] == ops[..n];
  }

  // A table as large as the last prime.

  /** n calls of set, with the keys of lengths 0 to n - 1. */
  ghost function Fill(n: nat): (ops: seq<Op>)
    ensures |ops| == n
  {
    if n == 0 then [] else Fill(n - 1) + [SetOp(seq(n - 1, _ => 1), 0, 0)]
  }

  lemma {:induction false} FillPrefix(n: nat, i: nat)
    requires i <= n
    ensures Fill(n)[..i] == Fill(i)
  {
    if i < n {
      FillPrefix(n - 1, i);
      assert Fill(n)[..i] == Fill(n - 1)[..i];
    }
  }

  lemma {:induction false} FillCount(n: nat)
    ensures |Final(map[], Fill(n))| == n
    ensures forall k :: k in Final(map[], Fill(n)) ==> |k| < n
  {
    if n > 0 {
      FillCount(n - 1);
      var m, key: Key := Final(map[], Fill(n - 1)), seq(n - 1, _ => 1);
      assert Fill(n)[..n - 1] == Fill(n - 1);
      assert key !in m;
      OneMoreKey(m, key);
    }
  }

  lemma OneMoreKey(m: map<Key, Entry>, key: Key)
    requires key !in m
    ensures |Put(m, key, 0, 0)| == |m| + 1
  {
    assert Put(m, key, 0, 0).Keys == m.Keys + {key};
    assert |m.Keys + {key}| == |m.Keys| + 1;
    assert |Put(m, key, 0, 0).Keys| == |Put(m, key, 0, 0)| && |m.Keys| == |m|;
  }

  /** There is a run from the empty table in which every call of set fits, and after it, by GrowthFits, the next one does not. */
  lemma FullTableReached()
    ensures exists ops: seq<Op> ::
              && (forall i :: 0 <= i < |ops| && ops[i].SetOp? ==> |Final(map[], ops[..i])| < PRIMES[|PRIMES| - 1])
              && |Final(map[], ops)| == PRIMES[|PRIMES| - 1]
  {
    hide Final, Fill;
    var n := PRIMES[|PRIMES| - 1];
    var ops := Fill(n);
    FillCount(n);
    forall i | 0 <= i < |ops| && ops[i].SetOp? ensures |Final(map[], ops[..i])| < n {
      FillPrefix(n, i);
      FillCount(i);
    }
  }

  /** One call: the new map and the answer are what the map says; only nodes of the table change. */
  method Execute(t: HashTable, op: Op) returns (reply: Reply)
    requires t.Valid()
    requires op.SetOp? && t.size >= PRIMES[t.numBuckets] ==> t.numBuckets + 1 < |PRIMES|
    modifies t, t.buckets, t.list, t.Items
    ensures t.Valid()
    ensures t.Contents() == Next(old(t.Contents()), op)
    ensures t.Shape() == NextShape(old(t.Shape()), op)
    ensures reply == ReplyTo(old(t.Contents()), op)
    ensures t.buckets == old(t.buckets) || fresh(t.buckets)
    ensures forall i :: 0 <= i < |t.Items| ==> t.Items[i] in old(t.Items) || fresh(t.Items[i])
  {
    hide HashTable.Structure, PRIMES, HashStr, AfterSet, Without;
    match op
    case SetOp(key, serial, value) =>
      var rc := t.Set(key, serial, value);
      reply := Code(rc);
    case DelOp(key) =>
      var rc := t.Del(key);
      reply := Code(rc);
    case GetOp(key) =>
      var v := t.Get(key);
      reply := Found(v);
    case ClearOp =>
      t.Clear();
      reply := Done;
  }

  /** Any sequence of calls, growth included, answers as the finite map does.  The only bound is that no pair is
      set while the map holds as many pairs as the largest prime; by GrowthFits that is exactly when growth fails. */
  method Run(t: HashTable, ops: seq<Op>) returns (replies: seq<Reply>)
    requires t.Valid()
    requires forall i :: 0 <= i < |ops| && ops[i].SetOp? ==> |Final(t.Contents(), ops[..i])| < PRIMES[|PRIMES| - 1]
    modifies t, t.buckets, t.list, t.Items
    ensures t.Valid() && t.size == |t.Contents()|
    ensures t.Contents() == Final(old(t.Contents()), ops)
    ensures t.Shape() == FinalShape(old(t.Shape()), ops)
    ensures |replies| == |ops|
    ensures forall i :: 0 <= i < |ops| ==> replies[i] == ReplyTo(Final(old(t.Contents()), ops[..i]), ops[i])
  {
    hide HashTable.Structure, HashStr, HashTable.Contents, Next, ReplyTo, Final, PRIMES, HashTable.Shape, NextShape, FinalShape;
    FinalStart(t.Contents(), t.Shape(), ops);
    replies := [];
    while |replies| < |ops|
      invariant |replies| <= |ops|
      invariant t.Valid()
      invariant t.buckets == old(t.buckets) || fresh(t.buckets)
      invariant forall i :: 0 <= i < |t.Items| ==> t.Items[i] in old(t.Items) || fresh(t.Items[i])
      invariant t.Contents() == Final(old(t.Contents()), ops[..|replies|])
      invariant t.Shape() == FinalShape(old(t.Shape()), ops[..|replies|])
      invariant forall i :: 0 <= i < |replies| ==> replies[i] == ReplyTo(Final(old(t.Contents()), ops[..i]), ops[i])
    {
      var n := |replies|;
      t.GrowthFits();
      var reply := Execute(t, ops[n]);
      FinalNext(old(t.Contents()), old(t.Shape()), ops, n);
      replies := replies + [reply];
    }
    assert ops[..|ops|] == ops;
    t.SizeIsCount();
  }
}
