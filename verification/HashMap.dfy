/** The intrusive hash map that holds every resource of the switch: common/pof_hmap.c and the traversal macro of
    include/pof_hmap.h. */
module HashMap {
  import opened Bits
  import opened Numbers
  import opened Chains

  /** The operator & on two words of equal length. */
  function AndBits(a: seq<bool>, b: seq<bool>): (r: seq<bool>)
    requires |a| == |b|
    ensures |r| == |a|
  {
    seq(|a|, i requires 0 <= i < |a| => a[i] && b[i])
  }

  /** mask & hash on 32-bit words. */
  function Index(mask: nat, hash: nat): (i: nat)
    requires mask < 0x1_0000_0000
    ensures i <= mask
  {
    var m, h := LowBits(mask, 32), LowBits(hash, 32);
    AndBelow(m, h);
    ToNat32(mask);
    ToNat(AndBits(m, h))
  }

  lemma {:induction false} AndBelow(a: seq<bool>, b: seq<bool>)
    requires |a| == |b|
    ensures ToNat(AndBits(a, b)) <= ToNat(a)
  {
    if a != [] {
      var n := |a| - 1;
      AndBelow(a[..n], b[..n]);
      assert AndBits(a, b)[..n] == AndBits(a[..n], b[..n]);
    }
  }

  /** size |= size >> n */
  function Smear(b: seq<bool>, n: nat): (r: seq<bool>)
    ensures |r| == |b|
  {
    seq(|b|, i requires 0 <= i < |b| => b[i] || (n <= i && b[i - n]))
  }

  /** The five smearing steps of bucketsNum. */
  function SmearAll(b: seq<bool>): (r: seq<bool>)
    ensures |r| == |b|
  {
    Smear(Smear(Smear(Smear(Smear(b, 1), 2), 4), 8), 16)
  }

  /** bucketsNum: shift right by one, copy the top bit into all lower ones, add one. */
  function BucketsNum(size: nat): nat
    requires size < 0x1_0000_0000
  {
    ToNat(SmearAll(LowBits(size / 2, 32))) + 1
  }

  /** Bit i of r is set if and only if one of the w bits of b up to i is. */
  ghost predicate SmearedBy(r: seq<bool>, b: seq<bool>, w: nat) {
    && |r| == |b|
    && (forall i :: 0 <= i < |b| && r[i] ==> exists j :: i - w < j <= i && 0 <= j && b[j])
    && (forall i, j :: 0 <= j <= i < |b| && i - w < j && b[j] ==> r[i])
  }

  lemma SmearDoubles(r: seq<bool>, b: seq<bool>, w: nat)
    requires SmearedBy(r, b, w)
    ensures SmearedBy(Smear(r, w), b, 2 * w)
  {
    var s := Smear(r, w);
    forall i | 0 <= i < |b| && s[i]
      ensures exists j :: i - 2 * w < j <= i && 0 <= j && b[j]
    {
      var i' := if r[i] then i else i - w;
      assert r[i'];
      var j :| i' - w < j <= i' && 0 <= j && b[j];
      assert i - 2 * w < j <= i;
    }
    forall i, j | 0 <= j <= i < |b| && i - 2 * w < j && b[j]
      ensures s[i]
    {
      if j <= i - w { assert r[i - w]; } else { assert r[i]; }
    }
  }

  /** All ones from position t on. */
  lemma {:induction false} TrailingOnes(b: seq<bool>, t: nat)
    requires t <= |b| && forall i :: 0 <= i < |b| ==> (b[i] <==> t <= i)
    ensures ToNat(b) == Pow2(|b| - t) - 1
  {
    if t < |b| {
      TrailingOnes(b[..|b| - 1], t);
    } else if b != [] {
      TrailingOnes(b[..|b| - 1], t - 1);
    }
  }

  /** A word whose first set bit is at t. */
  lemma {:induction false} LeadingBit(b: seq<bool>, t: nat)
    requires t < |b| && b[t] && forall i :: 0 <= i < t ==> !b[i]
    ensures Pow2(|b| - t - 1) <= ToNat(b) < Pow2(|b| - t)
  {
    if t == |b| - 1 {
      assert forall i :: 0 <= i < t ==> !b[..t][i];
      NoBits(b[..t]);
    } else {
      LeadingBit(b[..|b| - 1], t);
    }
  }

  lemma {:induction false} NoBits(b: seq<bool>)
    requires forall i :: 0 <= i < |b| ==> !b[i]
    ensures ToNat(b) == 0
  {
    if b != [] { NoBits(b[..|b| - 1]); }
  }

  lemma FirstBit(b: seq<bool>) returns (t: nat)
    ensures t <= |b| && (forall i :: 0 <= i < t ==> !b[i]) && (t < |b| ==> b[t])
  {
    t := 0;
    while t < |b| && !b[t]
      invariant t <= |b| && forall i :: 0 <= i < t ==> !b[i]
    {
      t := t + 1;
    }
  }

  lemma SmearAllReaches(b: seq<bool>)
    ensures SmearedBy(SmearAll(b), b, 32)
  {
    assert SmearedBy(b, b, 1);
    SmearDoubles(b, b, 1);
    var b1 := Smear(b, 1);
    SmearDoubles(b1, b, 2);
    var b2 := Smear(b1, 2);
    SmearDoubles(b2, b, 4);
    var b3 := Smear(b2, 4);
    SmearDoubles(b3, b, 8);
    SmearDoubles(Smear(b3, 8), b, 16);
  }

  /** Smearing fills a 32-bit word with ones from its first set bit on. */
  lemma SmearedFrom(b: seq<bool>) returns (t: nat)
    requires |b| == 32
    ensures t <= 32 && (forall i :: 0 <= i < t ==> !b[i]) && (t < 32 ==> b[t])
    ensures ToNat(SmearAll(b)) == Pow2(32 - t) - 1
  {
    var r := SmearAll(b);
    SmearAllReaches(b);
    t := FirstBit(b);
    assert forall i :: 0 <= i < 32 ==> (r[i] <==> t <= i);
    TrailingOnes(r, t);
  }

  /** The bucket count is the largest power of two not above the requested size, or 1. */
  lemma BucketsNumIsPowerOfTwo(size: nat) returns (k: nat)
    requires size < 0x1_0000_0000
    ensures k < 32 && BucketsNum(size) == Pow2(k)
    ensures if size == 0 then k == 0 else Pow2(k) <= size < 2 * Pow2(k)
  {
    var b := LowBits(size / 2, 32);
    var t := SmearedFrom(b);
    k := 32 - t;
    ToNat32(size / 2);
    Pow2Words();
    if t < 32 { LeadingBit(b, t); } else { NoBits(b); }
    assert Pow2(32) == 2 * Pow2(31);
  }

  lemma MaskBits(k: nat, mask: nat)
    requires k <= 32 && mask == Pow2(k) - 1
    ensures mask < 0x1_0000_0000 && LowBits(mask, 32) == Fill(false, 32 - k) + Fill(true, k)
  {
    var bits := Fill(false, 32 - k) + Fill(true, k);
    TrailingOnes(bits, 32 - k);
    ToNatBound(bits);
    Pow2Words();
    LowBitsToNat(bits);
  }

  /** With a power-of-two bucket count the bucket of a hash is named by the hash's low bits. */
  lemma IndexIsModulo(k: nat, mask: nat, hash: nat)
    requires k <= 32 && mask == Pow2(k) - 1
    ensures mask < 0x1_0000_0000 && Index(mask, hash) == ToNat(LowBits(hash, k))
  {
    MaskBits(k, mask);
    var low := LowBits(hash, k);
    assert AndBits(LowBits(mask, 32), LowBits(hash, 32)) == Fill(false, 32 - k) + low;
    ToNatAppend(Fill(false, 32 - k), low);
    ToNatZeros(32 - k);
  }

  /** The bucket of a hash. */
  ghost function BucketFunction(mask: nat): (f: nat -> nat)
    requires mask < 0x1_0000_0000
    ensures forall h: nat {:trigger Index(mask, h)} :: f(h) == Index(mask, h)
  {
    h => Index(mask, h)
  }

  class HMap<T> {
    const buckets: array<HNode?<T>>
    const mask: nat
    var n: nat
    ghost var live: seq<HNode<T>>    // the nodes of the map, the most recently inserted first
    ghost const bucketOf: nat -> nat  // the bucket of a hash

    ghost function Chain(b: nat): seq<HNode<T>>
      reads this
    {
      InBucket(live, bucketOf, b)
    }

    /** The nodes in the order of traversal. */
    ghost function Order(): seq<HNode<T>>
      reads this
    {
      Flat(live, bucketOf, mask + 1, 0)
    }

    /** head leads through exactly the nodes of s. */
    ghost predicate Links(head: HNode?<T>, s: seq<HNode<T>>)
      reads s
    {
      head == NextOf(s, -1) && forall k {:trigger s[k].next} :: 0 <= k < |s| ==> s[k].next == NextOf(s, k)
    }

    ghost predicate Valid()
      reads this, buckets, live
    {
      && mask < 0x1_0000_0000 && buckets.Length == mask + 1
      && (forall h: nat {:trigger Index(mask, h)} :: bucketOf(h) == Index(mask, h))
      && Distinct(live) && n == |live| % 0x1_0000_0000
      && (forall b :: 0 <= b <= mask ==> Links(buckets[b], Chain(b)))
    }

    /** hmap_create. */
    constructor (size: nat)
      requires size < 0x1_0000_0000
      ensures Valid() && live == [] && n == 0 && fresh(buckets)
      ensures mask + 1 == BucketsNum(size)
    {
      ghost var k := BucketsNumIsPowerOfTwo(size);
      Pow2Words();
      var count := BucketsNum(size);
      buckets := new HNode?<T>[count](_ => null);
      mask := count - 1;
      n := 0;
      live := [];
      bucketOf := BucketFunction(count - 1);
      new;
      assert forall b :: InBucket(live, bucketOf, b) == [];
    }

    /** The traversal order names each node of the map exactly once. */
    lemma OrderIsLive()
      requires Valid()
      ensures Distinct(Order()) && (forall x :: x in Order() <==> x in live)
      ensures Order() == [] ==> live == []
    {
      FlatDistinct(live, bucketOf, mask + 1, 0);
      forall x: HNode<T> {:trigger x in Order()} {:trigger x in live}
        ensures x in Order() <==> x in live
      {
        FlatMembers(live, bucketOf, mask + 1, 0, x);
        assert bucketOf(x.hash) == Index(mask, x.hash);
      }
      if live != [] { assert live[0] in live; }
    }

    /** Of two nodes the one in the lower bucket is traversed first, and in one bucket the one inserted later. */
    lemma OrderFollowsBuckets(i: nat, j: nat) returns (p: nat, q: nat)
      requires Valid() && i < j < |Order()|
      ensures p < |live| && q < |live| && live[p] == Order()[i] && live[q] == Order()[j]
      ensures Index(mask, live[p].hash) < Index(mask, live[q].hash)
              || (Index(mask, live[p].hash) == Index(mask, live[q].hash) && p < q)
    {
      p, q := FlatOrdered(live, bucketOf, mask + 1, 0, i, j);
      assert bucketOf(live[p].hash) == Index(mask, live[p].hash);
      assert bucketOf(live[q].hash) == Index(mask, live[q].hash);
    }

    lemma OrderDistinct()
      requires Valid()
      ensures Distinct(Order())
    {
      FlatDistinct(live, bucketOf, mask + 1, 0);
    }

    /** The k-th node of the order is followed by the next. */
    lemma OrderAt(k: nat)
      requires Valid() && k < |Order()|
      ensures Order()[k] in live && After(Order(), Order()[k]) == Order()[k + 1..]
      ensures NextOf(After(Order(), Order()[k]), -1) == NextOf(Order(), k)
    {
      OrderIsLive();
      FlatMembers(live, bucketOf, mask + 1, 0, Order()[k]);
      AfterAt(Order(), k);
    }

    lemma NoOrder()
      requires Valid() && Order() == []
      ensures live == [] && n == 0
    {
      OrderIsLive();
    }

    /** The state a deletion leaves keeps the order of all other nodes. */
    lemma OrderRemoved(node: HNode<T>)
      requires Valid() && node in live
      ensures Flat(Removed(live, node), bucketOf, mask + 1, 0) == Removed(Order(), node)
    {
      FlatRemoved(live, bucketOf, mask + 1, 0, node);
    }

    /** bucketWithHash. */
    method BucketWithHash(hash: nat) returns (i: nat)
      requires Valid()
      ensures i == bucketOf(hash) <= mask
    {
      i := Index(mask, hash);
    }

    /** The end of an insertion or deletion: the count, and the nodes that the chains now hold. */
    method Recount(ghost now: seq<HNode<T>>, change: int)
      requires mask < 0x1_0000_0000 && buckets.Length == mask + 1
      requires forall h: nat {:trigger Index(mask, h)} :: bucketOf(h) == Index(mask, h)
      requires Distinct(now) && |now| == |live| + change && n == |live| % 0x1_0000_0000
      requires forall b :: 0 <= b <= mask ==> Links(buckets[b], InBucket(now, bucketOf, b))
      modifies this
      ensures Valid() && live == now && n == (old(n) + change) % 0x1_0000_0000
    {
      n := (n + change) % 0x1_0000_0000;
      live := now;
    }

    /** hmap_nodeInsert: at the head of its bucket's chain. */
    method NodeInsert(node: HNode<T>)
      requires Valid() && node !in live
      modifies this, buckets, node
      ensures Valid() && live == [node] + old(live) && n == (old(n) + 1) % 0x1_0000_0000
    {
      var i := BucketWithHash(node.hash);
      LinkFront(node, i);
      assert ([node] + live)[1..] == live;
      Recount([node] + live, 1);
    }

    /** The chains after the pointer update of an insertion. */
    method LinkFront(node: HNode<T>, i: nat)
      requires Valid() && node !in live && i == bucketOf(node.hash) <= mask
      modifies buckets, node
      ensures Links(buckets[i], [node] + Chain(i))
      ensures forall b :: 0 <= b <= mask && b != i ==> Links(buckets[b], Chain(b))
    {
      node.next := buckets[i];
      buckets[i] := node;
      forall b | 0 <= b <= mask
        ensures Links(buckets[b], if b == i then [node] + Chain(b) else Chain(b))
      {
        var c := Chain(b);
        assert old(Links(buckets[b], c));
        assert forall j {:trigger c[j].next} :: 0 <= j < |c| ==> c[j].next == old(c[j].next);
      }
    }

    /** hmap_nodeGetWithHash: the most recently inserted live node with the hash. */
    method NodeGetWithHash(hash: nat) returns (node: HNode?<T>)
      requires Valid()
      ensures node == FirstWithHash(live, hash)
      ensures node == null <==> forall k :: 0 <= k < |live| ==> live[k].hash != hash
      ensures node != null ==>
        exists k :: 0 <= k < |live| && live[k] == node && node.hash == hash
                    && forall j :: 0 <= j < k ==> live[j].hash != hash
    {
      var i := BucketWithHash(hash);
      ghost var s, k := Chain(i), 0;
      ghost var first := FirstWithHashMeaning(live, hash);
      BucketFirst(live, bucketOf, hash);
      node := buckets[i];
      while node != null
        invariant k <= |s| && node == NextOf(s, k - 1)
        invariant FirstWithHash(s[k..], hash) == FirstWithHash(s, hash)
        decreases |s| - k
      {
        if node.hash == hash {
          return;
        }
        node := node.next;
        assert s[k..][1..] == s[k + 1..];
        k := k + 1;
      }
    }

    /** hmap_nodeContain. */
    method NodeContain(node: HNode<T>) returns (found: bool)
      requires Valid()
      ensures found <==> node in live
    {
      var i := BucketWithHash(node.hash);
      ghost var s, k := Chain(i), 0;
      InBucketMembers(live, bucketOf, i, node);
      var tmp := buckets[i];
      while tmp != null
        invariant k <= |s| && tmp == NextOf(s, k - 1)
        invariant node !in s[..k]
        decreases |s| - k
      {
        if tmp == node {
          return true;
        }
        tmp := tmp.next;
        k := k + 1;
      }
      found := false;
    }

    /** The bucket scan of hmap_nodeFirst and hmap_nodeNext. */
    method FirstFrom(b: nat) returns (node: HNode?<T>)
      requires Valid()
      ensures node == NextOf(Flat(live, bucketOf, mask + 1, b), -1)
    {
      var bkt := b;
      while bkt < mask + 1
        invariant b <= bkt
        invariant NextOf(Flat(live, bucketOf, mask + 1, b), -1) == NextOf(Flat(live, bucketOf, mask + 1, bkt), -1)
      {
        assert Links(buckets[bkt], Chain(bkt));
        if buckets[bkt] != null {
          return buckets[bkt];
        }
        bkt := bkt + 1;
      }
      node := null;
    }

    /** hmap_nodeFirst. */
    method NodeFirst() returns (node: HNode?<T>)
      requires Valid()
      ensures node == NextOf(Order(), -1)
    {
      node := FirstFrom(0);
    }

    /** What follows a node is its successor in the chain, or at the chain's end the first of the later buckets. */
    lemma NextInOrder(node: HNode<T>, i: nat) returns (next: HNode?<T>)
      requires Valid() && node in live && i == bucketOf(node.hash) <= mask
      ensures next == NextOf(After(Order(), node), -1)
      ensures next == if node.next != null then node.next else NextOf(Flat(live, bucketOf, mask + 1, i + 1), -1)
    {
      InBucketMembers(live, bucketOf, i, node);
      var s := Chain(i);
      var k :| 0 <= k < |s| && s[k] == node;
      AfterInFlat(live, bucketOf, mask + 1, 0, node, i, k);
      assert Links(buckets[i], s) && node.next == NextOf(s, k);
      var rest, behind := s[k + 1..], Flat(live, bucketOf, mask + 1, i + 1);
      assert rest == [] ==> rest + behind == behind;
      next := NextOf(rest + behind, -1);
    }

    /** hmap_nodeNext. */
    method NodeNext(node: HNode<T>) returns (next: HNode?<T>)
      requires Valid() && node in live
      ensures next == NextOf(After(Order(), node), -1)
    {
      var i := BucketWithHash(node.hash);
      ghost var successor := NextInOrder(node, i);
      if node.next != null {
        next := node.next;
      } else {
        next := FirstFrom(i + 1);
      }
      assert next == successor;
    }

    /** hmap_nodeDelete: unlinks the node if it is in the map, and keeps the order of all others. */
    method NodeDelete(node: HNode<T>)
      requires Valid()
      modifies this, buckets, live
      ensures Valid() && live == Removed(old(live), node)
      ensures n == if node in old(live) then (old(n) - 1) % 0x1_0000_0000 else old(n)
    {
      var i := BucketWithHash(node.hash);
      ghost var s, k := Chain(i), 0;
      InBucketMembers(live, bucketOf, i, node);
      var prev: HNode?<T>, cur := null, buckets[i];
      while cur != null
        invariant k <= |s| && cur == NextOf(s, k - 1)
        invariant prev == if k == 0 then null else s[k - 1]
        invariant forall j :: 0 <= j < k ==> s[j] != node
        decreases |s| - k
      {
        if cur == node {
          Unlink(node, prev, i, k);
          return;
        }
        prev, cur := cur, cur.next;
        k := k + 1;
      }
      RemovedAbsent(live, node);
    }

    /** Taking the k-th node out of bucket i, prev being the one before it. */
    method Unlink(node: HNode<T>, prev: HNode?<T>, i: nat, ghost k: nat)
      requires Valid() && i == bucketOf(node.hash) <= mask && node in live
      requires k < |Chain(i)| && Chain(i)[k] == node && prev == if k == 0 then null else Chain(i)[k - 1]
      requires forall j :: 0 <= j < k ==> Chain(i)[j] != node
      modifies this, buckets, live
      ensures Valid() && live == Removed(old(live), node)
      ensures n == if node in old(live) then (old(n) - 1) % 0x1_0000_0000 else old(n)
    {
      CutChain(node, prev, i, k);
      RemovedMembers(live, node);
      UnlinkedChains(live, bucketOf, node, i, k);
      Recount(Removed(live, node), -1);
    }

    /** The chains after the pointer update: bucket i's has lost its k-th node, all others are as before. */
    method CutChain(node: HNode<T>, prev: HNode?<T>, i: nat, ghost k: nat)
      requires Valid() && i == bucketOf(node.hash) <= mask
      requires k < |Chain(i)| && Chain(i)[k] == node && prev == if k == 0 then null else Chain(i)[k - 1]
      modifies buckets, live
      ensures Links(buckets[i], Chain(i)[..k] + Chain(i)[k + 1..])
      ensures forall b :: 0 <= b <= mask && b != i ==> Links(buckets[b], Chain(b))
    {
      ghost var s := Chain(i);
      InBucketDistinct(live, bucketOf, i);
      Relink(node, prev, i, s, k);
      forall b | 0 <= b <= mask && b != i
        ensures Links(buckets[b], Chain(b))
      {
        var c := Chain(b);
        assert old(Links(buckets[b], c));
        if k > 0 && prev in c { BucketsDisjoint(live, bucketOf, b, i, prev); }
        assert forall j {:trigger c[j].next} :: 0 <= j < |c| ==> c[j].next == old(c[j].next);
      }
    }

    /** The pointer update of hmap_nodeDelete on a chain s of distinct nodes, prev being the node before node. */
    method Relink(node: HNode<T>, prev: HNode?<T>, i: nat, ghost s: seq<HNode<T>>, ghost k: nat)
      requires i < buckets.Length && k < |s| && s[k] == node && Distinct(s) && Links(buckets[i], s)
      requires prev == if k == 0 then null else s[k - 1]
      modifies buckets, s
      ensures Links(buckets[i], s[..k] + s[k + 1..])
      ensures forall b :: 0 <= b < buckets.Length && b != i ==> buckets[b] == old(buckets[b])
      ensures forall x :: x in s && x != prev ==> x.next == old(x.next)
    {
      if prev == null {
        buckets[i] := node.next;
      } else {
        prev.next := node.next;
      }
      ghost var s' := s[..k] + s[k + 1..];
      forall j {:trigger s'[j].next} | 0 <= j < |s'|
        ensures s'[j].next == NextOf(s', j)
      {
        var j' := if j < k then j else j + 1;
        assert s'[j] == s[j'] && old(s[j'].next) == NextOf(s, j');
        if k > 0 && j' != k - 1 { DistinctAt(s, j', k - 1); }
      }
    }
  }
}
