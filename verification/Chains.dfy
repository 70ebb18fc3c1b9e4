/** Sequences of hash-map nodes: what one bucket holds of them, the order of traversal, and what removing a node
    does to both. The bucket of a hash is a parameter f. */
module Chains {
  /** struct hnode, embedded in the structure obj that the map holds. */
  class HNode<T> {
    const obj: T
    const hash: nat
    var next: HNode?<T>

    constructor (obj: T, hash: nat)
      ensures this.obj == obj && this.hash == hash
    {
      this.obj := obj;
      this.hash := hash;
    }
  }

  /** The first node of a sequence with a given hash. */
  function FirstWithHash<T>(s: seq<HNode<T>>, hash: nat): HNode?<T> {
    if s == [] then null else if s[0].hash == hash then s[0] else FirstWithHash(s[1..], hash)
  }

  /** It is null if and only if no node has the hash, and otherwise no node before it has. */
  lemma {:induction false} FirstWithHashMeaning<T>(s: seq<HNode<T>>, hash: nat) returns (k: nat)
    ensures FirstWithHash(s, hash) == null <==> forall j :: 0 <= j < |s| ==> s[j].hash != hash
    ensures FirstWithHash(s, hash) != null ==>
      k < |s| && s[k] == FirstWithHash(s, hash) && s[k].hash == hash && forall j :: 0 <= j < k ==> s[j].hash != hash
  {
    k := 0;
    if s != [] && s[0].hash != hash {
      k := FirstWithHashMeaning(s[1..], hash);
      k := k + 1;
      assert forall j :: 0 < j < |s| ==> s[j] == s[1..][j - 1];
    }
  }

  /** The nodes of a sequence that belong to bucket b. */
  function InBucket<T>(s: seq<HNode<T>>, f: nat -> nat, b: nat): (r: seq<HNode<T>>)
    ensures forall k :: 0 <= k < |r| ==> r[k] in s
  {
    if s == [] then []
    else if f(s[0].hash) == b then [s[0]] + InBucket(s[1..], f, b)
    else InBucket(s[1..], f, b)
  }

  /** All nodes, bucket by bucket from bucket b on: the order of traversal. */
  function Flat<T>(s: seq<HNode<T>>, f: nat -> nat, count: nat, b: nat): seq<HNode<T>>
    decreases count - b
  {
    if b >= count then [] else InBucket(s, f, b) + Flat(s, f, count, b + 1)
  }

  /** s without the first occurrence of x. */
  function Removed<T(==)>(s: seq<T>, x: T): seq<T> {
    if s == [] then [] else if s[0] == x then s[1..] else [s[0]] + Removed(s[1..], x)
  }

  /** What follows the first occurrence of x. */
  function After<T(==)>(s: seq<T>, x: T): seq<T> {
    if s == [] then [] else if s[0] == x then s[1..] else After(s[1..], x)
  }

  /** The node after position k of a chain, and before all positions its head. */
  function NextOf<T>(s: seq<HNode<T>>, k: int): HNode?<T>
    requires -1 <= k < |s|
  {
    if k + 1 < |s| then s[k + 1] else null
  }

  lemma OrderFrom<T>(order: seq<HNode<T>>, k: nat)
    requires k < |order|
    ensures order[k..][0] == order[k] && order[k..][1..] == order[k + 1..] && order[..k] + [order[k]] == order[..k + 1]
    ensures NextOf(order[k..], -1) == order[k] && NextOf(order[k..], 0) == NextOf(order, k)
  {}

  ghost predicate Distinct<T>(s: seq<T>) {
    s == [] || (s[0] !in s[1..] && Distinct(s[1..]))
  }

  lemma {:induction false} DistinctAt<T>(s: seq<T>, i: nat, j: nat)
    requires Distinct(s) && i < |s| && j < |s| && i != j
    ensures s[i] != s[j]
  {
    if i == 0 {
      assert s[j] == s[1..][j - 1];
    } else if j == 0 {
      assert s[i] == s[1..][i - 1];
    } else {
      DistinctAt(s[1..], i - 1, j - 1);
    }
  }

  lemma {:induction false} DistinctAppend<T>(a: seq<T>, b: seq<T>)
    requires Distinct(a) && Distinct(b) && forall x :: x in a ==> x !in b
    ensures Distinct(a + b)
  {
    if a == [] {
      assert a + b == b;
    } else {
      DistinctAppend(a[1..], b);
      assert (a + b)[1..] == a[1..] + b;
    }
  }

  lemma {:induction false} AfterAppend<T>(a: seq<T>, b: seq<T>, x: T)
    ensures After(a + b, x) == if x in a then After(a, x) + b else After(b, x)
  {
    if a == [] {
      assert a + b == b;
    } else {
      AfterAppend(a[1..], b, x);
      assert (a + b)[1..] == a[1..] + b;
    }
  }

  lemma {:induction false} AfterAt<T>(s: seq<T>, k: nat)
    requires Distinct(s) && k < |s|
    ensures After(s, s[k]) == s[k + 1..]
  {
    if k > 0 {
      DistinctAt(s, 0, k);
      AfterAt(s[1..], k - 1);
    }
  }

  lemma {:induction false} RemovedAppend<T>(a: seq<T>, b: seq<T>, x: T)
    ensures Removed(a + b, x) == if x in a then Removed(a, x) + b else a + Removed(b, x)
  {
    if a == [] {
      assert a + b == b;
    } else {
      var h, rest := a[0], a[1..];
      RemovedAppend(rest, b, x);
      RemovedCons(h, rest, x);
      RemovedCons(h, rest + b, x);
      assert a == [h] + rest && a + b == [h] + (rest + b);
      ConsAppend(h, Removed(rest, x), b);
      ConsAppend(h, rest, Removed(b, x));
    }
  }

  lemma RemovedCons<T>(h: T, rest: seq<T>, x: T)
    ensures Removed([h] + rest, x) == if h == x then rest else [h] + Removed(rest, x)
  {}

  lemma ConsAppend<T>(h: T, a: seq<T>, b: seq<T>)
    ensures [h] + (a + b) == [h] + a + b
  {}

  lemma {:induction false} RemovedAt<T>(s: seq<T>, x: T, k: nat)
    requires k <= |s| && (forall j :: 0 <= j < k ==> s[j] != x) && (k < |s| ==> s[k] == x)
    ensures Removed(s, x) == if k < |s| then s[..k] + s[k + 1..] else s
    decreases k
  {
    if s != [] && k > 0 {
      RemovedAt(s[1..], x, k - 1);
      RemovedCons(s[0], s[1..], x);
      assert s == [s[0]] + s[1..];
      if k < |s| { WithoutAt(s[0], s[1..], k - 1); }
    }
  }

  lemma WithoutAt<T>(h: T, rest: seq<T>, k: nat)
    requires k < |rest|
    ensures ([h] + rest)[..k + 1] + ([h] + rest)[k + 2..] == [h] + (rest[..k] + rest[k + 1..])
  {}

  lemma RemovedAbsent<T>(s: seq<T>, x: T)
    requires x !in s
    ensures Removed(s, x) == s
  {
    RemovedAt(s, x, |s|);
  }

  lemma {:induction false} RemovedMembers<T>(s: seq<T>, x: T)
    requires Distinct(s)
    ensures Distinct(Removed(s, x)) && x !in Removed(s, x)
    ensures forall y :: y in Removed(s, x) <==> y in s && y != x
    ensures |Removed(s, x)| == if x in s then |s| - 1 else |s|
  {
    if s != [] {
      RemovedMembers(s[1..], x);
      assert s[0] !in s[1..];
    }
  }

  lemma {:induction false} RemovedSubset<T>(s: seq<T>, x: T, all: seq<T>)
    requires forall k :: 0 <= k < |s| ==> s[k] in all
    ensures forall k :: 0 <= k < |Removed(s, x)| ==> Removed(s, x)[k] in all
  {
    if s != [] && s[0] != x { RemovedSubset(s[1..], x, all); }
  }

  lemma {:induction false} InBucketMembers<T>(s: seq<HNode<T>>, f: nat -> nat, b: nat, x: HNode<T>)
    ensures x in InBucket(s, f, b) <==> x in s && f(x.hash) == b
  {
    if s != [] { InBucketMembers(s[1..], f, b, x); }
  }

  lemma BucketsDisjoint<T>(s: seq<HNode<T>>, f: nat -> nat, b: nat, i: nat, x: HNode<T>)
    requires x in InBucket(s, f, b) && b != i
    ensures x !in InBucket(s, f, i)
  {
    InBucketMembers(s, f, b, x);
    InBucketMembers(s, f, i, x);
  }

  lemma {:induction false} InBucketDistinct<T>(s: seq<HNode<T>>, f: nat -> nat, b: nat)
    requires Distinct(s)
    ensures Distinct(InBucket(s, f, b))
  {
    if s != [] {
      InBucketDistinct(s[1..], f, b);
      InBucketMembers(s[1..], f, b, s[0]);
    }
  }

  lemma {:induction false} RemovedFromBucket<T>(s: seq<HNode<T>>, f: nat -> nat, b: nat, x: HNode<T>)
    ensures InBucket(Removed(s, x), f, b) == Removed(InBucket(s, f, b), x)
  {
    if s != [] {
      if s[0] == x {
        if f(x.hash) != b {
          InBucketMembers(s[1..], f, b, x);
          RemovedAbsent(InBucket(s[1..], f, b), x);
        }
      } else {
        RemovedFromBucket(s[1..], f, b, x);
        assert ([s[0]] + Removed(s[1..], x))[1..] == Removed(s[1..], x);
      }
    }
  }

  /** Removing the k-th node of bucket i takes it out of that bucket's chain and leaves the other chains alone. */
  lemma UnlinkedChains<T>(s: seq<HNode<T>>, f: nat -> nat, x: HNode<T>, i: nat, k: nat)
    requires i == f(x.hash) && k < |InBucket(s, f, i)|
    requires InBucket(s, f, i)[k] == x && forall j :: 0 <= j < k ==> InBucket(s, f, i)[j] != x
    ensures forall b: nat :: b != i ==> InBucket(Removed(s, x), f, b) == InBucket(s, f, b)
    ensures InBucket(Removed(s, x), f, i) == InBucket(s, f, i)[..k] + InBucket(s, f, i)[k + 1..]
  {
    RemovedAt(InBucket(s, f, i), x, k);
    RemovedFromBucket(s, f, i, x);
    forall b: nat | b != i
      ensures InBucket(Removed(s, x), f, b) == InBucket(s, f, b)
    {
      RemovedFromBucket(s, f, b, x);
      InBucketMembers(s, f, b, x);
      RemovedAbsent(InBucket(s, f, b), x);
    }
  }

  lemma {:induction false} BucketFirst<T>(s: seq<HNode<T>>, f: nat -> nat, hash: nat)
    ensures FirstWithHash(InBucket(s, f, f(hash)), hash) == FirstWithHash(s, hash)
  {
    if s != [] { BucketFirst(s[1..], f, hash); }
  }

  lemma {:induction false} FlatMembers<T>(s: seq<HNode<T>>, f: nat -> nat, count: nat, b: nat, x: HNode<T>)
    ensures x in Flat(s, f, count, b) <==> x in s && b <= f(x.hash) < count
    decreases count - b
  {
    if b < count {
      InBucketMembers(s, f, b, x);
      FlatMembers(s, f, count, b + 1, x);
    }
  }

  /** Positions p before q of the insertions, for positions i before j of a bucket. */
  lemma {:induction false} InBucketOrdered<T>(s: seq<HNode<T>>, f: nat -> nat, b: nat, i: nat, j: nat)
    returns (p: nat, q: nat)
    requires i < j < |InBucket(s, f, b)|
    ensures p < q < |s| && s[p] == InBucket(s, f, b)[i] && s[q] == InBucket(s, f, b)[j]
  {
    var rest := s[1..];
    if f(s[0].hash) != b {
      p, q := InBucketOrdered(rest, f, b, i, j);
      p, q := p + 1, q + 1;
    } else if i > 0 {
      p, q := InBucketOrdered(rest, f, b, i - 1, j - 1);
      p, q := p + 1, q + 1;
    } else {
      assert InBucket(s, f, b)[j] == InBucket(rest, f, b)[j - 1];
      q := IndexOf(rest, InBucket(rest, f, b)[j - 1]);
      p, q := 0, q + 1;
    }
  }

  lemma IndexOf<T>(s: seq<T>, x: T) returns (k: nat)
    requires x in s
    ensures k < |s| && s[k] == x
  {
    k :| k < |s| && s[k] == x;
  }

  /** The order of traversal goes through the buckets upwards, and through each of them from the latest insertion to
      the earliest. */
  lemma {:induction false} FlatOrdered<T>(s: seq<HNode<T>>, f: nat -> nat, count: nat, b: nat, i: nat, j: nat)
    returns (p: nat, q: nat)
    requires i < j < |Flat(s, f, count, b)|
    ensures p < |s| && q < |s| && s[p] == Flat(s, f, count, b)[i] && s[q] == Flat(s, f, count, b)[j]
    ensures f(s[p].hash) < f(s[q].hash) || (f(s[p].hash) == f(s[q].hash) && p < q)
    decreases count - b
  {
    var head, rest := InBucket(s, f, b), Flat(s, f, count, b + 1);
    if i >= |head| {
      p, q := FlatOrdered(s, f, count, b + 1, i - |head|, j - |head|);
    } else if j < |head| {
      p, q := InBucketOrdered(s, f, b, i, j);
      InBucketMembers(s, f, b, head[i]);
      InBucketMembers(s, f, b, head[j]);
    } else {
      InBucketMembers(s, f, b, head[i]);
      FlatMembers(s, f, count, b + 1, rest[j - |head|]);
      p := IndexOf(s, head[i]);
      q := IndexOf(s, rest[j - |head|]);
    }
  }

  /** The traversal order names each node of the map exactly once. */
  lemma {:induction false} FlatDistinct<T>(s: seq<HNode<T>>, f: nat -> nat, count: nat, b: nat)
    requires Distinct(s)
    ensures Distinct(Flat(s, f, count, b))
    decreases count - b
  {
    if b < count {
      InBucketDistinct(s, f, b);
      FlatDistinct(s, f, count, b + 1);
      forall x | x in InBucket(s, f, b)
        ensures x !in Flat(s, f, count, b + 1)
      {
        InBucketMembers(s, f, b, x);
        FlatMembers(s, f, count, b + 1, x);
      }
      DistinctAppend(InBucket(s, f, b), Flat(s, f, count, b + 1));
    }
  }

  /** Removing a node from the map removes it from the traversal order and moves no other. */
  lemma {:induction false} FlatRemoved<T>(s: seq<HNode<T>>, f: nat -> nat, count: nat, b: nat, x: HNode<T>)
    ensures Flat(Removed(s, x), f, count, b) == Removed(Flat(s, f, count, b), x)
    decreases count - b
  {
    if b < count {
      RemovedFromBucket(s, f, b, x);
      FlatRemoved(s, f, count, b + 1, x);
      RemovedAppend(InBucket(s, f, b), Flat(s, f, count, b + 1), x);
      InBucketMembers(s, f, b, x);
      FlatMembers(s, f, count, b + 1, x);
      if x in InBucket(s, f, b) {
        RemovedAbsent(Flat(s, f, count, b + 1), x);
      } else {
        RemovedAbsent(InBucket(s, f, b), x);
      }
    }
  }

  /** What follows the k-th node of bucket i in the traversal order from bucket b on. */
  lemma {:induction false} AfterInFlat<T>(s: seq<HNode<T>>, f: nat -> nat, count: nat, b: nat, x: HNode<T>, i: nat,
                                        k: nat)
    requires Distinct(s) && b <= i < count && k < |InBucket(s, f, i)| && InBucket(s, f, i)[k] == x
    ensures After(Flat(s, f, count, b), x) == InBucket(s, f, i)[k + 1..] + Flat(s, f, count, i + 1)
    decreases i - b
  {
    AfterAppend(InBucket(s, f, b), Flat(s, f, count, b + 1), x);
    if b == i {
      InBucketDistinct(s, f, i);
      AfterAt(InBucket(s, f, i), k);
    } else {
      BucketsDisjoint(s, f, i, b, x);
      AfterInFlat(s, f, count, b + 1, x, i, k);
    }
  }

  /** The best-so-far of a scan: a hit replaces it only if it ranks higher. */
  ghost function BestOf<T>(order: seq<HNode<T>>, hit: T -> bool, rank: T -> nat): HNode?<T> {
    if order == [] then null else
      var best, x := BestOf(order[..|order| - 1], hit, rank), order[|order| - 1];
      if hit(x.obj) && (best == null || rank(best.obj) < rank(x.obj)) then x else best
  }

  /** Position k holds a hit that ranks above every hit before it and at least as high as every other. */
  ghost predicate FirstBest<T>(order: seq<HNode<T>>, k: nat, hit: T -> bool, rank: T -> nat) {
    k < |order| && hit(order[k].obj) &&
    forall j :: 0 <= j < |order| && hit(order[j].obj) ==>
      rank(order[j].obj) <= rank(order[k].obj) && (j < k ==> rank(order[j].obj) < rank(order[k].obj))
  }

  /** A scan answers null if and only if there is no hit, and otherwise the best hit, the first in the order of
      traversal among those of equal rank. */
  lemma {:induction false} BestMeaning<T>(order: seq<HNode<T>>, hit: T -> bool, rank: T -> nat) returns (k: nat)
    ensures BestOf(order, hit, rank) == null <==> forall j :: 0 <= j < |order| ==> !hit(order[j].obj)
    ensures BestOf(order, hit, rank) != null ==>
      FirstBest(order, k, hit, rank) && order[k] == BestOf(order, hit, rank)
  {
    k := 0;
    if order != [] {
      var l := |order| - 1;
      k := BestMeaning(order[..l], hit, rank);
      if BestOf(order, hit, rank) != BestOf(order[..l], hit, rank) {
        k := l;
      }
    }
  }

  /** Deleting a node leaves what follows any other node in place, less the deleted node. So a traversal that has
      already fetched the next node goes on where it would have gone. */
  lemma {:induction false} AfterRemoved<T>(s: seq<T>, x: T, y: T)
    requires Distinct(s) && x != y
    ensures After(Removed(s, x), y) == Removed(After(s, y), x)
  {
    if s != [] {
      if s[0] == x {
        AfterAbsent(s[1..], y, x);
      } else if s[0] == y {
        assert ([y] + Removed(s[1..], x))[1..] == Removed(s[1..], x);
      } else {
        AfterRemoved(s[1..], x, y);
        assert ([s[0]] + Removed(s[1..], x))[1..] == Removed(s[1..], x);
      }
    }
  }

  lemma {:induction false} AfterAbsent<T>(s: seq<T>, y: T, x: T)
    requires x !in s
    ensures Removed(After(s, y), x) == After(s, y)
  {
    if s != [] {
      if s[0] == y { RemovedAbsent(s[1..], x); } else { AfterAbsent(s[1..], y, x); }
    }
  }
}
