/** A flow table keeps its entries twice: in a hash map and, for longest-prefix match, in a trie under each entry's
    prefix. This module says what the two hold after any run of insertions and deletions, and exactly when they
    still hold the same entries: local_resource/pof_flow_table.c. */
module TwoIndexes {
  import opened Chains
  import opened Datapath
  import opened Trie

  /** Both indexes and the three counters. live is the hash map's content, the most recent insertion first. */
  datatype State<T> = State(live: seq<HNode<T>>, trie: map<Path, HNode<T>>, entryNum: nat, n: nat, count: nat)

  /** reached: the trie walk of the deletion ended at a node. */
  datatype Op<T> = Insert(node: HNode<T>) | Remove(node: HNode<T>, reached: bool)

  /** entryInsert and entryDelete; only longest-prefix-match tables have a trie. */
  function Step<T>(s: State<T>, op: Op<T>, key: T -> Path, lpm: bool): State<T> {
    match op
    case Insert(x) =>
      State([x] + s.live, if lpm then s.trie[key(x.obj) := x] else s.trie,
            Wrap32(s.entryNum + 1), Wrap32(s.n + 1), if lpm then Wrap32(s.count + 1) else s.count)
    case Remove(x, reached) =>
      State(Removed(s.live, x), if lpm then s.trie - {key(x.obj)} else s.trie,
            Wrap32(s.entryNum - 1), Wrap32(s.n - 1), if lpm && reached then Wrap32(s.count - 1) else s.count)
  }

  /** What the callers guarantee: a new node is new, a deleted node is in the map; and a stored prefix is always
      reached by the trie walk. */
  predicate Legal<T>(s: State<T>, op: Op<T>, key: T -> Path) {
    match op
    case Insert(x) => x !in s.live
    case Remove(x, reached) => x in s.live && (key(x.obj) in s.trie ==> reached)
  }

  /** The trie that the map's entries call for: each prefix leads to its most recent entry. */
  function Indexed<T>(live: seq<HNode<T>>, key: T -> Path): map<Path, HNode<T>> {
    if live == [] then map[] else Indexed(live[1..], key)[key(live[0].obj) := live[0]]
  }

  ghost predicate KeyUsed<T, K>(live: seq<HNode<T>>, key: T -> K, p: K) {
    exists x :: x in live && key(x.obj) == p
  }

  /** No two entries of the map have the same key. */
  ghost predicate UniqueKeys<T, K>(live: seq<HNode<T>>, key: T -> K) {
    live == [] || (!KeyUsed(live[1..], key, key(live[0].obj)) && UniqueKeys(live[1..], key))
  }

  /** Both indexes hold the same entries, each in the trie at its own prefix, and all counters agree. */
  ghost predicate SameEntries<T>(s: State<T>, key: T -> Path) {
    && Distinct(s.live) && UniqueKeys(s.live, key)
    && s.trie == Indexed(s.live, key)
    && s.entryNum == s.n == s.count == Wrap32(|s.live|)
  }

  /** What agreement means: the trie holds exactly the entries of the map, each under its prefix. */
  lemma {:induction false} IndexedHolds<T>(live: seq<HNode<T>>, key: T -> Path)
    ensures forall p :: p in Indexed(live, key) <==> KeyUsed(live, key, p)
    ensures forall p :: p in Indexed(live, key) ==>
      Indexed(live, key)[p] in live && key(Indexed(live, key)[p].obj) == p
    ensures UniqueKeys(live, key) ==>
      forall x :: x in live ==> key(x.obj) in Indexed(live, key) && Indexed(live, key)[key(x.obj)] == x
  {
    if live != [] {
      IndexedHolds(live[1..], key);
      forall p
        ensures KeyUsed(live, key, p) <==> p == key(live[0].obj) || KeyUsed(live[1..], key, p)
      {
        if p == key(live[0].obj) { assert live[0] in live; }
      }
    }
  }

  /** Deleting an entry and its prefix keeps the indexes together if and only if no other entry of the map has the
      same prefix. */
  lemma RemovedAgrees<T>(live: seq<HNode<T>>, key: T -> Path, x: HNode<T>)
    requires Distinct(live) && x in live
    ensures Indexed(Removed(live, x), key) == Indexed(live, key) - {key(x.obj)} <==>
            !KeyUsed(Removed(live, x), key, key(x.obj))
  {
    IndexedHolds(Removed(live, x), key);
    if !KeyUsed(Removed(live, x), key, key(x.obj)) {
      RemovedIndexed(live, key, x);
    }
  }

  lemma {:induction false} RemovedIndexed<T>(live: seq<HNode<T>>, key: T -> Path, x: HNode<T>)
    requires Distinct(live) && !KeyUsed(Removed(live, x), key, key(x.obj))
    ensures Indexed(Removed(live, x), key) == Indexed(live, key) - {key(x.obj)}
  {
    if live != [] {
      if live[0] == x {
        IndexedHolds(live[1..], key);
        PutThenCut(Indexed(live[1..], key), key(x.obj), x);
      } else {
        var rest := Removed(live[1..], x);
        assert Removed(live, x)[1..] == rest && live[0] in Removed(live, x);
        assert forall y :: y in rest ==> y in Removed(live, x);
        RemovedIndexed(live[1..], key, x);
        PutAndCut(Indexed(live[1..], key), key(live[0].obj), live[0], key(x.obj));
      }
    }
  }

  lemma PutThenCut<K, V>(m: map<K, V>, k: K, v: V)
    requires k !in m
    ensures m[k := v] - {k} == m
  {}

  lemma PutAndCut<K, V>(m: map<K, V>, k: K, v: V, p: K)
    requires k != p
    ensures m[k := v] - {p} == (m - {p})[k := v]
  {}

  lemma {:induction false} RemovedUnique<T, K>(live: seq<HNode<T>>, key: T -> K, x: HNode<T>)
    requires Distinct(live) && UniqueKeys(live, key)
    ensures UniqueKeys(Removed(live, x), key)
    ensures x in live ==> !KeyUsed(Removed(live, x), key, key(x.obj))
  {
    if live != [] {
      var rest := Removed(live[1..], x);
      RemovedMembers(live[1..], x);
      if live[0] != x {
        RemovedUnique(live[1..], key, x);
        assert Removed(live, x) == [live[0]] + rest && ([live[0]] + rest)[1..] == rest;
        assert KeyUsed(rest, key, key(live[0].obj)) ==> KeyUsed(live[1..], key, key(live[0].obj));
        if x in live[1..] { assert key(x.obj) != key(live[0].obj); }
      }
    }
  }

  /** One step keeps the two indexes together if and only if it does not insert a prefix that is in use. The
      program does not check that. */
  lemma StepAgrees<T>(s: State<T>, op: Op<T>, key: T -> Path)
    requires SameEntries(s, key) && Legal(s, op, key)
    ensures SameEntries(Step(s, op, key, true), key) <==> (op.Insert? ==> key(op.node.obj) !in s.trie)
  {
    match op
    case Insert(x) => InsertAgrees(s, x, key);
    case Remove(x, reached) => RemoveAgrees(s, x, reached, key);
  }

  lemma InsertAgrees<T>(s: State<T>, x: HNode<T>, key: T -> Path)
    requires SameEntries(s, key) && x !in s.live
    ensures SameEntries(Step(s, Insert(x), key, true), key) <==> key(x.obj) !in s.trie
  {
    IndexedHolds(s.live, key);
    var live := [x] + s.live;
    assert live[1..] == s.live && |live| == |s.live| + 1;
  }

  lemma RemoveAgrees<T>(s: State<T>, x: HNode<T>, reached: bool, key: T -> Path)
    requires SameEntries(s, key) && Legal(s, Remove(x, reached), key)
    ensures SameEntries(Step(s, Remove(x, reached), key, true), key)
  {
    IndexedHolds(s.live, key);
    RemovedMembers(s.live, x);
    RemovedUnique(s.live, key, x);
    RemovedIndexed(s.live, key, x);
    OneLess(|s.live|);
  }

  lemma OneLess(n: nat)
    ensures Wrap32(Wrap32(n) - 1) == Wrap32(n - 1)
  {}

  /** A modification, which deletes one entry and inserts another, keeps the indexes together if and only if the new
      entry's prefix is not that of a third one. */
  lemma ExchangeAgrees<T>(s: State<T>, gone: HNode<T>, reached: bool, come: HNode<T>, key: T -> Path)
    requires SameEntries(s, key) && Legal(s, Remove(gone, reached), key) && come !in Removed(s.live, gone)
    ensures SameEntries(Step(Step(s, Remove(gone, reached), key, true), Insert(come), key, true), key) <==>
            key(come.obj) !in s.trie - {key(gone.obj)}
  {
    RemovedMembers(s.live, gone);
    StepAgrees(s, Remove(gone, reached), key);
    StepAgrees(Step(s, Remove(gone, reached), key, true), Insert(come), key);
  }

  function Run<T>(s: State<T>, ops: seq<Op<T>>, key: T -> Path): State<T>
    decreases |ops|
  {
    if ops == [] then s else Run(Step(s, ops[0], key, true), ops[1..], key)
  }

  /** Along the whole run each step is legal and each insertion brings a prefix not in use. */
  predicate AllFresh<T>(s: State<T>, ops: seq<Op<T>>, key: T -> Path)
    decreases |ops|
  {
    ops == [] ||
    (&& Legal(s, ops[0], key) && (ops[0].Insert? ==> key(ops[0].node.obj) !in s.trie)
     && AllFresh(Step(s, ops[0], key, true), ops[1..], key))
  }

  /** After every run of additions, modifications and deletions with prefixes not in use, starting empty or from
      any agreement, both indexes hold the same entries. A modification is a deletion and an insertion. */
  lemma {:induction false} RunAgrees<T>(s: State<T>, ops: seq<Op<T>>, key: T -> Path)
    requires SameEntries(s, key) && AllFresh(s, ops, key)
    ensures SameEntries(Run(s, ops, key), key)
    decreases |ops|
  {
    if ops != [] {
      StepAgrees(s, ops[0], key);
      RunAgrees(Step(s, ops[0], key, true), ops[1..], key);
    }
  }

  /** Two entries with one prefix, then deleting the older one: the newer is still in the hash map and counted, but
      no lookup finds it any more. */
  lemma DuplicateIsLost<T>(a: HNode<T>, b: HNode<T>, key: T -> Path)
    requires a != b && key(a.obj) == key(b.obj)
    ensures var s := Run(State([], map[], 0, 0, 0), [Insert(a), Insert(b), Remove(a, true)], key);
            s.live == [b] && s.entryNum == 1 && s.trie == map[]
  {
    var ops := [Insert(a), Insert(b), Remove(a, true)];
    var s0 := State([], map[], 0, 0, 0);
    var s1 := Step(s0, ops[0], key, true);
    var s2 := Step(s1, ops[1], key, true);
    var s3 := Step(s2, ops[2], key, true);
    assert ops[1..][0] == ops[1] && ops[1..][1..] == ops[2..] && ops[2..][1..] == [];
    assert Run(s0, ops, key) == Run(s2, ops[2..], key) == Run(s3, [], key);
    assert s2.live == [b, a] && [b, a][1..] == [a] && [a][1..] == [];
    assert Removed([a], a) == [] && Removed([b, a], a) == [b];
  }
}
