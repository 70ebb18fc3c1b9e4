/** One flow table: its two indexes, the flow messages that change them and the lookups:
    local_resource/pof_flow_table.c. */
module FlowTable {
  import opened Bits
  import opened Bitfield
  import opened Datapath
  import opened Chains
  import opened HashMap
  import opened Trie
  import opened Matching
  import opened TwoIndexes
  import opened Prefixes

  const MM_TABLE := 0
  const LPM_TABLE := 1
  const EM_TABLE := 2
  const LINEAR_TABLE := 3
  const MAX_TABLE_TYPE := 4

  /** The parts of struct pof_flow_entry that a table looks at. */
  datatype FlowEntry = FlowEntry(index: nat, counter_id: nat, priority: nat, matches: seq<MatchX>)
  {
    predicate Valid() {
      |matches| <= MAX_MATCH_FIELDS && Layout(matches)
    }
  }

  datatype Outcome = Done | BadEntryId | EntryUnexist | CounterFailed | Unknown

  /** The entry that entryFill makes of a message: only MM and LPM entries have a mask, only linear ones no value. */
  ghost function EntryOf(flow: FlowEntry, tableType: nat): (e: Entry)
    requires flow.Valid()
  {
    var zeros := Fill(false, 8 * BUFFER_LEN);
    if tableType == LINEAR_TABLE then Entry(flow.index, flow.counter_id, 0, Zeros(), Zeros())
    else Entry(flow.index, flow.counter_id, flow.priority, Pack(Assembled(zeros, flow.matches, false)),
               if tableType == EM_TABLE then Zeros() else Pack(Assembled(zeros, flow.matches, true)))
  }

  lemma ZeroBits()
    ensures BitsOf(Zeros()) == Fill(false, 8 * BUFFER_LEN)
  {
    forall i | 0 <= i < 8 * BUFFER_LEN
      ensures !BitsOf(Zeros())[i]
    {
      BitsUpToAt(Zeros(), 8 * BUFFER_LEN, i);
    }
  }

  /** Assembling a message's values, and unless noMask its masks, into zeroed buffers. */
  method AssembleEntry(flow: FlowEntry, noMask: bool, keyLen: nat) returns (ok: bool, value: buffer, mask: buffer)
    requires flow.Valid()
    ensures ok <==> Total(flow.matches) == keyLen
    ensures value == Pack(Assembled(Fill(false, 8 * BUFFER_LEN), flow.matches, false))
    ensures mask == if noMask then Zeros() else Pack(Assembled(Fill(false, 8 * BUFFER_LEN), flow.matches, true))
  {
    var v := new byte[BUFFER_LEN](_ => ZERO);
    var m := new byte[BUFFER_LEN](_ => ZERO);
    ZeroBits();
    assert v[..] == Zeros() && m[..] == Zeros();
    ok := ValueMaskAssemble(flow.matches, v, if noMask then null else m, keyLen);
    value, mask := v[..], m[..];
    BitsOfInjective(value, Pack(Assembled(Fill(false, 8 * BUFFER_LEN), flow.matches, false)));
    if !noMask {
      BitsOfInjective(mask, Pack(Assembled(Fill(false, 8 * BUFFER_LEN), flow.matches, true)));
    }
  }

  lemma SameFirstBits(s: seq<byte>, t: seq<byte>, n: nat, m: nat)
    requires n <= |s| && n <= |t| && m <= 8 * n && forall k :: 0 <= k < n ==> s[k] == t[k]
    ensures BitsOf(s)[..m] == BitsOf(t)[..m]
  {
    forall k | 0 <= k < m
      ensures BitsOf(s)[k] == BitsOf(t)[k]
    {
      BitsUpToAt(s, 8 * |s|, k);
      BitsUpToAt(t, 8 * |t|, k);
    }
  }

  lemma ZeroSeqBits(n: nat)
    ensures BitsOf(seq(n, _ => ZERO)) == Fill(false, 8 * n)
  {
    var s := seq(n, _ => ZERO);
    forall i | 0 <= i < 8 * n
      ensures !BitsOf(s)[i]
    {
      BitsUpToAt(s, 8 * n, i);
    }
  }

  /** The table's fields can be read and fill a key of keyLen bits. */
  predicate KeyFits(fields: seq<Field>, packetBytes: nat, metadataBytes: nat, keyLen: nat) {
    && |fields| <= MAX_MATCH_FIELDS && FieldLayout(fields) && 0 < TotalLen(fields) == keyLen
    && AllReadable(fields, packetBytes, metadataBytes)
  }

  /** The key that a packet is looked up by: its fields, zero-padded to whole bytes. */
  function PacketKey(fields: seq<Field>, packet: seq<byte>, metadata: seq<byte>, keyLen: nat): (key: seq<byte>)
    requires KeyFits(fields, |packet|, |metadata|, keyLen)
    ensures |key| == CeilBytes(keyLen)
  {
    Pack(KeyBits(fields, packet, metadata) + Fill(false, 8 * CeilBytes(keyLen) - keyLen))
  }

  lemma EntryOfBits(flow: FlowEntry, tableType: nat, value: seq<byte>, mask: seq<byte>)
    requires flow.Valid() && (tableType == MM_TABLE || tableType == LPM_TABLE)
    requires value == EntryOf(flow, tableType).value && mask == EntryOf(flow, tableType).mask
    ensures |value| == |mask| == BUFFER_LEN && Total(flow.matches) <= 8 * BUFFER_LEN
    ensures BitsOf(value) == Assembled(Fill(false, 8 * |value|), flow.matches, false)
    ensures BitsOf(mask) == Assembled(Fill(false, 8 * |mask|), flow.matches, true)
  {}

  lemma PacketKeyBits(fields: seq<Field>, packet: seq<byte>, metadata: seq<byte>, keyLen: nat, key: seq<byte>)
    requires KeyFits(fields, |packet|, |metadata|, keyLen) && key == PacketKey(fields, packet, metadata, keyLen)
    ensures keyLen == TotalLen(fields) && |key| == CeilBytes(keyLen) && keyLen <= 8 * |key|
    ensures BitsOf(key) == KeyBits(fields, packet, metadata) + Fill(false, 8 * |key|)[keyLen..]
  {
    assert Fill(false, 8 * |key|)[keyLen..] == Fill(false, 8 * |key| - keyLen);
  }

  /** The key holds each field of the packet behind the fields before it. */
  lemma PacketKeyHolds(fields: seq<Field>, packet: seq<byte>, metadata: seq<byte>, keyLen: nat, key: seq<byte>, k: nat)
    requires KeyFits(fields, |packet|, |metadata|, keyLen) && key == PacketKey(fields, packet, metadata, keyLen)
    requires k < |fields|
    ensures HoldsField(key, TotalLen(fields[..k]), fields[k], packet, metadata)
  {
    PacketKeyBits(fields, packet, metadata, keyLen, key);
    FieldLayoutPrefix(fields, k);
    assert BitsOf(key)[..keyLen] == KeyBits(fields, packet, metadata);
    KeyHolds(fields, packet, metadata, key, k, TotalLen(fields[..k]));
  }

  /** The comparison of a lookup is the per-field comparison: the entry made of a message matches the key made of a
      packet if and only if each of its fields matches and no two stray bits clash behind the key. */
  lemma LookupMatchesFields(flow: FlowEntry, tableType: nat, fields: seq<Field>, packet: seq<byte>,
                            metadata: seq<byte>, keyLen: nat)
    requires flow.Valid() && (tableType == MM_TABLE || tableType == LPM_TABLE) && keyLen <= 8 * BUFFER_LEN
    requires SameLengths(flow.matches, fields) && KeyFits(fields, |packet|, |metadata|, keyLen)
    ensures EntryMatches(EntryOf(flow, tableType), PacketKey(fields, packet, metadata, keyLen), keyLen) <==>
            AllFieldsMatch(flow.matches, fields, packet, metadata)
            && !StraysClash(flow.matches, keyLen, 8 * CeilBytes(keyLen))
  {
    var e, key := EntryOf(flow, tableType), PacketKey(fields, packet, metadata, keyLen);
    PacketKeyBits(fields, packet, metadata, keyLen, key);
    EntryOfBits(flow, tableType, e.value, e.mask);
    PackedMatching(flow.matches, fields, packet, metadata, keyLen, e.value, e.mask, key);
  }

  /** The bytes that the entry made of a message is hashed by are the key made of a packet if and only if the packet
      has the message's value in every field and no stray bit of the values lies behind the key. */
  lemma HashedBytesAreKey(flow: FlowEntry, fields: seq<Field>, packet: seq<byte>, metadata: seq<byte>, keyLen: nat,
                          key: seq<byte>)
    requires flow.Valid() && keyLen <= 8 * BUFFER_LEN
    requires SameLengths(flow.matches, fields) && KeyFits(fields, |packet|, |metadata|, keyLen)
    requires key == PacketKey(fields, packet, metadata, keyLen)
    ensures EntryOf(flow, EM_TABLE).value[..CeilBytes(keyLen)] == key <==>
            AllFieldsEqual(flow.matches, fields, packet, metadata)
            && NoStrays(flow.matches, keyLen, 8 * CeilBytes(keyLen))
  {
    var value := EntryOf(flow, EM_TABLE).value;
    PacketKeyBits(fields, packet, metadata, keyLen, key);
    PackedEqual(flow.matches, fields, packet, metadata, keyLen, value, key, 8 * CeilBytes(keyLen));
  }

  /** The first entry with an index. */
  function FirstWithIndex(order: seq<HNode<Entry>>, index: nat): HNode?<Entry> {
    if order == [] then null
    else if order[0].obj.index == index then order[0]
    else FirstWithIndex(order[1..], index)
  }

  /** The index search finds an entry if and only if there is one, and then the first one. */
  lemma {:induction false} FirstWithIndexAt(s: seq<HNode<Entry>>, index: nat, k: nat)
    requires k <= |s| && (forall j :: 0 <= j < k ==> s[j].obj.index != index)
    requires k < |s| ==> s[k].obj.index == index
    ensures FirstWithIndex(s, index) == NextOf(s, k - 1)
    decreases k
  {
    if k > 0 { FirstWithIndexAt(s[1..], index, k - 1); }
  }

  lemma {:induction false} FirstWithIndexMeaning(order: seq<HNode<Entry>>, index: nat) returns (k: nat)
    ensures FirstWithIndex(order, index) == null <==> forall j :: 0 <= j < |order| ==> order[j].obj.index != index
    ensures FirstWithIndex(order, index) != null ==>
      k < |order| && order[k] == FirstWithIndex(order, index) && order[k].obj.index == index
      && forall j :: 0 <= j < k ==> order[j].obj.index != index
  {
    k := 0;
    if order != [] && order[0].obj.index != index {
      k := FirstWithIndexMeaning(order[1..], index);
      k := k + 1;
      assert forall j :: 0 < j < |order| ==> order[j] == order[1..][j - 1];
    }
  }

  class TableInfo {
    const tableType: nat
    const size: nat
    const keyLen: nat
    const fields: seq<Field>
    const entryMap: HMap<Entry>
    const tree: Tree<HNode<Entry>>    // only longest-prefix-match tables use it
    const hashForBytes: seq<byte> -> nat
    var entryNum: nat
    ghost const prefix: Entry -> Path
    ghost var Repr: set<object>       // all memory of the table, also what it no longer uses

    ghost predicate Valid()
      reads this, entryMap, entryMap.buckets, entryMap.live, tree, tree.Repr
    {
      && tableType < MAX_TABLE_TYPE && keyLen <= 8 * BUFFER_LEN
      && (forall e: Entry {:trigger prefix(e)} :: prefix(e) == Prefix(e, keyLen))
      && entryMap.Valid() && tree.Valid() && entryNum == entryMap.n && Hashed(entryMap.live)
    }

    /** Exact-match entries are stored under the hash of their compared value bytes, all others under their index. */
    ghost predicate Hashed(live: seq<HNode<Entry>>)
      requires keyLen <= 8 * BUFFER_LEN
    {
      forall x :: x in live ==>
        x.hash == if tableType == EM_TABLE then hashForBytes(x.obj.value[..CeilBytes(keyLen)]) else x.obj.index
    }

    predicate IsLpm() {
      tableType == LPM_TABLE
    }

    /** Both indexes and their counters. */
    ghost function Indexes(): State<Entry>
      reads this, entryMap, tree
    {
      State(entryMap.live, tree.contents, entryNum, entryMap.n, tree.count)
    }

    /** The table has taken in new memory at most: the node, if any, and the trie's. */
    twostate predicate Grown(new node: HNode?<Entry>)
      reads this, entryMap, tree
    {
      && (node != null ==> fresh(node)) && (forall x :: x in tree.Repr ==> x in old(tree.Repr) || fresh(x))
      && (forall k :: 0 <= k < |entryMap.live| ==>
            entryMap.live[k] in old(entryMap.live) || entryMap.live[k] == node)
    }

    /** The table is valid and its memory is in Repr. */
    ghost predicate Sound()
      reads this, Repr
    {
      && this in Repr && entryMap in Repr && entryMap.buckets in Repr && tree in Repr
      && (forall k :: 0 <= k < |entryMap.live| ==> entryMap.live[k] in Repr) && tree.Repr <= Repr && Valid()
    }

    /** The table part of poflr_create_flow_table. */
    constructor (tableType: nat, keyLen: nat, size: nat, fields: seq<Field>, hashForBytes: seq<byte> -> nat)
      requires tableType < MAX_TABLE_TYPE && keyLen <= 8 * BUFFER_LEN && size < 0x1_0000_0000
      ensures Valid() && Indexes() == State([], map[], 0, 0, 0) && tree.DepthAtMost(keyLen)
      ensures this.tableType == tableType && this.keyLen == keyLen && this.size == size && this.fields == fields
      ensures Sound() && fresh(Repr)
    {
      this.tableType, this.keyLen, this.size, this.fields := tableType, keyLen, size, fields;
      this.hashForBytes := hashForBytes;
      entryMap := new HMap<Entry>(size);
      tree := new Tree<HNode<Entry>>();
      entryNum := 0;
      prefix := (e: Entry) => if keyLen <= 8 * BUFFER_LEN then Prefix(e, keyLen) else [];
      new;
      Repr := {this, entryMap, entryMap.buckets, tree} + tree.Repr;
    }

    /** entryFill: the entry and its hash. */
    method EntryFill(flow: FlowEntry) returns (ok: bool, e: Entry, hash: nat)
      requires flow.Valid() && tableType < MAX_TABLE_TYPE && keyLen <= 8 * BUFFER_LEN
      ensures ok <==> tableType == LINEAR_TABLE || Total(flow.matches) == keyLen
      ensures e == EntryOf(flow, tableType)
      ensures hash == if tableType == EM_TABLE then hashForBytes(e.value[..CeilBytes(keyLen)]) else flow.index
    {
      if tableType == LINEAR_TABLE {
        return true, Entry(flow.index, flow.counter_id, 0, Zeros(), Zeros()), flow.index;
      }
      var value, mask;
      ok, value, mask := AssembleEntry(flow, tableType == EM_TABLE, keyLen);
      e := Entry(flow.index, flow.counter_id, flow.priority, value, mask);
      hash := if tableType == EM_TABLE then hashForBytes(value[..CeilBytes(keyLen)]) else flow.index;
    }

    /** The local buffer of lpmInsert and lpmDelete: the entry's compared bytes in front. */
    method PrefixBuffer(e: Entry) returns (bitNum: nat, value: array<byte>)
      requires keyLen <= 8 * BUFFER_LEN
      ensures fresh(value) && value.Length == BUFFER_LEN && bitNum == PrefixLen(e, keyLen) <= 8 * BUFFER_LEN
      ensures BitsOf(value[..])[..bitNum] == Prefix(e, keyLen)
    {
      var n := CeilBytes(keyLen);
      bitNum := Get1sCountInBytes(e.mask, n);
      value := new byte[BUFFER_LEN](_ => ZERO);
      var i := 0;
      while i < n
        invariant i <= n
        invariant forall k :: 0 <= k < i ==> value[k] == e.value[k]
      {
        value[i] := e.value[i];
        i := i + 1;
      }
      SameFirstBits(value[..], e.value, n, bitNum);
    }

    /** lpmInsert. */
    method LpmInsert(node: HNode<Entry>)
      requires Valid()
      modifies tree, tree.Repr
      ensures Valid() && fresh(tree.Repr - old(tree.Repr))
      ensures tree.contents == old(tree.contents)[prefix(node.obj) := node] && tree.count == Wrap32(old(tree.count) + 1)
      ensures |prefix(node.obj)| <= keyLen && old(tree.DepthAtMost(keyLen)) ==> tree.DepthAtMost(keyLen)
    {
      var bitNum, value := PrefixBuffer(node.obj);
      tree.NodeInsert(node, value, bitNum);
    }

    /** lpmDelete; its callers ignore the answer. */
    method LpmDelete(node: HNode<Entry>) returns (reached: bool)
      requires Valid()
      modifies tree, tree.Repr
      ensures Valid() && tree.Repr == old(tree.Repr)
      ensures tree.contents == old(tree.contents) - {prefix(node.obj)}
      ensures prefix(node.obj) in old(tree.contents) ==> reached
      ensures tree.count == if reached then Wrap32(old(tree.count) - 1) else old(tree.count)
      ensures old(tree.DepthAtMost(keyLen)) ==> tree.DepthAtMost(keyLen)
    {
      var bitNum, value := PrefixBuffer(node.obj);
      reached := tree.NodeDelete(value, bitNum);
    }

    /** The hash map's part of entryInsert. */
    method MapInsert(e: Entry, hash: nat) returns (node: HNode<Entry>)
      requires Valid()
      requires hash == if tableType == EM_TABLE then hashForBytes(e.value[..CeilBytes(keyLen)]) else e.index
      modifies this`entryNum, entryMap, entryMap.buckets
      ensures Valid() && fresh(node) && node.obj == e && node.hash == hash && node !in old(entryMap.live)
      ensures entryMap.live == [node] + old(entryMap.live)
      ensures entryMap.n == Wrap32(old(entryMap.n) + 1) && entryNum == Wrap32(old(entryNum) + 1)
    {
      node := new HNode<Entry>(e, hash);
      entryMap.NodeInsert(node);
      entryNum := Wrap32(entryNum + 1);
    }

    /** The hash map's part of entryDelete. */
    method MapDelete(node: HNode<Entry>)
      requires Valid() && node in entryMap.live
      modifies this`entryNum, entryMap, entryMap.buckets, entryMap.live
      ensures Valid() && entryMap.live == Removed(old(entryMap.live), node)
      ensures entryMap.n == Wrap32(old(entryMap.n) - 1) && entryNum == Wrap32(old(entryNum) - 1)
    {
      RemovedSubset(entryMap.live, node, entryMap.live);
      entryMap.NodeDelete(node);
      entryNum := Wrap32(entryNum - 1);
    }

    /** The node is now the most recent one of the map and counted, and on a longest-prefix-match table the trie has
        it under its prefix. */
    ghost predicate Inserted(was: State<Entry>, now: State<Entry>, node: HNode<Entry>) {
      && now.live == [node] + was.live && now.n == Wrap32(was.n + 1) && now.entryNum == Wrap32(was.entryNum + 1)
      && now.trie == (if tableType == LPM_TABLE then was.trie[prefix(node.obj) := node] else was.trie)
      && now.count == (if tableType == LPM_TABLE then Wrap32(was.count + 1) else was.count)
    }

    /** The node is no longer in the map or counted, and on a longest-prefix-match table its prefix is not in the
        trie. */
    ghost predicate Withdrawn(was: State<Entry>, now: State<Entry>, node: HNode<Entry>) {
      && now.live == Removed(was.live, node) && now.n == Wrap32(was.n - 1) && now.entryNum == Wrap32(was.entryNum - 1)
      && now.trie == (if tableType == LPM_TABLE then was.trie - {prefix(node.obj)} else was.trie)
    }

    /** The node carries what the message gives it. */
    ghost predicate Carries(node: HNode<Entry>, flow: FlowEntry) {
      && keyLen <= 8 * BUFFER_LEN
      && node.obj.index == flow.index && node.obj.counter_id == flow.counter_id
      && (tableType != LINEAR_TABLE ==> node.obj.priority == flow.priority)
      && node.hash == if tableType == EM_TABLE then hashForBytes(node.obj.value[..CeilBytes(keyLen)]) else flow.index
    }

    /** Both inserts of entryInsert. */
    method Store(e: Entry, hash: nat) returns (node: HNode<Entry>)
      requires Valid()
      requires hash == if tableType == EM_TABLE then hashForBytes(e.value[..CeilBytes(keyLen)]) else e.index
      modifies this`entryNum, entryMap, entryMap.buckets, tree, tree.Repr
      ensures Valid() && Grown(node)
      ensures fresh(node) && node.obj == e && node.hash == hash && node !in old(entryMap.live)
      ensures Inserted(old(Indexes()), Indexes(), node)
      ensures Indexes() == Step(old(Indexes()), Insert(node), prefix, IsLpm())
      ensures |prefix(e)| <= keyLen && old(tree.DepthAtMost(keyLen)) ==> tree.DepthAtMost(keyLen)
    {
      node := MapInsert(e, hash);
      if IsLpm() {
        LpmInsert(node);
      }
    }

    /** entryInsert. A message that cannot be filled in changes nothing. */
    method EntryInsert(flow: FlowEntry) returns (ok: bool, ghost node: HNode?<Entry>)
      requires Valid() && flow.Valid()
      modifies this`entryNum, entryMap, entryMap.buckets, tree, tree.Repr
      ensures Valid() && Grown(node)
      ensures ok <==> tableType == LINEAR_TABLE || Total(flow.matches) == keyLen
      ensures !ok ==> Indexes() == old(Indexes())
      ensures ok ==> node != null && fresh(node) && node.obj == EntryOf(flow, tableType) && node !in old(entryMap.live)
      ensures ok ==> Carries(node, flow) && Inserted(old(Indexes()), Indexes(), node)
      ensures ok ==> Indexes() == Step(old(Indexes()), Insert(node), prefix, IsLpm())
      ensures (ok ==> |prefix(node.obj)| <= keyLen) && old(tree.DepthAtMost(keyLen)) ==> tree.DepthAtMost(keyLen)
    {
      var e, hash;
      node := null;
      ok, e, hash := EntryFill(flow);
      if ok {
        node := Store(e, hash);
      }
    }

    /** entryDelete. */
    method EntryDelete(node: HNode<Entry>) returns (ghost reached: bool)
      requires Valid() && node in entryMap.live
      modifies this`entryNum, entryMap, entryMap.buckets, entryMap.live, tree, tree.Repr
      ensures Valid() && Grown(null) && tree.Repr == old(tree.Repr)
      ensures Legal(old(Indexes()), Remove(node, reached), prefix)
      ensures Withdrawn(old(Indexes()), Indexes(), node)
      ensures Indexes() == Step(old(Indexes()), Remove(node, reached), prefix, IsLpm())
      ensures old(tree.DepthAtMost(keyLen)) ==> tree.DepthAtMost(keyLen)
    {
      RemovedSubset(entryMap.live, node, entryMap.live);
      MapDelete(node);
      reached := true;
      if IsLpm() {
        var found := LpmDelete(node);
        reached := found;
      }
    }

    /** poflr_entry_get_with_index: the first entry with the index in the order of traversal. */
    method EntryGetWithIndex(index: nat) returns (entry: HNode?<Entry>)
      requires Valid()
      ensures entry == FirstWithIndex(entryMap.Order(), index)
      ensures var order := entryMap.Order();
        if entry == null then forall k :: 0 <= k < |order| ==> order[k].obj.index != index
        else exists k :: 0 <= k < |order| && order[k] == entry && entry.obj.index == index
                         && forall j :: 0 <= j < k ==> order[j].obj.index != index
    {
      ghost var order, k := entryMap.Order(), 0;
      entry := entryMap.NodeFirst();
      while entry != null
        invariant k <= |order| && entry == NextOf(order, k - 1)
        invariant forall j :: 0 <= j < k ==> order[j].obj.index != index
        decreases |order| - k
      {
        if entry.obj.index == index {
          FirstWithIndexAt(order, index, k);
          return;
        }
        entryMap.OrderAt(k);
        entry := entryMap.NodeNext(entry);
        k := k + 1;
      }
      FirstWithIndexAt(order, index, k);
    }

    /** entryLookup_MM. */
    method EntryLookupMM(key: seq<byte>) returns (best: HNode?<Entry>)
      requires Valid() && CeilBytes(keyLen) <= |key|
      ensures best == Best(entryMap.Order(), key, keyLen, false)
    {
      ghost var order, k := entryMap.Order(), 0;
      best := null;
      var entry := entryMap.NodeFirst();
      assert order[..0] == [];
      while entry != null
        invariant k <= |order| && entry == NextOf(order, k - 1)
        invariant best == Best(order[..k], key, keyLen, false)
        decreases |order| - k
      {
        entryMap.OrderAt(k);
        var next := entryMap.NodeNext(entry);
        BestSnoc(order, k, key, keyLen, false);
        var matches := MaskMatch(entry.obj.mask, entry.obj.value, key, keyLen);
        if matches {
          if best == null {
            best := entry;
          } else if best.obj.priority < entry.obj.priority {
            best := entry;
          }
        }
        entry := next;
        k := k + 1;
      }
      assert order[..k] == order;
    }

    /** entryLookup_LPM without the trie: the linear reference scan. */
    method EntryLookupLpmScan(key: seq<byte>) returns (best: HNode?<Entry>)
      requires Valid() && CeilBytes(keyLen) <= |key|
      ensures best == Best(entryMap.Order(), key, keyLen, true)
    {
      ghost var order, k := entryMap.Order(), 0;
      best := null;
      var bitNum := 0;
      var entry := entryMap.NodeFirst();
      assert order[..0] == [];
      while entry != null
        invariant k <= |order| && entry == NextOf(order, k - 1)
        invariant best == Best(order[..k], key, keyLen, true)
        invariant bitNum == if best == null then 0 else PrefixLen(best.obj, keyLen)
        decreases |order| - k
      {
        entryMap.OrderAt(k);
        var next := entryMap.NodeNext(entry);
        best, bitNum := CompareLpm(key, entry, best, bitNum, order, k);
        entry := next;
        k := k + 1;
      }
      assert order[..k] == order;
    }

    /** The body of the reference scan. */
    method CompareLpm(key: seq<byte>, entry: HNode<Entry>, ret: HNode?<Entry>, len: nat, ghost order: seq<HNode<Entry>>,
                      ghost k: nat) returns (best: HNode?<Entry>, bitNum: nat)
      requires keyLen <= 8 * BUFFER_LEN && CeilBytes(keyLen) <= |key|
      requires k < |order| && order[k] == entry && ret == Best(order[..k], key, keyLen, true)
      requires len == if ret == null then 0 else PrefixLen(ret.obj, keyLen)
      ensures best == Best(order[..k + 1], key, keyLen, true)
      ensures bitNum == if best == null then 0 else PrefixLen(best.obj, keyLen)
    {
      best, bitNum := ret, len;
      BestSnoc(order, k, key, keyLen, true);
      var matches := MaskMatch(entry.obj.mask, entry.obj.value, key, keyLen);
      if matches {
        var tmp := Get1sCountInBytes(entry.obj.mask, CeilBytes(keyLen));
        if tmp > bitNum {
          bitNum := tmp;
          best := entry;
        }
      }
    }

    /** lpmLookup. The trie walk shifts the key away. */
    method LpmLookup(key: array<byte>) returns (entry: HNode?<Entry>)
      requires Valid() && 0 < key.Length && CeilBytes(keyLen) <= key.Length
      requires tree.DepthAtMost(keyLen)
      modifies key
      ensures entry == Found(LongestPrefix(tree.contents, old(BitsOf(key[..])[..keyLen]), keyLen))
    {
      var p := tree.NodeLookup(key, keyLen);
      entry := if p.Null? then null else p.value;
    }

    /** What a lookup answers for a key. */
    ghost function Answer(key: seq<byte>): HNode?<Entry>
      requires keyLen <= 8 * BUFFER_LEN && CeilBytes(keyLen) <= |key|
      reads this, entryMap, tree
    {
      if tableType == MM_TABLE then Best(entryMap.Order(), key, keyLen, false)
      else if IsLpm() then Found(LongestPrefix(tree.contents, BitsOf(key)[..keyLen], keyLen))
      else FirstWithHash(entryMap.live, hashForBytes(key))
    }

    /** poflr_entry_lookup. The key is allocated zeroed; the table's fields must fill it, and a linear table has no
        lookup by key. */
    method EntryLookup(packet: seq<byte>, metadata: seq<byte>) returns (entry: HNode?<Entry>)
      requires Valid() && tableType != LINEAR_TABLE && KeyFits(fields, |packet|, |metadata|, keyLen)
      requires IsLpm() ==> tree.DepthAtMost(keyLen)
      ensures entry == Answer(PacketKey(fields, packet, metadata, keyLen))
    {
      var key := new byte[CeilBytes(keyLen)](_ => ZERO);
      assert key[..] == seq(CeilBytes(keyLen), _ => ZERO);
      KeyAssemble(key, packet, metadata, fields);
      ZeroSeqBits(CeilBytes(keyLen));
      BitsOfInjective(key[..], PacketKey(fields, packet, metadata, keyLen));
      if tableType == MM_TABLE {
        entry := EntryLookupMM(key[..]);
      } else if IsLpm() {
        entry := LpmLookup(key);
      } else {
        entry := entryMap.NodeGetWithHash(hashForBytes(key[..]));
      }
    }

    /** On a table whose indexes agree and whose masks are prefixes, the trie lookup is the reference scan, except
        that it also finds the entry without mask bits when nothing else matches. */
    lemma LpmLookupIsScan(key: seq<byte>)
      requires Valid() && SameEntries(Indexes(), prefix) && 0 < keyLen && CeilBytes(keyLen) <= |key|
      requires forall x :: x in entryMap.live ==> PrefixMask(x.obj, keyLen)
      ensures Found(LongestPrefix(tree.contents, BitsOf(key)[..keyLen], keyLen)) == (
        var scan := Best(entryMap.Order(), key, keyLen, true);
        if scan != null then scan else if [] in tree.contents then tree.contents[[]] else null)
    {
      entryMap.OrderIsLive();
      TrieAnswersScan(entryMap.live, entryMap.Order(), key, keyLen, prefix);
    }

    /** What an addition with the outcome r has done: nothing, or the insertion of the node. */
    ghost predicate Added(was: State<Entry>, now: State<Entry>, flow: FlowEntry, counterOk: bool, r: Outcome,
                          node: HNode?<Entry>)
      requires flow.Valid()
    {
      && r == (if flow.index >= size then BadEntryId
               else if tableType != LINEAR_TABLE && Total(flow.matches) != keyLen then Unknown
               else if !counterOk then CounterFailed else Done)
      && (r == BadEntryId || r == Unknown ==> now == was)
      && (r == CounterFailed || r == Done ==>
            && node != null && node.obj == EntryOf(flow, tableType) && Carries(node, flow)
            && Inserted(was, now, node) && now == Step(was, Insert(node), prefix, IsLpm()))
    }

    /** poflr_add_flow_entry on the table it finds. counterOk: what poflr_counter_init answers. Nothing checks that
        the index or the prefix is new, and a failing counter leaves the entry in the table. */
    method AddEntry(flow: FlowEntry, counterOk: bool) returns (r: Outcome, ghost node: HNode?<Entry>)
      requires Valid() && flow.Valid()
      modifies this`entryNum, entryMap, entryMap.buckets, tree, tree.Repr
      ensures Valid() && Grown(node) && Added(old(Indexes()), Indexes(), flow, counterOk, r, node)
      ensures (r == CounterFailed || r == Done) && IsLpm() && old(SameEntries(Indexes(), prefix)) ==>
        (SameEntries(Indexes(), prefix) <==> prefix(node.obj) !in old(tree.contents))
      ensures (node != null ==> |prefix(node.obj)| <= keyLen) && old(tree.DepthAtMost(keyLen))
              ==> tree.DepthAtMost(keyLen)
    {
      node := null;
      if flow.index >= size {
        return BadEntryId, null;
      }
      ghost var was := Indexes();
      var ok;
      ok, node := EntryInsert(flow);
      if ok && IsLpm() && SameEntries(was, prefix) {
        StepAgrees(was, Insert(node), prefix);
      }
      r := if !ok then Unknown else if !counterOk then CounterFailed else Done;
    }

    /** The first entry with an index, in the order of traversal. */
    ghost function FirstOf(live: seq<HNode<Entry>>, index: nat): HNode?<Entry> {
      FirstWithIndex(Flat(live, entryMap.bucketOf, entryMap.mask + 1, 0), index)
    }

    /** What a modification with the outcome r has done: nothing, the deletion of the entry with the message's index,
        or its replacement by the node. */
    ghost predicate Modified(was: State<Entry>, now: State<Entry>, flow: FlowEntry, counterOk: bool, r: Outcome,
                             gone: HNode?<Entry>, reached: bool, node: HNode?<Entry>)
      requires flow.Valid()
    {
      && gone == FirstOf(was.live, flow.index)
      && r == (if flow.index >= size then BadEntryId
               else if gone == null then EntryUnexist
               else if gone.obj.counter_id != flow.counter_id && !counterOk then CounterFailed
               else if tableType != LINEAR_TABLE && Total(flow.matches) != keyLen then Unknown
               else Done)
      && (r == BadEntryId || r == EntryUnexist || r == CounterFailed ==> now == was)
      && (r == Unknown || r == Done ==>
            gone != null && Legal(was, Remove(gone, reached), prefix)
            && Exchanged(was, now, flow, r == Done, gone, reached, node))
    }

    /** The node gone has been withdrawn, and if ok, the new node has been inserted then. */
    ghost predicate Exchanged(was: State<Entry>, now: State<Entry>, flow: FlowEntry, ok: bool, gone: HNode<Entry>,
                              reached: bool, node: HNode?<Entry>)
      requires flow.Valid()
    {
      var between := Step(was, Remove(gone, reached), prefix, IsLpm());
      && Withdrawn(was, between, gone)
      && if ok then
           && node != null && node.obj == EntryOf(flow, tableType) && Carries(node, flow) && node !in between.live
           && Inserted(between, now, node) && now == Step(between, Insert(node), prefix, IsLpm())
         else now == between
    }

    /** poflr_modify_flow_entry on the table it finds: the old entry is deleted first, and stays deleted if the new
        one cannot be filled in. */
    method ModifyEntry(flow: FlowEntry, counterOk: bool)
      returns (r: Outcome, ghost gone: HNode?<Entry>, ghost reached: bool, ghost node: HNode?<Entry>)
      requires Valid() && flow.Valid()
      modifies this`entryNum, entryMap, entryMap.buckets, entryMap.live, tree, tree.Repr
      ensures Valid() && Grown(node) && Modified(old(Indexes()), Indexes(), flow, counterOk, r, gone, reached, node)
      ensures r == Done && IsLpm() && old(SameEntries(Indexes(), prefix)) ==>
        (SameEntries(Indexes(), prefix) <==> prefix(node.obj) !in old(tree.contents) - {prefix(gone.obj)})
      ensures (node != null ==> |prefix(node.obj)| <= keyLen) && old(tree.DepthAtMost(keyLen))
              ==> tree.DepthAtMost(keyLen)
    {
      reached, node := true, null;
      gone := FirstWithIndex(entryMap.Order(), flow.index);
      if flow.index >= size {
        return BadEntryId, gone, reached, null;
      }
      var entry := EntryGetWithIndex(flow.index);
      if entry == null {
        return EntryUnexist, gone, reached, null;
      }
      if entry.obj.counter_id != flow.counter_id && !counterOk {
        return CounterFailed, gone, reached, null;
      }
      FirstIsLive(flow.index);
      ghost var was := Indexes();
      var ok;
      ok, reached, node := Exchange(entry, flow);
      if ok && IsLpm() && SameEntries(was, prefix) {
        ExchangeAgrees(was, gone, reached, node, prefix);
      }
      r := if !ok then Unknown else Done;
    }

    /** The deletion and the insertion of a modification. */
    method Exchange(entry: HNode<Entry>, flow: FlowEntry)
      returns (ok: bool, ghost reached: bool, ghost node: HNode?<Entry>)
      requires Valid() && flow.Valid() && entry in entryMap.live
      modifies this`entryNum, entryMap, entryMap.buckets, entryMap.live, tree, tree.Repr
      ensures Valid() && Grown(node) && Legal(old(Indexes()), Remove(entry, reached), prefix)
      ensures ok <==> tableType == LINEAR_TABLE || Total(flow.matches) == keyLen
      ensures (node != null ==> |prefix(node.obj)| <= keyLen) && old(tree.DepthAtMost(keyLen))
              ==> tree.DepthAtMost(keyLen)
      ensures Exchanged(old(Indexes()), Indexes(), flow, ok, entry, reached, node)
    {
      reached := EntryDelete(entry);
      ok, node := EntryInsert(flow);
    }

    /** What a deletion with the outcome r has done: nothing, or the deletion of the first entry with the index. */
    ghost predicate Deleted(was: State<Entry>, now: State<Entry>, index: nat, counterOk: bool, r: Outcome,
                            gone: HNode?<Entry>, reached: bool)
    {
      && gone == FirstOf(was.live, index)
      && r == (if index >= size then BadEntryId
               else if gone == null then EntryUnexist
               else if !counterOk then CounterFailed else Done)
      && (r != Done ==> now == was)
      && (r == Done ==> gone != null && Legal(was, Remove(gone, reached), prefix) && Withdrawn(was, now, gone)
                        && now == Step(was, Remove(gone, reached), prefix, IsLpm()))
    }

    /** poflr_delete_flow_entry on the table it finds. counterOk: what poflr_counter_delete answers. */
    method DeleteEntry(index: nat, counterOk: bool) returns (r: Outcome, ghost gone: HNode?<Entry>, ghost reached: bool)
      requires Valid()
      modifies this`entryNum, entryMap, entryMap.buckets, entryMap.live, tree, tree.Repr
      ensures Valid() && Grown(null) && tree.Repr == old(tree.Repr)
      ensures Deleted(old(Indexes()), Indexes(), index, counterOk, r, gone, reached)
      ensures IsLpm() && old(SameEntries(Indexes(), prefix)) ==> SameEntries(Indexes(), prefix)
      ensures old(tree.DepthAtMost(keyLen)) ==> tree.DepthAtMost(keyLen)
    {
      reached := true;
      gone := FirstWithIndex(entryMap.Order(), index);
      if index >= size {
        return BadEntryId, gone, reached;
      }
      var entry := EntryGetWithIndex(index);
      if entry == null {
        return EntryUnexist, gone, reached;
      }
      if !counterOk {
        return CounterFailed, gone, reached;
      }
      FirstIsLive(index);
      ghost var was := Indexes();
      reached := EntryDelete(entry);
      if IsLpm() && SameEntries(was, prefix) {
        StepAgrees(was, Remove(entry, reached), prefix);
      }
      r := Done;
    }

    lemma FirstIsLive(index: nat)
      requires Valid() && FirstWithIndex(entryMap.Order(), index) != null
      ensures FirstWithIndex(entryMap.Order(), index) in entryMap.live
    {
      entryMap.OrderIsLive();
      var k := FirstWithIndexMeaning(entryMap.Order(), index);
    }

    /** The inner loop of poflr_empty_flow_table: every entry is deleted once, in the order of traversal, though
        each deletion unlinks the node that the traversal stands on. */
    method EmptyEntries() returns (ghost deleted: seq<HNode<Entry>>)
      requires Valid()
      modifies this`entryNum, entryMap, entryMap.buckets, entryMap.live, tree, tree.Repr
      ensures Valid() && tree.Repr == old(tree.Repr)
      ensures deleted == old(entryMap.Order()) && Distinct(deleted)
      ensures entryMap.live == [] && entryMap.n == 0 && entryNum == 0
      ensures IsLpm() && old(SameEntries(Indexes(), prefix)) ==> Indexes() == State([], map[], 0, 0, 0)
    {
      entryMap.OrderDistinct();
      ghost var order, live, k := entryMap.Order(), entryMap.live, 0;
      var entry := entryMap.NodeFirst();
      deleted := [];
      while entry != null
        invariant Valid() && tree.Repr == old(tree.Repr)
        invariant forall j :: 0 <= j < |entryMap.live| ==> entryMap.live[j] in live
        invariant k <= |order| && entryMap.Order() == order[k..] && entry == NextOf(order, k - 1)
        invariant deleted == order[..k]
        invariant IsLpm() && old(SameEntries(Indexes(), prefix)) ==> SameEntries(Indexes(), prefix)
        decreases |order| - k
      {
        entry, deleted := DeleteFirst(entry, live, order, k, deleted);
        k := k + 1;
      }
      entryMap.NoOrder();
    }

    /** Accounting for the memory that an addition took. */
    ghost method TakeIn(node: HNode?<Entry>)
      requires Valid() && this in Repr && entryMap in Repr && entryMap.buckets in Repr && tree in Repr
      requires forall k :: 0 <= k < |entryMap.live| ==> entryMap.live[k] in Repr || entryMap.live[k] == node
      modifies this`Repr
      ensures Sound() && Indexes() == old(Indexes())
      ensures Repr == old(Repr) + tree.Repr + if node == null then {} else {node}
    {
      Repr := Repr + tree.Repr + if node == null then {} else {node};
    }

    /** AddEntry, for callers that only know the memory of the table. */
    method Add(flow: FlowEntry, counterOk: bool) returns (r: Outcome, ghost node: HNode?<Entry>)
      requires Sound() && flow.Valid()
      modifies Repr
      ensures Sound() && fresh(Repr - old(Repr)) && Added(old(Indexes()), Indexes(), flow, counterOk, r, node)
    {
      r, node := AddEntry(flow, counterOk);
      TakeIn(node);
    }

    /** ModifyEntry, for the same callers. */
    method Modify(flow: FlowEntry, counterOk: bool)
      returns (r: Outcome, ghost gone: HNode?<Entry>, ghost reached: bool, ghost node: HNode?<Entry>)
      requires Sound() && flow.Valid()
      modifies Repr
      ensures Sound() && fresh(Repr - old(Repr))
      ensures Modified(old(Indexes()), Indexes(), flow, counterOk, r, gone, reached, node)
    {
      r, gone, reached, node := ModifyEntry(flow, counterOk);
      TakeIn(node);
    }

    /** DeleteEntry, for the same callers. */
    method Delete(index: nat, counterOk: bool) returns (r: Outcome, ghost gone: HNode?<Entry>, ghost reached: bool)
      requires Sound()
      modifies Repr
      ensures Sound() && Repr == old(Repr) && Deleted(old(Indexes()), Indexes(), index, counterOk, r, gone, reached)
    {
      r, gone, reached := DeleteEntry(index, counterOk);
    }

    /** EmptyEntries, for the same callers. */
    method Empty()
      requires Sound()
      modifies Repr
      ensures Sound() && Repr == old(Repr) && entryMap.live == []
    {
      ghost var deleted := EmptyEntries();
    }

    /** Changes elsewhere do not affect a table. */
    twostate lemma Kept(repr: set<object>)
      requires old(Sound()) && repr == old(Repr) && unchanged(repr)
      ensures Sound() && Repr == old(Repr) && Indexes() == old(Indexes())
    {}

    /** One iteration: fetching the next entry and deleting the first one in the order of traversal. */
    method DeleteFirst(entry: HNode<Entry>, ghost all: seq<HNode<Entry>>, ghost order: seq<HNode<Entry>>, ghost k: nat,
                       ghost deleted: seq<HNode<Entry>>)
      returns (next: HNode?<Entry>, ghost deleted': seq<HNode<Entry>>)
      requires Valid() && k < |order| && entry == order[k] && entryMap.Order() == order[k..] && deleted == order[..k]
      requires forall j :: 0 <= j < |entryMap.live| ==> entryMap.live[j] in all
      modifies this`entryNum, entryMap, entryMap.buckets, all, tree, tree.Repr
      ensures Valid() && tree.Repr == old(tree.Repr)
      ensures forall j :: 0 <= j < |entryMap.live| ==> entryMap.live[j] in all
      ensures entryMap.Order() == order[k + 1..] && next == NextOf(order, k) && deleted' == order[..k + 1]
      ensures IsLpm() && old(SameEntries(Indexes(), prefix)) ==> SameEntries(Indexes(), prefix)
    {
      ghost var was := Indexes();
      OrderFrom(order, k);
      entryMap.OrderAt(0);
      next := entryMap.NodeNext(entry);
      FirstRemoved(entry);
      var reached := EntryDelete(entry);
      deleted' := deleted + [entry];
      if IsLpm() && SameEntries(was, prefix) {
        StepAgrees(was, Remove(entry, reached), prefix);
      }
    }

    lemma FirstRemoved(entry: HNode<Entry>)
      requires Valid() && entry == NextOf(entryMap.Order(), -1)
      ensures entry in entryMap.live
      ensures Flat(Removed(entryMap.live, entry), entryMap.bucketOf, entryMap.mask + 1, 0) == entryMap.Order()[1..]
    {
      entryMap.OrderAt(0);
      entryMap.OrderRemoved(entry);
    }
  }
}
