/** Lookups in the terms of flow messages: which message's entry a packet finds in a table:
    local_resource/pof_flow_table.c. */
module Lookups {
  import opened Bits
  import opened Datapath
  import opened Bitfield
  import opened Chains
  import opened Trie
  import opened Matching
  import opened TwoIndexes
  import opened Prefixes
  import opened FlowTable

  /** The node's entry is the one made of its message, whose fields are as long as the table's. */
  ghost predicate Named(x: HNode<Entry>, flows: map<HNode<Entry>, FlowEntry>, fields: seq<Field>, tableType: nat) {
    x in flows && flows[x].Valid() && SameLengths(flows[x].matches, fields) && x.obj == EntryOf(flows[x], tableType)
  }

  ghost predicate MadeOf(live: seq<HNode<Entry>>, flows: map<HNode<Entry>, FlowEntry>, fields: seq<Field>,
                         tableType: nat)
  {
    forall x :: x in live ==> Named(x, flows, fields, tableType)
  }

  /** A packet meets a message: every field matches, and no stray bits behind them clash. */
  ghost predicate MeetsMessage(flow: FlowEntry, fields: seq<Field>, packet: seq<byte>, metadata: seq<byte>,
                               keyLen: nat)
  {
    && flow.Valid() && AllFieldsMatch(flow.matches, fields, packet, metadata)
    && !StraysClash(flow.matches, keyLen, 8 * CeilBytes(keyLen))
  }

  ghost predicate Meets(x: HNode<Entry>, flows: map<HNode<Entry>, FlowEntry>, fields: seq<Field>, packet: seq<byte>,
                        metadata: seq<byte>, keyLen: nat)
  {
    x in flows && MeetsMessage(flows[x], fields, packet, metadata, keyLen)
  }

  /** After every run of insertions and deletions a table is made of the messages whose nodes were inserted. */
  lemma {:induction false} RunMadeOf(s: State<Entry>, ops: seq<Op<Entry>>, prefix: Entry -> Path,
                                     flows: map<HNode<Entry>, FlowEntry>, fields: seq<Field>, tableType: nat)
    requires MadeOf(s.live, flows, fields, tableType)
    requires forall k :: 0 <= k < |ops| && ops[k].Insert? ==> Named(ops[k].node, flows, fields, tableType)
    ensures MadeOf(Run(s, ops, prefix).live, flows, fields, tableType)
    decreases |ops|
  {
    if ops != [] {
      if ops[0].Remove? { RemovedSubset(s.live, ops[0].node, s.live); }
      RunMadeOf(Step(s, ops[0], prefix, true), ops[1..], prefix, flows, fields, tableType);
    }
  }

  /** The key of a packet matches exactly the entries of the messages that the packet meets. */
  lemma MatchesMeet(live: seq<HNode<Entry>>, flows: map<HNode<Entry>, FlowEntry>, fields: seq<Field>, tableType: nat,
                    packet: seq<byte>, metadata: seq<byte>, keyLen: nat, key: seq<byte>)
    requires (tableType == MM_TABLE || tableType == LPM_TABLE) && MadeOf(live, flows, fields, tableType)
    requires keyLen <= 8 * BUFFER_LEN && KeyFits(fields, |packet|, |metadata|, keyLen)
    requires key == PacketKey(fields, packet, metadata, keyLen)
    ensures forall x :: x in live ==>
      (EntryMatches(x.obj, key, keyLen) <==> Meets(x, flows, fields, packet, metadata, keyLen))
  {
    forall x | x in live
      ensures EntryMatches(x.obj, key, keyLen) <==> Meets(x, flows, fields, packet, metadata, keyLen)
    {
      LookupMatchesFields(flows[x], tableType, fields, packet, metadata, keyLen);
    }
  }

  /** The node at k wins among those whose messages the packet meets: none has a higher priority, and none before it
      in the order of traversal has the same. */
  ghost predicate Wins(order: seq<HNode<Entry>>, k: nat, flows: map<HNode<Entry>, FlowEntry>, fields: seq<Field>,
                       packet: seq<byte>, metadata: seq<byte>, keyLen: nat)
  {
    k < |order| && Meets(order[k], flows, fields, packet, metadata, keyLen) &&
    forall j :: 0 <= j < |order| && Meets(order[j], flows, fields, packet, metadata, keyLen) ==>
      flows[order[j]].priority <= flows[order[k]].priority
      && (j < k ==> flows[order[j]].priority < flows[order[k]].priority)
  }

  lemma BestWins(order: seq<HNode<Entry>>, flows: map<HNode<Entry>, FlowEntry>, fields: seq<Field>,
                 packet: seq<byte>, metadata: seq<byte>, keyLen: nat, key: seq<byte>) returns (k: nat)
    requires MadeOf(order, flows, fields, MM_TABLE) && keyLen <= 8 * BUFFER_LEN && CeilBytes(keyLen) <= |key|
    requires forall x :: x in order ==>
      (EntryMatches(x.obj, key, keyLen) <==> Meets(x, flows, fields, packet, metadata, keyLen))
    ensures var found := Best(order, key, keyLen, false);
      && (found == null <==> forall x :: x in order ==> !Meets(x, flows, fields, packet, metadata, keyLen))
      && (found != null ==> Wins(order, k, flows, fields, packet, metadata, keyLen) && found == order[k])
  {
    k := BestMeaning(order, Hits(key, keyLen, false), Ranks(keyLen, false));
    forall j | 0 <= j < |order|
      ensures Named(order[j], flows, fields, MM_TABLE)
      ensures Hits(key, keyLen, false)(order[j].obj) <==> Meets(order[j], flows, fields, packet, metadata, keyLen)
      ensures Ranks(keyLen, false)(order[j].obj) == flows[order[j]].priority
    {
      assert order[j] in order;
    }
  }

  /** On a multi-match table a packet finds the entry of the message with the highest priority among those it meets,
      the first among equals, and none if and only if it meets none. */
  lemma MultiMatchAnswers(table: TableInfo, flows: map<HNode<Entry>, FlowEntry>, packet: seq<byte>,
                          metadata: seq<byte>, key: seq<byte>) returns (k: nat)
    requires table.Valid() && table.tableType == MM_TABLE && MadeOf(table.entryMap.live, flows, table.fields, MM_TABLE)
    requires KeyFits(table.fields, |packet|, |metadata|, table.keyLen)
    requires key == PacketKey(table.fields, packet, metadata, table.keyLen)
    ensures var order, found := table.entryMap.Order(), table.Answer(key);
      && (found == null <==> forall x :: x in order ==> !Meets(x, flows, table.fields, packet, metadata, table.keyLen))
      && (found != null ==>
            Wins(order, k, flows, table.fields, packet, metadata, table.keyLen) && found == order[k])
  {
    var order := table.entryMap.Order();
    forall k | 0 <= k < |order|
      ensures order[k] in table.entryMap.live
    {
      table.entryMap.OrderAt(k);
    }
    MatchesMeet(order, flows, table.fields, MM_TABLE, packet, metadata, table.keyLen, key);
    k := BestWins(order, flows, table.fields, packet, metadata, table.keyLen, key);
  }

  /** The packet meets a node's message, and the prefix of every other message that it meets is shorter. */
  ghost predicate IsLongest(live: seq<HNode<Entry>>, found: HNode<Entry>, flows: map<HNode<Entry>, FlowEntry>,
                            fields: seq<Field>, packet: seq<byte>, metadata: seq<byte>, keyLen: nat)
    requires keyLen <= 8 * BUFFER_LEN
  {
    && found in live && Meets(found, flows, fields, packet, metadata, keyLen)
    && forall x :: x in live && Meets(x, flows, fields, packet, metadata, keyLen) && x != found ==>
         PrefixLen(x.obj, keyLen) < PrefixLen(found.obj, keyLen)
  }

  /** On a longest-prefix-match table whose indexes agree, a packet finds the entry of the one message with the
      longest prefix among those it meets, and none if and only if it meets none. */
  lemma LongestPrefixAnswers(table: TableInfo, flows: map<HNode<Entry>, FlowEntry>, packet: seq<byte>,
                             metadata: seq<byte>, key: seq<byte>)
    requires table.Valid() && table.tableType == LPM_TABLE && SameEntries(table.Indexes(), table.prefix)
    requires MadeOf(table.entryMap.live, flows, table.fields, LPM_TABLE)
    requires forall x :: x in table.entryMap.live ==> PrefixMask(x.obj, table.keyLen)
    requires KeyFits(table.fields, |packet|, |metadata|, table.keyLen)
    requires key == PacketKey(table.fields, packet, metadata, table.keyLen)
    ensures var live, found := table.entryMap.live, table.Answer(key);
      && (found == null <==> forall x :: x in live ==> !Meets(x, flows, table.fields, packet, metadata, table.keyLen))
      && (found != null ==> IsLongest(live, found, flows, table.fields, packet, metadata, table.keyLen))
  {
    MatchesMeet(table.entryMap.live, flows, table.fields, LPM_TABLE, packet, metadata, table.keyLen, key);
    LongestMatch(table.entryMap.live, key, table.keyLen, table.prefix);
  }

  /** On an exact-match table a packet finds the most recent entry that is stored under the hash of its key, and none
      if and only if there is none. So it never misses an entry whose value bytes are its key. */
  lemma ExactMatchAnswers(table: TableInfo, key: seq<byte>) returns (k: nat)
    requires table.Valid() && table.tableType == EM_TABLE && |key| == CeilBytes(table.keyLen)
    ensures var live, n, found := table.entryMap.live, CeilBytes(table.keyLen), table.Answer(key);
      && (found == null <==>
            forall x :: x in live ==> table.hashForBytes(x.obj.value[..n]) != table.hashForBytes(key))
      && (found != null ==>
            k < |live| && found == live[k] && table.hashForBytes(found.obj.value[..n]) == table.hashForBytes(key)
            && forall j :: 0 <= j < k ==> table.hashForBytes(live[j].obj.value[..n]) != table.hashForBytes(key))
      && (forall x :: x in live && x.obj.value[..n] == key ==> found != null)
  {
    var live := table.entryMap.live;
    k := FirstWithHashMeaning(live, table.hashForBytes(key));
    forall j | 0 <= j < |live|
      ensures live[j].hash == table.hashForBytes(live[j].obj.value[..CeilBytes(table.keyLen)])
    {
      assert live[j] in live;
    }
  }

  /** A packet equals a message: it has the message's value in every field, and no stray bits lie behind them. */
  ghost predicate EqualsMessage(flow: FlowEntry, fields: seq<Field>, packet: seq<byte>, metadata: seq<byte>,
                                keyLen: nat)
  {
    && flow.Valid() && AllFieldsEqual(flow.matches, fields, packet, metadata)
    && NoStrays(flow.matches, keyLen, 8 * CeilBytes(keyLen))
  }

  /** The indexes agree and all masks are prefixes. */
  ghost predicate PrefixTable(table: TableInfo)
    requires table.keyLen <= 8 * BUFFER_LEN
    reads table, table.entryMap, table.tree
  {
    && SameEntries(table.Indexes(), table.prefix) && table.tree.DepthAtMost(table.keyLen)
    && forall x :: x in table.entryMap.live ==> PrefixMask(x.obj, table.keyLen)
  }

  /** What a packet should find when the message's entry was just added as node: if it meets the message, an entry of
      at least its priority, or of at least its prefix length; on an exact-match table, if it equals the message, the
      node. */
  ghost predicate Serves(table: TableInfo, flow: FlowEntry, packet: seq<byte>, metadata: seq<byte>,
                         node: HNode<Entry>, found: HNode?<Entry>)
    requires table.keyLen <= 8 * BUFFER_LEN
  {
    && (MeetsMessage(flow, table.fields, packet, metadata, table.keyLen) ==>
          && (table.tableType == MM_TABLE ==> found != null && found.obj.priority >= flow.priority)
          && (table.tableType == LPM_TABLE ==>
                found != null && PrefixLen(found.obj, table.keyLen) >= PrefixLen(node.obj, table.keyLen)))
    && (EqualsMessage(flow, table.fields, packet, metadata, table.keyLen) && table.tableType == EM_TABLE ==>
          found == node)
  }

  /** What a packet finds when an entry that it should match was just added as node. */
  lemma AddedIsFound(table: TableInfo, flows: map<HNode<Entry>, FlowEntry>, packet: seq<byte>, metadata: seq<byte>,
                     key: seq<byte>, node: HNode<Entry>)
    requires table.Valid() && KeyFits(table.fields, |packet|, |metadata|, table.keyLen)
    requires key == PacketKey(table.fields, packet, metadata, table.keyLen)
    requires MadeOf(table.entryMap.live, flows, table.fields, table.tableType) && node in table.entryMap.live
    requires table.tableType == LPM_TABLE ==> PrefixTable(table)
    requires table.entryMap.live[0] == node
    ensures Serves(table, flows[node], packet, metadata, node, table.Answer(key))
  {
    assert Named(node, flows, table.fields, table.tableType);
    if table.tableType == MM_TABLE {
      var k := MultiMatchAnswers(table, flows, packet, metadata, key);
      AddedInOrder(table, flows, node, k);
    } else if table.tableType == LPM_TABLE {
      LongestPrefixAnswers(table, flows, packet, metadata, key);
    } else if table.tableType == EM_TABLE {
      HashedBytesAreKey(flows[node], table.fields, packet, metadata, table.keyLen, key);
      var k := ExactMatchAnswers(table, key);
    }
  }

  /** The node stands somewhere in the order of traversal. */
  lemma AddedInOrder(table: TableInfo, flows: map<HNode<Entry>, FlowEntry>, node: HNode<Entry>, k: nat)
    requires table.Valid() && node in table.entryMap.live
    requires MadeOf(table.entryMap.live, flows, table.fields, MM_TABLE) && table.tableType == MM_TABLE
    ensures node in table.entryMap.Order() && flows[node].priority == node.obj.priority
    ensures k < |table.entryMap.Order()| ==>
      table.entryMap.Order()[k] in flows
      && flows[table.entryMap.Order()[k]].priority == table.entryMap.Order()[k].obj.priority
  {
    table.entryMap.OrderIsLive();
    assert Named(node, flows, table.fields, MM_TABLE);
    if k < |table.entryMap.Order()| {
      table.entryMap.OrderAt(k);
      assert Named(table.entryMap.Order()[k], flows, table.fields, MM_TABLE);
    }
  }

  /** An addition, and what the table is made of then. */
  method AddNamed(table: TableInfo, flow: FlowEntry, counterOk: bool, ghost flows: map<HNode<Entry>, FlowEntry>)
    returns (r: Outcome, ghost node: HNode<Entry>)
    requires table.Valid() && flow.Valid() && flow.index < table.size && SameLengths(flow.matches, table.fields)
    requires table.keyLen == TotalLen(table.fields)
    requires MadeOf(table.entryMap.live, flows, table.fields, table.tableType)
    requires table.tableType == LPM_TABLE ==>
      && PrefixTable(table) && PrefixMask(EntryOf(flow, LPM_TABLE), table.keyLen)
      && table.prefix(EntryOf(flow, LPM_TABLE)) !in table.tree.contents
    modifies table`entryNum, table.entryMap, table.entryMap.buckets, table.tree, table.tree.Repr
    ensures table.Valid() && fresh(node) && node.obj == EntryOf(flow, table.tableType)
    ensures table.entryMap.live == [node] + old(table.entryMap.live)
    ensures MadeOf(table.entryMap.live, flows[node := flow], table.fields, table.tableType)
    ensures table.tableType == LPM_TABLE ==> PrefixTable(table)
  {
    SameTotals(flow.matches, table.fields);
    ghost var added;
    r, added := table.AddEntry(flow, counterOk);
    node := added;
  }

  /** Adding a message and looking up a packet that it is for: the packet finds an entry of at least the message's
      priority, or of at least its prefix length, or, on an exact-match table, the entry just added. */
  method AddThenLookup(table: TableInfo, flow: FlowEntry, counterOk: bool, packet: seq<byte>, metadata: seq<byte>,
                       ghost flows: map<HNode<Entry>, FlowEntry>)
    returns (r: Outcome, found: HNode?<Entry>, ghost node: HNode<Entry>)
    requires table.Valid() && flow.Valid() && flow.index < table.size && SameLengths(flow.matches, table.fields)
    requires table.tableType != LINEAR_TABLE && KeyFits(table.fields, |packet|, |metadata|, table.keyLen)
    requires MadeOf(table.entryMap.live, flows, table.fields, table.tableType)
    requires table.tableType == LPM_TABLE ==>
      && PrefixTable(table) && PrefixMask(EntryOf(flow, LPM_TABLE), table.keyLen)
      && table.prefix(EntryOf(flow, LPM_TABLE)) !in table.tree.contents
    modifies table`entryNum, table.entryMap, table.entryMap.buckets, table.tree, table.tree.Repr
    ensures fresh(node) && node.obj == EntryOf(flow, table.tableType)
    ensures Serves(table, flow, packet, metadata, node, found)
  {
    r, node := AddNamed(table, flow, counterOk, flows);
    found := LookupAdded(table, packet, metadata, flows[node := flow], node);
  }

  method LookupAdded(table: TableInfo, packet: seq<byte>, metadata: seq<byte>,
                     ghost flows: map<HNode<Entry>, FlowEntry>, ghost node: HNode<Entry>)
    returns (found: HNode?<Entry>)
    requires table.Valid() && table.tableType != LINEAR_TABLE
    requires KeyFits(table.fields, |packet|, |metadata|, table.keyLen)
    requires MadeOf(table.entryMap.live, flows, table.fields, table.tableType)
    requires table.entryMap.live != [] && table.entryMap.live[0] == node
    requires table.tableType == LPM_TABLE ==> PrefixTable(table)
    ensures node in flows && Serves(table, flows[node], packet, metadata, node, found)
  {
    ghost var key := PacketKey(table.fields, packet, metadata, table.keyLen);
    AddedIsFound(table, flows, packet, metadata, key, node);
    ghost var answer := table.Answer(key);
    found := table.EntryLookup(packet, metadata);
    assert found == answer;
  }
}
