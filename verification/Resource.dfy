/** The tables of one slot: finding a table by type and id, creating, deleting and emptying:
    local_resource/pof_flow_table.c. */
module Resource {
  import Bits
  import opened Datapath
  import opened Chains
  import opened HashMap
  import opened Prefixes
  import opened FlowTable
  import opened TwoIndexes

  /** The number of table ids of all types before a type: where the type's global ids begin. */
  function Base(max: seq<nat>, t: nat): nat
    requires t <= |max|
  {
    if t == 0 then 0 else Base(max, t - 1) + max[t - 1]
  }

  lemma {:induction false} BaseGrows(max: seq<nat>, s: nat, t: nat)
    requires s <= t <= |max|
    ensures Base(max, s) <= Base(max, t)
  {
    if s < t { BaseGrows(max, s, t - 1); }
  }

  /** poflr_table_id_to_ID: the global id, in eight bits. */
  method TableIdToID(t: nat, id: nat, max: seq<nat>) returns (ID: nat)
    requires t <= |max|
    ensures ID == Wrap8(Base(max, t) + id)
  {
    ID := 0;
    for i := 0 to t
      invariant ID == Wrap8(Base(max, i))
    {
      ID := Wrap8(ID + max[i]);
    }
    ID := Wrap8(ID + id);
  }

  datatype TableId = NoTable | TableId(tableType: nat, id: nat)

  /** Where a global id lies, looking from type t on with what is left of it. */
  function Locate(max: seq<nat>, t: nat, ID: nat): TableId
    requires t <= |max|
    decreases |max| - t
  {
    if t == |max| then NoTable else if ID < max[t] then TableId(t, ID) else Locate(max, t + 1, ID - max[t])
  }

  /** poflr_table_ID_to_id. */
  method TableIDToId(globalId: nat, max: seq<nat>) returns (r: TableId)
    ensures r == Locate(max, 0, globalId)
  {
    var ID := globalId;
    for i := 0 to |max|
      invariant 0 <= ID && Locate(max, i, ID) == Locate(max, 0, globalId)
    {
      if ID >= max[i] {
        ID := ID - max[i];
      } else {
        return TableId(i, ID);
      }
    }
    r := NoTable;
  }

  /** A located id lies in its type's range. */
  lemma {:induction false} LocateMeaning(max: seq<nat>, t: nat, ID: nat, s: nat, id: nat)
    requires t <= |max|
    ensures Locate(max, t, ID) == TableId(s, id) <==>
            t <= s < |max| && id < max[s] && Base(max, s) + id == Base(max, t) + ID
    decreases |max| - t
  {
    if t < |max| {
      if ID < max[t] {
        if t < s <= |max| { BaseGrows(max, t + 1, s); }
      } else {
        LocateMeaning(max, t + 1, ID - max[t], s, id);
      }
    }
  }

  /** The two maps undo each other if and only if the global id fits the eight bits it is kept in. */
  lemma GlobalIdRoundTrip(max: seq<nat>, t: nat, id: nat)
    requires t < |max| && id < max[t]
    ensures Locate(max, 0, Wrap8(Base(max, t) + id)) == TableId(t, id) <==> Base(max, t) + id < 0x100
  {
    LocateMeaning(max, 0, Wrap8(Base(max, t) + id), t, id);
  }

  datatype Answer = Ok | BadTableType | BadTableId | TableExist | BadTableSize | BadKeyLen | TableUnexist | TableUnempty

  /** No two tables of the map have the same global id. */
  ghost predicate UniqueHashes(live: seq<HNode<TableInfo>>) {
    forall i, j :: 0 <= i < j < |live| ==> live[i].hash != live[j].hash
  }

  lemma CountWraps(n: nat, change: int)
    ensures Wrap16(Wrap16(n) + change) == Wrap16(n + change)
  {}

  /** struct pof_local_resource, its flow table part. */
  class LocalResource {
    const tableIdMap: HMap<TableInfo>
    const maxEachType: seq<nat>    // tableNumMaxEachType
    const tableSizeMax: nat
    const keyLenMax: nat           // poflr_key_len, the same for every type
    const hashForBytes: seq<Bits.byte> -> nat
    var tableNum: nat              // uint16_t

    ghost predicate MapValid()
      reads this, tableIdMap, tableIdMap.buckets, tableIdMap.live
    {
      && tableIdMap.Valid() && |maxEachType| == MAX_TABLE_TYPE && tableSizeMax < 0x1_0000_0000
      && keyLenMax <= 8 * BUFFER_LEN && tableNum == Wrap16(|tableIdMap.live|)
    }

    /** The k-th table, the most recently created first. */
    ghost function Table(k: nat): TableInfo
      requires k < |tableIdMap.live|
      reads this, tableIdMap
    {
      tableIdMap.live[k].obj
    }

    ghost function Tables(): set<object>
      reads this, tableIdMap
    {
      set k | 0 <= k < |tableIdMap.live| :: Table(k)
    }

    /** The memory of the tables. */
    ghost function TableMemory(): set<object>
      reads this, tableIdMap, Tables()
    {
      set k, x | 0 <= k < |tableIdMap.live| && x in Table(k).Repr :: x
    }

    /** Every table is sound, its global id is its own, and so is its memory. */
    ghost predicate Valid()
      reads this, tableIdMap, tableIdMap.buckets, tableIdMap.live, Tables(), TableMemory()
    {
      && MapValid() && UniqueHashes(tableIdMap.live)
      && (forall k :: 0 <= k < |tableIdMap.live| ==> Table(k).Sound() && Table(k).Repr !! MapMemory())
      && (forall i, j :: 0 <= i < |tableIdMap.live| && 0 <= j < |tableIdMap.live| && i != j ==>
            Table(i).Repr !! Table(j).Repr)
    }

    /** The memory of the table map. */
    ghost function MapMemory(): set<object>
      reads this, tableIdMap
    {
      {this, tableIdMap, tableIdMap.buckets} + set x | x in tableIdMap.live
    }

    /** poflr_init_flow_table. */
    constructor (max: seq<nat>, tableSizeMax: nat, keyLenMax: nat, hashForBytes: seq<Bits.byte> -> nat)
      requires |max| == MAX_TABLE_TYPE && tableSizeMax < 0x1_0000_0000 && keyLenMax <= 8 * BUFFER_LEN
      ensures Valid() && tableIdMap.live == [] && maxEachType == max && fresh(MapMemory())
    {
      maxEachType, this.tableSizeMax, this.keyLenMax := max, tableSizeMax, keyLenMax;
      this.hashForBytes := hashForBytes;
      tableIdMap := new HMap<TableInfo>(Wrap16(Base(max, MAX_TABLE_TYPE)));
      tableNum := 0;
    }

    /** A table has the global id. */
    ghost predicate InUse(ID: nat)
      reads this, tableIdMap
    {
      exists k :: 0 <= k < |tableIdMap.live| && tableIdMap.live[k].hash == ID
    }

    /** What the checks with which every flow message begins answer, k being the table they lead to: the only one
        with the global id. */
    ghost predicate LeadsTo(tableType: nat, id: nat, r: Answer, k: nat)
      requires |maxEachType| == MAX_TABLE_TYPE
      reads this, tableIdMap
    {
      && r == (if tableType >= MAX_TABLE_TYPE then BadTableType
               else if id >= maxEachType[tableType] then BadTableId
               else if !InUse(Wrap8(Base(maxEachType, tableType) + id)) then TableUnexist else Ok)
      && k <= |tableIdMap.live|
      && (if r == Ok then k < |tableIdMap.live| && tableIdMap.live[k].hash == Wrap8(Base(maxEachType, tableType) + id)
          else k == |tableIdMap.live|)
    }

    /** These checks. */
    method FindTable(tableType: nat, id: nat) returns (r: Answer, ID: nat, table: TableInfo?, ghost k: nat)
      requires Valid()
      ensures Valid() && tableIdMap.live == old(tableIdMap.live) && old(LeadsTo(tableType, id, r, k))
      ensures OthersKept(|tableIdMap.live|) && TableMemory() == old(TableMemory())
      ensures if r == Ok then table == Table(k) && table.Sound() else table == null
      ensures r == TableUnexist ==> ID == Wrap8(Base(maxEachType, tableType) + id)
    {
      ID, table, k := 0, null, |tableIdMap.live|;
      if tableType >= MAX_TABLE_TYPE {
        return BadTableType, ID, table, k;
      }
      if id >= maxEachType[tableType] {
        return BadTableId, ID, table, k;
      }
      r, ID, table, k := FindInRange(tableType, id);
    }

    /** The table with an id in the range of its type. */
    method FindInRange(tableType: nat, id: nat) returns (r: Answer, ID: nat, table: TableInfo?, ghost k: nat)
      requires Valid() && tableType < MAX_TABLE_TYPE
      ensures OthersKept(|tableIdMap.live|) && TableMemory() == old(TableMemory())
      ensures Valid() && ID == Wrap8(Base(maxEachType, tableType) + id) && r == (if InUse(ID) then Ok else TableUnexist)
      ensures r == Ok ==> k < |tableIdMap.live| && tableIdMap.live[k].hash == ID && table == Table(k) && table.Sound()
      ensures r != Ok ==> table == null && k == |tableIdMap.live|
    {
      ID := TableIdToID(tableType, id, maxEachType);
      var node := tableIdMap.NodeGetWithHash(ID);
      k := FirstWithHashMeaning(tableIdMap.live, ID);
      forall j | 0 <= j < |tableIdMap.live|
        ensures Table(j).Sound() && Table(j).Repr == old(Table(j).Repr) && Table(j).Indexes() == old(Table(j).Indexes())
      {
        assert old(Table(j).Sound());
        Table(j).Kept(old(Table(j).Repr));
      }
      if node == null {
        return TableUnexist, ID, null, |tableIdMap.live|;
      }
      r, table := Ok, node.obj;
    }

    /** poflr_add_flow_entry: an addition to the table that the message names. No other table changes. */
    method AddFlowEntry(tableType: nat, id: nat, flow: FlowEntry, counterOk: bool)
      returns (r: Answer, outcome: Outcome, ghost k: nat, ghost entry: HNode?<Entry>)
      requires Valid() && flow.Valid()
      modifies TableMemory()
      ensures Valid() && tableIdMap.live == old(tableIdMap.live) && old(LeadsTo(tableType, id, r, k))
      ensures r == Ok ==> Table(k).Added(old(Table(k).Indexes()), Table(k).Indexes(), flow, counterOk, outcome, entry)
      ensures OthersKept(k) && (forall x :: x in TableMemory() ==> x in old(TableMemory()) || fresh(x))
    {
      outcome, entry := Unknown, null;
      var ID, table;
      r, ID, table, k := FindTable(tableType, id);
      if r != Ok {
        return;
      }
      outcome, entry := AddAt(k, table, flow, counterOk);
    }

    /** The tables other than the k-th hold what they held. */
    twostate predicate OthersKept(k: nat)
      reads this, tableIdMap, Tables(), TableMemory()
      reads set j | 0 <= j < |tableIdMap.live| :: Table(j).entryMap
      reads set j | 0 <= j < |tableIdMap.live| :: Table(j).tree
    {
      forall j :: 0 <= j < |tableIdMap.live| && j < |old(tableIdMap.live)| && j != k ==>
        Table(j).Indexes() == old(Table(j).Indexes())
    }

    /** An addition to the k-th table. */
    method AddAt(ghost k: nat, table: TableInfo, flow: FlowEntry, counterOk: bool)
      returns (outcome: Outcome, ghost entry: HNode?<Entry>)
      requires Valid() && flow.Valid() && k < |tableIdMap.live| && table == Table(k)
      modifies TableMemory()
      ensures Valid() && tableIdMap.live == old(tableIdMap.live)
      ensures table.Added(old(table.Indexes()), table.Indexes(), flow, counterOk, outcome, entry)
      ensures OthersKept(k) && (forall x :: x in TableMemory() ==> x in old(TableMemory()) || fresh(x))
    {
      assert table.Sound() && table.Repr !! MapMemory();
      outcome, entry := table.Add(flow, counterOk);
      forall j | 0 <= j < |tableIdMap.live| && j != k
        ensures Table(j).Sound() && Table(j).Repr == old(Table(j).Repr)
        ensures Table(j).Indexes() == old(Table(j).Indexes()) && Table(j).Repr !! table.Repr
      {
        assert old(Table(j).Sound());
        Table(j).Kept(old(Table(j).Repr));
      }
    }

    /** A change of the k-th table. */
    method ModifyAt(ghost k: nat, table: TableInfo, flow: FlowEntry, counterOk: bool)
      returns (outcome: Outcome, ghost gone: HNode?<Entry>, ghost reached: bool, ghost entry: HNode?<Entry>)
      requires Valid() && flow.Valid() && k < |tableIdMap.live| && table == Table(k)
      modifies TableMemory()
      ensures Valid() && tableIdMap.live == old(tableIdMap.live)
      ensures table.Modified(old(table.Indexes()), table.Indexes(), flow, counterOk, outcome, gone, reached, entry)
      ensures OthersKept(k) && (forall x :: x in TableMemory() ==> x in old(TableMemory()) || fresh(x))
    {
      assert table.Sound() && table.Repr !! MapMemory();
      outcome, gone, reached, entry := table.Modify(flow, counterOk);
      forall j | 0 <= j < |tableIdMap.live| && j != k
        ensures Table(j).Sound() && Table(j).Repr == old(Table(j).Repr)
        ensures Table(j).Indexes() == old(Table(j).Indexes()) && Table(j).Repr !! table.Repr
      {
        assert old(Table(j).Sound());
        Table(j).Kept(old(Table(j).Repr));
      }
    }

    /** poflr_modify_flow_entry: a modification in the table that the message names. No other table changes. */
    method ModifyFlowEntry(tableType: nat, id: nat, flow: FlowEntry, counterOk: bool)
      returns (r: Answer, outcome: Outcome, ghost k: nat, ghost gone: HNode?<Entry>, ghost reached: bool,
               ghost entry: HNode?<Entry>)
      requires Valid() && flow.Valid()
      modifies TableMemory()
      ensures Valid() && tableIdMap.live == old(tableIdMap.live) && old(LeadsTo(tableType, id, r, k))
      ensures r == Ok ==>
        Table(k).Modified(old(Table(k).Indexes()), Table(k).Indexes(), flow, counterOk, outcome, gone, reached, entry)
      ensures OthersKept(k) && (forall x :: x in TableMemory() ==> x in old(TableMemory()) || fresh(x))
    {
      outcome, gone, reached, entry := Unknown, null, false, null;
      var ID, table;
      r, ID, table, k := FindTable(tableType, id);
      if r != Ok {
        return;
      }
      outcome, gone, reached, entry := ModifyAt(k, table, flow, counterOk);
    }

    /** A deletion from the k-th table. */
    method DeleteAt(ghost k: nat, table: TableInfo, index: nat, counterOk: bool)
      returns (outcome: Outcome, ghost gone: HNode?<Entry>, ghost reached: bool)
      requires Valid() && k < |tableIdMap.live| && table == Table(k)
      modifies TableMemory()
      ensures Valid() && tableIdMap.live == old(tableIdMap.live)
      ensures table.Deleted(old(table.Indexes()), table.Indexes(), index, counterOk, outcome, gone, reached)
      ensures OthersKept(k) && (forall x :: x in TableMemory() ==> x in old(TableMemory()) || fresh(x))
    {
      assert table.Sound() && table.Repr !! MapMemory();
      outcome, gone, reached := table.Delete(index, counterOk);
      forall j | 0 <= j < |tableIdMap.live| && j != k
        ensures Table(j).Sound() && Table(j).Repr == old(Table(j).Repr)
        ensures Table(j).Indexes() == old(Table(j).Indexes()) && Table(j).Repr !! table.Repr
      {
        assert old(Table(j).Sound());
        Table(j).Kept(old(Table(j).Repr));
      }
    }

    /** poflr_delete_flow_entry: a deletion from the table that the message names. No other table changes. */
    method DeleteFlowEntry(tableType: nat, id: nat, index: nat, counterOk: bool)
      returns (r: Answer, outcome: Outcome, ghost k: nat, ghost gone: HNode?<Entry>, ghost reached: bool)
      requires Valid()
      modifies TableMemory()
      ensures Valid() && tableIdMap.live == old(tableIdMap.live) && old(LeadsTo(tableType, id, r, k))
      ensures r == Ok ==>
        Table(k).Deleted(old(Table(k).Indexes()), Table(k).Indexes(), index, counterOk, outcome, gone, reached)
      ensures OthersKept(k) && (forall x :: x in TableMemory() ==> x in old(TableMemory()) || fresh(x))
    {
      outcome, gone, reached := Unknown, null, false;
      var ID, table;
      r, ID, table, k := FindTable(tableType, id);
      if r != Ok {
        return;
      }
      outcome, gone, reached := DeleteAt(k, table, index, counterOk);
    }

    /** poflr_create_flow_table: a table is created only under a global id that is not in use. */
    method CreateFlowTable(id: nat, tableType: nat, keyLen: nat, size: nat, fields: seq<Field>)
      returns (r: Answer, ghost node: HNode?<TableInfo>)
      requires Valid() && size < 0x1_0000_0000
      modifies this, tableIdMap, tableIdMap.buckets
      ensures Valid()
      ensures r == if tableType >= MAX_TABLE_TYPE then BadTableType
                   else if id >= maxEachType[tableType] then BadTableId
                   else if old(InUse(Wrap8(Base(maxEachType, tableType) + id))) then TableExist
                   else if size > tableSizeMax then BadTableSize
                   else if keyLen > keyLenMax then BadKeyLen
                   else Ok
      ensures r != Ok ==> tableIdMap.live == old(tableIdMap.live)
      ensures r == Ok ==>
        && node != null && node.obj.tableType == tableType && node.obj.keyLen == keyLen && node.obj.size == size
        && node.obj.fields == fields
        && tableIdMap.live == [node] + old(tableIdMap.live)
        && node.hash == Wrap8(Base(maxEachType, tableType) + id)
        && fresh(node) && fresh(node.obj.Repr) && node.obj.Indexes() == State([], map[], 0, 0, 0)
    {
      node := null;
      var ID, found;
      ghost var k;
      r, ID, found, k := FindTable(tableType, id);
      if r == BadTableType || r == BadTableId {
        return;
      }
      if found != null {
        return TableExist, node;
      }
      if size > tableSizeMax {
        return BadTableSize, node;
      }
      if keyLen > keyLenMax {
        return BadKeyLen, node;
      }
      var entry := NewTable(ID, tableType, keyLen, size, fields);
      r, node := Ok, entry;
    }

    /** The creation itself. */
    method NewTable(ID: nat, tableType: nat, keyLen: nat, size: nat, fields: seq<Field>)
      returns (node: HNode<TableInfo>)
      requires Valid() && !InUse(ID)
      requires tableType < MAX_TABLE_TYPE && keyLen <= 8 * BUFFER_LEN && size < 0x1_0000_0000
      modifies this, tableIdMap, tableIdMap.buckets
      ensures Valid() && tableIdMap.live == [node] + old(tableIdMap.live) && fresh(node) && node.hash == ID
      ensures node.obj.tableType == tableType && node.obj.keyLen == keyLen && node.obj.size == size
      ensures node.obj.fields == fields && fresh(node.obj.Repr) && node.obj.Indexes() == State([], map[], 0, 0, 0)
    {
      var table := new TableInfo(tableType, keyLen, size, fields, hashForBytes);
      node := MapTableInsert(table, ID);
    }

    /** map_tableInsert, as far as the map goes. */
    method MapInsert(table: TableInfo, ID: nat) returns (node: HNode<TableInfo>)
      requires MapValid()
      modifies this, tableIdMap, tableIdMap.buckets
      ensures MapValid() && fresh(node) && node.hash == ID && node.obj == table
      ensures tableIdMap.live == [node] + old(tableIdMap.live)
    {
      CountWraps(|tableIdMap.live|, 1);
      node := new HNode<TableInfo>(table, ID);
      tableIdMap.NodeInsert(node);
      tableNum := Wrap16(tableNum + 1);
    }

    /** map_tableInsert, for a table with memory and a global id of its own. */
    method MapTableInsert(table: TableInfo, ID: nat) returns (node: HNode<TableInfo>)
      requires Valid() && !InUse(ID) && table.Sound() && table.Repr !! MapMemory() && table.Repr !! TableMemory()
      modifies this, tableIdMap, tableIdMap.buckets
      ensures Valid() && fresh(node) && node.hash == ID && node.obj == table
      ensures tableIdMap.live == [node] + old(tableIdMap.live)
      ensures table.Repr == old(table.Repr) && table.Indexes() == old(table.Indexes())
    {
      node := MapInsert(table, ID);
      forall k | 0 <= k < |tableIdMap.live|
        ensures Table(k).Sound() && Table(k).Repr == (if k == 0 then old(table.Repr) else old(Table(k - 1).Repr))
        ensures Table(k).Repr !! MapMemory() && (k == 0 ==> table.Indexes() == old(table.Indexes()))
      {
        if k == 0 {
          table.Kept(old(table.Repr));
        } else {
          assert old(Table(k - 1).Sound());
          Table(k).Kept(old(Table(k - 1).Repr));
        }
      }
      assert Table(0).Sound();
      forall i, j | 0 <= i < |tableIdMap.live| && 0 <= j < |tableIdMap.live| && i != j
        ensures Table(i).Repr !! Table(j).Repr
      {
        assert i > 0 ==> old(Table(i - 1).Repr) <= old(TableMemory());
        assert j > 0 ==> old(Table(j - 1).Repr) <= old(TableMemory());
      }
    }

    /** Where emptying the tables stands: the first k tables in the order of traversal are empty, the others sound,
        each in a home of its own. */
    ghost predicate Emptied(order: seq<HNode<TableInfo>>, k: nat, homes: seq<set<object>>)
      requires |homes| == |order|
      reads *
    {
      && MapValid() && k <= |order| && tableIdMap.Order() == order[k..]
      && (forall j :: k <= j < |order| ==> order[j].obj.Sound() && order[j].obj.Repr == homes[j])
      && (forall j :: 0 <= j < k ==> order[j].obj.entryMap in homes[j] && order[j].obj.entryMap.live == [])
    }

    /** The homes do not overlap, and lie apart from the table map. */
    ghost predicate Apart(homes: seq<set<object>>, mem: set<object>) {
      && (forall j :: 0 <= j < |homes| ==> homes[j] !! mem)
      && (forall i, j :: 0 <= i < j < |homes| ==> homes[i] !! homes[j])
    }

    /** The homes of the tables, in the order of traversal. */
    lemma Homes() returns (homes: seq<set<object>>)
      requires Valid()
      ensures |homes| == |tableIdMap.Order()| && Emptied(tableIdMap.Order(), 0, homes)
      ensures Apart(homes, MapMemory()) && forall j :: 0 <= j < |homes| ==> homes[j] <= TableMemory()
    {
      var order := tableIdMap.Order();
      homes := ReprsOf(order);
      tableIdMap.OrderDistinct();
      forall j | 0 <= j < |order|
        ensures order[j].obj.Sound() && homes[j] !! MapMemory() && homes[j] <= TableMemory()
      {
        var i := PlaceOf(j);
      }
      forall i, j | 0 <= i < j < |order|
        ensures homes[i] !! homes[j]
      {
        var i' := PlaceOf(i);
        var j' := PlaceOf(j);
        DistinctAt(order, i, j);
      }
    }

    lemma ReprsOf(order: seq<HNode<TableInfo>>) returns (homes: seq<set<object>>)
      ensures |homes| == |order| && forall j :: 0 <= j < |order| ==> homes[j] == order[j].obj.Repr
    {
      homes := [];
      for n := 0 to |order|
        invariant |homes| == n && forall j :: 0 <= j < n ==> homes[j] == order[j].obj.Repr
      {
        homes := homes + [order[n].obj.Repr];
      }
    }

    /** Where the j-th table of the traversal stands among the tables. */
    lemma PlaceOf(j: nat) returns (i: nat)
      requires Valid() && j < |tableIdMap.Order()|
      ensures i < |tableIdMap.live| && tableIdMap.live[i] == tableIdMap.Order()[j] && Table(i).Sound()
    {
      tableIdMap.OrderAt(j);
      i :| 0 <= i < |tableIdMap.live| && tableIdMap.live[i] == tableIdMap.Order()[j];
    }

    /** poflr_empty_flow_table: every table is emptied and removed once. */
    method EmptyFlowTable() returns (ghost emptied: seq<HNode<TableInfo>>)
      requires Valid()
      modifies MapMemory(), TableMemory()
      ensures Valid() && tableIdMap.live == [] && tableNum == 0
      ensures emptied == old(tableIdMap.Order()) && Distinct(emptied)
      ensures forall j :: 0 <= j < |emptied| ==> emptied[j].obj.entryMap.live == []
    {
      tableIdMap.OrderDistinct();
      ghost var order, mem, k := tableIdMap.Order(), MapMemory(), 0;
      ghost var homes := Homes();
      var table := tableIdMap.NodeFirst();
      emptied := [];
      while table != null
        invariant k <= |order| && Emptied(order, k, homes) && emptied == order[..k]
        invariant MapMemory() <= mem && table == NextOf(order, k - 1)
        decreases |order| - k
      {
        table, emptied := EmptyNext(table, order, k, homes, mem, emptied);
        k := k + 1;
      }
      tableIdMap.NoOrder();
    }

    /** One iteration, and what it leaves alone: every other table. */
    method EmptyNext(first: HNode<TableInfo>, ghost order: seq<HNode<TableInfo>>, ghost k: nat,
                     ghost homes: seq<set<object>>, ghost mem: set<object>, ghost emptied: seq<HNode<TableInfo>>)
      returns (next: HNode?<TableInfo>, ghost emptied': seq<HNode<TableInfo>>)
      requires |homes| == |order| && k < |order| && order[k] == first && Emptied(order, k, homes)
      requires MapMemory() <= mem && Apart(homes, mem) && emptied == order[..k]
      modifies mem, homes[k]
      ensures Emptied(order, k + 1, homes) && emptied' == order[..k + 1]
      ensures MapMemory() <= mem && next == NextOf(order, k)
    {
      tableIdMap.OrderAt(0);
      next := EmptyTable(first, homes[k]);
      emptied' := emptied + [first];
      forall j | k < j < |order|
        ensures order[j].obj.Sound() && order[j].obj.Repr == homes[j]
      {
        order[j].obj.Kept(homes[j]);
      }
    }

    /** One iteration for the first table in the order of traversal. */
    method EmptyTable(first: HNode<TableInfo>, ghost home: set<object>) returns (next: HNode?<TableInfo>)
      requires MapValid() && first in tableIdMap.live && first == NextOf(tableIdMap.Order(), -1)
      requires first.obj.Sound() && home == first.obj.Repr && home !! MapMemory()
      modifies MapMemory(), home
      ensures MapValid() && MapMemory() <= old(MapMemory())
      ensures first.obj.entryMap.live == [] && first.obj.entryMap in home
      ensures tableIdMap.Order() == old(tableIdMap.Order())[1..] && next == NextOf(tableIdMap.Order(), -1)
    {
      tableIdMap.OrderAt(0);
      next := tableIdMap.NodeNext(first);
      ghost var live, order := tableIdMap.live, tableIdMap.Order();
      tableIdMap.OrderIsLive();
      assert Removed(order, first) == order[1..];
      first.obj.Empty();
      assert MapValid() && tableIdMap.live == live && tableIdMap.Order() == order;
      MapTableDelete(first);
      RemovedMembers(live, first);
    }

    /** map_tableDelete. */
    method MapTableDelete(node: HNode<TableInfo>)
      requires MapValid() && node in tableIdMap.live
      modifies this, tableIdMap, tableIdMap.buckets, tableIdMap.live
      ensures MapValid() && tableIdMap.live == Removed(old(tableIdMap.live), node)
      ensures tableIdMap.Order() == Removed(old(tableIdMap.Order()), node)
    {
      RemovedMembers(tableIdMap.live, node);
      tableIdMap.OrderRemoved(node);
      CountWraps(|tableIdMap.live|, -1);
      tableIdMap.NodeDelete(node);
      tableNum := Wrap16(tableNum - 1);
    }
  }
}
