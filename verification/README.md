# A verified model of the packet-matching and packet-editing core of the switch

This project models, in Dafny 4.11, the parts of the protocol-oblivious forwarding switch that decide which flow entry
a packet matches and how instructions and actions rewrite it, in the configured build: version 1.4.0, little-endian
host, `POF_SD2N`, `POF_SD2N_AFTER1015` and `POF_MULTIPLE_SLOTS` on, `POF_SHT_VXLAN` off. `dafny verify dfyconfig.toml`
checks the whole project.

## What is modelled

| file | subject |
|---|---|
| `Bits.dfy`, `Numbers.dfy` | bytes as eight bits, most significant first; bit strings as numbers |
| `Bitfield.dfy` | the unaligned bit-range write and read loops (`pofbf_cover_bit`, `pofbf_copy_bit`) |
| `Datapath.dfy`, `Instructions.dfy`, `Actions.dfy`, `Checksum.dfy`, `WindowRuns.dfy` | the packet, its movable window, field reads and writes, tags, field increments and checksums |
| `InstructionPointer.dfy` | the instruction pointer and the jumps, in both builds |
| `Trie.dfy` | the binary trie behind longest-prefix-match tables |
| `Chains.dfy`, `HashMap.dfy` | the intrusive hash map and its traversal |
| `Matching.dfy` | packing fields into a value, a mask and a key, and the byte-wise comparison |
| `Prefixes.dfy`, `TwoIndexes.dfy`, `FlowTable.dfy`, `Lookups.dfy`, `Resource.dfy` | flow tables: entries, their two indexes, flow messages, lookups, and the tables of a slot |
| `Swaps.dfy`, `WireFormat.dfy`, `ByteOrder.dfy`, `FlowMessage.dfy` | the byte-order conversion of a flow entry message in place; `WireFormat.dfy` says on bytes, apart from the converters, which fields of which structure have the other byte order afterwards |

State that the source updates in place is in classes and arrays here (`Packet`, `Tree`, `HMap`, `TableInfo`,
`LocalResource`, `Pointer`, and the byte arrays). Every such method is tied to a function of the old state, and the
properties are proved of those functions.

A byte is the sequence of its eight bits in the bit-field part, and a number below 256 in the byte-order part. A
`const` source pointer is passed as a value. The byte that an unaligned write reads behind its source and masks away
is an explicit parameter (`slack`) or an extra element, and nothing depends on it.

## What came out

Where the code does not do what its comments or its callers expect, the exact condition is proved.

- A range write replaces exactly its range if and only if the stray source bits that the unmasked term of the last
  byte lets through are zero or meet ones (`Bitfield.CoveredIsReplaced`). Copies are zero-padded, so everything built
  from copies is exact; flow entry values and masks come from the controller, and for them
  `FlowTable.LookupMatchesFields` says exactly which strays spoil a comparison. An empty write at a byte boundary
  other than bit 0 replaces a whole byte (`Bitfield.EffectiveLen`).
- A 64-bit checksum, which the action accepts, never verifies (`Checksum.Stored64NeverVerifies`): its carry threshold
  has wrapped to zero. For 1 to 63 bits the stored checksum always verifies.
- The packet length that the metadata records follows the window, modulo 2^16, until a deletion is accepted that has
  2048 bits or more, because the amount is cut to eight bits, or more whole bytes than the window holds; and exactly,
  until one is accepted that also cuts more bytes than lie behind the packet's first byte (`WindowRuns.StepConserves`,
  `WindowRuns.RunConserves`). The deletion's own 16-bit length check accepts exactly the overruns that are, modulo
  2^16, above 2^15 bits or a multiple of 2^16 (`Actions.DeleteCheckExact`); an overrun of at most 2^15 bits is always
  rejected. An accepted one can leave a window of about 2^29 bytes and, with a length that is negative as a 32-bit
  number, even make the window grow (`WindowRuns.DeleteCheckCanMiss`).
- The comment on adding a flow entry (local_resource/pof_flow_table.c:552-553) promises an error for an entry that
  exists already; the code has no such check. The hash map and the trie agree after an addition if and only if the
  prefix was not in use (`FlowTable.TableInfo.AddEntry`, `TwoIndexes.StepAgrees`); otherwise a deletion can make a
  live entry unreachable (`TwoIndexes.DuplicateIsLost`). A modification whose new fields do not fit the table loses
  the old entry, and an addition whose counter fails leaves the entry in the table.
- The trie also finds the entry with an empty prefix, which the linear scan it replaces never takes
  (`Prefixes.TrieAnswersScan`).
- Global table ids are kept in eight bits; the two id maps undo each other if and only if the id fits
  (`Resource.GlobalIdRoundTrip`).
- A forward jump over all instructions left is accepted, although the comment on `insJumpForward` asks for less; it is
  the only step that takes the pointer off the block, and the next update then wraps the count of instructions left
  (`InstructionPointer.StepKeeps`, `InstructionPointer.OverrunThenUpdate`).
- The byte-order conversion of an action recognises network order by its length field alone. It undoes itself if and
  only if one of three conditions on the message holds (`ByteOrder.ActionRoundTrip`). An instruction of unknown type
  is left alone on the way out but swapped on the way in, and can then be read as holding more actions than it has
  room for. A whole message comes back unchanged exactly when each instruction and each of its actions does
  (`FlowMessage.FlowEntryRoundTrip`, `FlowMessage.CountsReturn`).

## Model

| member | source | states |
|---|---|---|
| Bitfield.CoverBit | common/pof_basefunc.c:359-390 | for every alignment and every admissible length, the buffer's bits afterwards, the stray bits of the last byte included |
| Bitfield.CoverBytes | common/pof_basefunc.c:374-389 | the multi-byte loop writes every byte of the range and ends with 1 to 8 bits to go |
| Bitfield.CoveredIsReplaced | common/pof_basefunc.c:385-387 | the write replaces exactly its range if and only if every leaking source bit is zero or meets a one |
| Bitfield.ZeroTailCover | common/pof_basefunc.c:359-390 | a zero-padded source replaces exactly the range and no other bit |
| Bitfield.CoveredOutside | common/pof_basefunc.c:359-390 | whole bytes outside the range stay as they were |
| Bitfield.CopyBit | common/pof_basefunc.c:405-427 | the result is the range's bits, zero-padded to bytes, and bytes behind them are untouched |
| Bitfield.CopyCoverInverse | common/pof_basefunc.c:359-427 | copying a range and covering it back is the identity; covering and copying returns the padded source |
| Datapath.Packet.AddRelLen | include/pof_datapath.h:68-81 | the recorded length changes by the amount modulo 2^16 and no other metadata bit changes |
| Instructions.Get32FromBuf | datapath/pof_instruction.c:620-630 | a field read is the number of its bits, whatever the destination word held |
| Instructions.Get32 | datapath/pof_instruction.c:647-664 | a field read fails exactly when the field does not fit packet window or metadata; otherwise the value's bits are the bits at the field's offset, byte by byte |
| Instructions.FieldBitsAt | datapath/pof_instruction.c:620-664 | bit j of a field is bit (offset + j) mod 8 of byte (offset + j) / 8 of the packet window, or of the metadata |
| Instructions.Write32ToBuf | datapath/pof_instruction.c:577-585 | a field write stores the value's low bits in exactly the field |
| Instructions.Write32ToField | datapath/pof_instruction.c:590-615 | the write to packet or metadata succeeds exactly when the field fits; the field then holds the value's low bits and nothing else changes |
| Instructions.MovePacketBufOffset | datapath/pof_instruction.c:40-51 | a window move is accepted if and only if the new offset lies between the start of the pre-buffer and the end of the window, and moves offset, length and pointer together |
| Instructions.ExecuteMovePacketOffset | datapath/pof_instruction.c:895-917 | the instruction moves by the 16-bit operand in its direction, or changes nothing |
| Actions.InsertTag | datapath/pof_action.c:83-109 | a tag is accepted if and only if the packet still fits with it; the window becomes prefix, tag, old suffix; both lengths grow; bits before the window stay |
| Actions.InsertFitsExact | datapath/pof_action.c:92-95 | the 32-bit length check refuses exactly the tags with which the window would end outside the packet's part of the buffer |
| Actions.AddField | datapath/pof_action.c:854-906 | accepted exactly for tags of at most 128 bits that fit the buffer; then the window is prefix, tag, old suffix |
| Actions.DeleteBits | datapath/pof_action.c:933-949 | for every deletion that stays in the buffer: the window becomes the bits before the field, those from its end, cast to 16 bits, on, and exactly the cleared padding bits of the last byte; the new lengths |
| Actions.DeleteInside | datapath/pof_action.c:933-949 | for a field inside the window: prefix, suffix and padding |
| Actions.DeleteCheckExact | datapath/pof_action.c:932-936 | which fields the 16-bit length check accepts: those inside the window, and exactly the overruns above 2^15 bits or a multiple of 2^16, modulo 2^16 |
| Actions.DeleteField | datapath/pof_action.c:917-953 | the whole action with its operand, its length check and its error cases |
| Actions.ExtentRoundTrip | datapath/pof_action.c:83-109 | adding and deleting a byte-multiple tag restores offset, length and recorded length |
| Actions.AddThenDelete | datapath/pof_action.c:854-953 | adding a byte-multiple tag and deleting the same position and length restores every bit of the window and before it, all lengths and the metadata |
| Actions.ModifyField | datapath/pof_action.c:681-699 | the field is increased modulo two to its length and nothing else changes |
| Actions.IncreasedNumber | datapath/pof_action.c:681-699 | the new field value is the old one plus the increment modulo two to the length |
| Actions.IncreaseUndone | datapath/pof_action.c:681-699 | the negated increment gives the field back |
| Actions.ModifyThenUndo | datapath/pof_action.c:681-699 | two modifications by opposite increments leave packet and metadata as they were |
| WindowRuns.StepConserves | datapath/pof_action.c:932-942 | one operation keeps the window and its recorded length together, modulo 2^16 or exactly, if and only if it is no accepted deletion of 2048 bits or more, or of more whole bytes than the window holds, or, for exactness, than lie behind the packet's first byte |
| WindowRuns.RunConserves | include/pof_datapath.h:68-81 | over every run of moves, additions and deletions the two stay together after each operation if and only if none of the deletions, where the run has come to, is of that kind |
| WindowRuns.RecordedLengthCanWrap | datapath/pof_action.c:938-942 | a run after which the recorded length has wrapped below zero, though it still agrees modulo 2^16 |
| WindowRuns.DeleteCheckCanMiss | datapath/pof_action.c:932-942 | two deletions beyond the window that the check accepts, and the windows they leave: one far too long, one that has grown |
| Checksum.BzeroBit | datapath/pof_action.c:62-79 | both branches clear exactly the range |
| Checksum.Accumulate | datapath/pof_action.c:147-160 | the loop computes the fold of the words' complements |
| Checksum.FoldCongruent | datapath/pof_action.c:141-160 | every partial sum stays below 2^cs and is congruent to the negated sum of the words modulo 2^cs - 1 |
| Checksum.StoredFoldVerifies | datapath/pof_action.c:127-185 | with the fold stored in a zero word, the words sum to a multiple of 2^cs - 1 and the receiver's sum is all ones |
| Checksum.Stored64NeverVerifies | datapath/pof_action.c:141-143 | at 64 bits the receiver's sum is never all ones |
| Checksum.CalChecksum | datapath/pof_action.c:168-185 | the field, cleared first, receives the fold; no other bit changes |
| Checksum.ChecksumInPlace | datapath/pof_action.c:168-185 | with the field a word of the summed region, the region's words verify and nothing outside the field changes |
| InstructionPointer.Pointer.InsJumpForward | datapath/pof_instruction.c:56-70 | the loop walks over n instruction lengths and moves n from todo to done |
| InstructionPointer.Pointer.InsJump | datapath/pof_instruction.c:74-102 | the jump that starts over and walks, its guards included; a jump back by n ends at the instruction n before |
| InstructionPointer.Pointer.InsJumpFixed | datapath/pof_instruction.c:74-102 | the jump by pointer subtraction, its guards included, to the same place |
| InstructionPointer.Pointer.InstructionUpdate | datapath/pof_instruction.c:142-150 | the last instruction ends the packet, any other moves on by one |
| InstructionPointer.BackwardJumpsAgree | datapath/pof_instruction.c:89-99 | starting over and walking lands where subtraction does |
| InstructionPointer.StepKeeps | datapath/pof_instruction.c:53-102 | every step keeps done + todo and the pointer's place, and stays on an instruction if and only if it is no jump over all that are left |
| InstructionPointer.RunKeeps | datapath/pof_instruction.c:55-150 | the same over every run of updates and jumps |
| InstructionPointer.RunEnds | datapath/pof_instruction.c:142-150 | a run ends the packet if and only if one of its updates comes with one instruction left |
| InstructionPointer.StraightRun | datapath/pof_instruction.c:142-150 | without jumps the packet ends with the block's last instruction and not before |
| InstructionPointer.OverrunThenUpdate | datapath/pof_instruction.c:77-150 | what the next update does after such a jump |
| Trie.MoveLeft | common/pof_tree.c:86-96 | the bytes that hold the walked bits lose their first bit and end with a zero; the bytes behind them stay |
| Trie.ToLeftIsFirstBit | common/pof_tree.c:99-102 | the next son is named by the first bit |
| Trie.Tree.NodeInsert | common/pof_tree.c:117-134 | the stored map gains the first bitNum bits as a path to the entry, and nothing else changes |
| Trie.Tree.NodeDelete | common/pof_tree.c:137-158 | the stored map loses exactly that path, whatever nodes are freed; the root stays |
| Trie.Tree.RemoveLeaf | common/pof_tree.c:151-154 | freeing a leaf detaches no other node |
| Trie.Tree.NodeLookup | common/pof_tree.c:161-175 | the answer is the stored entry with the longest path that begins the key, whenever the walk ends at the key's last bit |
| Trie.LongestPrefixMeaning | common/pof_tree.c:161-175 | no answer if and only if no prefix of the key is stored; otherwise the longest one |
| Trie.InsertDeleteForgets | common/pof_tree.c:117-158 | storing a new path and deleting it gives every key its old answer |
| Trie.DeleteChangesNoOther | common/pof_tree.c:137-158 | a deletion changes only the answers that were the deleted entry |
| HashMap.BucketsNumIsPowerOfTwo | common/pof_hmap.c:54-64 | the bucket count is the largest power of two not above the requested size, or 1 |
| HashMap.IndexIsModulo | common/pof_hmap.c:109-112 | hash & mask is the low bits of the hash |
| HashMap.HMap.constructor | common/pof_hmap.c:44-76 | an empty map |
| HashMap.HMap.NodeInsert | common/pof_hmap.c:171-177 | the node becomes the most recent of the map; every chain stays linked, acyclic and apart from the others |
| HashMap.HMap.NodeDelete | common/pof_hmap.c:180-190 | exactly that node leaves the map, if it is in it |
| HashMap.HMap.NodeGetWithHash | common/pof_hmap.c:115-124 | null if and only if no live node has the hash; otherwise a node with the hash that no live node with it was inserted after |
| Chains.FirstWithHashMeaning | common/pof_hmap.c:115-124 | the first node of a chain with the hash: none if and only if there is none, and otherwise none before it has the hash |
| HashMap.HMap.NodeContain | common/pof_hmap.c:193-202 | true if and only if the node is in the map |
| HashMap.HMap.NodeFirst | common/pof_hmap.c:219-228 | the head of the traversal order |
| HashMap.HMap.NodeNext | common/pof_hmap.c:156-168 | the successor in the traversal order |
| HashMap.HMap.OrderIsLive | include/pof_hmap.h:52-57 | the traversal order names each node of the map exactly once |
| HashMap.HMap.OrderFollowsBuckets | common/pof_hmap.c:156-168 | of two nodes the one in the lower bucket is traversed first, and within a bucket the one inserted later |
| Chains.FlatRemoved | common/pof_hmap.c:180-190 | a deletion takes the node out of the traversal order and moves no other |
| Chains.AfterRemoved | include/pof_hmap.h:52-57 | a successor fetched before a deletion is the right one after it |
| Chains.BestMeaning | local_resource/pof_flow_table.c:335-355 | a scan answers null if and only if nothing hits, and otherwise the best hit, the first among equals |
| Matching.ValueMaskAssemble | local_resource/pof_flow_table.c:113-134 | the packed bits of value and mask, and success exactly when the lengths add up to the key length |
| Matching.KeyAssemble | local_resource/pof_flow_table.c:293-309 | on bytes: behind the fields before it the key holds, bit for bit, the packet window or the metadata from each field's offset on; the rest of the key stays |
| Matching.KeyHolds | local_resource/pof_flow_table.c:293-309 | a key that is the fields one behind the other holds each of them at the sum of the lengths before it |
| Matching.MaskMatch | local_resource/pof_flow_table.c:321-331 | true if and only if all masked bits of whole bytes agree |
| Matching.AssembledAt | local_resource/pof_flow_table.c:113-134 | bit by bit: the fields' own bits in order, and behind them only strays |
| Matching.ConcatAt | local_resource/pof_flow_table.c:113-134 | bit j of field k's value or mask is found at the sum of the lengths before it, plus j |
| Matching.ConcatMatches | local_resource/pof_flow_table.c:321-331 | comparing the packed fields is comparing field by field: wherever a mask bit is one, the packet window or metadata byte at the field's offset has the value's bit |
| Matching.PackedMatching | local_resource/pof_flow_table.c:112-134 | the packed comparison holds if and only if every field matches and no strays of value and mask clash behind the key |
| Matching.PackedEqual | local_resource/pof_flow_table.c:226-233 | packed value bytes equal a key if and only if every field of the packet has the value and no stray bit lies behind the key |
| Matching.StraysCanClash | local_resource/pof_flow_table.c:112-134 | a layout whose strays do clash |
| Matching.PaddedNeverSpills | local_resource/pof_flow_table.c:112-134 | zero-padded values, or masks, never do |
| Prefixes.Get1sCountInByte | local_resource/pof_flow_table.c:137-145 | the loop counts the ones |
| Prefixes.Get1sCountInBytes | local_resource/pof_flow_table.c:148-155 | the ones of the first n bytes |
| Prefixes.PrefixMatch | local_resource/pof_flow_table.c:321-331 | an entry with a prefix mask matches exactly the keys that begin with its prefix |
| Prefixes.TrieAnswersScan | local_resource/pof_flow_table.c:368-391 | the trie's answer is the reference scan's, or, when that has none, the entry with the empty prefix |
| Prefixes.LongestMatch | local_resource/pof_flow_table.c:186-189 | the trie answers null if and only if no entry matches the key, and otherwise the one matching entry with the longest prefix |
| TwoIndexes.IndexedHolds | local_resource/pof_flow_table.c:246-290 | agreement means: the trie holds exactly the map's entries, each under its prefix |
| TwoIndexes.RemovedAgrees | local_resource/pof_flow_table.c:280-290 | a deletion keeps the indexes together if and only if no other entry has the prefix |
| TwoIndexes.StepAgrees | local_resource/pof_flow_table.c:246-290 | one step keeps them together if and only if it does not insert a prefix in use |
| TwoIndexes.ExchangeAgrees | local_resource/pof_flow_table.c:659-663 | a modification keeps them together if and only if the new prefix is not that of a third entry |
| TwoIndexes.RunAgrees | local_resource/pof_flow_table.c:555-722 | after every run with fresh prefixes both indexes hold the same entries and all counters agree |
| TwoIndexes.DuplicateIsLost | local_resource/pof_flow_table.c:588-591 | a run with a duplicate prefix after which a live entry is in the map but not in the trie |
| FlowTable.TableInfo.LpmInsert | local_resource/pof_flow_table.c:158-169 | the trie gains the entry under its prefix |
| FlowTable.TableInfo.LpmDelete | local_resource/pof_flow_table.c:172-183 | the trie loses the entry's prefix |
| FlowTable.TableInfo.EntryFill | local_resource/pof_flow_table.c:195-241 | entry and hash for each table type, and when filling fails |
| FlowTable.TableInfo.Store | local_resource/pof_flow_table.c:269-274 | on every table type the entry joins the map under its hash and is counted, and only on a longest-prefix-match table it joins the trie |
| FlowTable.TableInfo.EntryInsert | local_resource/pof_flow_table.c:247-277 | on every table type: the new node is the map's most recent, with the message's index, priority and counter and the hash of its value or index; all counters; the trie; a message that does not fit changes nothing |
| FlowTable.TableInfo.EntryDelete | local_resource/pof_flow_table.c:280-290 | on every table type the node leaves the map and the count, and on a longest-prefix-match table its prefix leaves the trie |
| FlowTable.TableInfo.EntryGetWithIndex | local_resource/pof_flow_table.c:426-436 | the entry with the index that no other comes before in the traversal order; null if and only if there is none |
| FlowTable.FirstWithIndexMeaning | local_resource/pof_flow_table.c:426-436 | the index search fails if and only if there is no such entry, and otherwise finds the first |
| FlowTable.TableInfo.EntryLookupMM | local_resource/pof_flow_table.c:335-355 | the multi-match scan |
| FlowTable.TableInfo.EntryLookupLpmScan | local_resource/pof_flow_table.c:375-389 | the linear reference scan |
| FlowTable.TableInfo.LpmLookup | local_resource/pof_flow_table.c:186-189 | the trie lookup |
| FlowTable.TableInfo.EntryLookup | local_resource/pof_flow_table.c:405-417 | key assembly and the lookup of each table type |
| FlowTable.PacketKeyHolds | local_resource/pof_flow_table.c:405-413 | the key of a lookup holds, on bytes, each field of the packet at its place |
| FlowTable.LookupMatchesFields | local_resource/pof_flow_table.c:112-134 | the entry made of a message matches the key made of a packet exactly when every field does and no strays clash |
| FlowTable.HashedBytesAreKey | local_resource/pof_flow_table.c:226-233 | the bytes an exact-match entry is hashed by are a packet's key if and only if the packet has the message's value in every field, byte by byte, and no stray bit lies behind the key |
| FlowTable.TableInfo.LpmLookupIsScan | local_resource/pof_flow_table.c:368-391 | the same on a table, from the agreement of its indexes |
| FlowTable.TableInfo.AddEntry | local_resource/pof_flow_table.c:588-601 | every outcome of an addition on every table type, a failed counter included: map, counts and trie afterwards; the indexes agree if and only if the prefix was not in use |
| FlowTable.TableInfo.ModifyEntry | local_resource/pof_flow_table.c:639-664 | every outcome of a modification, the lost entry included; when the indexes agree afterwards |
| FlowTable.TableInfo.DeleteEntry | local_resource/pof_flow_table.c:703-722 | every outcome of a deletion; the indexes still agree |
| FlowTable.TableInfo.EmptyEntries | local_resource/pof_flow_table.c:753-756 | the traversal that deletes under itself deletes each entry once, in the order of traversal; no entry and no count is left, and if the indexes agreed the trie is empty too |
| Lookups.RunMadeOf | local_resource/pof_flow_table.c:246-290 | after every run of insertions and deletions a table is made of the messages whose entries were inserted |
| Lookups.MultiMatchAnswers | local_resource/pof_flow_table.c:335-355 | a packet finds the message with the highest priority among those it meets, field by field, the first among equals; none if and only if it meets none |
| Lookups.LongestPrefixAnswers | local_resource/pof_flow_table.c:368-373 | a packet finds the one message with the longest prefix among those it meets, field by field; none if and only if it meets none |
| Lookups.ExactMatchAnswers | local_resource/pof_flow_table.c:357-365 | a key finds the most recent entry that is stored under its hash; none if and only if there is none; so an entry whose value bytes are the key is never missed |
| Lookups.AddedIsFound | local_resource/pof_flow_table.c:247-417 | a packet that meets the message added last finds an entry of at least its priority, or of at least its prefix length; on an exact-match table a packet equal to it finds that entry itself |
| Lookups.AddThenLookup | local_resource/pof_flow_table.c:405-601 | the same for the two operations carried out one after the other |
| Resource.TableIdToID | local_resource/pof_flow_table.c:779-792 | the global id in eight bits |
| Resource.TableIDToId | local_resource/pof_flow_table.c:804-822 | the type and id that a global id lies at |
| Resource.LocateMeaning | local_resource/pof_flow_table.c:804-822 | an id is located in a range if and only if it lies in it |
| Resource.GlobalIdRoundTrip | local_resource/pof_flow_table.c:779-822 | the two maps undo each other if and only if the global id fits eight bits |
| Resource.LocalResource.FindTable | local_resource/pof_flow_table.c:573-586 | the checks before every flow message, and the sound table, the only one with its global id, that they lead to |
| Resource.LocalResource.AddFlowEntry | local_resource/pof_flow_table.c:555-600 | every outcome of the whole message; the tables stay sound and separate, and no other table changes |
| Resource.LocalResource.ModifyFlowEntry | local_resource/pof_flow_table.c:610-664 | the same for a modification |
| Resource.LocalResource.DeleteFlowEntry | local_resource/pof_flow_table.c:674-722 | the same for a deletion |
| Resource.LocalResource.CreateFlowTable | local_resource/pof_flow_table.c:438-502 | a table is created, empty and in memory of its own, only under a global id not in use; ids stay unique |
| Resource.LocalResource.EmptyFlowTable | local_resource/pof_flow_table.c:749-767 | every table is emptied and removed once, in the order of traversal; the table map is empty and tableNum is zero |
| Swaps.SwapBytes | include/pof_byte_transfer.h:84-89 | one number's bytes are reversed in place |
| Swaps.TwiceIsIdentity | common/pof_byte_transfer.c:35-53 | a set of swaps of separate fields, done twice, restores the buffer |
| Swaps.UnchangedIff | common/pof_byte_transfer.c:35-53 | it changes nothing exactly when every field reads the same both ways |
| ByteOrder.Action | common/pof_byte_transfer.c:570-598 | for each action type the head and every field of its data read in the other byte order, and every other byte of the buffer stays; which fields are its data depends on the byte order inferred from len |
| ByteOrder.ActionOnBytes | common/pof_byte_transfer.c:444-598 | the converter's swaps, whatever their order, turn exactly the fields of the action |
| ByteOrder.ActionRoundTrip | common/pof_byte_transfer.c:570-598 | converting an action twice restores it, if and only if len has exactly one zero byte, or the type reads the same both ways, or all data fields do |
| ByteOrder.Actions | common/pof_byte_transfer.c:682-698 | the loop over the actions of an instruction |
| ByteOrder.InstructionHtoN | common/pof_byte_transfer.c:766-781 | head and data fields of each instruction type read in the other byte order and every other byte stays; an unknown type is left alone |
| ByteOrder.InstructionNtoH | common/pof_byte_transfer.c:783-798 | the same on the way in, an unknown type's head included |
| ByteOrder.InstructionOnBytes | common/pof_byte_transfer.c:600-798 | the swaps of an instruction turn exactly its fields and those of the actions it holds |
| ByteOrder.ActionsRoundTrip | common/pof_byte_transfer.c:682-698 | converting the actions of an instruction twice restores them if and only if each of them survives |
| ByteOrder.InstructionRoundTrip | common/pof_byte_transfer.c:766-798 | out and back restores an instruction if and only if its type is known and each action it holds survives, or its head reads the same both ways |
| FlowMessage.FlowEntryHtoN | common/pof_byte_transfer.c:800-828 | every fixed field, match and instruction of the message reads in the other byte order afterwards, and every other byte stays |
| FlowMessage.FlowEntryNtoH | common/pof_byte_transfer.c:830-858 | the same on the way in |
| FlowMessage.MessageOnBytes | common/pof_byte_transfer.c:800-858 | the swaps of a message, in either direction, turn exactly its fields |
| FlowMessage.FlowEntryRoundTrip | common/pof_byte_transfer.c:800-858 | out and back restores any message if and only if each instruction survives |
| FlowMessage.CountsReturn | common/pof_byte_transfer.c:830-858 | the way back stays within the arrays if and only if each instruction has a known type, or does not read as actions when swapped, or has room for as many |
| FlowMessage.KnownTypesRestored | common/pof_byte_transfer.c:800-858 | a message of known instruction types comes back with its counts in range, and is restored if and only if each action survives |

## Left out

- Bitfield.CoverBit: lengths below 8 bits that cross a byte boundary are excluded, because the loop then compares an unsigned count with a negative number and runs on (common/pof_basefunc.c:380).
- Bitfield.CopyBit: an empty copy also reads and stores back the byte before its destination, which the model does not show.
- Instructions.Write32ToField: fields are of 1 to 32 bits at admissible positions, as the range write needs.
- Actions.InsertTag: the tag position lies inside the window; the source's own test of that compares an unsigned number with zero (datapath/pof_action.c:94).
- Actions.AddField: tag and suffix are ranges that the write loop is sound for, as for `Bitfield.CoverBit`; byte-multiple tags always are.
- Actions.DeleteField: an accepted deletion stays in the buffer, the bits it moves are a range that the write loop is sound for, and the window it leaves lies in the buffer; the source reads or writes behind its buffers in the other cases. `WindowRuns.Step` carries the arithmetic on in all cases.
- Actions.DeleteBits: the same.
- Checksum.CalChecksum: the choice between packet and metadata as the buffers of the checksum action is left to the caller.
- Trie.Tree.NodeInsert: what the shifted copy of the value holds afterwards is not stated; the callers throw it away.
- Trie.Tree.NodeLookup: requires that the node at the key has no son where the bit left in front of the value then leads; below it the source's bit count wraps and its shifts leave the value.
- HashMap.HMap.NodeInsert: nodes hold their structure as an immutable value instead of being embedded in it.
- FlowTable.TableInfo.EntryLookup: the table's fields add up to its key length, which table creation does not check; a linear table has no lookup by key; the byte hash of exact-match tables is any function.
- FlowTable.TableInfo.constructor: a trie is created for every table type, though only longest-prefix-match tables use it; `tree_destroy` and `hmap_destroy` are not modelled.
- FlowTable.TableInfo.AddEntry: instructions and match descriptions are stored but never inspected, so they are not part of an entry; what the counter functions answer is a parameter.
- FlowMessage.FlowEntryRoundTrip: on a big-endian host the macros are identities, which is not modelled.
- The packet buffer is modelled with more than the 2176 bytes of `PFODP_PACKET_BUF_TOTAL_LEN`; the structure declares 2048 (include/pof_datapath.h:97).
- `malloc` failures, logging, error messages to the controller, sockets, ports, queues, timers and configuration.
- Exact-match lookup compares hashes only, so an entry with another value and the same hash can be the answer; `Lookups.ExactMatchAnswers` says which entry is found.
- Deleting one empty table, replying to table and entry queries, `tree_clear` and the traversals with a callback: they add only easy members.
- Counters, groups, meters and ports, which use the same hash map with id checks.
- VXLAN, UDP, IP and MAC encapsulation and instruction blocks, which are off in the configured build; only the backward jump of that build is modelled.
