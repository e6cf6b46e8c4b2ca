# Dobby: relocation, trampolines, allocation and hook lifecycle

Dobby hooks a function by overwriting its first instructions with a jump. This project
models what has to hold for that to be harmless, and proves it:

- **Relocation** (`A64`, `Codec`, `Assembler`, `Relocator`, `Linking`, `Simulation`). The
  overwritten ARM64 words become position-independent fragments. A machine that executes
  32-bit words from memory runs both the original words and the linked block; the block
  leaves for the same address in a corresponding state, from every start.
- **x64 relocation** (`X64`). The same for x64, where the relocator's decoder and the
  processor's ordinary instructions are two separate parameters, with the exact conditions
  under which verbatim copies agree, and the retry loop on top of the memory allocator.
- **Trampolines** (`Trampoline`, `NearTrampoline`). Which encodings reach their target, and
  exactly when the ADRP form does not.
- **Memory** (`MemoryAllocator`, `NearAllocator`, `NearClients`, `Memmem`). Page allocation
  with free and reuse, allocation within branch range, and what its callers can rely on.
- **Patching and hooks** (`CodePatch`, `Hooks`, `HookLayers`). For every pattern of refused
  permission calls a code patch is all or nothing, or faults in exactly described cases;
  hooking and unhooking, granted or refused, overlapping or not, keep memory equal to an
  exactly known stack of trampolines.
- **The hooked function** (`HookedFunction`). Trampoline and relocated block in one memory:
  the function reaches its replacement and the block does what the function did.
- **Containers** (`HashTable`, `TinyBuffer`). TinySTL's hash table as a map over whole runs,
  and its buffer.
- **Symbols and waiting** (`ExportTrie`, `Waiter`). The Mach-O export trie walk against an
  abstract trie, and the wait-hook queue over all interleavings.

`Options` holds the one shared datatype. Where the code does not meet the property one would
expect, one member says for which inputs it does (if and only if), and another gives an input
for which it does not: `LiteralExactly` and `LiteralLost`, `CondInversionExact` and
`AlwaysBranchLost`, `AdrpTrampolineLands` and `AdrpTrampolineMisses`, `NearTrampolineLands`
and `NearTrampolineMisses`, `NearJccCopyExact` and `NearJccMissesHere`, `CellHeadExact` and
`CellMissesHere`, `SearchExact` and `SearchMisses`, `BumpContained` and `BumpEscapes`,
`LinearAllocator.Alloc` and `WrappedRequest`, `NearAllocator.Free` and `StrayPage`,
`Process.Patch` and `FaultsHere`, `StaleHarmless` and `RefusedRemovalLeaves`,
`FirstInFirstOutExact` and `LeftInOrder`, `SelfInsertExact` and `SelfInsertGarbles`,
`LookupExact` and `DeepTrieOverruns`.

Words, addresses and registers are integers with wrap-around at 2^32 or 2^64 written out.
What the operating system, the clock, the dynamic linker and the code patcher answer, and how
far a memcpy gets before it faults, are parameters, so every theorem holds for all of them.

Where code and documentation disagree, the model follows the code:

- `read_uleb128` looks as if it checked its end and its 64-bit limit; both assertions are true
  when reached, so it reads on. The model reads as far as memory is readable.
- The repository's README describes `DobbyDestroy(target)`; its definition is not part of this
  model, and removal is modelled as `Interceptor::remove` followed by the entry's destructor.

The ARM64 block theorems are stated for heads of up to 52,428 words: a load of a literal
reaches at most 2^20 bytes. Their condition `StepOk` names the words that are translated
faithfully and asks that the original run neither reads the scratch register X17 nor writes
into the block or the overwritten words.

## Model

| member | source | states |
|---|---|---|
| Codec.ClassesDisjoint | source/InstructionRelocation/arm64/InstructionRelocationARM64.cc:82-108 | no word is in two of the relocator's pc-relative classes, so the order of its tests does not matter |
| Codec.ClassesMatchDecode | source/InstructionRelocation/arm64/InstructionRelocationARM64.cc:82-108 | each class mask picks exactly the architecture's instructions of that kind, plus two unallocated opcode patterns |
| Codec.Imm14Is | source/InstructionRelocation/arm64/inst_decode_encode_kit.h:16-24 | the 14-bit field is read as four times the two's complement number it holds |
| Codec.Imm19Is | source/InstructionRelocation/arm64/inst_decode_encode_kit.h:31-39 | the same for the 19-bit field |
| Codec.Imm26Is | source/InstructionRelocation/arm64/inst_decode_encode_kit.h:47-55 | the same for the 26-bit field |
| Codec.Imm21Is | source/InstructionRelocation/arm64/inst_decode_encode_kit.h:62-78 | the two fields of ADR and ADRP are read as one two's complement number of bytes or pages |
| Codec.Imm14RoundTrip | source/InstructionRelocation/arm64/inst_decode_encode_kit.h:16-29 | decoding an encoded 14-bit offset gives it back if and only if it is a multiple of 4 in [-2^15, 2^15); all other bits of the word are kept |
| Codec.Imm19RoundTrip | source/InstructionRelocation/arm64/inst_decode_encode_kit.h:31-45 | the same for 19-bit offsets and [-2^20, 2^20) |
| Codec.Imm26RoundTrip | source/InstructionRelocation/arm64/inst_decode_encode_kit.h:47-60 | the same for 26-bit offsets and [-2^27, 2^27) |
| Codec.Imm21RoundTrip | source/InstructionRelocation/arm64/inst_decode_encode_kit.h:62-92 | decoding an encoded ADR offset gives it back if and only if it is in [-2^20, 2^20); opcode and register bits are kept |
| Codec.Page21RoundTrip | source/InstructionRelocation/arm64/inst_decode_encode_kit.h:94-102 | the same for ADRP page offsets: if and only if a multiple of 4096 in [-2^32, 2^32); opcode and register bits are kept |
| Assembler.LinkFrame | source/core/assembler/assembler-arm64.h:529-542 | linking changes no word that is not a recorded load |
| Assembler.LinkFrameBeyond | source/core/assembler/assembler.h:73-78 | words appended while linking are never patched by it |
| Assembler.LinkData | source/core/assembler/assembler.h:73-78 | the 8 data bytes of label k stand at word 2k behind the code, low half first |
| Assembler.LinkRef | source/core/assembler/assembler-arm64.h:529-542 | every recorded load ends up displaced by exactly the distance to its own label's data, whatever other labels and loads there are |
| Assembler.TurboAssembler.CreateDataLabel | source/core/assembler/assembler.h:60-64 | adds one fresh label at the end of the label list |
| Assembler.TurboAssembler.LdrLabel | source/core/assembler/assembler-arm64.h:498-501 | emits an unlinked literal load and records its offset with the label |
| Assembler.TurboAssembler.Mov | source/core/assembler/assembler-arm64.h:503-514 | emits the four 16-bit moves (their combined effect is in Simulation.MovSimulates) |
| Assembler.TurboAssembler.BindLabel | source/core/assembler/assembler.h:66-71 | patches exactly the recorded loads of one label, in place |
| Assembler.TurboAssembler.RelocDataLabels | source/core/assembler/assembler.h:73-78 | the in-place loop over all labels refines the linking function the lemmas above are about |
| Assembler.TurboAssembler.LiteralLdrBranch | source/core/codegen/codegen-arm64.h:13-22 | emits an absolute jump through a fresh data label |
| Relocator.PrefixShape | source/InstructionRelocation/arm64/InstructionRelocationARM64.cc:167-322 | n words become at most 20n bytes of code and data; every label has one load, inside its own fragment |
| Relocator.BlockShape | source/InstructionRelocation/arm64/InstructionRelocationARM64.cc:324-334 | the whole block, with its tail jump, takes at most 20n + 16 bytes and its labels are well linked |
| Relocator.RelocateOne | source/InstructionRelocation/arm64/InstructionRelocationARM64.cc:178-317 | one turn of the loop appends exactly the fragment of its word to code and labels, which Simulation.FragRuns runs; it aborts if and only if the word is a literal load of opc 2 or 3, after the moves of the address |
| Relocator.RelocateWords | source/InstructionRelocation/arm64/InstructionRelocationARM64.cc:167-322 | the loop takes whole words until the requested size is reached and stops at an unsupported one |
| Relocator.Relocate | source/InstructionRelocation/arm64/InstructionRelocationARM64.cc:167-334 | the buffer is the linked block of the words up to the requested size rounded up, that rounded size is reported, and it aborts if and only if one of those words is unsupported |
| Relocator.EmitJump | source/InstructionRelocation/arm64/InstructionRelocationARM64.cc:178-191 | a label, an optional skipping branch, a load of the label and a branch are the jump fragment |
| Linking.BlockLinked | source/InstructionRelocation/arm64/InstructionRelocationARM64.cc:324-334 | after linking, every fragment and the tail stand linked at their own offset: each load finds its own literal |
| Simulation.BranchSimulates | source/InstructionRelocation/arm64/InstructionRelocationARM64.cc:178-191 | the fragment for B and BL jumps to the original target and, for BL, leaves a return address behind itself |
| Simulation.MovSimulates | source/InstructionRelocation/arm64/InstructionRelocationARM64.cc:212-236 | the fragments for ADR and ADRP leave exactly the address the original computes |
| Simulation.LiteralSimulates | source/InstructionRelocation/arm64/InstructionRelocationARM64.cc:193-211 | the fragment for an accepted literal load loads from the original address |
| Simulation.LiteralExactly | source/InstructionRelocation/arm64/InstructionRelocationARM64.cc:193-211 | wherever the fragment of a literal load stands, its run agrees with the load on every core if and only if it is a general 64-bit load, or a 32-bit load into X17 or the zero register |
| Simulation.LiteralLost | source/InstructionRelocation/arm64/InstructionRelocationARM64.cc:193-211 | LDR W0, #8: what it loads, and what the run of its fragment leaves |
| Simulation.CondInversionExact | source/InstructionRelocation/arm64/InstructionRelocationARM64.cc:237-262 | flipping the low bit of a condition inverts it for all flags if and only if the condition is below 14 |
| Simulation.AlwaysBranchLost | source/InstructionRelocation/arm64/InstructionRelocationARM64.cc:237-262 | for conditions 14 and 15 the original always jumps and the run of its fragment always falls through |
| Simulation.FragRuns | source/InstructionRelocation/arm64/InstructionRelocationARM64.cc:178-317 | the fragment of every word, from every core, runs to the state its instruction asks for, with the exceptions written out: X17 is overwritten, calls return behind the fragment, literal loads are 64-bit general ones, conditions 14 and 15 fall through |
| Simulation.UnallocatedFrag | source/InstructionRelocation/arm64/InstructionRelocationARM64.cc:237-262 | words of the B.cond class with an unallocated opcode are rewritten like the others |
| Simulation.CondSimulates | source/InstructionRelocation/arm64/InstructionRelocationARM64.cc:237-262 | for every other condition the fragment branches exactly when the original does, to the same target |
| Simulation.CompareSimulates | source/InstructionRelocation/arm64/InstructionRelocationARM64.cc:263-288 | CBZ and CBNZ: taken exactly when the original is, in both widths |
| Simulation.TestSimulates | source/InstructionRelocation/arm64/InstructionRelocationARM64.cc:289-314 | TBZ and TBNZ: taken exactly when the original is, for every tested bit |
| Simulation.CopySimulates | source/InstructionRelocation/arm64/InstructionRelocationARM64.cc:315-317 | a copied instruction that does not read what the runs disagree on has the same effect at its new address |
| Simulation.FragSimulates | source/InstructionRelocation/arm64/InstructionRelocationARM64.cc:178-317 | whatever the word, its linked fragment makes the machine do what the word does and never runs into literal data |
| Simulation.WordRuns | source/InstructionRelocation/arm64/InstructionRelocationARM64.cc:178-334 | the same inside the whole linked block, within five steps per word |
| Simulation.TailRuns | source/InstructionRelocation/arm64/InstructionRelocationARM64.cc:324-334 | running off the last fragment lands on the first word that was not relocated |
| Simulation.BlockSimulatesHead | source/InstructionRelocation/arm64/InstructionRelocationARM64.cc:167-334 | for every start word and state, the block leaves for the same address as the original words, with the same registers, flags and memory except the scratch register and hidden bytes; calls return to the next fragment; at most 5 steps a word and 2 |
| Simulation.HeadIsMachineRun | source/InstructionRelocation/arm64/InstructionRelocationARM64.cc:167-334 | the run that the block is compared with is a run of the machine over the original bytes |
| Simulation.RelocationFaithful | source/InstructionRelocation/arm64/InstructionRelocationARM64.cc:167-334 | both machines, one over the original bytes and one over the block, leave for the same address in corresponding states |
| Trampoline.GenerateNormalTrampoline | source/TrampolineBridge/Trampoline/trampoline_arm64.cc:15-45 | three words, ADRP+ADD+BR, if and only if the target is less than 4 GiB away in either direction, counted around the ends of the address space; otherwise a linked load-and-branch of four words |
| Trampoline.AdrpTrampolineLands | source/TrampolineBridge/Trampoline/trampoline_arm64.cc:15-45 | ADRP+ADD+BR reaches the target if and only if the offset of the source in its page plus the signed distance is below 2^32; otherwise it lands 2^33 too low |
| Trampoline.AdrpTrampolineMisses | source/TrampolineBridge/Trampoline/trampoline_arm64.cc:15-45 | two addresses that pass the distance test, and the machine run from one that ends 2^33 below the other |
| Trampoline.LiteralTrampolineLands | source/TrampolineBridge/Trampoline/trampoline_arm64.cc:15-45 | the load-and-branch form always reaches the target and changes only the scratch register |
| Trampoline.BranchLands | source/core/assembler/assembler-arm64.h:319-322 | an emitted B reaches its distance rounded down to a multiple of 4, over the whole range |
| Trampoline.NearTrampolineLands | source/InterceptRouting/NearBranchTrampoline/near_trampoline_arm64.cc:60-64 | a direct near branch lands on the target if and only if the distance is a multiple of 4 |
| Trampoline.NearTrampolineMisses | source/InterceptRouting/NearBranchTrampoline/near_trampoline_arm64.cc:60-64 | a distance of 6: the branch goes to the instruction before the target |
| Trampoline.ForwardTrampolineLands | source/InterceptRouting/NearBranchTrampoline/near_trampoline_arm64.cc:22-49 | branch, load, branch: three steps to any target from any aligned block that the branch reaches |
| NearTrampoline.BuildNear | source/InterceptRouting/NearBranchTrampoline/near_trampoline_arm64.cc:22-79 | with the block the near allocator has just handed out, whatever its cursors: one branch and no forward block if and only if the target is less than 128 MiB away in either direction, and then it never fails; otherwise a forward block in reach; above the lowest 128 MB it fails only when no freed record, page, mappable page or run of zeros near the source serves |
| NearTrampoline.BuiltLands | source/InterceptRouting/NearBranchTrampoline/near_trampoline_arm64.cc:22-79 | whatever was built, once in place, lands on the target from every machine state |
| HashTable.BucketExact | external/TINYSTL/hash_base.h:161 | in a table of 8^k buckets the bucket of a key is the remainder of its hash |
| HashTable.StartsMonotone | external/TINYSTL/hash_base.h:160-190 | bucket starts never decrease along the bucket array |
| HashTable.OrderedInsert | external/TINYSTL/hash_base.h:160-190 | putting a node at the end of its bucket keeps the list in bucket order with the starts shifted by one |
| HashTable.OrderedRemove | external/TINYSTL/hash_base.h:193-207 | so does taking a node out |
| HashTable.FindLast | external/TINYSTL/hash_base.h:160-190 | the backward scan over buckets finds the last node of the list |
| HashTable.Propagate | external/TINYSTL/hash_base.h:160-190 | after an insertion every bucket entry again points at the first node at or after its bucket |
| HashTable.NodeInsert | external/TINYSTL/hash_base.h:160-190 | the pointer updates insert the node at the end of its bucket and keep links, order and bucket array consistent |
| HashTable.Retract | external/TINYSTL/hash_base.h:193-207 | after an erasure every bucket entry again points at the first node at or after its bucket |
| HashTable.Unlink | external/TINYSTL/hash_base.h:193-207 | the pointer updates take the node out of a doubly linked list |
| HashTable.NodeErase | external/TINYSTL/hash_base.h:193-207 | erasure keeps the whole chain consistent |
| HashTable.NodeFind | external/TINYSTL/hash_base.h:283-290 | finds the node of the key; null means that no node of the whole list has it |
| HashTable.UnorderedMap.constructor | external/TINYSTL/unordered_map.h:84-89 | an empty map with eight buckets and a sentinel |
| HashTable.UnorderedMap.Copy | external/TINYSTL/unordered_map.h:92-105 | an equal map made of fresh nodes only |
| HashTable.UnorderedMap.Find | external/TINYSTL/unordered_map.h:189-193 | non-null if and only if the key is in the map, and then the key's own value |
| HashTable.UnorderedMap.Rehash | external/TINYSTL/unordered_map.h:203-219 | keeps the contents and the nodes; grows eightfold exactly above four elements a bucket, so the array has 8^k entries and a sentinel, and always more than a quarter as many entries as elements |
| HashTable.UnorderedMap.Insert | external/TINYSTL/unordered_map.h:222-242 | adds the pair if and only if the key was absent; an existing value is kept; the table grows exactly when it has become crowded |
| HashTable.UnorderedMap.Erase | external/TINYSTL/unordered_map.h:269-275 | removes exactly the node's key |
| HashTable.UnorderedMap.Clear | external/TINYSTL/unordered_map.h:173-186 | an empty map with fresh buckets |
| HashTable.Run | external/TINYSTL/unordered_map.h:189-275 | every sequence of inserts, erases and lookups, with the rehashes they cause, leaves and answers what a mathematical map does |
| MemoryAllocator.LinearAllocator.Alloc | common/linear_allocator.h:48-62 | for every power-of-two alignment and every cursor: the cursor is rounded up in 32 bits, then the block is granted when the 32-bit sum fits; a granted block lies inside the buffer if and only if that sum did not wrap around |
| MemoryAllocator.WrappedRequest | common/linear_allocator.h:48-62 | a request that is granted although it does not fit |
| MemoryAllocator.Bump | common/linear_allocator.h:48-62 | on aligned pages and requests that cannot wrap around: exactly the aligned block, or a refusal |
| MemoryAllocator.MemoryAllocator.Alloc | source/MemoryAllocator/MemoryAllocator.h:126-184 | the first free record that is large enough is live again, or a record is new, at the rounded cursor of its page; the block overlaps no live block, all live records stay and no other becomes live; a page is mapped only when no free record and no page serves; refused if and only if the size is 0 or over a page, or nothing serves and the system gives no usable page |
| MemoryAllocator.MemoryAllocator.Free | source/MemoryAllocator/MemoryAllocator.h:186-242 | freeing marks the record; the page goes back to the system exactly when its last live block is freed; unknown blocks and double frees change nothing |
| MemoryAllocator.MemoryAllocator.Safety | source/MemoryAllocator/MemoryAllocator.h:126-242 | in every reachable state: records are disjoint and aligned, each lies below the cursor of one mapped page of its kind, cursors stay in their pages, and every held page has a live block |
| MemoryAllocator.Run | source/MemoryAllocator/MemoryAllocator.h:126-242 | the same over any sequence of allocations and frees, whatever blocks are freed and whatever pages the system gives; the records follow call by call from the blocks returned and freed |
| MemoryAllocator.WithoutParts | source/MemoryAllocator/MemoryAllocator.h:230-236 | releasing a page takes its records out and keeps the others in order |
| MemoryAllocator.FreeLive | source/MemoryAllocator/MemoryAllocator.h:186-242 | freeing takes exactly the freed block out of the set of live ones, whether or not its page goes too |
| MemoryAllocator.WithoutDisjoint | source/MemoryAllocator/MemoryAllocator.h:186-242 | dropping a page's records keeps the others disjoint |
| Memmem.MemMem | source/MemoryAllocator/NearMemoryAllocator.h:14-34 | the pointer loop refines the search function the next two rows are about |
| Memmem.SearchExact | source/MemoryAllocator/NearMemoryAllocator.h:14-34 | the search, which never backtracks, finds the first occurrence in every haystack if and only if the needle repeats one byte |
| Memmem.SearchMisses | source/MemoryAllocator/NearMemoryAllocator.h:14-34 | for any other needle, a haystack that holds it and is reported as not holding it |
| NearAllocator.ContainsExact | source/MemoryAllocator/MemoryAllocator.h:42-53 | the containment test is exact on ranges that do not wrap around and false on ranges that do |
| NearAllocator.IntersectExact | source/MemoryAllocator/MemoryAllocator.h:55-62 | the intersection is the set of common addresses; wrapping ranges count as empty |
| NearAllocator.BumpInRange | source/MemoryAllocator/NearMemoryAllocator.h:122-151 | for every size and cursor: the block is where the address function of the next rows says, aligned, above the old cursor and up to the new one; after a refusal the page refuses again |
| NearAllocator.BumpValue | source/MemoryAllocator/NearMemoryAllocator.h:122-151 | that address in plain arithmetic, for every cursor, with the exact condition for a refusal |
| NearAllocator.BumpLowest | source/MemoryAllocator/NearMemoryAllocator.h:122-151 | from an aligned cursor a page serves if and only if some aligned block of its unused bytes lies in the range, and with the lowest one |
| NearAllocator.BumpClose | source/MemoryAllocator/NearMemoryAllocator.h:122-151 | a block of eight bytes or more starts in the range and ends at most 14 bytes behind it, whatever the cursor |
| NearAllocator.BumpContained | source/MemoryAllocator/NearMemoryAllocator.h:122-151 | the bump stays in every search range if and only if the cursor is aligned or the block does not fit |
| NearAllocator.BumpEscapes | source/MemoryAllocator/NearMemoryAllocator.h:122-151 | with an unaligned cursor, a range the returned block leaves |
| NearAllocator.FindZeros | source/MemoryAllocator/NearMemoryAllocator.h:198-228 | the first run of n + 3 zeros, rounded up to 4; none is reported only if there is no such run |
| NearAllocator.NearOS.MapFixed | source/MemoryAllocator/NearMemoryAllocator.h:153-191 | mapping a page in a gap adds exactly its addresses to the layout and keeps every region |
| NearAllocator.NearOS.Unmap | source/MemoryAllocator/NearMemoryAllocator.h:233-293 | unmapping a page takes exactly its addresses away |
| NearAllocator.NearAllocator.Reuse | source/MemoryAllocator/NearMemoryAllocator.h:114-120 | the first freed record of the kind with at least n bytes whose first n lie in the range is live again; none only if there is no such record |
| NearAllocator.NearAllocator.FromPages | source/MemoryAllocator/NearMemoryAllocator.h:122-151 | the first page of the kind that serves; the block overlaps no owned record and ends at the page's cursor; refused only when no page of the kind serves |
| NearAllocator.GapExact | source/MemoryAllocator/NearMemoryAllocator.h:153-170 | how many bytes a gap shares with the range, in plain arithmetic |
| NearAllocator.NearAllocator.FindGap | source/MemoryAllocator/NearMemoryAllocator.h:153-191 | the first gap that shares n bytes with the range, and the page of the first shared byte, which is unmapped; none only if no gap shares enough |
| NearAllocator.NearAllocator.FindCodeGap | source/MemoryAllocator/NearMemoryAllocator.h:198-228 | the first run of zeros in the first executable region that has one inside the range; none only if no such region has a run long enough |
| NearAllocator.NearAllocator.AllocInRange | source/MemoryAllocator/NearMemoryAllocator.h:113-231 | for every size: the first reusable record is live again, or one record is new, and no other record changes; an owned block is where the address function puts it; pages are mapped only when nothing held serves, only where they touch the range, and none but the last would have served; the block is in the range while cursors are aligned and at most 14 bytes off otherwise; a code gap lies in an executable region and is taken only when no page serves; it is refused only when no freed record, page, page that could be mapped or run of zeros served before the call, and none does after it; the recursion ends |
| NearAllocator.NearAllocator.AllocNear | source/MemoryAllocator/NearMemoryAllocator.h:67-100 | all of this for a position and a distance; the invalid arguments are refused and change nothing |
| NearAllocator.NoGapNoFresh | source/MemoryAllocator/NearMemoryAllocator.h:153-191 | when no gap between regions is large enough, no page that could be mapped would serve |
| NearAllocator.NearAllocator.Free | source/MemoryAllocator/NearMemoryAllocator.h:233-293 | the first record of the block is marked free; its page is released exactly when the record is owned and was the last live one there; a page is left without live blocks if and only if the last one was a code gap |
| NearAllocator.DroppedDisjoint | source/MemoryAllocator/NearMemoryAllocator.h:278-284 | dropping the records of a released page keeps the owned ones disjoint |
| NearAllocator.Run | source/MemoryAllocator/NearMemoryAllocator.h:67-293 | over any sequence of near allocations and frees, of any blocks: the records follow call by call from the blocks returned and freed; owned records stay disjoint, each below the cursor of a mapped page of its kind; cursors stay aligned while all sizes are multiples of 8; every page in use has a live block while no code block is freed |
| NearAllocator.DroppedParts | source/MemoryAllocator/NearMemoryAllocator.h:278-284 | releasing a page takes its owned records out and keeps the others in order |
| NearClients.TakeMatched | source/MemoryAllocator/NearMemoryAllocator.h:113-231 | a block handed out is none that is out already, and every other block stays out, while its kind has no code gap |
| NearClients.GiveMatched | source/MemoryAllocator/NearMemoryAllocator.h:233-293 | giving a block back frees its own record and no other's |
| NearClients.LentDisjoint | source/MemoryAllocator/NearMemoryAllocator.h:113-231 | two blocks that are out do not overlap |
| NearClients.Run | source/MemoryAllocator/NearMemoryAllocator.h:67-293 | callers that give back only what they hold: over any run, in which each request adds at most its block and each return removes its own, blocks that are out are mapped and overlap nowhere as long as no code gap was used for their kind, which for data blocks is always; they are exactly the live records; when all are back, every page they came from has been unmapped |
| NearClients.GapTwice | source/MemoryAllocator/NearMemoryAllocator.h:198-228 | one code gap handed out twice, since its bytes are still zero |
| NearClients.StrayPage | source/MemoryAllocator/NearMemoryAllocator.h:233-293 | a run that leaves a page mapped for good: a block, a code gap inside it, the block freed, then the gap |
| CodePatch.TouchedExact | source/Backend/UserMode/ExecMemory/code-patch-tool-posix.cc:86-108 | the pages of a range are exactly those that cover part of it, each once, in ascending order |
| CodePatch.Process.CollectPages | source/Backend/UserMode/ExecMemory/code-patch-tool-posix.cc:89-108 | the loop yields these pages with their permissions; fails if and only if one is not mapped |
| CodePatch.Process.EnableWrites | source/Backend/UserMode/ExecMemory/code-patch-tool-posix.cc:113-122 | makes exactly the pages before the first refused call writable |
| CodePatch.Process.Restore | source/Backend/UserMode/ExecMemory/code-patch-tool-posix.cc:124-146 | all permissions are back if no call is refused; otherwise exactly the refused pages stay writable |
| CodePatch.RollBackPasses | source/Backend/UserMode/ExecMemory/code-patch-tool-posix.cc:134-146 | after the re-enabling pass a page is read-only if and only if it is stuck: restored, and then refused; and which pages stay writable in the end |
| CodePatch.Process.RollBack | source/Backend/UserMode/ExecMemory/code-patch-tool-posix.cc:134-146 | the old bytes are written back unless some page is stuck read-only; then at most the other pages are written |
| CodePatch.Process.Patch | source/Backend/UserMode/ExecMemory/code-patch-tool-posix.cc:68-153 | which of success, failure and a memory fault happens is decided by the range, the permissions before the call and the refused permission calls, if and only if; success: the range holds the new bytes and nothing else, not even a permission, changed; failure: no byte changed, and exactly the pages whose permission was refused for good stay writable; fault: nothing was done, or the stuck pages hold the new bytes and every other byte is new or old |
| CodePatch.OnePageNeverFaults | source/Backend/UserMode/ExecMemory/code-patch-tool-posix.cc:68-153 | a readable patch inside one page never faults, whatever is refused |
| CodePatch.FaultsHere | source/Backend/UserMode/ExecMemory/code-patch-tool-posix.cc:124-146 | two pages and two refused calls at which it faults, with the byte and the permissions it leaves |
| Hooks.Interceptor.Find | source/Interceptor.h:105-112 | the loop finds the first entry that starts at the address, if there is one |
| Hooks.Interceptor.Hook | source/InterceptRouting/InlineHookRouting.h:33-115 | succeeds exactly when the address is valid, not yet hooked, and every stage works; otherwise memory, entries and blocks are as before; overlapping hooks included; on a clear range the lifecycle invariant is kept |
| Hooks.Interceptor.Destroy | source/Interceptor.h:50-123 | the whole new state, granted or refused, overlapping hooks included; the lifecycle invariant is kept; the image under the other hooks is as before if and only if the write is granted, nothing was found, or the trampoline equals the bytes it lay over |
| Hooks.RefusedRemovalLeaves | source/Interceptor.h:77-85 | a refused removal that leaves a changed byte and no entry |
| Hooks.RefusedOverlays | source/Interceptor.h:77-85 | a trampoline that could not be taken back stays under the other hooks |
| Hooks.StaleHarmless | source/Interceptor.h:77-85 | it changes nothing if and only if it equals the bytes it lies over |
| Hooks.HookOverlays | source/InterceptRouting/InterceptRouting.h:59-68 | writing a trampoline over a clear range leaves the untouched image under the old trampolines and the new one |
| Hooks.DestroyOverlays | source/Interceptor.h:77-85 | writing the backup leaves exactly the other trampolines |
| Hooks.ClearIsPristine | source/Interceptor.h:61-75 | a backup taken from a clear range holds the untouched bytes |
| Hooks.SameAddrSame | source/Interceptor.h:105-123 | no two active entries share an address |
| Hooks.Run | source/InterceptRouting/InlineHookRouting.h:33-115 | over any sequence of hooks on clear ranges and removals, failed and refused ones included, the entries and blocks are those of the operations taken one after the other, and memory is the untouched image under the trampolines that could not be taken back and the active ones; without refused removals there are none of the former |
| Hooks.PristineWhenEmpty | source/Interceptor.h:114-123 | once no hook is active and no removal was refused, memory is untouched and no relocated block is held |
| Hooks.RemoveInOrder | source/Interceptor.h:50-123 | hook, hook, remove, remove in the same order: the image is the one of the last row of this group, and entries and blocks are as before |
| Hooks.RemoveInReverse | source/Interceptor.h:50-123 | removed in reverse, two hooks restore every memory, overlapping or not |
| Hooks.LastInFirstOutRestores | source/Interceptor.h:77-85 | the image of the row before is the image before hooking |
| Hooks.FirstInFirstOutExact | source/Interceptor.h:61-85 | removed in the order they were made, two hooks restore every memory if and only if the second backup is apart from the first trampoline |
| HookLayers.LeftInOrder | source/Interceptor.h:61-85 | two overlapping hooks removed in the order they were made: no hook is left, and a byte of the first trampoline is |
| HookLayers.PeeledImage | source/Interceptor.h:77-85 | writing a backup takes exactly its hook's layer away when no later layer lies over it and no later backup holds bytes of its trampoline |
| HookLayers.PeeledBacked | source/Interceptor.h:61-85 | and every other hook's backup still is what lies under it |
| HookLayers.NestedTidy | source/Interceptor.h:105-123 | hooks that are removed newest first meet this condition at every removal, however they overlap |
| HookLayers.StartsBare | source/Interceptor.h:99-101 | an interceptor without hooks is a state that such a run can start from, with no layers |
| HookLayers.Run | source/InterceptRouting/InlineHookRouting.h:33-115 | over any sequence of hooks and removals, overlapping, failed and refused ones included, memory is the stack of layers that the steps leave; if every removal is granted and meets the condition, in particular if hooks are properly nested, only the active trampolines are left, and a run that ends with the hooks it began with restores memory |
| HookedFunction.BuildHook | source/InterceptRouting/InterceptRouting.h:70-125 | the trampoline and the linked block of exactly the words it covers; refused if and only if one of them is unsupported; it is three words long exactly for targets less than 4 GiB away |
| HookedFunction.HookWorks | source/InterceptRouting/InlineHookRouting.h:20-100 | trampoline and block in one memory: from the function the machine reaches the replacement with only the scratch register changed, and from the block it leaves for the same address as the unhooked function, in a corresponding state |
| HookedFunction.NearHookWorks | source/InterceptRouting/InlineHookRouting.h:20-100 | the same for near trampolines, with or without a forward block |
| TinyBuffer.Buffer.Reserve | external/TINYSTL/buffer.h:142-156 | keeps the contents and provides the capacity; the storage is replaced exactly when it was too small |
| TinyBuffer.Buffer.MakeRoom | external/TINYSTL/buffer.h:202-217 | everything before the gap stays and everything behind it moves up, without loss; the storage is replaced exactly when it was too small, by one of half again the new size |
| TinyBuffer.Buffer.Insert | external/TINYSTL/buffer.h:219-238 | inserts foreign elements at the position |
| TinyBuffer.Buffer.InsertSelf | external/TINYSTL/buffer.h:219-238 | what inserting a part of the buffer into itself yields, moved or reallocated |
| TinyBuffer.SelfInsertExact | external/TINYSTL/buffer.h:219-238 | self-insertion copies the source faithfully for every content if and only if the position is not strictly inside the source |
| TinyBuffer.SelfInsertGarbles | external/TINYSTL/buffer.h:219-238 | two elements inserted between themselves: the first arrives twice |
| TinyBuffer.Buffer.Erase | external/TINYSTL/buffer.h:267-278 | removes exactly the range and keeps the order |
| TinyBuffer.ShiftRight | external/TINYSTL/buffer.h:104-109 | the overlapping move from the right loses nothing |
| ExportTrie.ReadUleb | builtin-plugin/SymbolResolver/macho/macho_ctx.cc:203-224 | the written number modulo 2^64 and where it ends, for numbers of any length |
| ExportTrie.SumsSkip | builtin-plugin/SymbolResolver/macho/macho_ctx.cc:213-218 | slices beyond bit 63 may be dropped: they do not change the number modulo 2^64 |
| ExportTrie.SkipUleb | builtin-plugin/SymbolResolver/macho/macho_ctx.cc:290-296 | skipping by continuation bits ends where reading ends |
| ExportTrie.ScanDecides | builtin-plugin/SymbolResolver/macho/macho_ctx.cc:276-289 | scanning a label decides whether the rest of the symbol begins with it |
| ExportTrie.ChooseEdge | builtin-plugin/SymbolResolver/macho/macho_ctx.cc:275-313 | the edge loop refines the choice function that ChooseFollows is about |
| ExportTrie.ChooseFollows | builtin-plugin/SymbolResolver/macho/macho_ctx.cc:275-313 | on an encoded node the first matching edge is followed to where its child is encoded |
| ExportTrie.TailWalk | builtin-plugin/SymbolResolver/macho/macho_ctx.cc:251-332 | the walk refines the function the next rows are about, malformed tries and unreadable memory included, and ends |
| ExportTrie.EncodesOne | builtin-plugin/SymbolResolver/macho/macho_ctx.cc:315-328 | bytes at one place encode one trie only |
| ExportTrie.ChildIsNew | builtin-plugin/SymbolResolver/macho/macho_ctx.cc:315-328 | on an encoding of a trie the cycle check never fires by mistake |
| ExportTrie.WalkExact | builtin-plugin/SymbolResolver/macho/macho_ctx.cc:251-332 | from any encoded node on the way, the walk answers or overruns its table, exactly by the number of edges to follow |
| ExportTrie.LookupExact | builtin-plugin/SymbolResolver/macho/macho_ctx.cc:251-332 | for every encoding of a well-formed trie and every symbol: the walk finds the description if the symbol is exported and nothing if it is not, if and only if the symbol follows fewer than 128 edges; symbols shorter than 128 bytes always do |
| ExportTrie.ExportsOne | builtin-plugin/SymbolResolver/macho/macho_ctx.cc:251-332 | a well-formed trie gives a symbol one description |
| ExportTrie.DeepTrieOverruns | builtin-plugin/SymbolResolver/macho/macho_ctx.cc:252-254 | a trie and an exported symbol on which the walk writes past its table of 128 nodes |
| Waiter.Waiter.Submit | src/waiter.cpp:120-143 | invalid exactly without library or replacement, and then nothing changes; otherwise one more task is accepted, due the given time after now if that time is not 0: installed at once if and only if its symbol, or its library's base plus the offset modulo 2^64, is found and not 0, else queued last |
| Waiter.Waiter.Pass | src/waiter.cpp:80-106 | a task ends as timed out if it has a deadline that now is past, else as installed if its symbol or library is found and the address is not 0; all other tasks stay, in order; each ended task is reported once |
| Waiter.Waiter.Cancel | src/waiter.cpp:145-160 | exactly the matching tasks end; their number is returned; the others stay in order |
| Waiter.KeepOrder | src/waiter.cpp:85-101 | erasing while iterating keeps the order of submission |
| Waiter.PassAccounted | src/waiter.cpp:85-101 | moving tasks from the queue to the ended ones loses none and ends none twice |
| Waiter.CallbacksOnce | src/waiter.cpp:75-76 | callbacks are exactly the ended tasks that have one, and no task is reported twice |
| Waiter.Run | src/waiter.cpp:80-160 | over any interleaving of submissions, cancellations and passes the queue, the clock and the ended tasks are those of the steps taken one after the other; every accepted task is pending or ended and never both, ended tasks stay ended the same way, no callback comes twice, a time-out comes only strictly after a non-zero deadline |
| X64.JmpAbsoluteStep | source/InstructionRelocation/x86/InstructionRelocationX86Shared.cc:14-21 | the emitted jump lands on the 64-bit target in one step |
| X64.JccSimulates | source/InstructionRelocation/x86/InstructionRelocationX86Shared.cc:54-79 | the emitted sequence goes to the target exactly when the condition holds and behind itself otherwise |
| X64.CallSimulates | source/InstructionRelocation/x86/InstructionRelocationX86Shared.cc:156-167 | the emitted call calls the target and comes back behind its inline cell |
| X64.CopySimulates | source/InstructionRelocation/x86/InstructionRelocationX86Shared.cc:183-185 | a copied instruction that does the same at every address acts as the original, wherever it is copied to |
| X64.MovableExact | source/InstructionRelocation/x86/InstructionRelocationX86Shared.cc:183-185 | doing the same at every address is exactly what a faithful copy of an ordinary instruction needs |
| X64.NearJccCopyExact | source/InstructionRelocation/x86/InstructionRelocationX86Shared.cc:183-185 | jcc rel32 is copied: the copy agrees with the original if and only if the branch is not taken or nothing moved |
| X64.NearJccMisses | source/InstructionRelocation/x86/InstructionRelocationX86Shared.cc:183-185 | a head that begins with a taken jcc rel32 jumps as far beside its target as it was moved |
| X64.NearJccMissesHere | source/InstructionRelocation/x86/InstructionRelocationX86Shared.cc:183-185 | the bytes of one such head, and where the original and the copy go |
| X64.CellCopyExact | source/InstructionRelocation/x86/InstructionRelocationX86Shared.cc:183-185 | a copied jump or call through a RIP-relative cell agrees if and only if the two cells hold the same eight bytes |
| X64.CellHeadExact | source/InstructionRelocation/x86/InstructionRelocationX86Shared.cc:183-185 | a head that begins with one is copied, as the decoder takes it for two other instructions; the same condition decides whether the block does what the head did |
| X64.CellMissesHere | source/InstructionRelocation/x86/InstructionRelocationX86Shared.cc:183-185 | the bytes of such heads, FF 25 and FF 15, what is emitted for them, and where the original and the copy go |
| X64.BranchesReadRight | source/InstructionRelocation/x86/InstructionRelocationX86Shared.cc:54-176 | branches without prefixes that are rewritten mean what the relocator takes them for |
| X64.UntakenCopied | source/InstructionRelocation/x86/InstructionRelocationX86Shared.cc:183-185 | with such a decoder every jcc rel32 whose condition fails is one of the untaken ones of the next rows |
| X64.FragSimulates | source/InstructionRelocation/x86/InstructionRelocationX86Shared.cc:32-195 | what is emitted falls through, jumps or calls as the original, for instructions read right and for untaken jcc rel32 |
| X64.RelocatedExact | source/InstructionRelocation/x64/InstructionRelocationX64.cc:29-39 | a block is relocated if and only if no instruction on the way to its end is one that stops the relocator: a RIP-relative operand, an opcode from E0 to E3, or E8 or E9 behind a prefix |
| X64.BranchesRelocated | source/InstructionRelocation/x86/InstructionRelocationX86Shared.cc:54-176 | with a decoder that knows branches, jcc rel8, jmp rel8, call rel32, jmp rel32 and jcc rel32 without prefixes never stop it |
| X64.AllRunsRight | source/InstructionRelocation/x64/InstructionRelocationX64.cc:29-39 | if every instruction of a block is read right, so is every run through it |
| X64.BlockSimulates | source/InstructionRelocation/x64/InstructionRelocationX64.cc:29-48 | by induction, for the whole block from any instruction on |
| X64.EmittedSimulates | source/InstructionRelocation/x64/InstructionRelocationX64.cc:18-64 | the emitted code, wherever placed, leaves the block as the original does, from every state whose run executes instructions read right and untaken jcc rel32 only; off the end it lands on the first instruction not relocated; calls come back to the relocated copy of what follows |
| X64.AssumptionsMet | source/InstructionRelocation/x64/InstructionRelocationX64.cc:30-33 | what is assumed of decoder and processor can be met |
| X64.FinishFixed | source/InstructionRelocation/x64/InstructionRelocationX64.cc:50-52 | the origin length of the first pass is a fixed point: a second pass over it emits the same code |
| X64.GrowthBound | source/InstructionRelocation/x64/InstructionRelocationX64.cc:29-39 | relocation overshoots by less than one instruction and emits at most 18 bytes for a byte |
| X64.RelocateFixed | source/InstructionRelocation/x64/InstructionRelocationX64.cc:18-64 | one pass emits the block's code and jump back and reports the settled length; it gives up if and only if an instruction on the way to the end is one that is not relocated, and fails exactly when the code is longer than the block |
| X64.GenRelocateCode | source/InstructionRelocation/x86/InstructionRelocationX86Shared.cc:197-220 | the growing retry ends; it aborts if and only if an instruction on the way is not relocated and a first block was given or to be had; the sizes asked for are 32 bytes, or 48 after a given block, and 16 more while the code does not fit; on success the code fits the block the allocator holds for it; it runs out of memory only when the size asked for last is over a page, or nothing is free and the system gives no usable page; rejected blocks, the given one too, are given back and every other live block stays live |

## Left out

- 32-bit ARM and Thumb relocation and trampolines: the same design with other encodings.
- IA-32 relocation (the `TARGET_ARCH_IA32` branches): rel32 re-encoding only.
- RIP-relative operands on x64 (the out-of-line sequence built by the near allocator): it rests on operand details of the decoder; such instructions are outside X64.Frag.
- The x86 instruction decoder: a parameter of module X64, assumed to report lengths from 1 to 15 and, for the branches without prefixes, what its tables say. Of the processor it is assumed that an instruction is decided by its own bytes.
- X64.EmittedSimulates: asks that each executed instruction is read right, which leaves out taken jcc rel32 (0F 80 to 0F 8F have primary opcodes the relocator does not test for), and jumps and calls through a RIP-relative cell (the decoder takes FF for a one-byte instruction, because its group entry has no operands). X64.NearJccMisses and X64.CellHeadExact say what their verbatim copies do.
- X64.Step: code bytes do not change while they run, and falling through does not wrap around the address space.
- Branches of the overwritten instructions into the overwritten range itself: they reach the same address as in the original, where the trampoline now stands; the relocator does not redirect them.
- A64.Effect: a memory access that crosses 2^64 does not wrap around; instructions that are not pc-relative are a parameter of the machine.
- Pointer authentication, instrumentation bridges, closure trampolines and the import-table replacement plugin: no arithmetic or state beyond what is modelled.
- Instruction-cache maintenance and concurrent execution of code while it is patched: the patch is one step of the model.
- The mutexes of allocator, interceptor and waiter: each locked body is one step.
- MemoryAllocator.LinearAllocator.Alloc: alignments are powers of two, which is what the rounding mask is for; addresses do not wrap around.
- MemoryAllocator.MemoryAllocator.Alloc: sizes are unbounded numbers; the source's 32-bit size parameter is not wrapped.
- NearAllocator.NearAllocator.AllocInRange: the custom allocation handler, a failing fixed mapping (fatal in the source) and requests whose zero pattern exceeds the source's fixed array are not modelled. The memory map is changed by the allocator alone.
- NearClients.Run: promises no disjointness for kinds that a code gap was used for. The gap search takes any zero bytes, those of a block that was handed out but not yet written included, so it depends on what callers write; NearClients.GapTwice shows an overlap.
- Hooks.Interceptor.Hook: trampoline and relocated block are parameters (their generators are the modules above), and so is the patcher's answer.
- Hooks.Run: hooks on a range that overlaps another hook are not taken; HookLayers.Run takes them.
- HookedFunction.HookWorks: trampolines that lie in one memory with the block; how the bytes get there is the business of CodePatch and Hooks.
- The hook handle and runtime-record registries: bookkeeping that mirrors the entry list.
- HashTable.UnorderedMap.Erase: asks for a node of this table, as the iterator-based source does.
- Other TinySTL containers (string, vector wrappers, unordered_set): thin forms of the modelled ones.
- ExportTrie.TailWalk: what `iterate_exported_symbol` does with the description it finds (flags, re-exports, stub resolvers) is not modelled.
- ExportTrie.LookupExact: a trie is well formed when labels are non-empty and siblings differ in their first byte; on other bytes only ExportTrie.TailWalk's refinement holds.
- Waiter.Waiter.Pass: a callback that calls back into the queue (a deadlock in the source) and the sleeping between passes are not modelled.
- `src/hooker.cpp`, `src/callsite.cpp`, `src/breakpoint.cpp` and `src/instrument.cpp`: hand-written Thumb handling whose branch decoding does not follow the T32 encoding, so there is no meaning to preserve.
- `linear_allocator_t` in `common/linear_allocator.h`: the allocators above do not use it.
- Symbol resolvers other than the trie walk, process-map parsing, logging, and the Darwin and Windows patching backends.
