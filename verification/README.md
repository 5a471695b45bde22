# Verified models of Xen and Mini-OS routines

Dafny models of eight C modules of Xen and Mini-OS, with proofs of what each of them is
for. `dafny verify dfyconfig.toml` checks the whole project.

| file | models |
|---|---|
| `PxmTable.dfy`, `Coverage.dfy`, `SratSpec.dfy`, `Srat.dfy` | NUMA discovery from the ACPI SRAT (ACPI 6.4 section 5.2.16): proximity domains to node ids, memory blocks, node ranges, the coverage decision |
| `LazyFpu.dfy` | lazy FPU switching, refined against private register files |
| `Locks.dfy` | plain and recursive locks as interleaved steps |
| `IntelMicrocode.dfy` | the Intel update image: checksum, matching, loading (Intel SDM volume 3A, "Microcode Update Facilities") |
| `AmdContainer.dfy` | the AMD container: skipping to the next container header |
| `Pic8259.dfy` | two 8259A chips and the driver's cached mask (Intel 8259A datasheet) |
| `BitScan.dfy`, `CStrings.dfy` | bit search and string routines |
| `PerCpu.dfy` | page orders and per-CPU areas over CPU hot-plug |
| `Common.dfy`, `Bytes.dfy` | shared definitions; bytes and little-endian words |

Each module has the same shape. Code that updates state in place is a class or a method
over arrays; its `ensures` give the whole new state as a function of the old one. The
properties are lemmas about that function, over every run. A run is a sequence of calls or
events, and a step that the callers cannot make (releasing a lock that is not held, say)
makes the run `None` or `Illegal`.

## Readings of the source

Where the C text is damaged or leaves something open, the model takes this reading.

SRAT:
- `NUMA_NO_NODE` is 0 in the file, which is also a node id; the model uses a value above every id, as the commented build check asks.
- `sizeof(pxm2node)` is the number of slots. The `sizeof` tests on record headers mean that the record's length is the one of ACPI 6.4 sections 5.2.16.1 to 5.2.16.3 (16, 40 and 24 bytes).
- -1 from `conflicting_memblks` means that the block is accepted. Enabled is bit 0 and hot-pluggable bit 1 of the flags.
- `memory_nodes_parsed` is a set of nodes. `srat_disabled` is "acpi_numa negative or NUMA off".
- The processor callback tests `flags && 1`, so any flag enables an entry; the model does the same.
- `nodes_found` wraps at 2^32. The end of a block is computed in 32 bits, the end of an e820 entry in 64 bits. A block, or a node of a wrapped block, may have its end below its start.
- `bad_srat` resets only a local variable named `mem_hotplug`; `mem_hotplug` is not modelled.

FPU:
- `xsave`, `xrstor`, `clts` and `stts` are empty in the file; they get their hardware meaning. The `XSTATE_` masks name component sets. `cpu_has_xsave` is 1. `is_idle_vcpu` and `xstate_all` are fields of the vCPU.
- Guests may use nonlazy state from the start or begin to use it; the code that sets `nonlazy_xstate_used` is not in the repository, so an event does.
- A vCPU with nonlazy state whose saves move all components (`xstate_all`) relies on the eager restore, which is not in the repository either. `PrivateIff` states what the present code guarantees, and for which vCPUs it cannot.

Locks:
- Regions between `local_irq_save` and `local_irq_restore` are single steps; `count++` and `--count` are a load and a store.
- `___lock_init_recursive` does not set `count`. The main results take it to be 0 at first, and `InitNeedsZeroCount` shows that this is needed.

Microcode:
- The Intel header has 48 bytes. Words, sizes and offsets are 32 bits wide, and `_(unchecked)` size sums wrap. Pointer arithmetic on the image counts bytes, and the commented-out assignment of the extended header is in force.
- A size sum that wraps makes the size tests wrong (`SizesPassIff`; `WrappedDataPasses` and `WrappedCountPasses` give images). An entry beyond the buffer ends the check with `None`.
- The loop that copies an image compares with `(int)total_size`, so an image of 2^31 bytes or more is not copied. The model keeps that; `OrderIff` says exactly when it lets the recorded revision fall, and `HugeImageLowersRevision` gives an image.
- What the allocator and the CPU's revision register return are parameters.
- `header = data + *offset` in the AMD file counts bytes; the new offset is an out-parameter.

8259A:
- A bit pattern is the set of its one bits. `FIRST_LEGACY_VECTOR` is undefined in the file, so it is a parameter. Lines are 0 to 15.
- The chips' state before `init_8259A` is arbitrary, and the request and service registers may change at any time.

Strings and bits:
- The comments say "trailing zeros"; the code returns the 1-based position of the lowest set bit. The annotations `\result < 32` of `ffs` and `\result < 64` of `__ffsti2` fail for the least int and the least 64-bit number, and only there.
- The comments promise the sign of `memcmp`; the cut to a signed char makes it wrong for differences outside that range (`SignIff`). `NonnegativeIff` says for which first differing bytes `\result >= 0` of `strcmp` holds.
- In `__ffsti2` the low word is written as a remainder instead of an exclusive or with the cleared number. An int has 32 bits.

Per-CPU areas:
- The marker for "no area" is a parameter (in the file 2^63 minus the template's address, cut to 32 bits), as are the number of CPUs and what the page allocator returns. Returned blocks are new, lie above the template by less than INT_MAX as the file assumes, and not at the marker.
- Each CPU has its own deferred-free record; the file has a single one for all CPUs.

## Model

| member | source | states |
|---|---|---|
| `PxmTable.LookupStable` | srat_verified.c:144-208 | From any state a boot reaches through any registrations and clearings: once a domain has a node id, that id is stored with this very domain, and no later sequence of registrations of any domains changes the answer |
| `PxmTable.LookupExact` | srat_verified.c:144-161 | In every table a domain has an answer if and only if an occupied slot holds it; the answer is an id stored with that domain, from its own slot before any other and else from the first slot that holds it |
| `PxmTable.LookupStableFrom` | srat_verified.c:144-208 | The same from any table in which displaced domains are placed as `Placed` says |
| `PxmTable.RunPlaced` | srat_verified.c:144-208 | Every registration and clearing keeps: a domain stored away from its own slot found that slot taken by another domain, and every slot before its first occurrence taken |
| `PxmTable.SetupKeepsPlaced` | srat_verified.c:164-208 | One registration keeps that placement invariant |
| `PxmTable.SetupKeepsLookup` | srat_verified.c:144-208 | One registration, of the same or another domain, does not change an existing answer |
| `PxmTable.FillKeepsFirst` | srat_verified.c:152-158 | Filling a free slot does not move the first occurrence of a domain if no slot before that is free |
| `PxmTable.FirstRegistration` | srat_verified.c:144-208 | If no occupied slot holds a domain, a successful registration makes the lookup answer the id that it returned |
| `PxmTable.First` | srat_verified.c:152-158 | The least slot index that answers a query, or the table length |
| `PxmTable.RunCounts` | srat_verified.c:164-208 | Over registration runs of every length, ids are distinct and below the counter, and the counter is the number of occupied slots |
| `PxmTable.SetupCounts` | srat_verified.c:164-208 | While the counter counts the occupied slots, a registration is refused exactly when the domain is not in its own slot and no slot is free; the count is kept |
| `PxmTable.RunIds` | srat_verified.c:164-208 | Over registrations and clearings together, fewer than 2^32 calls, occupied slots hold pairwise distinct ids below the counter |
| `PxmTable.SetupKeepsIdsIff` | srat_verified.c:198-206 | Distinct ids below the counter survive one registration if and only if it does not wrap the 32-bit counter while a slot is occupied |
| `PxmTable.WrapBreaksIds` | srat_verified.c:198-206 | A concrete run of registrations and clearings from boot after which an occupied id is not below the counter |
| `PxmTable.RegisterAndClear` | srat_verified.c:164-208 | For every k below 1000 a run that hands out k ids and leaves the table free |
| `PxmTable.RefuseUntil` | srat_verified.c:198-200 | For every k from 1000 on a run whose refused registrations move the counter to k while a slot stays occupied |
| `PxmTable.SetupRoundTrip` | srat_verified.c:164-208 | node_to_pxm(setup_node(p)) == p whenever setup_node succeeds |
| `PxmTable.NodeToPxmOf` | srat_verified.c:634-648 | With distinct ids, node_to_pxm inverts every occupied slot |
| `PxmTable.UnknownNode` | srat_verified.c:634-648 | An id stored nowhere has domain 0 |
| `PxmTable.RegisteredRoundTrip` | srat_verified.c:634-648 | A domain registered with a node is what node_to_pxm answers for that node |
| `PxmTable.SetupKeepsRegistered` | srat_verified.c:164-208 | A registration never undoes another one |
| `Coverage.Clip` | srat_verified.c:245-262 | The clipped range is ordered and, for an ordered range, holds exactly the addresses in both the range and the window |
| `Coverage.RamRangeIff` | srat_verified.c:490-494 | The addresses of a map entry are its own if and only if its end does not wrap; one whose end wraps has none |
| `Coverage.ClippedCover` | srat_verified.c:584-593 | Clipped nodes cover an address if and only if it lies in the window and was covered before |
| `SratSpec.CallbacksKeepHulls` | srat_verified.c:451-462 | After any entries, each parsed node's range is the least start and greatest end of its accepted non-hotplug blocks |
| `SratSpec.AcceptKeepsHulls` | srat_verified.c:451-474 | Accepting one block keeps every hull exact |
| `SratSpec.HullStep` | srat_verified.c:451-462 | Min and max with a new block give the hull of the extended block list, and other nodes' blocks leave a hull alone |
| `SratSpec.BlocksCoverNodesCover` | srat_verified.c:480-523 | If the accepted non-hotplug blocks cover the RAM, so do the parsed nodes, which is when the coverage check returns 1 |
| `SratSpec.CallbackOnBlocks` | srat_verified.c:391-475 | An entry either leaves blocks, ranges and parsed set untouched, or is an accepted memory entry that adds exactly its own block; failed callbacks are of the first kind |
| `SratSpec.CallbacksKeepValidRange` | srat_verified.c:210-226 | A valid range stays valid after any entries |
| `SratSpec.AcceptedBlockValid` | srat_verified.c:210-226 | Every subrange of an accepted block is valid for its node, then and after any later entries |
| `SratSpec.CallbacksKeepConflictRule` | srat_verified.c:434-450 | In every state reached, each block agreed in node and hotplug flag with the first earlier block it conflicts with |
| `SratSpec.CallbackKeepsConflictRule` | srat_verified.c:434-450 | One entry keeps that rule |
| `SratSpec.AppendKeepsConflictRule` | srat_verified.c:434-474 | Appending an acceptable block keeps that rule |
| `SratSpec.FirstConflict` | srat_verified.c:228-243 | The least index of a conflicting block, or the number of blocks |
| `SratSpec.ConflictMeansOverlap` | srat_verified.c:236-240 | Two nonempty ranges conflict if and only if they share an address |
| `SratSpec.ConflictsExact` | srat_verified.c:231-241 | For ordered ranges, empty or not, a conflict is a common address or an empty range strictly inside a block |
| `SratSpec.LikeConflicts` | srat_verified.c:234-240 | An area conflicts with one equal to it unless it is empty |
| `SratSpec.OneNodeIff` | srat_verified.c:228-243 | Over all entries from boot, conflicting blocks belong to one node if and only if each accepted entry agrees in node with the conflicts behind its first |
| `SratSpec.AppendKeepsOneNodeIff` | srat_verified.c:228-243 | An acceptable block keeps conflicting blocks on one node exactly when it agrees with the conflicts that the search does not look at |
| `SratSpec.OneNodePrefix` | srat_verified.c:228-243 | Conflicting blocks of an extended list are on one node exactly when those of the list are and the new block agrees with all of them |
| `SratSpec.BlocksAfter` | srat_verified.c:391-475 | An entry adds its block exactly when it passes every check of the callback, and else no block |
| `SratSpec.OverlapAcrossNodes` | srat_verified.c:391-475 | Three memory entries of two domains that are all accepted from boot, after which two overlapping blocks have different nodes |
| `SratSpec.OverlapSteps` | srat_verified.c:391-475 | What these three entries leave step by step |
| `SratSpec.ApicMapsToLastDomain` | srat_verified.c:324-388 | After any entries from boot, an APIC id is unassigned exactly when no entry for it was accepted since the last rejection, and else node_to_pxm of its node is the domain of the last accepted entry |
| `SratSpec.CallbacksAttribute` | srat_verified.c:324-388 | The table stays consistent and every APIC id attributed to its last domain, over all entry sequences |
| `SratSpec.CallbackAttributes` | srat_verified.c:324-388 | One entry updates the attribution of an APIC id as its last accepted domain |
| `SratSpec.CommitAttributes` | srat_verified.c:344-386 | Recording a registered node attributes the named APIC id and no other |
| `SratSpec.CallbackKeepsTable` | srat_verified.c:324-475 | One entry keeps ids distinct and, until the SRAT is rejected, the counter equal to the occupied slots |
| `SratSpec.BadIsFinal` | srat_verified.c:264-277 | After bad_srat every APIC id and every domain is unassigned and no later entry changes anything |
| `SratSpec.DisabledKeeps` | srat_verified.c:330-331 | With the SRAT rejected or NUMA off no entries change anything |
| `SratSpec.WrongLengthRejects` | srat_verified.c:332-335 | For each kind of entry, a wrong record length rejects the SRAT |
| `SratSpec.NotEnabledSkipped` | srat_verified.c:336-343 | For each kind of entry, one of right length without its enabling flag, or with an APIC id that is too large, changes nothing |
| `SratSpec.EnabledReaches` | srat_verified.c:336-420 | Every other entry is registered, a memory entry if there is room for its block |
| `SratSpec.DomainField` | srat_verified.c:344-425 | The domain of an x2APIC entry is its whole field; old table revisions use the lowest byte |
| `SratSpec.ApicEntry` | srat_verified.c:344-386 | An enabled APIC entry gives its id the node of its domain and changes no other id, or rejects the SRAT for want of a node |
| `SratSpec.MemoryEntryIff` | srat_verified.c:402-474 | An enabled memory entry is accepted if and only if there is room, its domain has a node, and the first conflicting block agrees in node and hotplug bit; else the SRAT is rejected and ranges and blocks stay |
| `SratSpec.BlockRangeIff` | srat_verified.c:411-412 | The block is the range announced if and only if its end does not wrap |
| `SratSpec.BlocksAreAnnounced` | srat_verified.c:391-475 | Over all entries from boot: unless the SRAT is rejected, the blocks are exactly the ranges and hotplug bits that the enabled memory entries announce, in order; after a rejection, those before the rejected entry |
| `SratSpec.CallbackPieces` | srat_verified.c:391-475 | One entry adds what it announces, or rejects the SRAT and adds nothing |
| `SratSpec.BlocksHaveOrigins` | srat_verified.c:391-475 | Over all entries from boot, every block comes from a memory entry of the list with bit 0 set, with its range and its bit 1 as hotplug flag |
| `SratSpec.BlockNodeMapsBack` | srat_verified.c:391-475 | While the SRAT stands, node_to_pxm takes a block's node back to the domain of the entry the block comes from |
| `SratSpec.CallbackKeepsOrigins` | srat_verified.c:391-475 | One entry keeps the origins of all blocks |
| `SratSpec.CallbackKeepsOrigin` | srat_verified.c:391-475 | One entry keeps the origin of a block |
| `SratSpec.NewBlockOrigin` | srat_verified.c:426-474 | A new block has its entry as origin |
| `SratSpec.PositiveIffAssigned` | srat_verified.c:344-388 | Over all entries from boot, acpi_numa is positive, so that the coverage check is reached, if and only if some APIC id has a node |
| `SratSpec.CallbackCounts` | srat_verified.c:344-388 | One entry keeps that |
| `SratSpec.RegistryRun` | srat_verified.c:164-475 | The table under any entries is that of a run of registrations and clearings, without clearings unless the SRAT is rejected |
| `SratSpec.DomainBytes` | srat_verified.c:374-378 | From table revision 2 on the domain has exactly these bytes, lowest first |
| `SratSpec.BytesOfDomain` | srat_verified.c:374-378 | Every 32-bit word is the domain of its own bytes |
| `SratDriver.Srat.constructor` | srat_verified.c:89-131 | Empty tables, every slot and APIC id unassigned |
| `SratDriver.Srat.PxmToNodeId` | srat_verified.c:144-161 | The in-place scan answers as LookupExact describes: no node exactly when no occupied slot holds the domain, and else an id stored with it |
| `SratDriver.Srat.NodeIdToPxm` | srat_verified.c:634-648 | The in-place scan answers PxmTable.NodeToPxm |
| `SratDriver.Srat.SetupNode` | srat_verified.c:164-208 | The whole new table, counter and result are those of PxmTable.Setup, including refusal and the counter moved by a refused id |
| `SratDriver.Srat.ValidNumaRange` | srat_verified.c:210-226 | 1 if and only if one block of that node contains the range |
| `SratDriver.Srat.ConflictingMemblks` | srat_verified.c:228-243 | Index of the first conflicting block, -1 exactly when there is none |
| `SratDriver.Srat.CutoffNode` | srat_verified.c:245-262 | The node keeps exactly its addresses in the window; all other nodes stay |
| `SratDriver.Srat.BadSrat` | srat_verified.c:264-277 | Every slot and APIC id is unassigned, acpi_numa is -1, and nothing else changes |
| `SratDriver.Srat.X2ApicAffinity` | srat_verified.c:324-354 | Whole-state effect of an x2APIC entry, with its error paths |
| `SratDriver.Srat.AssignApic` | srat_verified.c:344-352 | Registration and recording of an APIC id, or rejection |
| `SratDriver.Srat.ProcessorAffinity` | srat_verified.c:357-388 | Whole-state effect of a processor entry, with its error paths |
| `SratDriver.Srat.ProcessorDomain` | srat_verified.c:372-378 | The domain assembled from one or four bytes by table revision |
| `SratDriver.Srat.MemoryAffinity` | srat_verified.c:391-475 | Whole-state effect of a memory entry, with its error paths |
| `SratDriver.Srat.MemoryDomain` | srat_verified.c:423-425 | The domain, cut to a byte for old revisions |
| `SratDriver.Srat.CommitMemory` | srat_verified.c:434-474 | Acceptance or rejection by the first conflict |
| `SratDriver.Srat.AddMemblk` | srat_verified.c:451-474 | The block is appended and its node's range grown; hotplug blocks leave the ranges alone |
| `SratDriver.Srat.NodesCoverMemory` | srat_verified.c:480-523 | Terminates, and returns 1 if and only if every address of every RAM range lies in some parsed node, in any node order and with overlaps |
| `SratDriver.Srat.TrimPass` | srat_verified.c:495-514 | One pass removes only covered addresses; if it reports progress the range shrank, and if not its first address is uncovered |
| `SratDriver.Srat.ScanNodes` | srat_verified.c:574-593 | With acpi_numa positive, passes if and only if every RAM address lies in the window and in some parsed node as it was before clipping; else the SRAT is rejected |
| `LazyFpu.LazyFpuIsPrivate` | i387_verified.c:161-270 | For any number of CPUs and vCPUs, nonlazy state in use or coming into use, and every schedule of guest operations, context switches with migration and hypervisor FPU use: no ASSERT fails and every guest operation sees what a private register file would show |
| `LazyFpu.PrivateIff` | i387_verified.c:137-270 | Exact condition: all schedules are transparent if and only if no idle vCPU uses nonlazy state, no other is fully eager, and none uses or may start using nonlazy state while xstate_all holds for it |
| `LazyFpu.Unfit` | i387_verified.c:137-270 | For every machine with a vCPU outside the condition, a schedule that fails an ASSERT or shows a guest a wrong image |
| `LazyFpu.Leak` | i387_verified.c:200-270 | An undirtied vCPU saved with all components sees an image the hypervisor left in the registers |
| `LazyFpu.Scribble` | i387_verified.c:200-270 | Bracketed hypervisor use leaves its image in the registers, and a second one finds it in the save area of such a vCPU |
| `LazyFpu.ThenFollows` | i387_verified.c:161-270 | One step of a schedule keeps the machine and the private files together and fails no ASSERT |
| `LazyFpu.ExecRefines` | i387_verified.c:161-270 | One event keeps the invariant (only a current vCPU dirtied, TS clear outside hypervisor use means dirtied, hypervisor use finds clean, usable registers) and each private file in the registers exactly when its vCPU is dirtied, with equal observations; a vCPU switched in is clean |
| `LazyFpu.UpdateRefines` | i387_verified.c:161-270 | A consistent pair of CPU and current vCPU that holds a file may replace the old pair and file |
| `LazyFpu.SwitchRefines` | i387_verified.c:251-258 | A saved CPU may take any vCPU not current elsewhere, private files unmoved |
| `LazyFpu.UpdateKeepsInv` | i387_verified.c:161-270 | A consistent pair of CPU and current vCPU may replace the old pair |
| `LazyFpu.SwitchKeepsInv` | i387_verified.c:251-258 | A saved CPU may take any vCPU not current elsewhere, which is then clean |
| `LazyFpu.AssertsHold` | i387_verified.c:164-245 | In every state with the invariant the ASSERTs of the operation pass, and hypervisor use never traps |
| `LazyFpu.NonlazyRegistersKept` | i387_verified.c:161-270 | Over every schedule of every machine, no event touches a nonlazy register of any CPU |
| `LazyFpu.ExecKeepsNonlazy` | i387_verified.c:161-270 | One event leaves every nonlazy register alone |
| `LazyFpu.UndirtiedSaveIff` | i387_verified.c:137-157 | Saving an undirtied vCPU keeps its lazy state if and only if no all-components nonlazy save happens or the registers already hold it |
| `LazyFpu.Vcpu.XsaveMask` | i387_verified.c:137-157 | The component set to save |
| `LazyFpu.Cpu.Clts` | i387_verified.c:74-76 | TS is clear |
| `LazyFpu.Cpu.Stts` | i387_verified.c:248-249 | TS is set |
| `LazyFpu.Cpu.Xsave` | i387_verified.c:190-192 | The masked components, and only those, go from registers to save area |
| `LazyFpu.Cpu.Xrstor` | i387_verified.c:108-111 | The masked components, and only those, go from save area to registers |
| `LazyFpu.Cpu.FpuXrstor` | i387_verified.c:116-132 | Restores exactly the masked components |
| `LazyFpu.Cpu.FpuXsave` | i387_verified.c:200-220 | Saves exactly the components of the vCPU's mask |
| `LazyFpu.Cpu.VcpuRestoreFpuLazy` | i387_verified.c:161-183 | TS clear, the vCPU dirtied, nonlazy registers kept; lazy registers from the save area and the vCPU initialised unless it was dirtied before |
| `LazyFpu.Cpu.SaveFpu` | i387_verified.c:224-245 | New CPU and vCPU state of the save, and whether it was needed |
| `LazyFpu.Cpu.VcpuSaveFpu` | i387_verified.c:251-258 | The save followed by arming the trap |
| `LazyFpu.Cpu.SaveFpuEnable` | i387_verified.c:263-270 | The save with the trap disarmed whether or not it was needed |
| `LazyFpu.SaveCoversUse` | i387_verified.c:200-245 | A save writes back every component in use, leaves an unused nonlazy part of the area alone, and does nothing for a vCPU with nothing in use |
| `PlainLock.MutualExclusion` | lock_verified.c:65-151 | Over every interleaving of any number of threads, at most one holds the lock, and it is busy exactly when one does |
| `PlainLock.CallsDo` | lock_verified.c:65-151 | In every state any interleaving reaches: acquire returns exactly when nobody held the lock, and then holds it; try-acquire returns 0 and gains the lock exactly then, else -1; release leaves the lock free |
| `PlainLock.ExecKeepsInv` | lock_verified.c:65-151 | One step keeps that |
| `PlainLock.Lock.constructor` | lock_verified.c:47-59 | The lock starts free |
| `PlainLock.Lock.TakeIfFree` | lock_verified.c:65-126 | The lock is busy afterwards; 0 exactly when it was not busy, else -1 |
| `PlainLock.Lock.Advance` | lock_verified.c:65-151 | The in-place step is the one the runs are made of |
| `RecursiveLock.RunKeepsInv` | lock_verified.c:173-266 | Over every interleaving, count is the owner's nesting depth (one less between the last decrement and clearing the owner) although it changes with interrupts on, and BUG_ON never fires |
| `RecursiveLock.ExecKeepsInv` | lock_verified.c:173-266 | One step keeps that |
| `RecursiveLock.MutualExclusion` | lock_verified.c:173-266 | At most one thread is inside, and it is the recorded owner |
| `RecursiveLock.OwnerChanges` | lock_verified.c:173-266 | The owner changes only when a thread claims a free lock, or when the owner finishes its outermost release with count 0 |
| `RecursiveLock.CountInRange` | lock_verified.c:200-258 | The bounds on count that the source assumes before ++ and -- hold in every reachable state |
| `RecursiveLock.CallsDo` | lock_verified.c:173-266 | In every state any interleaving reaches: acquire waits while another owns the lock and returns only one level deeper as owner; try-acquire gains a level exactly when nobody, not even the caller, owned it; release returns one level less deep, and the caller still owns the lock exactly if levels are left |
| `RecursiveLock.InitNeedsZeroCount` | lock_verified.c:156-168 | A first acquire and release gives the lock back if and only if the count left unset by initialisation was 0 |
| `RecursiveLock.AcquireAlone` | lock_verified.c:173-205 | An undisturbed acquire, first or nested, takes at most four steps |
| `RecursiveLock.ReleaseAlone` | lock_verified.c:246-266 | An undisturbed release, which clears the owner exactly when count was 1 |
| `RecursiveLock.Lock.constructor` | lock_verified.c:156-168 | No owner, count left as the memory held it |
| `RecursiveLock.Lock.Claim` | lock_verified.c:185-196 | The owner is taken exactly when there was none |
| `RecursiveLock.Lock.TryAcquireRegion` | lock_verified.c:211-240 | Owner and count change together exactly on success; the owner itself is refused |
| `RecursiveLock.Lock.Clear` | lock_verified.c:260-263 | No owner, count untouched |
| `RecursiveLock.Lock.Advance` | lock_verified.c:173-266 | The in-place step is the one the runs are made of |
| `IntelMicrocode.SanityCheck` | intel_verified.c:221-321 | With sizes in 32 bits: unless a size sum wraps, 0 if and only if sizes and versions are right, main words and extended table sum to 0 mod 2^32, and so does the image with each extended entry substituted into the header, and EFAULT exactly for a wrong entry count; with or without a wrap, acceptance needs the 32-bit size tests and both sums, and only a wrapped count lets the loop leave the buffer |
| `IntelMicrocode.SizesPassIff` | intel_verified.c:232-262 | On the images that the 32-bit size tests pass, they are right if and only if neither data_size + 48 nor count * 12 + 20 wraps |
| `IntelMicrocode.TableSizeIff` | intel_verified.c:260-262 | The announced table size is right exactly when it is right in 32 bits and does not wrap |
| `IntelMicrocode.AcceptedIn32` | intel_verified.c:221-321 | Without a wrap, acceptance and the wrong count by full recomputation are those by the 32-bit terms |
| `IntelMicrocode.AcceptedFields` | intel_verified.c:229-305 | Field by field what acceptance means for versions, sizes, count and both sums |
| `IntelMicrocode.DefaultSizes` | intel_verified.c:231-232 | A size of 0 stands for 2000 bytes of data and 2048 in all |
| `IntelMicrocode.EntriesInside` | intel_verified.c:306-311 | Without a wrapped count every announced entry lies inside the buffer |
| `IntelMicrocode.WrappedDataPasses` | intel_verified.c:232-236 | An image with a wrapped data size that the size and sum tests pass although it is no update |
| `IntelMicrocode.WrappedCountPasses` | intel_verified.c:260-262 | An image with a wrapped count that the size tests pass although it is no update |
| `IntelMicrocode.CheckTable` | intel_verified.c:249-290 | The table tests in 32 bits: which error, or none and the number of entries |
| `IntelMicrocode.CheckSums` | intel_verified.c:249-320 | The table tests, both sums and the loop over the entries, in 32 bits |
| `IntelMicrocode.CheckSignatures` | intel_verified.c:306-319 | With exact offsets and a zero main sum, the incremental loop accepts if and only if every substituted image, summed in full, is 0; it gives up only at an entry outside the buffer |
| `IntelMicrocode.SumDown` | intel_verified.c:277-296 | The countdown loop computes the 32-bit sum of the words |
| `IntelMicrocode.IncrementalTest` | intel_verified.c:306-319 | With a zero main sum, the difference of three words decides the full sum of the substituted image |
| `IntelMicrocode.IncrementalSum` | intel_verified.c:306-319 | Substituting an entry changes the main sum by exactly the difference of the three words |
| `IntelMicrocode.SubstitutedWords` | intel_verified.c:306-319 | Substitution replaces words 3, 4 and 6 of the image and no other |
| `IntelMicrocode.SumReplace` | intel_verified.c:306-319 | Replacing one word shifts a sum by the difference |
| `IntelMicrocode.SharesBitIff` | intel_verified.c:208-219 | The platform masks share a bit exactly when some bit position is set in both |
| `IntelMicrocode.Uci.UpdateMatch` | intel_verified.c:208-219 | True if and only if the signatures are equal, some bit is set in both platform masks or both masks are 0, and the revision is newer |
| `IntelMicrocode.MatchesIff` | intel_verified.c:217-218 | The same of the model's match |
| `IntelMicrocode.AnyMatchIff` | intel_verified.c:334-358 | An accepted image matches if and only if its revision word is newer and its header or some extended entry names the CPU's signature with an allowed mask |
| `IntelMicrocode.EntryMatchesIff` | intel_verified.c:349-357 | The same for one extended entry, by its byte offset |
| `IntelMicrocode.StoredIsForTheCpu` | intel_verified.c:323-429 | Over every run that begins with nothing stored, signature and mask stay, and what is stored was copied from an accepted image that names the CPU |
| `IntelMicrocode.Uci.FindMatch` | intel_verified.c:334-358 | True if and only if the revision is newer and the header or some extended entry names the CPU |
| `IntelMicrocode.Uci.CopyImage` | intel_verified.c:368-374 | The destination equals the source, or is untouched for sizes a signed int cannot hold |
| `IntelMicrocode.Uci.GetMatchingMicrocode` | intel_verified.c:323-379 | 0 exactly when the image is not newer or does not name the CPU; else 1, or -ENOMEM exactly without memory; the new state is that of a match step of the runs |
| `IntelMicrocode.Uci.ApplyMicrocode` | intel_verified.c:382-429 | The recorded revision changes exactly when an image is stored and the CPU reports its revision; the new state is that of an apply step of the runs |
| `IntelMicrocode.StoredCopyIff` | intel_verified.c:368-378 | What is stored is a byte-for-byte copy if and only if the size fits a signed int or the memory already held the image |
| `IntelMicrocode.RevisionNeverDecreases` | intel_verified.c:323-429 | Over every sequence of match and apply steps that stores nothing older than the record, the recorded revision never decreases |
| `IntelMicrocode.OrderIff` | intel_verified.c:323-429 | That condition is exact: a step can be followed by an apply that lowers the revision if and only if it stores something older, that is, an image above 2^31 - 1 bytes over memory that held a lower revision |
| `IntelMicrocode.StoreKeepsOrderIff` | intel_verified.c:368-378 | What a match stores is not older than (newer than) the record if and only if its size fits a signed int or the memory held a revision not below (above) the record |
| `IntelMicrocode.FirstApplyAfterMatchRises` | intel_verified.c:323-429 | After a match that stores something newer, through any steps that apply nothing and store nothing that is not newer, the first successful apply raises the recorded revision strictly |
| `IntelMicrocode.StepKeepsOrder` | intel_verified.c:323-429 | One step that stores nothing older keeps the stored image not older than the recorded revision |
| `IntelMicrocode.HugeImageLowersRevision` | intel_verified.c:368-429 | An accepted image of 2^31 + 48 bytes whose match, over memory holding zeros, is followed by an apply that lowers the revision |
| `IntelMicrocode.ZeroImage` | intel_verified.c:221-321 | For every revision and every data length that 32-bit sizes allow, an accepted image |
| `AmdContainer.ContainerFastForward` | microcode_amd_verified.c:572-608 | 0 exactly when well-formed patches lead to a container header, at the only offset where that is so; -4 exactly when one or more well-formed patches are the whole buffer; -101 otherwise; terminates |
| `AmdContainer.SerializedLands` | microcode_amd_verified.c:572-608 | For every serialised list of well-formed patches followed by a container header, that header is the landing place |
| `AmdContainer.FrontDecides` | microcode_amd_verified.c:586-598 | The first eight bytes tell how a decomposed buffer starts, so decompositions are unique |
| `AmdContainer.SkipOne` | microcode_amd_verified.c:600-606 | Skipping a patch shifts every landing by its section size and keeps exhaustion |
| `AmdContainer.SkipExhausted` | microcode_amd_verified.c:600-606 | A buffer is all patches if and only if what follows its first patch is empty or all patches |
| `AmdContainer.StopHere` | microcode_amd_verified.c:589-598 | At a container header the only landing is here; at anything but a patch there is none |
| `AmdContainer.PatchBytes` | microcode_amd_verified.c:595-601 | A front accepted as a patch is the serialisation of a well-formed patch of at least 24 bytes |
| `AmdContainer.FrontOfSection` | microcode_amd_verified.c:586-598 | A serialised section is accepted as a patch of exactly its size |
| `AmdContainer.HeaderBytes` | microcode_amd_verified.c:589-591 | The two-word test is equality with the container header's bytes |
| `AmdContainer.MarkerBytes` | microcode_amd_verified.c:589-601 | The bytes of a container header and of a patch section, whose length word is the patch length, from 24 bytes up to what a 32-bit section size holds |
| `AmdContainer.ReadHeader` | microcode_amd_verified.c:586-598 | The tests on the words in place are those on the rest of the buffer; a length whose + 8 wraps is no patch |
| `Pic8259.RunAgrees` | irq_verified.c:148-227 | After init from any chip state and any operations, each mask register holds its byte of the cache, or 0xff since the last mask_8259A; both chips are ready with the IRR selected |
| `Pic8259.ExecAgrees` | irq_verified.c:148-227 | One operation keeps that |
| `Pic8259.HardwareMask` | irq_verified.c:148-227 | A line is masked in hardware exactly when its latest enable or disable was a disable or its half is still masked as a whole; right after unmask or init the hardware's enabled set is the fold of the calls |
| `Pic8259.CacheIsFold` | irq_verified.c:148-188 | The cache is the fold of the enable and disable calls |
| `Pic8259.OtherHalfUntouched` | irq_verified.c:148-188 | Changing a line leaves the other chip's byte of the cache alone |
| `Pic8259.QueriesReadTheRightRegister` | irq_verified.c:190-251 | In any order of calls a pending query reads the IRR, and an in-service query leaves the state as it was |
| `Pic8259.InitWords` | irq_verified.c:345-389 | Init leaves vector bases 8 apart (modulo 256), the cascade on line 2, and automatic end of interrupt on the master exactly when asked for, never on the slave |
| `Pic8259.WordsStay` | irq_verified.c:148-389 | Over every run the initialisation words are those of the last init |
| `Pic8259.ByteValue` | irq_verified.c:359-367 | The byte written for a number reads as the number modulo 256 |
| `Pic8259.Driver.constructor` | irq_verified.c:128 | Every line masked in the cache, chips in any state |
| `Pic8259.Driver.Outb` | irq_verified.c:128-132 | A port write reaches one chip register and nothing else |
| `Pic8259.Driver.DisableIrq` | irq_verified.c:148-163 | New cache and registers of a disable |
| `Pic8259.Driver.EnableIrq` | irq_verified.c:172-188 | New cache and registers of an enable |
| `Pic8259.Driver.Mask` | irq_verified.c:209-217 | 0xff written to both chips, cache kept |
| `Pic8259.Driver.Unmask` | irq_verified.c:219-227 | Both bytes of the cache written |
| `Pic8259.Driver.Init` | irq_verified.c:345-389 | From any chip state, even within an initialisation sequence, both chips end ready with the right ICWs, the IRR selected and the cached masks |
| `Pic8259.Driver.IcwsToMaster` | irq_verified.c:358-364 | Four words take the master from any state to initialised; the slave is untouched |
| `Pic8259.Driver.IcwsToSlave` | irq_verified.c:366-369 | The same for the slave |
| `Pic8259.Driver.IrqPending` | irq_verified.c:190-207 | Nonzero if and only if the line's bit is set in the selected register of its chip |
| `Pic8259.Driver.IrqReal` | irq_verified.c:235-251 | Nonzero if and only if the line is in service; the IRR is selected afterwards |
| `BitScan.Ffs` | string_verified.c:615-636 | Terminates for negative numbers too; 0 exactly for 0, else the r with x mod 2^r = 2^(r-1) |
| `BitScan.Ffsti2` | string_verified.c:12-43 | The word-by-word search finds what the direct 64-bit search finds, with the same arithmetic meaning |
| `BitScan.FirstSetExact` | string_verified.c:615-636 | The position is the one r with x mod 2^r = 2^(r-1) |
| `BitScan.OddMultiple` | string_verified.c:615-636 | An odd multiple of 2^(r-1) has position r |
| `BitScan.IsOddMultiple` | string_verified.c:615-636 | Every nonzero number is an odd multiple of 2^(position-1) |
| `BitScan.FirstSetRange` | string_verified.c:615-636 | Position n+1 in n+1 bits only for the least number |
| `BitScan.FfsOfInt` | string_verified.c:615-636 | The result for an int is at most 32, and 32 if and only if the argument is the least int |
| `BitScan.FfsOfLongLong` | string_verified.c:12-43 | The result for a 64-bit number is at most 64, and 64 if and only if the argument is the least one |
| `BitScan.SameLowBits` | string_verified.c:22-41 | Bits above a lowest set bit do not matter |
| `BitScan.ShiftedUp` | string_verified.c:22-41 | A shift left by n raises the position by n |
| `BitScan.LowWord` | string_verified.c:22-41 | A nonzero low word, read as a signed int, decides the position |
| `BitScan.UpperWord` | string_verified.c:22-41 | With a zero low word the position is 32 above that of the upper word |
| `CStrings.Strlen` | string_verified.c:463-488 | The distance to the first NUL |
| `CStrings.Memcmp` | string_verified.c:96-126 | 0 if and only if the blocks are equal, although differences are cut to a signed char; else the cut difference at the first differing index; only the two blocks are read |
| `CStrings.Strstr` | string_verified.c:565-582 | The first index where the needle occurs, None exactly when it occurs nowhere; haystack and needle are separate sequences that end at their NUL, so no access lies outside them |
| `CStrings.Strcmp` | string_verified.c:228-253 | 0 if and only if the strings are equal; else the cut difference at the first differing index; nothing behind either NUL is read |
| `CStrings.SignedDifference` | string_verified.c:228-253 | Comparing signed instead of unsigned characters makes no difference after the cut |
| `CStrings.DifferenceShows` | string_verified.c:96-126 | The cut difference of two bytes is 0 only for equal bytes |
| `CStrings.SignIff` | string_verified.c:89-126 | The documented sign holds if and only if the difference fits a signed char |
| `CStrings.WrongSign` | string_verified.c:89-126 | Bytes for which the documented sign is wrong |
| `CStrings.NonnegativeIff` | string_verified.c:228-253 | The result is not negative, as the annotation demands, if and only if the first differing byte is greater by less than 128 or less by more than 128 |
| `CStrings.Strcpy` | string_verified.c:261-284 | Exactly the source with its NUL is written at the destination and the rest of memory stays, also when the two overlap with the destination not inside the source |
| `CStrings.CopySucceedsIff` | string_verified.c:265-283 | The copying loop stops with the source copied if and only if the destination does not start inside the source; otherwise it runs off the end of memory |
| `CStrings.CopyArrives` | string_verified.c:265-283 | Outside that case the loop copies the whole source from every point on the way |
| `CStrings.CopyRunsOff` | string_verified.c:265-283 | A loop whose NUL is overwritten before it is read meets none, in memory of any size |
| `CStrings.Strcat` | string_verified.c:422-455 | The source is written where the destination string ends, the rest of memory stays, and the result is a string of the summed length |
| `CStrings.JoinedString` | string_verified.c:422-455 | Such memory holds one string of the summed length |
| `PerCpu.OrderIsLeast` | percpu_verified.c:16-28 | For every size from 1 on, 4096 * 2^k is enough exactly when k is at least the computed order |
| `PerCpu.GetOrderFromBytes` | percpu_verified.c:16-28 | The order is enough and one less is not |
| `PerCpu.DigitsExact` | percpu_verified.c:16-28 | k binary digits suffice exactly when the number is below 2^k |
| `PerCpu.HotplugKeepsInv` | percpu_verified.c:109-136 | Over every legal hot-plug sequence, allocations failing at will, allocated blocks correspond one-to-one to CPUs with valid offsets, and each is freed once with the order it was allocated with |
| `PerCpu.ExecKeepsInv` | percpu_verified.c:109-136 | One event keeps that |
| `PerCpu.AllocateKeepsOneToOne` | percpu_verified.c:40-60 | An allocation keeps the correspondence, and the CPU has an area |
| `PerCpu.FreeKeepsOneToOne` | percpu_verified.c:73-88 | A deferred free for a CPU with an area keeps the correspondence |
| `PerCpu.QueueKeepsOneToOne` | percpu_verified.c:92-99 | Queueing a free keeps the correspondence |
| `PerCpu.FreeIsGoodIff` | percpu_verified.c:73-88 | A deferred free releases an allocated block with its order if and only if the CPU has an area |
| `PerCpu.Areas.constructor` | percpu_verified.c:29-36 | No CPU but 0 has an area |
| `PerCpu.Areas.InitPercpuArea` | percpu_verified.c:40-60 | 0 exactly when the CPU had an area or a block was available, else -1; new offsets and blocks |
| `PerCpu.Areas.FreePercpuArea` | percpu_verified.c:92-99 | The free is queued and nothing else changes |
| `PerCpu.Areas.FreeCallback` | percpu_verified.c:73-88 | Block freed, offset invalid, and whether the free was a good one |
| `PerCpu.Areas.CpuPercpuCallback` | percpu_verified.c:109-136 | Effect of every action, with and without parked CPUs; code 0 exactly unless an area was needed and no block was available, else 0x8001 |

## Left out

- IntelMicrocode.SanityCheck: the buffer is assumed to hold the announced image, because the code sums that many bytes without a bound of its own; for sizes that wrap and an extended table the contract says what acceptance needs, not when it happens.
- IntelMicrocode.Uci.GetMatchingMicrocode: assumes an image that passed the sanity check, as its caller ensures.
- SratDriver.Srat.ScanNodes: stops at the coverage decision; the hash shift, node setup and the CPU loop after it use values the file does not define.
- That overlapping blocks always belong to one node is false (`OverlapAcrossNodes`); `OneNodeIff` says exactly when they do.
- LazyFpu.LazyFpuIsPrivate: privacy of the lazy components; the restore of nonlazy ones and eager switching are not in the repository, and the FXSAVE path is empty in the file.
- PlainLock.MutualExclusion: a safety property; spinning is a step that may repeat, without fairness or termination, and wait queues have no effect.
- PerCpu.HotplugKeepsInv: for CPUs other than 0, with a deferred free completed before the CPU's next event; clearing the allocated memory is not modelled.
- SLIT parsing, `srat_parse_region`, `srat_parse_regions`: they depend on code that is not shown.
- `cpu_request_microcode` and `get_next_ucode_from_buffer` of the Intel loader: the cursor through the buffer is never advanced.
- `cpu_request_microcode`, `install_equiv_cpu_table`, `apply_microcode` and `microcode_resume_match` of the AMD loader: their loops and copies are missing from the file. `find_equiv_cpu_id` and `microcode_fits` would add only easy members.
- `_mask_and_ack_8259A_irq`: its register writes are commented out. Interrupt acknowledgement (OCW2) and poll mode are not modelled.
- `strncmp`, `strncpy`, `strnlen`, `memset`, `strchr` and the other string functions: easier variants of what is modelled.
- CPUID and MSR accesses, `collect_cpu_info`, logging.
- monitor, time, mapcache, mm, xstate, apic, trace, gdbstub, sched and vm_event modules.
