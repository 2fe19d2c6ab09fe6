# Register renamer and payload buffer of the 721sim out-of-order core

This project is a Dafny model of two parts of the 721sim simulator, extended for
dynamic hammock predication (DHP). It covers:

- **The register renamer** (`721sim/uarchsim/renamer.cc`). It holds:
  - the rename map table (RMT), with THEN/ELSE shadow mappings per row and a
    separate mapping for the predicate register (logical id 64, `RMT_64`);
  - the architectural map table (AMT) and `AMT_64`;
  - the free list and the active list, both rings with `head`, `tail`, `full`
    and `empty`;
  - the physical-register ready bits;
  - the global branch mask (GBM), with one checkpoint slot per mask bit.
- **The payload buffer** (`721sim/uarchsim/payload.cc`): the ring that carries
  fetched instructions to dispatch. Each instruction takes two slots. The
  model covers its ring operations and `map_to_actual`, the table that decides
  whether a slot is on the good path of the functional simulator.

The renamer is a class. Its fields are arrays updated in place; each loop
runs in the source's order, and steps of the source that touch disjoint
state may be taken in another order. Each operation is a method. Its `modifies` clause
names what it may change; its `ensures` state the new value of what it
changes (positions, flags, map rows, ghost runs) and the rule the source
implements.

The central invariant is **conservation**: every physical register below
`n_phys_regs` has exactly one owner. The owner is the AMT, `AMT_64`, a free
slot of the free list, an in-flight active-list entry, or a destination
renamed but not yet dispatched.

- Ghost fields record the free list's free and handed-out runs, the active
  list's contents, and the renamed-but-undispatched destinations.
- `Renamer.Owned` states conservation over the current tables.
- Every renamer operation that changes a table conservation reads (rename,
  dispatch, the status setters, `predicate_done`, commit, resolve, squash)
  ensures `old(Owned()) ==> Owned()`.
- `Checkpoint`, `ReleaseBranch`, `ClearReady` and `SetReady` carry no such
  clause. They change only the GBM, the checkpoint slots or the ready bits,
  which conservation does not read.
- `DispatchInst` adds a caller discipline to that clause: the dispatched
  destination is the oldest renamed one.
- `Recover`, `RecoverLists` and a mispredicted `Resolve` add a hypothesis
  about the state: the handed-out run the restored head leaves is as long
  as what the kept entries own. The source's recovery misses a reachable
  case here (see "## Findings"); `RecoverChecked` is the corrected recovery.
- `Tables` holds one lemma per operation that carries conservation over.

The free-list flags work the other way round from their names:

- `full` with `head == tail` means allocation has caught up with the tail,
  so no register is free.
- `empty` with `head == tail` means every slot holds a free register.

`free_space()` is defined in a header that is not part of this model. Here it
is defined from the ring positions and these flags (`FreeLists.FreeCount`).

The GBM is a 64-bit word, modelled bit by bit (`Masks.Word`). The source
builds single-bit masks with the `int` expression `1<<pos`. Once that
expression is combined with the 64-bit GBM, it sign-extends, so for
`pos == 31` it sets bits 31..63. `Masks.IntShiftMask` models this exactly.

In the payload buffer, `map_to_actual` consults the functional simulator
through `first` and `check_next`. Those two calls become function-valued
fields of `Payloads.Oracle`. The table itself is `Payloads.Classify`, and
`Payload.MapToActual` is proved to write exactly the slot `Classify`
computes.

`rollback` and `restore` recompute `length` from `head` and `tail`. With a
full buffer, `head == tail`, so `restore(checkpoint())` then reports an empty
buffer. `Payload.Restore` states this.

## Model

| member | source | states |
|---|---|---|
| Masks.FreeBitTest | 721sim/uarchsim/renamer.cc:114 | the free-bit test `(~GBM & mask) == mask` on the single-bit mask of bit j holds exactly when bit j of the GBM is clear |
| Masks.MaskStep | 721sim/uarchsim/renamer.cc:116 | `mask << 1` turns the mask of bit j into the mask of bit j+1 |
| Masks.IntShiftMaskBits | 721sim/uarchsim/renamer.cc:252 | the `int`-built mask `1<<pos` has exactly bit pos among the low 32 bits, and bits 32..63 set only for pos == 31 (sign extension) |
| Masks.SetBranchBit | 721sim/uarchsim/renamer.cc:252 | `GBM \| 1<<pos` sets bit pos and keeps every other bit below 32 |
| Masks.ClearBranchBit | 721sim/uarchsim/renamer.cc:509-510 | `GBM & ~(1<<pos)` clears bit pos and keeps every other bit below 32 |
| Masks.ClearCountPositive | 721sim/uarchsim/renamer.cc:113-121 | the count of clear bits among the low n is positive exactly when some bit below n is clear |
| Masks.FullMaskStallsUntilResolve | 721sim/uarchsim/renamer.cc:108-123 | with all n checkpoints in use no checkpoint is free, and a correct resolve of any one of them frees one |
| RenamerTypes.Deactivate | 721sim/uarchsim/renamer.cc:440-449 | a THEN entry becomes deactivated exactly when the predicate outcome is true, an ELSE entry exactly when it is false; any other entry and every other field is unchanged |
| FreeLists.Counting | 721sim/uarchsim/renamer.cc:45-50 | the new free-list array holds n_log_regs+1 .. n_phys_regs-1 in order |
| FreeLists.FreeCount | 721sim/uarchsim/renamer.cc:91-95 | no register is free exactly when head == tail and `full` is set |
| FreeLists.RepSplit | 721sim/uarchsim/renamer.cc:621-662 | the free run and the handed-out run together are the whole free-list ring, as multisets |
| FreeLists.AllocateRep | 721sim/uarchsim/renamer.cc:211-213 | allocating moves the register at head from the front of the free run to the end of the handed-out run |
| FreeLists.ReleaseRep | 721sim/uarchsim/renamer.cc:650-652 | releasing r at tail appends r to the free run and drops the oldest handed-out register |
| FreeLists.RestoreRep | 721sim/uarchsim/renamer.cc:514-518 | moving head back to a checkpointed position makes the handed-out run a prefix of the old one, as long as the distance from tail to the restored head |
| FreeLists.ResetRep | 721sim/uarchsim/renamer.cc:682-687 | with head moved onto tail and `empty` set, every register is free: the free run is the old free and handed-out registers together |
| FreeLists.FreeList.Space | 721sim/uarchsim/renamer.cc:92 | `free_space()` is the number of free registers |
| FreeLists.FreeList.FreeAndTaken | 721sim/uarchsim/renamer.cc:621-662 | the free and handed-out registers together are the ring's contents |
| FreeLists.FreeList.TakenFront | 721sim/uarchsim/renamer.cc:639 | the oldest handed-out register sits at tail, where commit writes |
| FreeLists.FreeList.constructor | 721sim/uarchsim/renamer.cc:45-50 | a new list holds first .. first+n-1, all free |
| FreeLists.FreeList.Allocate | 721sim/uarchsim/renamer.cc:188-213 | returns the register at head, which leaves the free run and joins the handed-out run; head advances modulo size; `empty` is cleared; `full` is set exactly when the new head reaches tail |
| FreeLists.FreeList.Release | 721sim/uarchsim/renamer.cc:639-652 | writes r at tail and advances tail; `full` is cleared; `empty` is set when the new tail reaches head; with a register handed out, r joins the free run and the oldest handed-out register leaves |
| FreeLists.FreeList.Restore | 721sim/uarchsim/renamer.cc:514-518 | head becomes the saved head; `full` is cleared; `empty` is set when head == tail and otherwise unchanged; the handed-out run is the prefix that the restored head leaves |
| FreeLists.RestoreOwnedRep | 721sim/uarchsim/renamer.cc:514-518 | the corrected restore: with `full` set exactly when the head lands on the tail and the survivors own a register, the ring stays consistent, and the handed-out run is exactly `owned` long when the head lies `owned` slots past the tail |
| FreeLists.FreeList.RestoreOwned | 721sim/uarchsim/renamer.cc:514-518 | the corrected restore: head becomes the saved head; `full` exactly when head == tail and `owned > 0`; `empty` when head == tail and nothing is owned; the handed-out run is a prefix of the old one, `owned` long when the head lies `owned` slots past the tail |
| FreeLists.FreeList.Reset | 721sim/uarchsim/renamer.cc:682-687 | head moves onto tail, `empty` is set and `full` cleared; every handed-out register is free again |
| ActiveLists.AppendRep | 721sim/uarchsim/renamer.cc:334-371 | writing e at tail and advancing tail appends e to the in-flight contents |
| ActiveLists.RetireRep | 721sim/uarchsim/renamer.cc:657-659 | advancing head drops the oldest in-flight entry |
| ActiveLists.TruncateRep | 721sim/uarchsim/renamer.cc:528-531 | moving tail to just past an in-flight entry keeps the contents up to and including that entry |
| ActiveLists.RewriteRep | 721sim/uarchsim/renamer.cc:700-714 | rewriting slots without changing their destinations keeps the registers the in-flight entries own |
| ActiveLists.ActiveList.Count | 721sim/uarchsim/renamer.cc:287 | the in-flight count is the length of the contents, and zero exactly when `empty` is set |
| ActiveLists.ActiveList.Front | 721sim/uarchsim/renamer.cc:577-588 | the oldest in-flight entry sits at head |
| ActiveLists.ActiveList.constructor | 721sim/uarchsim/renamer.cc:52 | a new list of n slots has nothing in flight |
| ActiveLists.ActiveList.Append | 721sim/uarchsim/renamer.cc:334-371 | writes e at tail and returns the old tail; e joins the contents; tail advances modulo size; `empty` is cleared; `full` is set exactly when the new tail reaches head |
| ActiveLists.ActiveList.Retire | 721sim/uarchsim/renamer.cc:657-659 | the head entry leaves the contents; head advances; `full` is cleared; `empty` is set exactly when the new head reaches tail |
| ActiveLists.ActiveList.Truncate | 721sim/uarchsim/renamer.cc:528-531 | everything younger than the entry at index leaves; tail becomes index+1 modulo size; `empty` is cleared; `full` survives only if it was set and head == tail |
| ActiveLists.ActiveList.OwnedThrough | 721sim/uarchsim/renamer.cc:528-531 | walking the ring from head to the entry at index counts exactly the registers those entries own |
| ActiveLists.ActiveList.Clear | 721sim/uarchsim/renamer.cc:681-686 | tail moves onto head, `empty` is set and `full` cleared; nothing is in flight |
| ActiveLists.ActiveList.Update | 721sim/uarchsim/renamer.cc:700-714 | only slot i changes; positions, flags and owned registers stay |
| ActiveLists.ActiveList.DeactivateRun | 721sim/uarchsim/renamer.cc:435-459 | the walk over this list's ring: the slots strictly between index and the first CMOV ahead go through `Deactivate`, the rest are unchanged, and the in-flight entries own the same registers |
| ActiveLists.DeactivateWalk | 721sim/uarchsim/renamer.cc:436-458 | starting one slot after index and wrapping, every slot before the first CMOV goes through `Deactivate`; the CMOV and all other slots are unchanged; stop is the CMOV's distance |
| Tables.InitialOwners | 721sim/uarchsim/renamer.cc:38-50 | the AMT identity, AMT_64 == n_log_regs and the free list n_log_regs+1 .. n_phys_regs-1 give every register exactly one owner |
| Tables.RenameConserved | 721sim/uarchsim/renamer.cc:188-213 | the register handed out by a rename is owned by the undispatched destinations from then on |
| Tables.DispatchConserved | 721sim/uarchsim/renamer.cc:320-375 | dispatching moves the oldest renamed destination into the in-flight entries |
| Tables.CommitConserved | 721sim/uarchsim/renamer.cc:633-652 | the register commit writes at the free-list tail replaces the one the head owned, which the map update takes over |
| Tables.RetireConserved | 721sim/uarchsim/renamer.cc:655-659 | committing an instruction without a destination frees nothing and keeps conservation |
| Tables.RecoverConserved | 721sim/uarchsim/renamer.cc:514-531 | keeping the first k in-flight entries keeps conservation when the handed-out run the restored head leaves is as long as what they own |
| Tables.RecoverFullListAsWritten | 721sim/uarchsim/renamer.cc:514-518 | a conserved state with a full one-slot free list and a consistent checkpoint whose head equals the tail: the run `Restore` leaves frees a register the kept entry still owns and breaks conservation, while restoring `full` keeps it |
| Tables.SquashConserved | 721sim/uarchsim/renamer.cc:681-687 | with nothing in flight or handed out, the committed maps and the free list own every register |
| Rename.Snapshot | 721sim/uarchsim/renamer.cc:255-261 | the saved map has one row per logical register |
| Rename.SnapshotDropsShadows | 721sim/uarchsim/renamer.cc:255-261 | a saved row holds the live plain mapping with no shadow valid, so after a restore every source kind reads that mapping |
| Rename.Unmapped | 721sim/uarchsim/renamer.cc:69-71 | a slot's map before its first snapshot has no shadow valid |
| Rename.IdentityRmt | 721sim/uarchsim/renamer.cc:31-36 | row i maps to physical register i with both shadows invalid |
| Rename.Identity | 721sim/uarchsim/renamer.cc:38-40 | the AMT maps i to i |
| Rename.AllReady | 721sim/uarchsim/renamer.cc:58-63 | every physical register starts ready |
| Rename.EmptySlots | 721sim/uarchsim/renamer.cc:69-71 | every checkpoint slot starts well formed with an empty GBM and free-list head 0 |
| Rename.CountFreeBranches | 721sim/uarchsim/renamer.cc:109-118 | the scan counts exactly the clear bits among the low n of the GBM |
| Rename.ScanFree | 721sim/uarchsim/renamer.cc:244-251 | the scan stops at the lowest clear bit below n, or at n when there is none |
| Rename.ClaimBranch | 721sim/uarchsim/renamer.cc:244-252 | the claimed id is the lowest clear bit below n, and the new GBM is the old one with `1<<id` ORed in |
| Rename.ClearShadows | 721sim/uarchsim/renamer.cc:193-196 | every row's THEN and ELSE shadows become invalid and nothing else changes |
| Rename.SaveMap | 721sim/uarchsim/renamer.cc:255-261 | every saved row takes the live plain mapping with THEN invalid; `RMT_64` is saved whenever a row exists |
| Rename.MaskSlots | 721sim/uarchsim/renamer.cc:508-509 | every slot's saved GBM is masked, and nothing else in the slot changes |
| Rename.CopyMap | 721sim/uarchsim/renamer.cc:523-524 | the map becomes the saved one row by row |
| Rename.RestoreCommitted | 721sim/uarchsim/renamer.cc:676-680 | every row maps to its AMT entry with both shadows invalid |
| Rename.Renamer.ExactlyOnce | 721sim/uarchsim/renamer.cc:22-72 | under conservation, each register below n_phys_regs has exactly one owner and no other id occurs |
| Rename.Renamer.constructor | 721sim/uarchsim/renamer.cc:22-72 | identity RMT and AMT with no shadow valid; `RMT_64 == AMT_64 == n_log_regs`; free list n_log_regs+1 .. n_phys_regs-1; nothing in flight; GBM 0; every register ready; conservation holds; every table is newly allocated |
| Rename.Renamer.StallReg | 721sim/uarchsim/renamer.cc:91-95 | stall exactly when fewer registers are free than the bundle has destinations |
| Rename.Renamer.StallBranch | 721sim/uarchsim/renamer.cc:108-123 | stall exactly when fewer than k of the low n_max_branches GBM bits are clear |
| Rename.Renamer.GetBranchMask | 721sim/uarchsim/renamer.cc:128-130 | the returned mask has the GBM's bits |
| Rename.Renamer.RenameSource | 721sim/uarchsim/renamer.cc:146-161 | NORMAL reads the plain mapping; THEN and ELSE read their side's shadow when valid and the plain mapping otherwise; CMOV of id 64 reads `RMT_64` |
| Rename.Renamer.RenameDest | 721sim/uarchsim/renamer.cc:186-217 | returns the register at the free-list head, which leaves the free run; NORMAL id 64 sets `RMT_64` and clears every shadow; any other case changes only row r as `Renamed` says; the matching source lookup then yields the new register; the free-list head advances, the tail stays, `empty` is cleared and `full` set exactly when head reaches tail; conservation is kept |
| Rename.Renamer.MapDest | 721sim/uarchsim/renamer.cc:189-208 | NORMAL id 64 sets `RMT_64` and ends every shadow; THEN and ELSE set only that row's shadow; NORMAL or CMOV set only that row's plain mapping; the matching source lookup yields p |
| Rename.Renamer.Checkpoint | 721sim/uarchsim/renamer.cc:243-268 | returns the lowest clear GBM bit and sets it with `1<<id`; that slot holds the snapshot of the map, `RMT_64`, the updated GBM and the free-list head; no other slot changes |
| Rename.Renamer.StallDispatch | 721sim/uarchsim/renamer.cc:286-289 | stall exactly when the active list has fewer free slots than the bundle has instructions |
| Rename.Renamer.DispatchInst | 721sim/uarchsim/renamer.cc:320-375 | writes at the old tail an entry with the given fields, no status bit set, tag `RMT_64`; returns that tail; tail advances; the destination's ready bit is cleared; conservation is kept when the destination is the oldest renamed |
| Rename.Renamer.IsReady | 721sim/uarchsim/renamer.cc:386-388 | reports the register's ready bit |
| Rename.Renamer.ClearReady | 721sim/uarchsim/renamer.cc:393-395 | only that register's ready bit changes, to not ready |
| Rename.Renamer.SetReady | 721sim/uarchsim/renamer.cc:400-402 | only that register's ready bit changes, to ready |
| Rename.Renamer.GetException | 721sim/uarchsim/renamer.cc:719-721 | reports the slot's exception bit |
| Rename.Renamer.SetStatus | 721sim/uarchsim/renamer.cc:700-714 | only slot i's status changes; the active list's positions and flags stay (outside the frame) and the in-flight count is unchanged; conservation is kept |
| Rename.Renamer.SetComplete | 721sim/uarchsim/renamer.cc:431-433 | only slot i's completed bit is set; positions, flags and the in-flight count stay |
| Rename.Renamer.SetException | 721sim/uarchsim/renamer.cc:702-704 | only slot i's exception bit is set, and `get_exception` then reports it; positions, flags and the in-flight count stay |
| Rename.Renamer.SetLoadViolation | 721sim/uarchsim/renamer.cc:705-707 | only slot i's load-violation bit is set; positions, flags and the in-flight count stay |
| Rename.Renamer.SetBranchMisprediction | 721sim/uarchsim/renamer.cc:708-711 | only slot i's branch-misprediction bit is set; positions, flags and the in-flight count stay |
| Rename.Renamer.SetValueMisprediction | 721sim/uarchsim/renamer.cc:712-714 | only slot i's value-misprediction bit is set; positions, flags and the in-flight count stay |
| Rename.Renamer.PredicateDone | 721sim/uarchsim/renamer.cc:435-459 | from AL_index+1, wrapping, up to but not including the first CMOV, THEN entries get `deactivated = outcome` and ELSE entries `!outcome`; every other slot is unchanged; the active list's positions, flags and in-flight count stay; the tag is not consulted; conservation is kept |
| Rename.Renamer.ReleaseBranch | 721sim/uarchsim/renamer.cc:507-511 | the branch's `int`-built mask is cleared from the GBM and from every slot's saved GBM |
| Rename.Renamer.Recover | 721sim/uarchsim/renamer.cc:512-537 | GBM becomes the saved GBM without the branch's bit; the map, `RMT_64` and free-list head are restored; free-list `full` is cleared and `empty` set when head == tail; the handed-out run is as long as the distance from tail to head; the active list keeps entries up to the branch, tail at AL_index+1, `empty` cleared, `full` kept only if head == tail; undispatched renames are dropped; every source reads its checkpointed register; conservation is kept when the handed-out run matches what the kept entries own |
| Rename.Renamer.RestoreMap | 721sim/uarchsim/renamer.cc:523-526 | the map and `RMT_64` become the checkpoint's, so every source kind reads the checkpointed plain mapping |
| Rename.Renamer.RecoverLists | 721sim/uarchsim/renamer.cc:514-531 | free-list head restored with `full` cleared and `empty` set when head == tail; the handed-out run is as long as the distance from tail to head; the active list keeps the entries up to and including the branch; conservation is kept when the handed-out run matches what those entries own |
| Rename.Renamer.RestoreListsAsWritten | 721sim/uarchsim/renamer.cc:514-531 | the state changes of `RecoverLists`: the handed-out run is a prefix of the old one, as long as the distance from tail to the restored head; the active list is truncated after the branch; undispatched renames are dropped |
| Rename.Renamer.RecoverChecked | 721sim/uarchsim/renamer.cc:512-537 | the corrected recovery: as `Recover`, except that `full` is set exactly when the restored head lands on the tail and the kept entries own a register; conservation is kept whenever the checkpointed head lies as many slots past the tail as the kept entries own registers, a whole lap included |
| Rename.Renamer.RecoverListsChecked | 721sim/uarchsim/renamer.cc:514-531 | the list part of the corrected recovery, given the kept entries' register count: `full` exactly when head == tail and that count is positive; conservation is kept under the same checkpoint consistency |
| Rename.Renamer.RestoreLists | 721sim/uarchsim/renamer.cc:514-531 | the state changes of the corrected recovery: the handed-out run is a prefix of the old one, exactly `owned` long when the restored head lies `owned` slots past the tail |
| Rename.Renamer.Resolve | 721sim/uarchsim/renamer.cc:503-538 | correct: the branch's `int`-built mask (`1<<id`, which for id 31 covers bits 31..63) is cleared from the GBM and from every slot's saved GBM; the map, `RMT_64`, the undispatched renames, the free list and the active list are unchanged; mispredicted: the as-written recovery (`Recover`), with the slots unchanged; conservation as for `Recover` |
| Rename.Renamer.Precommit | 721sim/uarchsim/renamer.cc:573-602 | reports whether the active list is non-empty and the head entry's bits; a deactivated head reports neither exception nor load violation |
| Rename.Renamer.CommitMap | 721sim/uarchsim/renamer.cc:633-648 | a live head's destination becomes the committed mapping (AMT row or `AMT_64`) and the replaced mapping is freed; a deactivated head frees its own register and leaves the AMT alone; exactly one register is swapped |
| Rename.Renamer.CommitDest | 721sim/uarchsim/renamer.cc:633-654 | a live head's destination becomes `AMT_64` (id 64) or its AMT row, a deactivated head leaves both alone; the freed register is written at the free-list tail, which advances; head stays; `full` is cleared and `empty` set when the new tail reaches head; conservation is kept with the head no longer in flight |
| Rename.Renamer.Commit | 721sim/uarchsim/renamer.cc:621-662 | the head entry leaves and head advances, `full` is cleared and `empty` set when head reaches tail; with a destination, a live head's register becomes `AMT_64` or its AMT row (a deactivated head changes neither) and exactly the freed register is pushed at the free-list tail; without one, the free list (positions, flags, runs) and the AMT are unchanged; conservation is kept |
| Rename.Renamer.Squash | 721sim/uarchsim/renamer.cc:674-691 | every row maps to its AMT entry with no shadow valid; the active list is empty and not full; free-list head moves onto tail with `empty` set; every handed-out register is free; GBM 0; conservation is kept |
| Payloads.Prev | 721sim/uarchsim/payload.cc:156 | the previous instruction's slot lies in the buffer |
| Payloads.Recomputed | 721sim/uarchsim/payload.cc:373 | the recomputed length is below the buffer size |
| Payloads.RecomputedIsDist | 721sim/uarchsim/payload.cc:368-386 | the recomputed length is the number of slots from head up to tail |
| Payloads.PrevAfterPush | 721sim/uarchsim/payload.cc:85-99 | the slot a push hands out is the previous instruction of the slot the next push hands out |
| Payloads.Classify | 721sim/uarchsim/payload.cc:148-316 | only the good-path flag and the debug index of the current slot are decided |
| Payloads.HeadIsGood | 721sim/uarchsim/payload.cc:163-168 | the head slot is good, at `first(pc)` |
| Payloads.BadStaysBad | 721sim/uarchsim/payload.cc:269-272 | after a bad NORMAL or CMOV slot, the slot is bad with the invalid index |
| Payloads.WrongRegionStaysBad | 721sim/uarchsim/payload.cc:273-279 | after a bad THEN or ELSE slot without a debug index, the slot is bad with the invalid index |
| Payloads.Follow | 721sim/uarchsim/payload.cc:148-316 | classifying a run slot after slot keeps its length and its first slot |
| Payloads.WrongPathAbsorbs | 721sim/uarchsim/payload.cc:267-305 | once a slot is bad without a debug index, every later slot of the run is too, whatever the kinds and the oracle |
| Payloads.CmovInheritsGood | 721sim/uarchsim/payload.cc:207-251 | a CMOV after a good THEN, ELSE or CMOV that is not a hammock branch is good and inherits its debug index |
| Payloads.HammockFollowsOracle | 721sim/uarchsim/payload.cc:174-190 | after a good hammock branch the slot is good exactly when the functional simulator has it next, and otherwise keeps the branch's debug index |
| Payloads.NormalFollowsOracle | 721sim/uarchsim/payload.cc:194-206 | after a good NORMAL slot the slot is good exactly when the functional simulator has it next, at that index |
| Payloads.Payload.constructor | 721sim/uarchsim/payload.cc:81-83 | a new buffer is empty, with head, tail and length 0 |
| Payloads.Payload.Clear | 721sim/uarchsim/payload.cc:110-114 | head, tail and length become 0 |
| Payloads.Payload.Push | 721sim/uarchsim/payload.cc:85-99 | returns the old tail; tail advances by 2 modulo size; length grows by 2 and stays within the buffer; the returned slot is the previous instruction of the new tail |
| Payloads.Payload.Pop | 721sim/uarchsim/payload.cc:101-108 | head advances by 1 modulo size and length drops by 1, staying non-negative |
| Payloads.Payload.Rollback | 721sim/uarchsim/payload.cc:368-374 | tail becomes index+2 modulo size, head stays, and length is the slot count from head to tail |
| Payloads.Payload.Checkpoint | 721sim/uarchsim/payload.cc:376-378 | the checkpoint is the current tail, a slot of the buffer |
| Payloads.Payload.Restore | 721sim/uarchsim/payload.cc:380-386 | tail becomes index and length the slot count from head to tail; restoring the current checkpoint keeps tail and, unless the buffer is full, the length; a full buffer reads as empty |
| Payloads.Payload.MapToActual | 721sim/uarchsim/payload.cc:148-316 | the slot at index gets exactly the good-path flag and debug index `Classify` gives from the slot two before it; no other slot changes |

## Left out

- Renamer constructor: it requires `n_branches <= 32`, not 64. Masks are built with the 32-bit `int` shift `1<<pos`, which is undefined in C++ for `pos >= 32`.
- Renamer constructor: it requires `n_phys_regs >= n_log_regs + 2`. The source asserts only `n_phys_regs > n_log_regs`, but with one register more the free list has zero slots and its `size - 1` wrap-around is meaningless.
- The constructors of the free-list, active-list and checkpoint structs, and the headers that declare them (`renamer.h`, `payload.h`), are not part of this model. The rings are taken to start at slot 0 with `empty` set and `full` clear. Checkpoint slots are taken to start with an all-zero map and no shadow valid.
- PRF contents (`read`/`write`): values are only stored and loaded, so the model has no register-value array.
- `printf` output, the `dispatch_cnt` counter, and the instruction fields `dispatch_inst` receives but never stores (`is_hammock`) are left out.
- Rename.Renamer.RenameSource: a CMOV source other than id 64 reaches the end of the function without a return in the source, so it is excluded by a precondition.
- Rename.Renamer.RenameDest: a CMOV destination of id 64 would index past the map table in the source. It is excluded by a precondition, as is any id at or above `n_log_regs` except a NORMAL write of id 64.
- Rename.Renamer.Checkpoint: the source continues with `pos == n_max_branches` when no GBM bit is free (an out-of-range slot write). A clear bit is a precondition, which the caller establishes with `stall_branch`.
- Rename.Renamer.Recover: conservation is promised only when the handed-out run the restored head leaves is as long as what the kept entries own. When the kept entries own every free-list slot, the saved head equals the tail and the source claims every register is free; this is reachable (see "## Findings").
- Rename.Renamer.Resolve: a mispredicted resolve follows the source's recovery as written, so it inherits the `Recover` hypothesis above. The corrected recovery is `RecoverChecked`.
- Rename.Renamer.PredicateDone: the source's walk (renamer.cc:439) stops only at a CMOV slot and loops forever when no slot of the ring holds one. The model requires a CMOV within one lap of `AL_index` and does not model the non-terminating case.
- FreeLists.FreeList.Release: the new free and handed-out runs are promised only when some register is handed out. Freeing into a list whose every slot is free overwrites a free register. Commit never does this under conservation.
- Rename.Renamer.DispatchInst: conservation is promised only when the dispatched destination is the oldest renamed one. Rename and dispatch take destinations in the same order, but the renamer does not check this itself.
- `PAYLOAD_BUFFER_SIZE`, `MOD`, `DEBUG_INDEX_INVALID` and the `HAMMOCK` branch type come from headers that are not part of this model. The buffer size is a constructor parameter (at least 2). `MOD` is the unsigned remainder. The invalid index is its own constructor of `DbIndex`. "Branch type is HAMMOCK" is a boolean field of the slot.
- Payloads.Payload.MapToActual: the source asserts that a good ELSE slot followed by anything but a CMOV has a successor in the functional simulator. That assertion is a precondition (`ElseContinues`). The commented-out assertions (lines 260 and 287) are not modelled.
- The functional simulator (`get_pipe()->first`, `check_next`) is not part of this model. It is the `Oracle` parameter.
- Payload slots carry many more fields (instruction word, operands, latencies and so on). Only those that `map_to_actual` reads or writes are modelled.
- `trap_storage_t` placement-new plumbing, `payload::predict` (decodes instructions through the functional simulator), `payload::split` (dead: it asserts on entry) and `payload::dump` (file output) are left out.
- `fetchunit.h`, `btb.h` and the benchmark program contain declarations and a workload, not simulator logic. They are left out.

## Findings

| source | as written | input that shows it | evidently intended | confidence | as-written member | corrected member |
|---|---|---|---|---|---|---|
| 721sim/uarchsim/renamer.cc:514-518 | a misprediction restores the free-list head, clears `full` and sets `empty` when head == tail, so a head that equals the tail always reads as "every register free" | 1 logical and 3 physical registers (one free-list slot), 1 branch: rename a destination (the list becomes full, head == tail), dispatch it, checkpoint a branch (saved head == tail), dispatch the branch, resolve it as mispredicted; register 2 is then both free and owned by the kept instruction | the restored list is full when the kept instructions own every free-list slot, so no register is freed | not executed | Tables.RecoverFullListAsWritten | Rename.Renamer.RecoverChecked |
