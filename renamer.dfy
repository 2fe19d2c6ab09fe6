/** The register renamer of the out-of-order core: rename map table (RMT)
    with THEN/ELSE shadow mappings and a separate predicate mapping,
    architectural map table (AMT), free list, active list, and the global
    branch mask (GBM) with one checkpoint per mask bit. */
module Rename {
  import opened DhpTypes
  import opened Ring
  import opened Masks
  import opened RenamerTypes
  import opened FreeLists
  import opened ActiveLists
  import opened Tables

  /** One row of a branch snapshot: the live plain mapping is saved and the
      THEN shadow is marked invalid; the slot's other fields keep whatever
      an earlier snapshot left there. */
  function SnapEntry(live: RmtEntry, slot: RmtEntry): RmtEntry
  {
    slot.(phyReg := live.phyReg, tValid := false)
  }

  /** The map a branch checkpoint holds after snapshotting `live` into a
      slot that held `slot`. */
  function Snapshot(live: seq<RmtEntry>, slot: seq<RmtEntry>): (r: seq<RmtEntry>)
    requires |live| == |slot|
    ensures |r| == |slot|
  {
    seq(|slot|, i requires 0 <= i < |slot| => SnapEntry(live[i], slot[i]))
  }

  /** A snapshot of a slot without ELSE shadows has no shadows at all: after
      a restore every source, whatever its kind, reads the plain mapping
      that was live when the branch was renamed. */
  lemma SnapshotDropsShadows(live: seq<RmtEntry>, slot: seq<RmtEntry>, i: nat)
    requires |live| == |slot| && i < |slot| && !slot[i].eValid
    ensures Snapshot(live, slot)[i].phyReg == live[i].phyReg
    ensures !Snapshot(live, slot)[i].tValid && !Snapshot(live, slot)[i].eValid
  {
  }

  /** The row `rename_rdst` leaves for a destination of the given kind that
      is not the predicate: NORMAL and CMOV replace the plain mapping, THEN
      and ELSE install their side's shadow mapping. */
  function Renamed(e: RmtEntry, p: nat, kind: InstClass): RmtEntry
  {
    match kind
    case Normal => e.(phyReg := p)
    case Cmov => e.(phyReg := p)
    case Then => e.(tPhyReg := p, tValid := true)
    case Else => e.(ePhyReg := p, eValid := true)
  }

  /** The register an instruction gives back when it commits: its own
      destination if it was predicated away, else the mapping it replaces
      in the AMT (or in the predicate's committed mapping). */
  function Freed(e: AlEntry, amt: seq<nat>, amt64: nat): nat
    requires e.destValid && (e.destLog < |amt| || e.destLog == PredicateReg)
  {
    if e.status.deactivated then e.destPhys
    else if e.destLog == PredicateReg then amt64
    else amt[e.destLog]
  }

  /** The map of a checkpoint slot before its first snapshot. */
  function Unmapped(n: nat): (r: seq<RmtEntry>)
    ensures |r| == n && forall i :: 0 <= i < n ==> !r[i].tValid && !r[i].eValid
  {
    seq(n, _ => RmtEntry(0, 0, false, 0, false))
  }

  /** The constructor's rename map: logical register i on physical register
      i, no shadow mapping valid. */
  method IdentityRmt(n: nat) returns (a: array<RmtEntry>)
    ensures fresh(a) && a.Length == n
    ensures forall i :: 0 <= i < n ==> a[i].phyReg == i && !a[i].tValid && !a[i].eValid
  {
    a := new RmtEntry[n];
    for i := 0 to n
      invariant forall j :: 0 <= j < i ==> a[j].phyReg == j && !a[j].tValid && !a[j].eValid
    {
      a[i] := RmtEntry(i, 0, false, 0, false);
    }
  }

  /** The constructor's architectural map: logical register i on physical
      register i. */
  method Identity(n: nat) returns (a: array<nat>)
    ensures fresh(a) && a[..] == Range(0, n)
  {
    a := new nat[n];
    for i := 0 to n
      invariant a[..i] == Range(0, i)
    {
      a[i] := i;
      assert a[..i + 1] == a[..i] + [i];
    }
  }

  /** The constructor's ready bits: every physical register ready. */
  method AllReady(n: nat) returns (a: array<bool>)
    ensures fresh(a) && a.Length == n
    ensures forall p :: 0 <= p < n ==> a[p]
  {
    a := new bool[n](_ => true);
  }

  /** The checkpoint slots before any branch: each holds an all-zero map
      with no shadow valid, an empty GBM and free-list head 0. */
  method EmptySlots(n: nat, nLog: nat, flSize: nat) returns (a: array<BranchCheckpoint>)
    requires flSize > 0
    ensures fresh(a) && a.Length == n
    ensures SlotsOk(a, nLog, flSize)
    ensures forall b :: 0 <= b < n ==> a[b] == BranchCheckpoint(Unmapped(nLog), 0, Zero, 0)
  {
    a := new BranchCheckpoint[n](_ => BranchCheckpoint(Unmapped(nLog), 0, Zero, 0));
  }

  /** `stall_branch`'s count: the clear bits among the low n bits of the
      GBM, tested one mask bit per step. */
  method CountFreeBranches(g: Word, n: nat) returns (freeEntries: nat)
    requires n <= 32
    ensures freeEntries == ClearCount(g, n)
  {
    freeEntries := 0;
    var pos := 0;
    var mask := BitMask(0);
    while pos < n
      invariant pos <= n && mask == BitMask(pos)
      invariant freeEntries == ClearCount(g, pos)
    {
      FreeBitTest(g, pos);
      if And(Not(g), mask) == mask {
        freeEntries := freeEntries + 1;
      }
      MaskStep(pos);
      mask := Shl1(mask);
      pos := pos + 1;
    }
  }

  /** The scan of `checkpoint`: from bit 0 upward, the first bit whose
      free-bit test succeeds, and whether one was found among the low n. */
  method ScanFree(g: Word, n: nat) returns (pos: nat, found: bool)
    requires n <= 32
    ensures found ==> pos < n && !Bit(g, pos)
    ensures !found ==> pos == n
    ensures ClearCount(g, pos) == 0
  {
    pos := 0;
    var mask := BitMask(0);
    found := false;
    while pos < n
      invariant pos <= n && mask == BitMask(pos)
      invariant ClearCount(g, pos) == 0
    {
      FreeBitTest(g, pos);
      if And(Not(g), mask) == mask {
        found := true;
        break;
      }
      MaskStep(pos);
      mask := Shl1(mask);
      pos := pos + 1;
    }
  }

  /** The GBM part of `checkpoint`: the lowest clear bit among the low n
      is claimed with the `int` shift `1<<pos`. */
  method ClaimBranch(g: Word, n: nat) returns (id: nat, g2: Word)
    requires n <= 32 && ClearCount(g, n) >= 1
    ensures id < n && !Bit(g, id) && ClearCount(g, id) == 0
    ensures g2 == Or(g, IntShiftMask(id))
  {
    var found;
    id, found := ScanFree(g, n);
    if found {
      g2 := Or(g, IntShiftMask(id));
    } else {
      // the source prints a message and goes on with the out-of-range
      // position; the caller's `stall_branch` check rules this out
      assert false;
    }
  }

  /** The loop of `rename_rdst` for a NORMAL write of the predicate: every
      row's THEN and ELSE shadows become invalid. */
  method ClearShadows(rmt: array<RmtEntry>)
    modifies rmt
    ensures forall i :: 0 <= i < rmt.Length ==> rmt[i] == old(rmt[i]).(tValid := false, eValid := false)
  {
    for i := 0 to rmt.Length
      invariant forall j :: 0 <= j < rmt.Length ==>
                  rmt[j] == if j < i then old(rmt[j]).(tValid := false, eValid := false) else old(rmt[j])
    {
      rmt[i] := rmt[i].(eValid := false, tValid := false);
    }
  }

  /** The row loop of `checkpoint`: each saved row takes the live plain
      mapping and an invalid THEN shadow, and the predicate mapping is
      written on every iteration. */
  method SaveMap(rmt: array<RmtEntry>, rmt64: nat, slot: BranchCheckpoint) returns (saved: seq<RmtEntry>, saved64: nat)
    requires |slot.rmt| == rmt.Length
    ensures saved == Snapshot(rmt[..], slot.rmt)
    ensures saved64 == if rmt.Length > 0 then rmt64 else slot.rmt64
  {
    saved, saved64 := slot.rmt, slot.rmt64;
    for i := 0 to rmt.Length
      invariant |saved| == rmt.Length
      invariant forall j :: 0 <= j < rmt.Length ==> saved[j] == if j < i then SnapEntry(rmt[j], slot.rmt[j]) else slot.rmt[j]
      invariant saved64 == if i > 0 then rmt64 else slot.rmt64
    {
      saved := saved[i := SnapEntry(rmt[i], saved[i])];
      saved64 := rmt64;
    }
  }

  /** The checkpoint loop of `resolve` for a correct prediction: every
      slot's saved GBM is masked with `mask`. */
  method MaskSlots(ckpts: array<BranchCheckpoint>, mask: Word)
    modifies ckpts
    ensures forall b :: 0 <= b < ckpts.Length ==> ckpts[b] == old(ckpts[b]).(gbm := And(old(ckpts[b]).gbm, mask))
  {
    for b := 0 to ckpts.Length
      invariant forall c :: 0 <= c < ckpts.Length ==>
                  ckpts[c] == if c < b then old(ckpts[c]).(gbm := And(old(ckpts[c]).gbm, mask)) else old(ckpts[c])
    {
      ckpts[b] := ckpts[b].(gbm := And(ckpts[b].gbm, mask));
    }
  }

  /** The map loop of `resolve` after a misprediction: every row is copied
      back from the checkpoint. */
  method CopyMap(rmt: array<RmtEntry>, src: seq<RmtEntry>)
    requires |src| == rmt.Length
    modifies rmt
    ensures rmt[..] == src
  {
    for i := 0 to rmt.Length
      invariant rmt[..i] == src[..i]
    {
      rmt[i] := src[i];
      assert rmt[..i + 1] == rmt[..i] + [src[i]];
      assert src[..i + 1] == src[..i] + [src[i]];
    }
  }

  /** The map loop of `squash`: every row's plain mapping becomes the
      committed one and its shadows become invalid. */
  method RestoreCommitted(rmt: array<RmtEntry>, amt: array<nat>)
    requires rmt.Length == amt.Length
    modifies rmt
    ensures forall i :: 0 <= i < rmt.Length ==>
              rmt[i] == old(rmt[i]).(phyReg := amt[i], tValid := false, eValid := false)
  {
    for i := 0 to rmt.Length
      invariant forall j :: 0 <= j < rmt.Length ==>
                  rmt[j] == if j < i then old(rmt[j]).(phyReg := amt[j], tValid := false, eValid := false) else old(rmt[j])
    {
      rmt[i] := rmt[i].(phyReg := amt[i], tValid := false, eValid := false);
    }
  }

  class Renamer {
    const nLog: nat
    const nPhys: nat
    const nBranches: nat

    const rmt: array<RmtEntry>
    /** Mapping of the predicate register (logical id 64). */
    var rmt64: nat
    const amt: array<nat>
    /** Committed mapping of the predicate register. */
    var amt64: nat

    const fl: FreeList
    const al: ActiveList
    const prfReady: array<bool>

    var gbm: Word
    const ckpts: array<BranchCheckpoint>

    /** Registers handed out by RenameDest whose instructions are not yet
        dispatched, oldest first. */
    ghost var pending: seq<nat>

    /** The sizes fixed at construction. */
    ghost predicate Sizes()
    {
      nPhys >= nLog + 2 && 1 <= nBranches <= 32 &&
      rmt.Length == nLog && amt.Length == nLog &&
      prfReady.Length == nPhys && ckpts.Length == nBranches &&
      amt != fl.entries
    }

    /** The representation invariant: consistent rings and well-formed
        checkpoint slots. */
    ghost predicate Valid()
      reads fl, fl.entries, al, al.entries, ckpts
    {
      Sizes() && ListsOk(fl, al, nLog, nPhys) && SlotsOk(ckpts, nLog, fl.size)
    }

    /** Conservation (see `Conserved`) over the renamer's current tables. */
    ghost predicate Owned()
      reads this, fl, fl.entries, al, amt
    {
      Conserved(amt[..], amt64, fl.entries[..], fl.taken, al.contents, pending, nPhys)
    }

    /** Under conservation each register id below n_phys_regs sits in exactly
        one place: the AMT, the predicate's committed mapping, the free
        registers, an in-flight destination, or a renamed destination not
        yet dispatched; no other id occurs anywhere. */
    lemma ExactlyOnce(p: nat)
      requires Valid() && Owned()
      ensures multiset(amt[..])[p] + (if p == amt64 then 1 else 0) + multiset(fl.free)[p] +
              multiset(Dests(al.contents))[p] + multiset(pending)[p] == if p < nPhys then 1 else 0
    {
      fl.FreeAndTaken();
      RangeOnce(0, nPhys, p);
      assert multiset(fl.taken) == multiset(Dests(al.contents)) + multiset(pending);
    }

    /** Builds an empty pipeline: the identity mapping, the predicate on
        register n_log_regs, and every other register free. Both rings start
        with head == tail == 0 and their `empty` flag set, and every
        checkpoint slot starts with invalid shadows; these initial values
        come from constructors that are not part of this model. */
    constructor (nLogRegs: nat, nPhysRegs: nat, nBranchesMax: nat)
      requires nPhysRegs >= nLogRegs + 2
      requires 1 <= nBranchesMax <= 32
      ensures Valid() && Owned()
      ensures fresh(rmt) && fresh(amt) && fresh(prfReady) && fresh(ckpts)
      ensures fresh(fl) && fresh(fl.entries) && fresh(al) && fresh(al.entries)
      ensures nLog == nLogRegs && nPhys == nPhysRegs && nBranches == nBranchesMax
      ensures forall i :: 0 <= i < nLog ==> rmt[i].phyReg == amt[i] == i && !rmt[i].tValid && !rmt[i].eValid
      ensures rmt64 == amt64 == nLog
      ensures fl.free == Range(nLog + 1, nPhys)
      ensures al.contents == [] && pending == []
      ensures gbm == Zero
      ensures forall p :: 0 <= p < nPhys ==> prfReady[p]
    {
      var r := IdentityRmt(nLogRegs);
      var a := Identity(nLogRegs);
      var f := new FreeList(nPhysRegs - nLogRegs - 1, nLogRegs + 1);
      var l := new ActiveList(nPhysRegs - nLogRegs);
      var ready := AllReady(nPhysRegs);
      var slots := EmptySlots(nBranchesMax, nLogRegs, nPhysRegs - nLogRegs - 1);
      nLog, nPhys, nBranches := nLogRegs, nPhysRegs, nBranchesMax;
      rmt, amt, fl, al := r, a, f, l;
      amt64, rmt64 := nLogRegs, nLogRegs;
      prfReady, ckpts := ready, slots;
      gbm := Zero;
      pending := [];
      new;
      InitialOwners(amt[..], fl.entries[..], nLog, nPhys);
    }

    /** `stall_reg`: the rename stage stalls when fewer registers are free
        than the bundle has destinations. */
    function StallReg(bundleDst: nat): (stall: bool)
      reads fl, fl.entries
      requires fl.Valid()
      ensures stall <==> |fl.free| < bundleDst
    {
      !(fl.Space() >= bundleDst)
    }

    /** `stall_branch`: stalls when fewer checkpoints are free than the
        bundle has branches. */
    method StallBranch(bundleBranch: nat) returns (stall: bool)
      requires Sizes()
      ensures stall <==> ClearCount(gbm, nBranches) < bundleBranch
    {
      var freeEntries := CountFreeBranches(gbm, nBranches);
      stall := !(freeEntries >= bundleBranch);
    }

    /** `get_branch_mask`: the branches an instruction renamed now depends on. */
    function GetBranchMask(): (m: Word)
      reads this`gbm
      ensures forall j :: 0 <= j < 64 ==> (Bit(m, j) <==> Bit(gbm, j))
    {
      gbm
    }

    /** `rename_rsrc`: a NORMAL source reads the plain mapping, a THEN or ELSE
        source its side's shadow mapping when one is valid, and the CMOV
        that merges a hammock reads the predicate's mapping. A CMOV source
        other than the predicate has no defined result in the source, so it
        is excluded. */
    function RenameSource(r: nat, kind: InstClass): (p: nat)
      reads this`rmt64, rmt
      requires rmt.Length == nLog
      requires if kind == Cmov then r == PredicateReg else r < nLog
      ensures kind == Cmov ==> p == rmt64
      ensures kind == Normal ==> p == rmt[r].phyReg
      ensures kind == Then ==> p == (if rmt[r].tValid then rmt[r].tPhyReg else rmt[r].phyReg)
      ensures kind == Else ==> p == (if rmt[r].eValid then rmt[r].ePhyReg else rmt[r].phyReg)
    {
      if kind == Cmov then rmt64
      else if kind == Normal then rmt[r].phyReg
      else if kind == Then then (if rmt[r].tValid then rmt[r].tPhyReg else rmt[r].phyReg)
      else (if rmt[r].eValid then rmt[r].ePhyReg else rmt[r].phyReg)
    }

    /** `rename_rdst`: hands out the register at the free-list head and maps
        the destination to it, so that the matching source lookup now
        yields it. A NORMAL write of the predicate (id 64) updates the
        predicate's mapping and ends every hammock shadow; any other
        destination must be a map-table row (a CMOV of id 64 would index
        past the table). The caller checks `stall_reg` first, so a register
        is free. */
    method RenameDest(r: nat, kind: InstClass) returns (p: nat)
      requires Valid() && |fl.free| >= 1
      requires if kind == Normal then r < nLog || r == PredicateReg else r < nLog
      modifies rmt, this`rmt64, fl, this`pending
      ensures Valid()
      ensures p == old(fl.free)[0] && fl.free == old(fl.free)[1..] && fl.taken == old(fl.taken) + [p]
      ensures fl.head == Next(old(fl.head), fl.size) && fl.tail == old(fl.tail)
      ensures !fl.empty && (fl.full <==> fl.head == fl.tail)
      ensures kind == Normal && r == PredicateReg ==>
                rmt64 == p && RenameSource(r, Cmov) == p &&
                forall i :: 0 <= i < nLog ==> rmt[i] == old(rmt[i]).(tValid := false, eValid := false)
      ensures !(kind == Normal && r == PredicateReg) ==>
                rmt64 == old(rmt64) && rmt[..] == old(rmt[..])[r := Renamed(old(rmt[r]), p, kind)]
      ensures (kind == Normal && r != PredicateReg) || kind == Cmov ==> RenameSource(r, Normal) == p
      ensures kind == Then ==> RenameSource(r, Then) == p
      ensures kind == Else ==> RenameSource(r, Else) == p
      ensures pending == old(pending) + [p]
      ensures old(Owned()) ==> Owned()
    {
      // the source reads FL_Entry[head] first and moves the head last; the
      // two steps touch disjoint state
      p := fl.Allocate();
      pending := pending + [p];
      if old(Owned()) {
        RenameConserved(amt[..], amt64, fl.entries[..], old(fl.taken), al.contents, old(pending), nPhys, p);
      }
      MapDest(r, kind, p);
    }

    /** The map part of `rename_rdst`: destination r of an instruction of
        this kind is mapped to p. */
    method MapDest(r: nat, kind: InstClass, p: nat)
      requires rmt.Length == nLog
      requires if kind == Normal then r < nLog || r == PredicateReg else r < nLog
      modifies rmt, this`rmt64
      ensures kind == Normal && r == PredicateReg ==>
                rmt64 == p && RenameSource(r, Cmov) == p &&
                forall i :: 0 <= i < nLog ==> rmt[i] == old(rmt[i]).(tValid := false, eValid := false)
      ensures !(kind == Normal && r == PredicateReg) ==>
                rmt64 == old(rmt64) && rmt[..] == old(rmt[..])[r := Renamed(old(rmt[r]), p, kind)]
      ensures (kind == Normal && r != PredicateReg) || kind == Cmov ==> RenameSource(r, Normal) == p
      ensures kind == Then ==> RenameSource(r, Then) == p
      ensures kind == Else ==> RenameSource(r, Else) == p
    {
      if kind == Normal || kind == Cmov {
        if r == PredicateReg && kind == Normal {
          rmt64 := p;
          ClearShadows(rmt);
        } else {
          rmt[r] := rmt[r].(phyReg := p);
        }
      } else if kind == Then {
        rmt[r] := rmt[r].(tPhyReg := p, tValid := true);
      } else {
        rmt[r] := rmt[r].(ePhyReg := p, eValid := true);
      }
    }

    /** `checkpoint`: claims the lowest free GBM bit (set with the `int`
        shift of the source) and saves into that bit's slot the snapshot of
        the map, the predicate mapping, the updated GBM and the free-list
        head. Nothing else changes. */
    method Checkpoint() returns (id: nat)
      requires Valid()
      requires ClearCount(gbm, nBranches) >= 1
      modifies this`gbm, ckpts
      ensures Valid()
      ensures id < nBranches && !Bit(old(gbm), id) && ClearCount(old(gbm), id) == 0
      ensures gbm == Or(old(gbm), IntShiftMask(id))
      ensures ckpts[id] == BranchCheckpoint(Snapshot(rmt[..], old(ckpts[id].rmt)),
                                            if nLog > 0 then rmt64 else old(ckpts[id].rmt64), gbm, fl.head)
      ensures forall b :: 0 <= b < nBranches && b != id ==> ckpts[b] == old(ckpts[b])
    {
      var g;
      id, g := ClaimBranch(gbm, nBranches);
      var saved, saved64 := SaveMap(rmt, rmt64, ckpts[id]);
      var c := BranchCheckpoint(saved, saved64, g, fl.head);
      assert SlotOk(c, nLog, fl.size);
      ckpts[id] := c;
      // the source sets the GBM before it fills the slot; the slot holds the
      // updated GBM either way
      gbm := g;
    }

    /** `stall_dispatch`: the dispatch stage stalls when the active list has
        fewer free slots than the bundle has instructions. */
    function StallDispatch(bundleInst: nat): (stall: bool)
      reads al, al.entries
      requires al.Valid()
      ensures stall <==> al.size - |al.contents| < bundleInst
    {
      !(al.size - al.Count() >= bundleInst)
    }

    /** `dispatch_inst`: appends a fresh entry (no status bit set, tagged
        with the current predicate mapping) at the active-list tail, marks
        its destination not ready, and returns its index. The caller checks
        `stall_dispatch` first; a destination, if any, is one the rename
        stage mapped. Dispatch takes destinations in rename order, so the
        one dispatched is the oldest renamed. */
    method DispatchInst(destValid: bool, logReg: nat, physReg: nat, load: bool, store: bool,
                        branch: bool, amo: bool, csr: bool, pc: nat, kind: InstClass,
                        isHammock: bool) returns (idx: nat)
      requires Valid() && |al.contents| < al.size
      requires destValid ==> physReg < nPhys && (logReg < nLog || logReg == PredicateReg)
      modifies al, al.entries, prfReady, this`pending
      ensures Valid()
      ensures idx == old(al.tail)
      ensures al.entries[..] == old(al.entries[..])[idx := AlEntry(destValid, logReg, physReg,
                InstFlags(load, store, branch, amo, csr, pc), Fresh, rmt64, kind)]
      ensures al.contents == old(al.contents) + [al.entries[idx]]
      ensures al.tail == Next(old(al.tail), al.size)
      ensures prfReady[..] == if destValid then old(prfReady[..])[physReg := false] else old(prfReady[..])
      ensures pending == if destValid && old(pending) != [] then old(pending)[1..] else old(pending)
      ensures old(Owned()) && (destValid ==> old(pending) != [] && old(pending)[0] == physReg) ==> Owned()
    {
      var e := AlEntry(destValid, logReg, physReg, InstFlags(load, store, branch, amo, csr, pc), Fresh, rmt64, kind);
      ghost var owned, contents0, pending0 := Owned(), al.contents, pending;
      if destValid {
        prfReady[physReg] := false;
      }
      idx := al.Append(e);
      if destValid && pending != [] {
        pending := pending[1..];
      }
      if owned && (destValid ==> pending0 != [] && pending0[0] == physReg) {
        DispatchConserved(amt[..], amt64, fl.entries[..], fl.taken, contents0, pending0, nPhys, e);
      }
      forall k | 0 <= k < al.size ensures WellFormed(al.entries[k], nLog) {
        assert al.entries[k] == if k == idx then e else old(al.entries[k]);
      }
    }

    /** `is_ready`. */
    function IsReady(p: nat): (ready: bool)
      reads prfReady
      requires p < prfReady.Length
      ensures ready == prfReady[p]
    {
      prfReady[p]
    }

    /** `clear_ready`: only that register's bit changes. */
    method ClearReady(p: nat)
      requires p < prfReady.Length
      modifies prfReady
      ensures prfReady[..] == old(prfReady[..])[p := false]
      ensures !IsReady(p)
    {
      prfReady[p] := false;
    }

    /** `set_ready`: only that register's bit changes. */
    method SetReady(p: nat)
      requires p < prfReady.Length
      modifies prfReady
      ensures prfReady[..] == old(prfReady[..])[p := true]
      ensures IsReady(p)
    {
      prfReady[p] := true;
    }

    /** `get_exception`. */
    function GetException(i: nat): (exc: bool)
      reads al, al.entries
      requires al.Valid() && i < al.size
      ensures exc == al.entries[i].status.exception
    {
      al.entries[i].status.exception
    }

    /** Writes one status word of an active-list slot, as the setters do. */
    method SetStatus(i: nat, s: Status)
      requires Valid() && i < al.size
      modifies al`contents, al.entries
      ensures Valid()
      ensures |al.contents| == |old(al.contents)|
      ensures al.entries[..] == old(al.entries[..])[i := old(al.entries[i]).(status := s)]
      ensures old(Owned()) ==> Owned()
    {
      var e := al.entries[i];
      al.Update(i, e.(status := s));
    }

    /** `set_complete`: marks one slot completed; nothing else changes. */
    method SetComplete(i: nat)
      requires Valid() && i < al.size
      modifies al`contents, al.entries
      ensures Valid()
      ensures |al.contents| == |old(al.contents)|
      ensures al.entries[..] == old(al.entries[..])[i := old(al.entries[i]).(status := old(al.entries[i]).status.(completed := true))]
      ensures old(Owned()) ==> Owned()
    {
      SetStatus(i, al.entries[i].status.(completed := true));
    }

    /** `set_exception`: marks one slot as excepting; `get_exception` then
        reports it. */
    method SetException(i: nat)
      requires Valid() && i < al.size
      modifies al`contents, al.entries
      ensures Valid()
      ensures |al.contents| == |old(al.contents)|
      ensures al.entries[..] == old(al.entries[..])[i := old(al.entries[i]).(status := old(al.entries[i]).status.(exception := true))]
      ensures GetException(i)
      ensures old(Owned()) ==> Owned()
    {
      SetStatus(i, al.entries[i].status.(exception := true));
    }

    /** `set_load_violation`. */
    method SetLoadViolation(i: nat)
      requires Valid() && i < al.size
      modifies al`contents, al.entries
      ensures Valid()
      ensures |al.contents| == |old(al.contents)|
      ensures al.entries[..] == old(al.entries[..])[i := old(al.entries[i]).(status := old(al.entries[i]).status.(loadViolation := true))]
      ensures old(Owned()) ==> Owned()
    {
      SetStatus(i, al.entries[i].status.(loadViolation := true));
    }

    /** `set_branch_misprediction`. */
    method SetBranchMisprediction(i: nat)
      requires Valid() && i < al.size
      modifies al`contents, al.entries
      ensures Valid()
      ensures |al.contents| == |old(al.contents)|
      ensures al.entries[..] == old(al.entries[..])[i := old(al.entries[i]).(status := old(al.entries[i]).status.(branchMispred := true))]
      ensures old(Owned()) ==> Owned()
    {
      SetStatus(i, al.entries[i].status.(branchMispred := true));
    }

    /** `set_value_misprediction`. */
    method SetValueMisprediction(i: nat)
      requires Valid() && i < al.size
      modifies al`contents, al.entries
      ensures Valid()
      ensures |al.contents| == |old(al.contents)|
      ensures al.entries[..] == old(al.entries[..])[i := old(al.entries[i]).(status := old(al.entries[i]).status.(valueMispred := true))]
      ensures old(Owned()) ==> Owned()
    {
      SetStatus(i, al.entries[i].status.(valueMispred := true));
    }

    /** `predicate_done`: once the hammock's predicate is known, the entries
        after `alIndex` up to the CMOV that closes the hammock are
        (de)activated by side: THEN entries die when the outcome is true,
        ELSE entries when it is false. The predication tag is not consulted.
        The walk stops only at a CMOV, so one must lie ahead. */
    method PredicateDone(alIndex: nat, predicationTag: nat, outcome: bool) returns (ghost stop: nat)
      requires Valid() && alIndex < al.size
      requires exists d :: 1 <= d <= al.size && Ahead(al.entries[..], alIndex, d).kind == Cmov
      modifies al`contents, al.entries
      ensures Valid()
      ensures |al.contents| == |old(al.contents)|
      ensures 1 <= stop <= al.size && Ahead(old(al.entries[..]), alIndex, stop).kind == Cmov
      ensures forall d :: 1 <= d < stop ==> Ahead(old(al.entries[..]), alIndex, d).kind != Cmov
      ensures forall k :: 0 <= k < al.size ==>
                al.entries[k] == if 1 <= Dist(alIndex, k, al.size) < stop then Deactivate(old(al.entries[k]), outcome)
                                 else old(al.entries[k])
      ensures old(Owned()) ==> Owned()
    {
      stop := al.DeactivateRun(alIndex, outcome);
      forall k | 0 <= k < al.size ensures WellFormed(al.entries[k], nLog) {
        assert SameDest(old(al.entries[k]), al.entries[k]);
      }
    }

    /** `resolve` for a correctly predicted branch: its bit is cleared in
        every checkpoint's saved GBM and in the GBM, with the complement of
        the `int` shift (which for id 31 also clears bits 32..63). */
    method ReleaseBranch(id: nat)
      requires Valid() && id < nBranches
      modifies this`gbm, ckpts
      ensures Valid()
      ensures gbm == And(old(gbm), Not(IntShiftMask(id)))
      ensures forall b :: 0 <= b < nBranches ==> ckpts[b] == old(ckpts[b]).(gbm := And(old(ckpts[b]).gbm, Not(IntShiftMask(id))))
    {
      // the source masks the slots first; the two steps touch disjoint state
      gbm := And(gbm, Not(IntShiftMask(id)));
      MaskSlots(ckpts, Not(IntShiftMask(id)));
    }

    /** `resolve` for a mispredicted branch at `alIndex`: the GBM, the map,
        the predicate mapping and the free-list head go back to the branch's
        checkpoint (the branch's own bit cleared in the restored GBM), and
        the active list keeps the entries up to and including the branch.
        Conservation carries over when the registers handed out before the
        checkpoint and not yet freed are exactly what the kept entries own:
        the checkpointed head alone cannot tell an all-free ring from an
        all-taken one. */
    method Recover(alIndex: nat, id: nat)
      requires Valid() && id < nBranches
      requires alIndex < al.size && Dist(al.head, alIndex, al.size) < |al.contents|
      modifies this`gbm, rmt, this`rmt64, fl, al, this`pending
      ensures Valid()
      ensures gbm == And(ckpts[id].gbm, Not(IntShiftMask(id)))
      ensures rmt[..] == ckpts[id].rmt && rmt64 == ckpts[id].rmt64
      ensures forall r :: 0 <= r < nLog ==>
                RenameSource(r, Normal) == RenameSource(r, Then) == RenameSource(r, Else) == ckpts[id].rmt[r].phyReg
      ensures fl.head == ckpts[id].flHead && fl.tail == old(fl.tail) && !fl.full
      ensures (fl.head == fl.tail ==> fl.empty) && (fl.head != fl.tail ==> fl.empty == old(fl.empty))
      ensures |fl.taken| == Dist(fl.tail, fl.head, fl.size)
      ensures al.contents == old(al.contents)[..Dist(old(al.head), alIndex, al.size) + 1]
      ensures al.head == old(al.head) && al.tail == Next(alIndex, al.size)
      ensures !al.empty && (al.full <==> old(al.full) && al.head == al.tail)
      ensures pending == []
      ensures (old(Owned()) &&
               Dist(old(fl.tail), ckpts[id].flHead, fl.size) ==
                 |Dests(old(al.contents)[..Dist(old(al.head), alIndex, al.size) + 1])|) ==> Owned()
    {
      // the source restores the GBM first and the free-list head before the
      // map; the three steps touch disjoint state
      RestoreMap(id);
      RecoverLists(alIndex, id);
      gbm := And(ckpts[id].gbm, Not(IntShiftMask(id)));
    }

    /** The map part of a recovery: the map and the predicate's mapping
        become the checkpoint's, so every source reads its checkpointed
        register whatever its branch side. */
    method RestoreMap(id: nat)
      requires Valid() && id < nBranches
      modifies rmt, this`rmt64
      ensures rmt[..] == ckpts[id].rmt && rmt64 == ckpts[id].rmt64
      ensures forall r :: 0 <= r < nLog ==>
                RenameSource(r, Normal) == RenameSource(r, Then) == RenameSource(r, Else) == ckpts[id].rmt[r].phyReg
    {
      CopyMap(rmt, ckpts[id].rmt);
      rmt64 := ckpts[id].rmt64;
    }

    /** The ring part of a recovery: the free-list head goes back to the
        checkpoint and the active list keeps the entries up to and including
        the branch at `alIndex`; no renamed destination is pending. */
    method RecoverLists(alIndex: nat, id: nat)
      requires Valid() && id < nBranches
      requires alIndex < al.size && Dist(al.head, alIndex, al.size) < |al.contents|
      modifies fl, al, this`pending
      ensures Valid()
      ensures fl.head == ckpts[id].flHead && fl.tail == old(fl.tail) && !fl.full
      ensures (fl.head == fl.tail ==> fl.empty) && (fl.head != fl.tail ==> fl.empty == old(fl.empty))
      ensures |fl.taken| == Dist(fl.tail, fl.head, fl.size)
      ensures al.contents == old(al.contents)[..Dist(old(al.head), alIndex, al.size) + 1]
      ensures al.head == old(al.head) && al.tail == Next(alIndex, al.size)
      ensures !al.empty && (al.full <==> old(al.full) && al.head == al.tail)
      ensures pending == []
      ensures (old(Owned()) &&
               Dist(old(fl.tail), ckpts[id].flHead, fl.size) ==
                 |Dests(old(al.contents)[..Dist(old(al.head), alIndex, al.size) + 1])|) ==> Owned()
    {
      ghost var k := Dist(al.head, alIndex, al.size) + 1;
      ghost var owned, taken0, contents0, pending0 := Owned(), fl.taken, al.contents, pending;
      RestoreListsAsWritten(alIndex, id);
      if owned && Dist(fl.tail, fl.head, fl.size) == |Dests(contents0[..k])| {
        RecoverConserved(amt[..], amt64, fl.entries[..], taken0, contents0, pending0, nPhys, fl.taken, k);
      }
    }

    /** The state changes of `RecoverLists`: the handed-out run keeps its
        oldest registers and is as long as the distance from the tail to
        the restored head. */
    method RestoreListsAsWritten(alIndex: nat, id: nat)
      requires Valid() && id < nBranches
      requires alIndex < al.size && Dist(al.head, alIndex, al.size) < |al.contents|
      modifies fl, al, this`pending
      ensures Valid()
      ensures fl.head == ckpts[id].flHead && fl.tail == old(fl.tail) && !fl.full
      ensures (fl.head == fl.tail ==> fl.empty) && (fl.head != fl.tail ==> fl.empty == old(fl.empty))
      ensures |fl.taken| == Dist(fl.tail, fl.head, fl.size)
      ensures |fl.taken| <= |old(fl.taken)| ==> fl.taken == old(fl.taken)[..|fl.taken|]
      ensures al.contents == old(al.contents)[..Dist(old(al.head), alIndex, al.size) + 1]
      ensures al.head == old(al.head) && al.tail == Next(alIndex, al.size)
      ensures !al.empty && (al.full <==> old(al.full) && al.head == al.tail)
      ensures pending == []
    {
      fl.Restore(ckpts[id].flHead);
      al.Truncate(alIndex);
      pending := [];
    }

    /** The recovery `Recover` is meant to perform: the free list is told
        how many registers the kept entries own, so a restored head on the
        tail reads as a full ring when they own any. Under the consistency
        of the checkpoint alone (its free-list head lies that many slots
        past the tail, possibly a whole lap) conservation carries over. */
    method RecoverChecked(alIndex: nat, id: nat)
      requires Valid() && id < nBranches
      requires alIndex < al.size && Dist(al.head, alIndex, al.size) < |al.contents|
      modifies this`gbm, rmt, this`rmt64, fl, al, this`pending
      ensures Valid()
      ensures gbm == And(ckpts[id].gbm, Not(IntShiftMask(id)))
      ensures rmt[..] == ckpts[id].rmt && rmt64 == ckpts[id].rmt64
      ensures fl.head == ckpts[id].flHead && fl.tail == old(fl.tail)
      ensures fl.full <==> fl.head == fl.tail && |Dests(old(al.contents)[..Dist(old(al.head), alIndex, al.size) + 1])| > 0
      ensures al.contents == old(al.contents)[..Dist(old(al.head), alIndex, al.size) + 1]
      ensures al.head == old(al.head) && al.tail == Next(alIndex, al.size)
      ensures pending == []
      ensures (old(Owned()) &&
               var owned := |Dests(old(al.contents)[..Dist(old(al.head), alIndex, al.size) + 1])|;
               owned <= fl.size && Wrap(old(fl.tail) + owned, fl.size) == ckpts[id].flHead) ==> Owned()
    {
      var n := al.OwnedThrough(alIndex);
      assert n == |Dests(old(al.contents)[..Dist(old(al.head), alIndex, al.size) + 1])|;
      RestoreMap(id);
      RecoverListsChecked(alIndex, id, n);
      gbm := And(ckpts[id].gbm, Not(IntShiftMask(id)));
    }

    /** The list part of `RecoverChecked`, given the number of registers
        the kept entries own. */
    method RecoverListsChecked(alIndex: nat, id: nat, owned: nat)
      requires Valid() && id < nBranches
      requires alIndex < al.size && Dist(al.head, alIndex, al.size) < |al.contents|
      requires owned == |Dests(al.contents[..Dist(al.head, alIndex, al.size) + 1])|
      modifies fl, al, this`pending
      ensures Valid()
      ensures fl.head == ckpts[id].flHead && fl.tail == old(fl.tail)
      ensures fl.full <==> fl.head == fl.tail && owned > 0
      ensures al.contents == old(al.contents)[..Dist(old(al.head), alIndex, al.size) + 1]
      ensures al.head == old(al.head) && al.tail == Next(alIndex, al.size)
      ensures pending == []
      ensures old(Owned()) && owned <= fl.size && Wrap(old(fl.tail) + owned, fl.size) == ckpts[id].flHead ==> Owned()
    {
      ghost var k := Dist(al.head, alIndex, al.size) + 1;
      ghost var owned0, taken0, contents0, pending0 := Owned(), fl.taken, al.contents, pending;
      RestoreLists(alIndex, id, owned);
      if owned0 && owned <= fl.size && Wrap(fl.tail + owned, fl.size) == ckpts[id].flHead {
        RecoverConserved(amt[..], amt64, fl.entries[..], taken0, contents0, pending0, nPhys, fl.taken, k);
      }
    }

    /** The state changes of `RecoverListsChecked`: the handed-out run
        keeps its oldest registers, and is exactly `owned` long when the
        restored head lies `owned` slots past the tail. */
    method RestoreLists(alIndex: nat, id: nat, owned: nat)
      requires Valid() && id < nBranches
      requires alIndex < al.size && Dist(al.head, alIndex, al.size) < |al.contents|
      modifies fl, al, this`pending
      ensures Valid()
      ensures fl.head == ckpts[id].flHead && fl.tail == old(fl.tail)
      ensures fl.full <==> fl.head == fl.tail && owned > 0
      ensures owned <= fl.size && Wrap(fl.tail + owned, fl.size) == fl.head ==> |fl.taken| == owned
      ensures |fl.taken| <= |old(fl.taken)| ==> fl.taken == old(fl.taken)[..|fl.taken|]
      ensures al.contents == old(al.contents)[..Dist(old(al.head), alIndex, al.size) + 1]
      ensures al.head == old(al.head) && al.tail == Next(alIndex, al.size)
      ensures pending == []
    {
      fl.RestoreOwned(ckpts[id].flHead, owned);
      al.Truncate(alIndex);
      pending := [];
    }

    /** `resolve`: a correct prediction only frees the branch's bit, a
        misprediction also rolls the speculative state back. */
    method Resolve(alIndex: nat, id: nat, correct: bool)
      requires Valid() && id < nBranches
      requires !correct ==> alIndex < al.size && Dist(al.head, alIndex, al.size) < |al.contents|
      modifies this`gbm, ckpts, rmt, this`rmt64, fl, al, this`pending
      ensures Valid()
      ensures correct ==> gbm == And(old(gbm), Not(IntShiftMask(id))) && rmt64 == old(rmt64) &&
                          rmt[..] == old(rmt[..]) && pending == old(pending) && unchanged(fl, al) &&
                          (forall b :: 0 <= b < nBranches ==>
                             ckpts[b] == old(ckpts[b]).(gbm := And(old(ckpts[b]).gbm, Not(IntShiftMask(id)))))
      ensures !correct ==> gbm == And(old(ckpts[id].gbm), Not(IntShiftMask(id))) &&
                           rmt[..] == old(ckpts[id].rmt) && rmt64 == old(ckpts[id].rmt64) &&
                           fl.head == old(ckpts[id].flHead) && fl.tail == old(fl.tail) && !fl.full &&
                           (fl.head == fl.tail ==> fl.empty) && (fl.head != fl.tail ==> fl.empty == old(fl.empty)) &&
                           |fl.taken| == Dist(fl.tail, fl.head, fl.size) &&
                           al.contents == old(al.contents)[..Dist(old(al.head), alIndex, al.size) + 1] &&
                           al.head == old(al.head) && al.tail == Next(alIndex, al.size) &&
                           !al.empty && (al.full <==> old(al.full) && al.head == al.tail) &&
                           pending == [] && ckpts[..] == old(ckpts[..])
      ensures (old(Owned()) && (!correct ==>
                Dist(old(fl.tail), old(ckpts[id].flHead), fl.size) ==
                  |Dests(old(al.contents)[..Dist(old(al.head), alIndex, al.size) + 1])|)) ==> Owned()
    {
      if correct {
        ReleaseBranch(id);
      } else {
        Recover(alIndex, id);
      }
    }

    /** `precommit`: reports whether an instruction is at the head and that
        entry's bits; a deactivated (predicated-away) head never reports an
        exception or a load violation. */
    method Precommit() returns (nonEmpty: bool, completed: bool, exception: bool, loadViol: bool,
                                brMisp: bool, valMisp: bool, load: bool, store: bool, branch: bool,
                                amo: bool, csr: bool, pc: nat, deactivated: bool)
      requires al.Valid()
      ensures nonEmpty <==> al.contents != []
      ensures nonEmpty ==> al.contents[0] == al.entries[al.head]
      ensures completed == al.entries[al.head].status.completed
      ensures deactivated == al.entries[al.head].status.deactivated
      ensures exception <==> al.entries[al.head].status.exception && !deactivated
      ensures loadViol <==> al.entries[al.head].status.loadViolation && !deactivated
      ensures brMisp == al.entries[al.head].status.branchMispred
      ensures valMisp == al.entries[al.head].status.valueMispred
      ensures InstFlags(load, store, branch, amo, csr, pc) == al.entries[al.head].flags
    {
      var e := al.entries[al.head];
      completed, exception, loadViol := e.status.completed, e.status.exception, e.status.loadViolation;
      brMisp, valMisp := e.status.branchMispred, e.status.valueMispred;
      load, store, branch, amo, csr := e.flags.load, e.flags.store, e.flags.branch, e.flags.amo, e.flags.csr;
      pc, deactivated := e.flags.pc, e.status.deactivated;
      if deactivated {
        exception, loadViol := false, false;
      }
      nonEmpty := !al.empty;
      al.Front();
    }

    /** The map part of `commit`: a live instruction's destination becomes
        the committed mapping of its register, and the mapping it replaces
        is returned to be freed; a deactivated one frees its own register
        and leaves the AMT alone. */
    method CommitMap(e: AlEntry) returns (freed: nat)
      requires Sizes() && e.destValid && WellFormed(e, nLog)
      modifies amt, this`amt64
      ensures freed == Freed(e, old(amt[..]), old(amt64))
      ensures !e.status.deactivated && e.destLog == PredicateReg ==> amt64 == e.destPhys && amt[..] == old(amt[..])
      ensures !e.status.deactivated && e.destLog != PredicateReg ==> amt64 == old(amt64) && amt[..] == old(amt[..])[e.destLog := e.destPhys]
      ensures e.status.deactivated ==> amt64 == old(amt64) && amt[..] == old(amt[..])
      ensures multiset(amt[..]) + multiset{amt64} + multiset{freed} ==
              old(multiset(amt[..]) + multiset{amt64}) + multiset{e.destPhys}
    {
      if !e.status.deactivated {
        if e.destLog == PredicateReg {
          freed := amt64;
          amt64 := e.destPhys;
        } else {
          freed := amt[e.destLog];
          amt[e.destLog] := e.destPhys;
          MultisetWrite(old(amt[..]), e.destLog, e.destPhys);
        }
      } else {
        freed := e.destPhys;
      }
    }

    /** The destination half of `commit`: the AMT (or the predicate's
        committed mapping) takes the head's register, unless the head was
        predicated away, and the register given up is written at the free
        list's tail. Under conservation, the head's destination is then
        accounted for by the AMT and no longer by the in-flight run. */
    method CommitDest()
      requires Valid() && |al.contents| > 0 && al.entries[al.head].destValid
      modifies amt, this`amt64, fl, fl.entries
      ensures Valid()
      ensures fl.entries[..] == old(fl.entries[..])[old(fl.tail) := Freed(al.entries[al.head], old(amt[..]), old(amt64))]
      ensures fl.tail == Next(old(fl.tail), fl.size) && fl.head == old(fl.head)
      ensures !fl.full && (fl.empty <==> old(fl.empty) || fl.head == fl.tail)
      ensures var e := al.entries[al.head];
              !e.status.deactivated && e.destLog == PredicateReg ==> amt64 == e.destPhys && amt[..] == old(amt[..])
      ensures var e := al.entries[al.head];
              !e.status.deactivated && e.destLog != PredicateReg ==> amt64 == old(amt64) && amt[..] == old(amt[..])[e.destLog := e.destPhys]
      ensures al.entries[al.head].status.deactivated ==> amt64 == old(amt64) && amt[..] == old(amt[..])
      ensures old(Owned()) ==> Conserved(amt[..], amt64, fl.entries[..], fl.taken, al.contents[1..], pending, nPhys)
    {
      var e := al.entries[al.head];
      al.Front();
      fl.TakenFront();
      var freed := CommitMap(e);
      if old(Owned()) {
        CommitConserved(old(amt[..]), old(amt64), fl.entries[..], fl.taken, al.contents, pending, nPhys,
                        fl.tail, amt[..], amt64, freed);
      }
      ghost var committed := amt[..];
      fl.Release(freed);
      assert amt[..] == committed;
    }

    /** `commit`: retires the head instruction. The caller checks with
        `precommit` that it exists, is completed and raised neither an
        exception nor a load violation. With a destination, exactly one
        register goes back to the free list at its tail (see `Freed`). */
    method Commit()
      requires Valid() && |al.contents| > 0
      requires al.entries[al.head].status.completed
      requires !al.entries[al.head].status.exception && !al.entries[al.head].status.loadViolation
      modifies amt, this`amt64, fl, fl.entries, al
      ensures Valid()
      ensures al.contents == old(al.contents)[1..] && al.head == Next(old(al.head), al.size)
      ensures !al.full && (al.empty <==> al.head == al.tail) && al.tail == old(al.tail)
      ensures old(al.entries[al.head]).destValid ==>
                fl.entries[..] == old(fl.entries[..])[old(fl.tail) := Freed(old(al.entries[al.head]), old(amt[..]), old(amt64))] &&
                fl.tail == Next(old(fl.tail), fl.size) && fl.head == old(fl.head) &&
                !fl.full && (fl.empty <==> old(fl.empty) || fl.head == fl.tail)
      ensures var e := old(al.entries[al.head]);
              e.destValid && !e.status.deactivated && e.destLog == PredicateReg ==>
                amt64 == e.destPhys && amt[..] == old(amt[..])
      ensures var e := old(al.entries[al.head]);
              e.destValid && !e.status.deactivated && e.destLog != PredicateReg ==>
                amt64 == old(amt64) && amt[..] == old(amt[..])[e.destLog := e.destPhys]
      ensures var e := old(al.entries[al.head]);
              e.destValid && e.status.deactivated ==> amt64 == old(amt64) && amt[..] == old(amt[..])
      ensures !old(al.entries[al.head]).destValid ==>
                fl.entries[..] == old(fl.entries[..]) && fl.tail == old(fl.tail) && fl.head == old(fl.head) &&
                fl.full == old(fl.full) && fl.empty == old(fl.empty) &&
                fl.free == old(fl.free) && fl.taken == old(fl.taken) &&
                amt[..] == old(amt[..]) && amt64 == old(amt64)
      ensures old(Owned()) ==> Owned()
    {
      if al.entries[al.head].destValid {
        CommitDest();
      } else if old(Owned()) {
        al.Front();
        RetireConserved(amt[..], amt64, fl.entries[..], fl.taken, al.contents, pending, nPhys);
      }
      al.Retire();
    }

    /** `squash`: rolls the renamer back to the committed state. The map
        reads the AMT with no shadow valid, both rings hold no in-flight
        work, every handed-out register is free again and no branch is
        outstanding. The predicate's mapping is not reset. */
    method Squash()
      requires Valid()
      modifies rmt, fl, al, this`gbm, this`pending
      ensures Valid()
      ensures forall i :: 0 <= i < nLog ==>
                rmt[i] == old(rmt[i]).(phyReg := amt[i], tValid := false, eValid := false)
      ensures forall r :: 0 <= r < nLog ==>
                RenameSource(r, Normal) == RenameSource(r, Then) == RenameSource(r, Else) == amt[r]
      ensures al.contents == [] && al.head == old(al.head) && al.empty && !al.full
      ensures fl.taken == [] && fl.head == fl.tail == old(fl.tail) && fl.empty && !fl.full
      ensures multiset(fl.free) == multiset(old(fl.free)) + multiset(old(fl.taken))
      ensures gbm == Zero && pending == []
      ensures old(Owned()) ==> Owned()
    {
      RestoreCommitted(rmt, amt);
      al.Clear();
      fl.Reset();
      gbm := Zero;
      pending := [];
      if old(Owned()) {
        SquashConserved(amt[..], amt64, fl.entries[..], old(fl.taken), old(al.contents), old(pending), nPhys);
      }
    }
  }
}
