/** The invariants of the renamer's tables, stated over the rings and
    values the renamer holds: the rings' consistency, well-formed
    checkpoint slots, and conservation of physical registers, with one
    lemma per renamer operation showing that conservation carries over. */
module Tables {
  import opened DhpTypes
  import opened Ring
  import opened RenamerTypes
  import opened FreeLists
  import opened ActiveLists

  /** Both rings are consistent, sized for nLog logical and nPhys physical
      registers, and every active-list slot names a mapped destination, if
      any. */
  ghost predicate ListsOk(fl: FreeList, al: ActiveList, nLog: nat, nPhys: nat)
    reads fl, fl.entries, al, al.entries
  {
    fl.size == nPhys - nLog - 1 && al.size == nPhys - nLog &&
    fl.Valid() && al.Valid() &&
    forall k :: 0 <= k < al.size ==> WellFormed(al.entries[k], nLog)
  }

  /** A checkpoint slot holds a full map and a free-list position; its
      shadow mappings are never valid (the snapshot clears `t_valid` and
      never sets `e_valid`). */
  ghost predicate SlotOk(c: BranchCheckpoint, nLog: nat, flSize: nat)
  {
    |c.rmt| == nLog && c.flHead < flSize &&
    forall i :: 0 <= i < |c.rmt| ==> !c.rmt[i].tValid && !c.rmt[i].eValid
  }

  /** Every checkpoint slot is well formed. */
  ghost predicate SlotsOk(ckpts: array<BranchCheckpoint>, nLog: nat, flSize: nat)
    reads ckpts
  {
    forall b :: 0 <= b < ckpts.Length ==> SlotOk(ckpts[b], nLog, flSize)
  }

  /** The registers below a, then a, then those above it, are all of them. */
  lemma RangeSplit(a: nat, n: nat)
    requires a < n
    ensures Range(0, a) + [a] + Range(a + 1, n) == Range(0, n)
  {
    var l, r := Range(0, a) + [a] + Range(a + 1, n), Range(0, n);
    forall i | 0 <= i < n ensures l[i] == r[i] {
      if i > a { assert l[i] == Range(a + 1, n)[i - a - 1]; }
    }
  }

  /** Each of lo .. hi-1 occurs once among them, and nothing else occurs. */
  lemma {:induction false} RangeOnce(lo: nat, hi: nat, p: nat)
    requires lo <= hi
    ensures multiset(Range(lo, hi))[p] == if lo <= p < hi then 1 else 0
    decreases hi - lo
  {
    if lo < hi {
      assert Range(lo, hi) == [lo] + Range(lo + 1, hi);
      RangeOnce(lo + 1, hi, p);
    } else {
      assert Range(lo, hi) == [];
    }
  }

  /** The constructor's tables give each register exactly one owner. */
  lemma InitialOwners(amt: seq<nat>, fl: seq<nat>, nLog: nat, nPhys: nat)
    requires nPhys >= nLog + 2
    requires amt == Range(0, nLog) && fl == Range(nLog + 1, nPhys)
    ensures multiset(amt) + multiset{nLog} + multiset(fl) == multiset(Range(0, nPhys))
    ensures Conserved(amt, nLog, fl, [], [], [], nPhys)
  {
    RangeSplit(nLog, nPhys);
    assert amt + [nLog] + fl == Range(0, nPhys);
    assert Dests([]) == [];
  }

  /** Overwriting one element of a sequence swaps one occurrence. */
  lemma MultisetWrite(s: seq<nat>, i: nat, v: nat)
    requires i < |s|
    ensures multiset(s[i := v]) + multiset{s[i]} == multiset(s) + multiset{v}
  {
    assert s == s[..i] + [s[i]] + s[i + 1..];
    assert s[i := v] == s[..i] + [v] + s[i + 1..];
  }

  /** Conservation over the renamer's tables as values: every physical
      register below nPhys has exactly one owner among the AMT, the
      predicate's committed mapping and the free-list ring, and the
      handed-out part of the ring is exactly what the in-flight instructions
      own followed by what was renamed and not yet dispatched. */
  ghost predicate Conserved(amt: seq<nat>, amt64: nat, ring: seq<nat>, taken: seq<nat>,
                            inflight: seq<AlEntry>, pending: seq<nat>, nPhys: nat)
  {
    multiset(amt) + multiset{amt64} + multiset(ring) == multiset(Range(0, nPhys)) &&
    taken == Dests(inflight) + pending
  }

  /** Renaming a destination hands out `p`, which is owned by the renamed
      but not yet dispatched instructions from then on. */
  lemma RenameConserved(amt: seq<nat>, amt64: nat, ring: seq<nat>, taken: seq<nat>,
                        inflight: seq<AlEntry>, pending: seq<nat>, nPhys: nat, p: nat)
    requires Conserved(amt, amt64, ring, taken, inflight, pending, nPhys)
    ensures Conserved(amt, amt64, ring, taken + [p], inflight, pending + [p], nPhys)
  {
    assert Dests(inflight) + pending + [p] == Dests(inflight) + (pending + [p]);
  }

  /** Dispatching `e` moves its destination, the oldest renamed one, from
      the undispatched registers to the in-flight ones. */
  lemma DispatchConserved(amt: seq<nat>, amt64: nat, ring: seq<nat>, taken: seq<nat>,
                          inflight: seq<AlEntry>, pending: seq<nat>, nPhys: nat, e: AlEntry)
    requires Conserved(amt, amt64, ring, taken, inflight, pending, nPhys)
    requires e.destValid ==> pending != [] && pending[0] == e.destPhys
    ensures Conserved(amt, amt64, ring, taken, inflight + [e], if e.destValid then pending[1..] else pending, nPhys)
  {
    DestsAppend(inflight, [e]);
    assert Dests([e]) == (if e.destValid then [e.destPhys] else []) + Dests([]);
    if e.destValid {
      assert pending == [e.destPhys] + pending[1..];
    }
  }

  /** Committing the head instruction `inflight[0]` with a destination: the
      register it frees replaces, at the ring's tail, the register it owned,
      which the map update has taken over. */
  lemma CommitConserved(amt: seq<nat>, amt64: nat, ring: seq<nat>, taken: seq<nat>,
                        inflight: seq<AlEntry>, pending: seq<nat>, nPhys: nat,
                        tail: nat, amt2: seq<nat>, amt64b: nat, freed: nat)
    requires Conserved(amt, amt64, ring, taken, inflight, pending, nPhys)
    requires inflight != [] && inflight[0].destValid
    requires tail < |ring| && (taken != [] ==> taken[0] == ring[tail])
    requires multiset(amt2) + multiset{amt64b} + multiset{freed} ==
             multiset(amt) + multiset{amt64} + multiset{inflight[0].destPhys}
    ensures taken != []
    ensures Conserved(amt2, amt64b, ring[tail := freed], taken[1..], inflight[1..], pending, nPhys)
  {
    var d := inflight[0].destPhys;
    assert Dests(inflight) == [d] + Dests(inflight[1..]);
    assert taken == [d] + (Dests(inflight[1..]) + pending);
    MultisetWrite(ring, tail, freed);
    var a, a2 := multiset(amt) + multiset{amt64}, multiset(amt2) + multiset{amt64b};
    var r, r2 := multiset(ring), multiset(ring[tail := freed]);
    assert a2 + r2 == a + r by {
      forall x ensures (a2 + r2)[x] == (a + r)[x] {
        assert (a2 + multiset{freed})[x] == (a + multiset{d})[x];
        assert (r2 + multiset{d})[x] == (r + multiset{freed})[x];
      }
    }
  }

  /** Committing the head instruction without a destination frees nothing. */
  lemma RetireConserved(amt: seq<nat>, amt64: nat, ring: seq<nat>, taken: seq<nat>,
                        inflight: seq<AlEntry>, pending: seq<nat>, nPhys: nat)
    requires Conserved(amt, amt64, ring, taken, inflight, pending, nPhys)
    requires inflight != [] && !inflight[0].destValid
    ensures Conserved(amt, amt64, ring, taken, inflight[1..], pending, nPhys)
  {
    assert Dests(inflight) == Dests(inflight[1..]);
  }

  /** Recovering from a misprediction keeps the first k in-flight
      instructions and drops the undispatched renames. Conservation carries
      over when the handed-out run that the restored head leaves is as long
      as what the kept instructions own. */
  lemma RecoverConserved(amt: seq<nat>, amt64: nat, ring: seq<nat>, taken: seq<nat>,
                         inflight: seq<AlEntry>, pending: seq<nat>, nPhys: nat,
                         taken2: seq<nat>, k: nat)
    requires Conserved(amt, amt64, ring, taken, inflight, pending, nPhys)
    requires k <= |inflight| && |taken2| == |Dests(inflight[..k])|
    requires |taken2| <= |taken| ==> taken2 == taken[..|taken2|]
    ensures Conserved(amt, amt64, ring, taken2, inflight[..k], [], nPhys)
  {
    assert inflight == inflight[..k] + inflight[k..];
    DestsAppend(inflight[..k], inflight[k..]);
    assert taken == Dests(inflight[..k]) + (Dests(inflight[k..]) + pending);
  }

  /** The recovery as written loses a full free list. Three physical
      registers and one logical: the AMT holds 0, the predicate 1, and the
      one-slot free list has handed 2 to an instruction older than a
      mispredicted branch, so it is full. The branch's checkpoint recorded
      the free-list head on the tail, one lap past it, which is where the
      kept entries' registers end. `FreeList.Restore` clears `full`, so the
      head on the tail reads as an empty ring: register 2 becomes free while
      the kept instruction still owns it, and conservation fails. Restoring
      `full` from what the kept entries own (`FreeList.RestoreOwned`)
      keeps it. */
  lemma RecoverFullListAsWritten()
    ensures var ring: seq<nat>, e, br := [2], Unused.(destValid := true, destPhys := 2), Unused.(flags := Unused.flags.(branch := true));
            Conserved([0], 1, ring, [2], [e, br], [], 3) &&
            Wrap(0 + |Dests([e, br])|, 1) == 0 &&
            2 in Slice(ring, 0, FreeCount(0, 0, false, 1)) && 2 in Dests([e, br]) &&
            !Conserved([0], 1, ring, Slice(ring, 0, 1 - FreeCount(0, 0, false, 1)), [e, br], [], 3) &&
            Conserved([0], 1, ring, Slice(ring, 0, 1 - FreeCount(0, 0, true, 1)), [e, br], [], 3)
  {
    var ring: seq<nat>, e, br := [2], Unused.(destValid := true, destPhys := 2), Unused.(flags := Unused.flags.(branch := true));
    assert Dests([e, br]) == [2] by {
      assert [e, br][1..] == [br] && [br][1..] == [];
    }
    assert Range(0, 3) == [0, 1, 2];
    assert multiset([0]) + multiset{1} + multiset(ring) == multiset(Range(0, 3));
    assert Slice(ring, 0, 1)[0] == ring[Wrap(0, 1)] == 2;
    assert Slice(ring, 0, 1) == [2];
    assert Slice(ring, 0, 0) == [];
    assert FreeCount(0, 0, false, 1) == 1 && FreeCount(0, 0, true, 1) == 0;
  }

  /** Squashing: with nothing in flight and nothing handed out, the ring
      and the committed mappings alone own every register. */
  lemma SquashConserved(amt: seq<nat>, amt64: nat, ring: seq<nat>, taken: seq<nat>,
                        inflight: seq<AlEntry>, pending: seq<nat>, nPhys: nat)
    requires Conserved(amt, amt64, ring, taken, inflight, pending, nPhys)
    ensures Conserved(amt, amt64, ring, [], [], [], nPhys)
  {
    assert Dests([]) == [];
  }

}
