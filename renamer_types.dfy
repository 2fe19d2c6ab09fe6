/** Values held by the renamer's tables: rename-map entries with their
    THEN/ELSE shadow mappings, active-list entries, and branch checkpoints. */
module RenamerTypes {
  import opened DhpTypes
  import opened Masks

  /** One rename-map-table row: the plain mapping of a logical register and
      the shadow mappings a THEN or ELSE side of a hammock installs. */
  datatype RmtEntry = RmtEntry(phyReg: nat, tPhyReg: nat, tValid: bool, ePhyReg: nat, eValid: bool)

  /** What the dispatch stage says about an instruction besides its destination. */
  datatype InstFlags = InstFlags(load: bool, store: bool, branch: bool, amo: bool, csr: bool, pc: nat)

  /** The status bits of an in-flight instruction. */
  datatype Status = Status(completed: bool, exception: bool, loadViolation: bool,
                           branchMispred: bool, valueMispred: bool, deactivated: bool)

  /** All status bits clear, as dispatch writes them. */
  const Fresh: Status := Status(false, false, false, false, false, false)

  /** One active-list entry. */
  datatype AlEntry = AlEntry(destValid: bool, destLog: nat, destPhys: nat, flags: InstFlags,
                             status: Status, predicationTag: nat, kind: InstClass)

  /** One branch checkpoint: the saved rename map, predicate mapping, branch
      mask and free-list head. */
  datatype BranchCheckpoint = BranchCheckpoint(rmt: seq<RmtEntry>, rmt64: nat, gbm: Word, flHead: nat)

  /** An active-list entry's destination, if any, names a mapped register:
      a row of the map table or the predicate register. */
  predicate WellFormed(e: AlEntry, nLog: nat)
  {
    e.destValid ==> e.destLog < nLog || e.destLog == PredicateReg
  }

  /** Two entries agree on what they own. */
  predicate SameDest(a: AlEntry, b: AlEntry)
  {
    a.destValid == b.destValid && a.destPhys == b.destPhys
  }

  /** The physical registers that in-flight entries own, oldest first. */
  function Dests(s: seq<AlEntry>): (r: seq<nat>)
    ensures |r| <= |s|
  {
    if s == [] then [] else (if s[0].destValid then [s[0].destPhys] else []) + Dests(s[1..])
  }

  /** The registers owned by a window split in two are those of its parts. */
  lemma {:induction false} DestsAppend(a: seq<AlEntry>, b: seq<AlEntry>)
    ensures Dests(a + b) == Dests(a) + Dests(b)
  {
    if a == [] {
      assert a + b == b;
    } else {
      assert (a + b)[0] == a[0];
      assert (a + b)[1..] == a[1..] + b;
      DestsAppend(a[1..], b);
    }
  }

  /** Only the destination fields decide what a window owns. */
  lemma {:induction false} DestsSameDest(s: seq<AlEntry>, t: seq<AlEntry>)
    requires |s| == |t|
    requires forall k :: 0 <= k < |s| ==> SameDest(s[k], t[k])
    ensures Dests(s) == Dests(t)
  {
    if s != [] {
      DestsSameDest(s[1..], t[1..]);
    }
  }

  /** The deactivation rule of the predicate resolver: once the predicate is
      known, a THEN entry is dead exactly when the outcome is true and an
      ELSE entry exactly when it is false; every other entry is left alone. */
  function Deactivate(e: AlEntry, outcome: bool): (r: AlEntry)
    ensures r == e.(status := e.status.(deactivated := r.status.deactivated))
    ensures e.kind == Then ==> (r.status.deactivated <==> outcome)
    ensures e.kind == Else ==> (r.status.deactivated <==> !outcome)
    ensures e.kind != Then && e.kind != Else ==> r == e
  {
    if e.kind == Then then e.(status := e.status.(deactivated := outcome))
    else if e.kind == Else then e.(status := e.status.(deactivated := !outcome))
    else e
  }
}
