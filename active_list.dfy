/** The renamer's active list (`AL`): a ring of in-flight instructions in
    program order, oldest at `head`, next free slot at `tail`. Here the
    flags mean what they say: `full` (with head == tail) means every slot
    is in flight, `empty` (with head == tail) means none is. */
module ActiveLists {
  import opened DhpTypes
  import opened Ring
  import opened RenamerTypes

  /** An active-list slot that never held an instruction. */
  const Unused: AlEntry := AlEntry(false, 0, 0, InstFlags(false, false, false, false, false, 0), Fresh, 0, Normal)

  /** A window read from two rings that agree slot by slot on what each
      entry owns owns the same registers in both. */
  lemma SliceSameDests(s: seq<AlEntry>, t: seq<AlEntry>, start: nat, len: nat)
    requires |s| == |t| && start < |s| && len <= |s|
    requires forall k :: 0 <= k < |s| ==> SameDest(s[k], t[k])
    ensures Dests(Slice(s, start, len)) == Dests(Slice(t, start, len))
  {
    var a, b := Slice(s, start, len), Slice(t, start, len);
    forall k | 0 <= k < len ensures SameDest(a[k], b[k]) {
      assert a[k] == s[Wrap(start + k, |s|)] && b[k] == t[Wrap(start + k, |s|)];
    }
    DestsSameDest(a, b);
  }

  /** The entry `d` slots after `index` in the ring `s`. */
  function Ahead(s: seq<AlEntry>, index: nat, d: nat): AlEntry
    requires index < |s| && d <= |s|
  {
    s[Wrap(index + d, |s|)]
  }

  /** The number of in-flight instructions from the ring positions and the
      `full` flag: head == tail means all slots when `full` is set and none
      otherwise. */
  function InFlight(head: nat, tail: nat, full: bool, size: nat): (n: nat)
    requires head < size && tail < size
    ensures n <= size
  {
    if head == tail then (if full then size else 0) else Dist(head, tail, size)
  }

  /** The ring `s` with these positions and flags holds `contents` from
      `head`; `full` and `empty` exclude each other, each implies head ==
      tail, and head == tail implies one of them. */
  ghost predicate Rep(s: seq<AlEntry>, head: nat, tail: nat, full: bool, empty: bool, contents: seq<AlEntry>)
  {
    0 < |s| && head < |s| && tail < |s| &&
    (full ==> head == tail && !empty) &&
    (empty ==> head == tail) &&
    (head == tail ==> full || empty) &&
    contents == Slice(s, head, InFlight(head, tail, full, |s|))
  }

  /** Appending: `e` written at `tail` joins the end of the contents. */
  lemma AppendRep(s: seq<AlEntry>, head: nat, tail: nat, full: bool, empty: bool, contents: seq<AlEntry>, e: AlEntry)
    requires Rep(s, head, tail, full, empty, contents) && |contents| < |s|
    ensures Rep(s[tail := e], head, Next(tail, |s|), head == tail + 1 || (tail == |s| - 1 && head == 0), false,
                contents + [e])
  {
    var c := InFlight(head, tail, full, |s|);
    if head != tail {
      DistBack(head, tail, |s|);
    }
    assert InFlight(head, Next(tail, |s|), head == tail + 1 || (tail == |s| - 1 && head == 0), |s|) == c + 1;
    WriteAtEnd(s, head, tail, c, e);
  }

  /** Retiring: the entry at `head` leaves the front of the contents. */
  lemma RetireRep(s: seq<AlEntry>, head: nat, tail: nat, full: bool, empty: bool, contents: seq<AlEntry>)
    requires Rep(s, head, tail, full, empty, contents) && |contents| > 0
    ensures Rep(s, Next(head, |s|), tail, false, tail == head + 1 || (head == |s| - 1 && tail == 0), contents[1..])
    ensures contents[0] == s[head]
  {
    var c := InFlight(head, tail, full, |s|);
    if head != tail {
      DistBack(head, tail, |s|);
    }
    SliceShift(s, head, c);
    assert Slice(s, head, c)[0] == s[Wrap(head + 0, |s|)];
  }

  /** Truncating after the in-flight entry at `index`: the contents keep
      their first part, up to and including that entry. */
  lemma TruncateRep(s: seq<AlEntry>, head: nat, tail: nat, full: bool, empty: bool, contents: seq<AlEntry>, index: nat)
    requires Rep(s, head, tail, full, empty, contents) && index < |s| && Dist(head, index, |s|) < |contents|
    ensures var t := Next(index, |s|);
            Rep(s, head, t, full && head == t, false, contents[..Dist(head, index, |s|) + 1])
  {
    var k := Dist(head, index, |s|);
    var t := Next(index, |s|);
    if head == t {
      assert k == |s| - 1;
    } else {
      assert Dist(head, t, |s|) == k + 1;
    }
    SlicePrefix(s, head, k + 1, |contents|);
  }

  /** Rewriting slots so that each keeps the register it owns: the
      in-flight entries own the same registers as before. */
  lemma RewriteRep(s: seq<AlEntry>, t: seq<AlEntry>, head: nat, tail: nat, full: bool, empty: bool, contents: seq<AlEntry>)
    requires Rep(s, head, tail, full, empty, contents) && |t| == |s|
    requires forall k :: 0 <= k < |s| ==> SameDest(s[k], t[k])
    ensures Rep(t, head, tail, full, empty, Slice(t, head, |contents|))
    ensures Dests(Slice(t, head, |contents|)) == Dests(contents)
  {
    SliceSameDests(t, s, head, |contents|);
  }

  class ActiveList {
    const size: nat
    const entries: array<AlEntry>
    var head: nat
    var tail: nat
    var full: bool
    var empty: bool

    /** The in-flight instructions, oldest first. */
    ghost var contents: seq<AlEntry>

    /** The ring from `head` holds the in-flight instructions. */
    ghost predicate Valid()
      reads this, entries
    {
      entries.Length == size && Rep(entries[..], head, tail, full, empty, contents)
    }

    /** The number of in-flight instructions. */
    function Count(): (n: nat)
      reads this, entries
      requires Valid()
      ensures n == |contents| && n <= size
      ensures n == 0 <==> empty
    {
      InFlight(head, tail, full, size)
    }

    /** The oldest in-flight instruction sits at `head`. */
    lemma Front()
      requires Valid()
      ensures contents != [] ==> contents[0] == entries[head]
    {
      if contents != [] {
        assert contents[0] == entries[..][Wrap(head + 0, size)];
      }
    }

    /** An empty list of n slots. The struct constructor that sets the
        initial positions and flags is not part of this model; it is taken
        to start at slot 0 with `empty` set. */
    constructor (n: nat)
      requires n > 0
      ensures Valid() && size == n && fresh(entries)
      ensures contents == []
      ensures forall k :: 0 <= k < n ==> entries[k] == Unused
    {
      size := n;
      entries := new AlEntry[n](_ => Unused);
      head, tail, full, empty := 0, 0, false, true;
      contents := [];
    }

    /** The active-list part of `dispatch_inst`: write the entry at `tail`,
        advance `tail`, clear `empty`, and set `full` when the new tail
        reaches the head. The caller checks `stall_dispatch` first, so a
        slot is free. */
    method Append(e: AlEntry) returns (idx: nat)
      requires Valid() && |contents| < size
      modifies entries, this`tail, this`full, this`empty, this`contents
      ensures Valid()
      ensures idx == old(tail) && entries[..] == old(entries[..])[idx := e]
      ensures contents == old(contents) + [e]
      ensures tail == Next(old(tail), size) && !empty && (full <==> head == tail)
    {
      AppendRep(entries[..], head, tail, full, empty, contents, e);
      entries[tail] := e;
      idx := tail;
      if empty {
        empty := false;
      }
      // `head - tail == 1` on unsigned integers: head is one slot past tail
      full := head == tail + 1 || (tail == size - 1 && head == 0);
      tail := if tail == size - 1 then 0 else tail + 1;
      contents := contents + [e];
    }

    /** The active-list part of `commit`: the head entry leaves; `full` is
        cleared and `empty` set when the new head reaches the tail. */
    method Retire()
      requires Valid() && |contents| > 0
      modifies this`head, this`full, this`empty, this`contents
      ensures Valid()
      ensures contents == old(contents)[1..] && old(contents)[0] == entries[old(head)]
      ensures head == Next(old(head), size) && !full
      ensures empty <==> head == tail
    {
      RetireRep(entries[..], head, tail, full, empty, contents);
      if full {
        full := false;
      }
      // `tail - head == 1` on unsigned integers: tail is one slot past head
      if tail == head + 1 || (head == size - 1 && tail == 0) {
        empty := true;
      }
      head := if head == size - 1 then 0 else head + 1;
      contents := contents[1..];
    }

    /** The active-list part of `resolve` after a misprediction: everything
        younger than the branch at `index` leaves. `full` survives only when
        the new tail equals the head and it was already set; `empty` is
        cleared, since the branch itself stays. The branch must be in
        flight. */
    method Truncate(index: nat)
      requires Valid() && index < size && Dist(head, index, size) < |contents|
      modifies this`tail, this`full, this`empty, this`contents
      ensures Valid()
      ensures contents == old(contents)[..Dist(head, index, size) + 1]
      ensures tail == Next(index, size) && !empty
      ensures full <==> old(full) && head == tail
    {
      TruncateRep(entries[..], head, tail, full, empty, contents, index);
      tail := if index == size - 1 then 0 else index + 1;
      if head == tail && full {
      } else {
        full := false;
      }
      empty := false;
      contents := contents[..Dist(head, index, size) + 1];
    }

    /** The number of registers owned by the entries from the head up to
        and including the one at `index`, counted by walking the ring; the
        corrected recovery (`Rename.Renamer.RecoverChecked`) needs it. */
    method OwnedThrough(index: nat) returns (n: nat)
      requires Valid() && index < size && Dist(head, index, size) < |contents|
      ensures n == |Dests(contents[..Dist(head, index, size) + 1])|
    {
      var k := Dist(head, index, size) + 1;
      var i, pos := 0, head;
      n := 0;
      while i < k
        invariant i <= k && pos == Wrap(head + i, size)
        invariant n == |Dests(contents[..i])|
      {
        assert contents[i] == entries[pos];
        assert contents[..i + 1] == contents[..i] + [contents[i]];
        DestsAppend(contents[..i], [contents[i]]);
        if entries[pos].destValid {
          n := n + 1;
        }
        pos := if pos == size - 1 then 0 else pos + 1;
        i := i + 1;
      }
    }

    /** The active-list part of `squash`: every in-flight entry leaves. */
    method Clear()
      requires Valid()
      modifies this`tail, this`full, this`empty, this`contents
      ensures Valid()
      ensures tail == head && empty && !full
      ensures contents == []
    {
      tail := head;
      empty := true;
      full := false;
      contents := [];
    }

    /** Overwrites one slot with an entry that owns the same register, as
        the status setters and the predicate resolver do. Positions and
        flags stay, and the in-flight entries own the same registers. */
    method Update(i: nat, e: AlEntry)
      requires Valid() && i < size && SameDest(entries[i], e)
      modifies entries, this`contents
      ensures Valid()
      ensures entries[..] == old(entries[..])[i := e]
      ensures |contents| == old(|contents|) && Dests(contents) == old(Dests(contents))
    {
      entries[i] := e;
      RewriteRep(old(entries[..]), entries[..], head, tail, full, empty, contents);
      contents := Slice(entries[..], head, |contents|);
    }

    /** `predicate_done`'s walk over this list's ring (see `DeactivateWalk`),
        which keeps positions and flags, and the registers the in-flight
        entries own. */
    method DeactivateRun(index: nat, outcome: bool) returns (ghost stop: nat)
      requires Valid() && index < size
      requires exists d :: 1 <= d <= size && Ahead(entries[..], index, d).kind == Cmov
      modifies entries, this`contents
      ensures Valid()
      ensures 1 <= stop <= size && Ahead(old(entries[..]), index, stop).kind == Cmov
      ensures forall d :: 1 <= d < stop ==> Ahead(old(entries[..]), index, d).kind != Cmov
      ensures forall k :: 0 <= k < size ==>
                entries[k] == if 1 <= Dist(index, k, size) < stop then Deactivate(old(entries[k]), outcome)
                              else old(entries[k])
      ensures |contents| == old(|contents|) && Dests(contents) == old(Dests(contents))
    {
      ghost var s0 := entries[..];
      ghost var cmov :| 1 <= cmov <= size && Ahead(entries[..], index, cmov).kind == Cmov;
      stop := DeactivateWalk(entries, index, outcome, cmov);
      forall k | 0 <= k < size ensures SameDest(s0[k], entries[..][k]) {
        assert entries[..][k] == Walked(s0, index, stop, outcome)[k];
      }
      RewriteRep(s0, entries[..], head, tail, full, empty, contents);
      contents := Slice(entries[..], head, |contents|);
    }
  }

  /** The ring `s` after the walk from `index` has passed through
      `Deactivate` the slots 1 .. stop-1 ahead of it. */
  ghost function Walked(s: seq<AlEntry>, index: nat, stop: nat, outcome: bool): (r: seq<AlEntry>)
    requires index < |s|
    ensures |r| == |s|
  {
    seq(|s|, k requires 0 <= k < |s| =>
      if 1 <= Dist(index, k, |s|) < stop then Deactivate(s[k], outcome) else s[k])
  }

  /** One more step of the walk changes only the slot `stop` ahead. */
  lemma WalkStep(s: seq<AlEntry>, index: nat, stop: nat, outcome: bool)
    requires index < |s| && 1 <= stop < |s|
    ensures var j := Wrap(index + stop, |s|);
            Walked(s, index, stop + 1, outcome) == Walked(s, index, stop, outcome)[j := Deactivate(s[j], outcome)]
  {
    var j := Wrap(index + stop, |s|);
    assert Dist(index, j, |s|) == stop;
    forall k | 0 <= k < |s| && k != j ensures Dist(index, k, |s|) != stop {
    }
  }

  /** `predicate_done`'s walk: starting one slot after `index` and
      wrapping, every entry up to (not including) the first CMOV is passed
      through `Deactivate`. The walk visits slots whether or not they are
      in flight, and stops only at a CMOV, so one must lie ahead within a
      lap. The ghost result is the distance of that CMOV. */
  method DeactivateWalk(a: array<AlEntry>, index: nat, outcome: bool, ghost cmov: nat) returns (ghost stop: nat)
    requires index < a.Length && 1 <= cmov <= a.Length && Ahead(a[..], index, cmov).kind == Cmov
    modifies a
    ensures 1 <= stop <= cmov && Ahead(old(a[..]), index, stop).kind == Cmov
    ensures forall d :: 1 <= d < stop ==> Ahead(old(a[..]), index, d).kind != Cmov
    ensures a[..] == Walked(old(a[..]), index, stop, outcome)
  {
    ghost var s := a[..];
    var size := a.Length;
    var search := if index == size - 1 then 0 else index + 1;
    stop := 1;
    while a[search].kind != Cmov
      invariant 1 <= stop <= cmov && search == Wrap(index + stop, size)
      invariant forall d :: 1 <= d < stop ==> Ahead(s, index, d).kind != Cmov
      invariant a[..] == Walked(s, index, stop, outcome)
      decreases cmov - stop
    {
      assert a[search] == s[search] == Ahead(s, index, stop);
      WalkStep(s, index, stop, outcome);
      ghost var walked := a[..][search := Deactivate(a[search], outcome)];
      assert walked == Walked(s, index, stop + 1, outcome);
      var e := a[search];
      if e.kind == Then {
        a[search] := e.(status := e.status.(deactivated := outcome));
      } else if e.kind == Else {
        a[search] := e.(status := e.status.(deactivated := !outcome));
      }
      assert a[..] == walked;
      search := if search == size - 1 then 0 else search + 1;
      stop := stop + 1;
    }
    assert a[search] == s[search] == Ahead(s, index, stop);
  }
}
