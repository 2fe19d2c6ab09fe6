/** The renamer's free list (`FL`): a ring of physical register ids. The
    slots from `head` onward hold the free registers, the slots from `tail`
    onward the registers handed out and not yet given back. The flags work
    the other way round from their names: `full` (with head == tail) means
    allocation has caught up with the tail and no register is free, `empty`
    (with head == tail) means every slot holds a free register. */
module FreeLists {
  import opened Ring

  /** Fills a new free list with the registers lo .. hi-1 in order. */
  method Counting(lo: nat, hi: nat) returns (a: array<nat>)
    requires lo <= hi
    ensures fresh(a) && a[..] == Range(lo, hi)
  {
    a := new nat[hi - lo];
    for i := 0 to hi - lo
      invariant forall j :: 0 <= j < i ==> a[j] == lo + j
    {
      a[i] := lo + i;
    }
  }

  /** `free_space()` from the ring positions and the `full` flag: head ==
      tail means none free when `full` is set and all free otherwise. */
  function FreeCount(head: nat, tail: nat, full: bool, size: nat): (n: nat)
    requires head < size && tail < size
    ensures n <= size
    ensures n == 0 <==> head == tail && full
  {
    if head == tail then (if full then 0 else size) else Dist(head, tail, size)
  }

  /** The ring `s` with these positions and flags holds `free` from `head`
      and `taken` from `tail`; `full` means head == tail with nothing free,
      and head == tail otherwise means everything is free (`empty`). */
  ghost predicate Rep(s: seq<nat>, head: nat, tail: nat, full: bool, empty: bool, free: seq<nat>, taken: seq<nat>)
  {
    0 < |s| && head < |s| && tail < |s| &&
    (full ==> head == tail && !empty) &&
    (head == tail ==> full || empty) &&
    free == Slice(s, head, FreeCount(head, tail, full, |s|)) &&
    taken == Slice(s, tail, |s| - FreeCount(head, tail, full, |s|))
  }

  /** Free and handed-out registers together are the whole ring. */
  lemma RepSplit(s: seq<nat>, head: nat, tail: nat, full: bool, empty: bool, free: seq<nat>, taken: seq<nat>)
    requires Rep(s, head, tail, full, empty, free, taken)
    ensures multiset(free) + multiset(taken) == multiset(s)
  {
    var f := FreeCount(head, tail, full, |s|);
    if head != tail {
      DistBack(head, tail, |s|);
    }
    assert Wrap(head + f, |s|) == tail;
    SliceSplit(s, head, f);
  }

  /** Allocation: the register at `head` moves from the front of the free
      run to the end of the handed-out run. */
  lemma AllocateRep(s: seq<nat>, head: nat, tail: nat, full: bool, empty: bool, free: seq<nat>, taken: seq<nat>)
    requires Rep(s, head, tail, full, empty, free, taken) && |free| >= 1
    ensures Rep(s, Next(head, |s|), tail, tail == head + 1 || (head == |s| - 1 && tail == 0), false,
                free[1..], taken + [s[head]])
    ensures free[0] == s[head]
  {
    var f := FreeCount(head, tail, full, |s|);
    if head != tail {
      DistBack(head, tail, |s|);
    }
    assert FreeCount(Next(head, |s|), tail, tail == head + 1 || (head == |s| - 1 && tail == 0), |s|) == f - 1;
    MoveFront(s, head, tail, f);
  }

  /** Freeing `r` into the slot at `tail` while some register is handed
      out: `r` joins the end of the free run and the oldest handed-out
      register leaves the handed-out run. */
  lemma ReleaseRep(s: seq<nat>, head: nat, tail: nat, full: bool, empty: bool, free: seq<nat>, taken: seq<nat>, r: nat)
    requires Rep(s, head, tail, full, empty, free, taken) && |taken| >= 1
    ensures Rep(s[tail := r], head, Next(tail, |s|), false, empty || head == tail + 1 || (tail == |s| - 1 && head == 0),
                free + [r], taken[1..])
  {
    var f := FreeCount(head, tail, full, |s|);
    if head != tail {
      DistBack(head, tail, |s|);
    }
    assert FreeCount(head, Next(tail, |s|), false, |s|) == f + 1;
    WriteAtEnd(s, head, tail, f, r);
  }

  /** Moving the head back to `h` (clearing `full`): the ring from `h` is
      free, and when `h` lies within the handed-out run, the handed-out
      registers become that run's first part. */
  lemma RestoreRep(s: seq<nat>, head: nat, tail: nat, full: bool, empty: bool, free: seq<nat>, taken: seq<nat>, h: nat)
    requires Rep(s, head, tail, full, empty, free, taken) && h < |s|
    ensures Rep(s, h, tail, false, empty || h == tail,
                Slice(s, h, FreeCount(h, tail, false, |s|)), Slice(s, tail, |s| - FreeCount(h, tail, false, |s|)))
    ensures |s| - FreeCount(h, tail, false, |s|) == Dist(tail, h, |s|)
    ensures Dist(tail, h, |s|) <= |taken| ==> Slice(s, tail, Dist(tail, h, |s|)) == taken[..Dist(tail, h, |s|)]
  {
    if h != tail {
      DistBack(h, tail, |s|);
    }
    if Dist(tail, h, |s|) <= |taken| {
      SlicePrefix(s, tail, Dist(tail, h, |s|), |taken|);
    }
  }

  /** Recovery told how many registers the surviving instructions own: a
      head restored onto the tail is a full ring when they own any and an
      empty one otherwise; when the head lies `owned` slots past the tail,
      the handed-out run is exactly that long and a prefix of the old one. */
  lemma RestoreOwnedRep(s: seq<nat>, head: nat, tail: nat, full: bool, empty: bool, free: seq<nat>, taken: seq<nat>,
                        h: nat, owned: nat)
    requires Rep(s, head, tail, full, empty, free, taken) && h < |s|
    ensures var f := h == tail && owned > 0;
            Rep(s, h, tail, f, !f && (empty || h == tail),
                Slice(s, h, FreeCount(h, tail, f, |s|)), Slice(s, tail, |s| - FreeCount(h, tail, f, |s|)))
    ensures owned <= |s| && Wrap(tail + owned, |s|) == h ==>
              |s| - FreeCount(h, tail, h == tail && owned > 0, |s|) == owned
    ensures var m := |s| - FreeCount(h, tail, h == tail && owned > 0, |s|);
            m <= |taken| ==> Slice(s, tail, m) == taken[..m]
  {
    if h != tail {
      DistBack(h, tail, |s|);
    }
    var m := |s| - FreeCount(h, tail, h == tail && owned > 0, |s|);
    if m <= |taken| {
      SlicePrefix(s, tail, m, |taken|);
    }
  }

  /** Squashing: with the head moved onto the tail, the whole ring is
      free, and it holds what was free and what was handed out. */
  lemma ResetRep(s: seq<nat>, head: nat, tail: nat, full: bool, empty: bool, free: seq<nat>, taken: seq<nat>)
    requires Rep(s, head, tail, full, empty, free, taken)
    ensures Rep(s, tail, tail, false, true, Slice(s, tail, |s|), [])
    ensures multiset(Slice(s, tail, |s|)) == multiset(free) + multiset(taken)
  {
    RepSplit(s, head, tail, full, empty, free, taken);
    SliceWhole(s, tail);
  }

  class FreeList {
    const size: nat
    const entries: array<nat>
    var head: nat
    var tail: nat
    var full: bool
    var empty: bool

    /** The free registers, next to be allocated first. */
    ghost var free: seq<nat>
    /** The registers handed out and not yet given back, oldest first. */
    ghost var taken: seq<nat>

    /** The ring holds the free registers from `head` and the handed-out
        ones from `tail`. */
    ghost predicate Valid()
      reads this, entries
    {
      entries.Length == size && Rep(entries[..], head, tail, full, empty, free, taken)
    }

    /** The number of free registers (`free_space()`). */
    function Space(): (n: nat)
      reads this, entries
      requires Valid()
      ensures n == |free| && n <= size
    {
      FreeCount(head, tail, full, size)
    }

    /** Free and handed-out registers together are the whole ring. */
    lemma FreeAndTaken()
      requires Valid()
      ensures multiset(free) + multiset(taken) == multiset(entries[..])
    {
      RepSplit(entries[..], head, tail, full, empty, free, taken);
    }

    /** The oldest handed-out register sits at `tail`. */
    lemma TakenFront()
      requires Valid()
      ensures taken != [] ==> taken[0] == entries[tail]
    {
      if taken != [] {
        assert taken[0] == entries[..][Wrap(tail + 0, size)];
      }
    }

    /** A list of n slots holding first, first+1, ..., all free. The struct
        constructor that sets the initial positions and flags is not part of
        this model; it is taken to start at slot 0 with `empty` set. */
    constructor (n: nat, first: nat)
      requires n > 0
      ensures Valid() && size == n && fresh(entries)
      ensures entries[..] == Range(first, first + n)
      ensures free == entries[..] && taken == []
    {
      var a := Counting(first, first + n);
      size, entries := n, a;
      head, tail, full, empty := 0, 0, false, true;
      free, taken := a[..], [];
      new;
      assert Slice(entries[..], 0, n) == entries[..] by {
        forall i | 0 <= i < n ensures Slice(entries[..], 0, n)[i] == entries[i] {
          assert Wrap(0 + i, n) == i;
        }
      }
    }

    /** The free-list part of `rename_rdst`: take the register at `head` and
        advance `head`; `full` is set when the new head reaches the tail. */
    method Allocate() returns (p: nat)
      requires Valid() && |free| >= 1
      modifies this`head, this`full, this`empty, this`free, this`taken
      ensures Valid()
      ensures p == old(free)[0] && free == old(free)[1..]
      ensures taken == old(taken) + [p]
      ensures head == Next(old(head), size) && !empty && (full <==> head == tail)
    {
      AllocateRep(entries[..], head, tail, full, empty, free, taken);
      p := entries[head];
      if empty {
        empty := false;
      }
      // `tail - head == 1` on unsigned integers: tail is one slot past head
      full := tail == head + 1 || (head == size - 1 && tail == 0);
      head := if head == size - 1 then 0 else head + 1;
      free, taken := free[1..], taken + [p];
    }

    /** The free-list part of `commit`: write the freed register at `tail`
        and advance `tail`; `full` is cleared and `empty` set when the new
        tail reaches the head. Freeing into a list whose every slot is
        already free is the caller's error: it then overwrites a free
        register, so the promise about the contents needs a handed-out
        register to give back. */
    method Release(r: nat)
      requires Valid()
      modifies entries, this`tail, this`full, this`empty, this`free, this`taken
      ensures Valid()
      ensures entries[..] == old(entries[..])[old(tail) := r]
      ensures tail == Next(old(tail), size) && !full
      ensures empty <==> old(empty) || head == tail
      ensures old(|taken|) >= 1 ==> free == old(free) + [r] && taken == old(taken)[1..]
    {
      ghost var s := entries[..];
      ghost var nf, nt := free, taken;
      if |taken| >= 1 {
        ReleaseRep(s, head, tail, full, empty, free, taken, r);
        nf, nt := free + [r], taken[1..];
      } else {
        var f := FreeCount(head, Next(tail, size), false, size);
        nf, nt := Slice(s[tail := r], head, f), Slice(s[tail := r], Next(tail, size), size - f);
      }
      entries[tail] := r;
      assert entries[..] == s[old(tail) := r];
      if full {
        full := false;
      }
      // `head - tail == 1` on unsigned integers: head is one slot past tail
      if head == tail + 1 || (tail == size - 1 && head == 0) {
        empty := true;
      }
      tail := if tail == size - 1 then 0 else tail + 1;
      free, taken := nf, nt;
    }

    /** The free-list part of `resolve` after a misprediction: `head` goes
        back to the checkpointed head, `full` is cleared, and `empty` is set
        when the restored head equals the tail (otherwise it keeps its old
        value). When the saved head lies within the handed-out run, the
        handed-out registers become that run's first part. */
    method Restore(savedHead: nat)
      requires Valid() && savedHead < size
      modifies this`head, this`full, this`empty, this`free, this`taken
      ensures Valid()
      ensures head == savedHead && !full
      ensures head == tail ==> empty
      ensures head != tail ==> empty == old(empty)
      ensures |taken| == Dist(tail, savedHead, size)
      ensures |taken| <= |old(taken)| ==> taken == old(taken)[..|taken|]
    {
      RestoreRep(entries[..], head, tail, full, empty, free, taken, savedHead);
      head := savedHead;
      full := false;
      if head == tail {
        empty := true;
      }
      var f := FreeCount(head, tail, full, size);
      free, taken := Slice(entries[..], head, f), Slice(entries[..], tail, size - f);
    }

    /** The recovery `Restore` is meant to perform: told how many
        registers the surviving instructions own, it marks the ring full
        when the restored head lands on the tail and they own any, rather
        than always marking it empty. With the head `owned` slots past the
        tail, exactly those registers stay handed out. */
    method RestoreOwned(savedHead: nat, owned: nat)
      requires Valid() && savedHead < size
      modifies this`head, this`full, this`empty, this`free, this`taken
      ensures Valid()
      ensures head == savedHead && (full <==> head == tail && owned > 0)
      ensures head == tail && owned == 0 ==> empty
      ensures head != tail ==> empty == old(empty)
      ensures owned <= size && Wrap(tail + owned, size) == savedHead ==> |taken| == owned
      ensures |taken| <= |old(taken)| ==> taken == old(taken)[..|taken|]
    {
      RestoreOwnedRep(entries[..], head, tail, full, empty, free, taken, savedHead, owned);
      head := savedHead;
      full := head == tail && owned > 0;
      if head == tail {
        empty := !full;
      }
      var f := FreeCount(head, tail, full, size);
      free, taken := Slice(entries[..], head, f), Slice(entries[..], tail, size - f);
    }

    /** The free-list part of `squash`: every handed-out register is free
        again. */
    method Reset()
      requires Valid()
      modifies this`head, this`full, this`empty, this`free, this`taken
      ensures Valid()
      ensures head == tail && empty && !full
      ensures taken == []
      ensures multiset(free) == multiset(old(free)) + multiset(old(taken))
    {
      ResetRep(entries[..], head, tail, full, empty, free, taken);
      head := tail;
      empty := true;
      full := false;
      free, taken := Slice(entries[..], head, size), [];
    }
  }
}
