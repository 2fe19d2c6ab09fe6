/** The payload buffer that carries fetched instructions to dispatch: a ring
    in which every instruction takes two consecutive slots (an even and an
    odd one, kept for instruction splitting), with `head`, `tail` and an
    explicit `length`. Beside the ring operations, `map_to_actual` decides
    for each new slot whether it lies on the good path of the functional
    (golden) simulator and which entry of that simulator's debug buffer it
    matches. The functional simulator is not part of this model: its two
    queries are oracle functions. */
module Payloads {
  import opened DhpTypes
  import opened Ring

  /** An index into the functional simulator's debug buffer, or the
      invalid index (`DEBUG_INDEX_INVALID`). */
  datatype DbIndex = Invalid | At(n: nat)

  /** The fields of a payload slot that `map_to_actual` reads or writes:
      the program counter, whether the instruction is a branch and whether
      its branch type is HAMMOCK, its hammock classification, and the good
      path flag and debug index that the mapping decides. */
  datatype Slot = Slot(pc: nat, branch: bool, hammockBranch: bool, kind: InstClass,
                       good: bool, dbIndex: DbIndex)

  /** A slot no instruction has been written to. */
  const Blank: Slot := Slot(0, false, false, Normal, false, Invalid)

  /** The functional simulator's queries: `first(pc)` is the debug index
      of the first instruction fetched at pc; `checkNext(db, pc)` is the
      debug index of the instruction that follows `db` if it is at pc, and
      the invalid index otherwise. */
  datatype Oracle = Oracle(first: nat -> DbIndex, checkNext: (DbIndex, nat) -> DbIndex)

  /** `MOD((index + PAYLOAD_BUFFER_SIZE - 2), PAYLOAD_BUFFER_SIZE)`: the
      first slot of the previous instruction. */
  function Prev(index: nat, size: nat): (p: nat)
    requires index < size && size >= 2
    ensures p < size
  {
    (index + size - 2) % size
  }

  /** `MOD((PAYLOAD_BUFFER_SIZE + tail - head), PAYLOAD_BUFFER_SIZE)`: the
      length that `rollback` and `restore` recompute. */
  function Recomputed(head: nat, tail: nat, size: nat): (n: nat)
    requires head < size && tail < size
    ensures n < size
  {
    (size + tail - head) % size
  }

  /** Below twice the modulus, `%` subtracts the modulus at most once. */
  lemma ModOnce(x: nat, n: nat)
    requires 0 < n && x < 2 * n
    ensures x % n == Wrap(x, n)
  {
    if x >= n {
      assert x == 1 * n + (x - n);
    }
  }

  /** The recomputed length is the number of slots from head up to tail,
      so a head equal to the tail reads as an empty buffer. */
  lemma RecomputedIsDist(head: nat, tail: nat, size: nat)
    requires head < size && tail < size
    ensures Recomputed(head, tail, size) == Dist(head, tail, size)
  {
    ModOnce(size + tail - head, size);
  }

  /** The slot a push hands out is the previous instruction of the slot
      the following push hands out. */
  lemma PrevAfterPush(index: nat, size: nat)
    requires index < size && size >= 2
    ensures Prev((index + 2) % size, size) == index
  {
    var next := (index + 2) % size;
    assert next == Wrap(index + 2, size) by { ModOnce(index + 2, size); }
    ModOnce(next + size - 2, size);
  }

  /** `map_to_actual`'s transition table: the good path flag and debug
      index of the slot `cur` whose previous instruction is `prev`. The
      head slot starts the good path at `first(pc)`. After a good slot the
      oracle decides, except that a CMOV after a good THEN, ELSE or CMOV
      inherits its debug index. After a bad slot the region decides: a bad
      NORMAL or CMOV keeps the path bad, and so does a bad THEN or ELSE
      without a debug index; with one, crossing into the other side (or
      reaching the CMOV) returns to the good path. */
  function Classify(prev: Slot, cur: Slot, isFirst: bool, o: Oracle): (r: Slot)
    ensures r == cur.(good := r.good, dbIndex := r.dbIndex)
  {
    if isFirst then cur.(good := true, dbIndex := o.first(cur.pc))
    else if prev.good then
      if prev.branch && prev.hammockBranch then
        var db := o.checkNext(prev.dbIndex, cur.pc);
        if db == Invalid then cur.(good := false, dbIndex := prev.dbIndex) else cur.(good := true, dbIndex := db)
      else if prev.kind != Normal && cur.kind == Cmov then
        cur.(good := true, dbIndex := prev.dbIndex)
      else
        var db := o.checkNext(prev.dbIndex, cur.pc);
        match prev.kind
        case Normal => if db == Invalid then cur.(good := false, dbIndex := Invalid) else cur.(good := true, dbIndex := db)
        case Then => if db == Invalid then cur.(good := false, dbIndex := prev.dbIndex) else cur.(good := true, dbIndex := db)
        case _ => cur.(good := true, dbIndex := db)
    else if prev.kind == Normal || prev.kind == Cmov || prev.dbIndex == Invalid then
      cur.(good := false, dbIndex := Invalid)
    else if prev.kind == Then then
      cur.(good := cur.kind != Then,
           dbIndex := if cur.kind == Else then o.checkNext(prev.dbIndex, cur.pc)
                      else if cur.kind == Normal then cur.dbIndex
                      else prev.dbIndex)
    else
      cur.(good := cur.kind != Else, dbIndex := prev.dbIndex)
  }

  /** The assertion of `map_to_actual` for a good ELSE slot followed by
      anything but a CMOV: the functional simulator has the next
      instruction. */
  predicate ElseContinues(prev: Slot, cur: Slot, isFirst: bool, o: Oracle)
  {
    !isFirst && prev.good && !(prev.branch && prev.hammockBranch) && prev.kind == Else && cur.kind != Cmov ==>
      o.checkNext(prev.dbIndex, cur.pc) != Invalid
  }

  /** The head slot is on the good path, at the functional simulator's
      first instruction for its pc. */
  lemma HeadIsGood(prev: Slot, cur: Slot, o: Oracle)
    ensures Classify(prev, cur, true, o).good
    ensures Classify(prev, cur, true, o).dbIndex == o.first(cur.pc)
  {
  }

  /** After a bad NORMAL or CMOV slot, the path stays bad and loses its
      debug index. */
  lemma BadStaysBad(prev: Slot, cur: Slot, o: Oracle)
    requires !prev.good && (prev.kind == Normal || prev.kind == Cmov)
    ensures !Classify(prev, cur, false, o).good
    ensures Classify(prev, cur, false, o).dbIndex == Invalid
  {
  }

  /** A bad THEN or ELSE slot without a debug index means the whole
      hammock is on the wrong path: the next slot is bad as well. */
  lemma WrongRegionStaysBad(prev: Slot, cur: Slot, o: Oracle)
    requires !prev.good && (prev.kind == Then || prev.kind == Else) && prev.dbIndex == Invalid
    ensures !Classify(prev, cur, false, o).good
    ensures Classify(prev, cur, false, o).dbIndex == Invalid
  {
  }

  /** Classifies `slots[1..]` in order, each after the slot classified
      just before it and none of them at the head, as successive calls of
      `map_to_actual` on successive pushes do; `slots[0]` stays as it is. */
  function Follow(slots: seq<Slot>, o: Oracle): (r: seq<Slot>)
    requires |slots| >= 1
    ensures |r| == |slots| && r[0] == slots[0]
    decreases |slots|
  {
    if |slots| == 1 then slots
    else [slots[0]] + Follow([Classify(slots[0], slots[1], false, o)] + slots[2..], o)
  }

  /** Once a slot is bad without a debug index, every later slot is too,
      whatever its kind and whatever the oracle says, until the head is
      reached again. */
  lemma {:induction false} WrongPathAbsorbs(slots: seq<Slot>, o: Oracle)
    requires |slots| >= 1 && !slots[0].good && slots[0].dbIndex == Invalid
    ensures forall k :: 0 <= k < |slots| ==>
              !Follow(slots, o)[k].good && Follow(slots, o)[k].dbIndex == Invalid
    decreases |slots|
  {
    if |slots| > 1 {
      var next := [Classify(slots[0], slots[1], false, o)] + slots[2..];
      WrongPathAbsorbs(next, o);
      assert Follow(slots, o) == [slots[0]] + Follow(next, o);
    }
  }

  /** A CMOV after a good THEN, ELSE or CMOV slot that is not a hammock
      branch is good and continues at that slot's debug index. */
  lemma CmovInheritsGood(prev: Slot, cur: Slot, o: Oracle)
    requires prev.good && !(prev.branch && prev.hammockBranch)
    requires prev.kind != Normal && cur.kind == Cmov
    ensures Classify(prev, cur, false, o).good
    ensures Classify(prev, cur, false, o).dbIndex == prev.dbIndex
  {
  }

  /** After a good hammock branch, the next slot is good exactly when the
      functional simulator has it next; otherwise it keeps the branch's
      debug index. */
  lemma HammockFollowsOracle(prev: Slot, cur: Slot, o: Oracle)
    requires prev.good && prev.branch && prev.hammockBranch
    ensures Classify(prev, cur, false, o).good <==> o.checkNext(prev.dbIndex, cur.pc) != Invalid
    ensures Classify(prev, cur, false, o).dbIndex ==
              if o.checkNext(prev.dbIndex, cur.pc) == Invalid then prev.dbIndex else o.checkNext(prev.dbIndex, cur.pc)
  {
  }

  /** After a good NORMAL slot that is not a hammock branch, the next slot
      is good exactly when the functional simulator has it next. */
  lemma NormalFollowsOracle(prev: Slot, cur: Slot, o: Oracle)
    requires prev.good && !(prev.branch && prev.hammockBranch) && prev.kind == Normal
    ensures Classify(prev, cur, false, o).good <==> o.checkNext(prev.dbIndex, cur.pc) != Invalid
    ensures Classify(prev, cur, false, o).good ==>
              Classify(prev, cur, false, o).dbIndex == o.checkNext(prev.dbIndex, cur.pc)
  {
  }

  class Payload {
    /** `PAYLOAD_BUFFER_SIZE`. */
    const size: nat
    const buf: array<Slot>
    var head: nat
    var tail: nat
    /** The number of occupied slots; a signed count in the source. */
    var length: int

    /** Positions lie in the ring, and the length is the number of slots
        from head to tail, or the whole ring when they meet in a full
        buffer. */
    ghost predicate Valid()
      reads this
    {
      buf.Length == size && size >= 2 && head < size && tail < size && 0 <= length <= size &&
      (if length == size then head == tail else length == Dist(head, tail, size))
    }

    /** An empty buffer of n slots (the constructor calls `clear`). The
        buffer holds at least one instruction's two slots. */
    constructor (n: nat)
      requires n >= 2
      ensures Valid() && size == n && fresh(buf)
      ensures head == 0 && tail == 0 && length == 0
    {
      size := n;
      buf := new Slot[n](_ => Blank);
      new;
      Clear();
    }

    /** `clear`: the buffer becomes empty at slot 0. */
    method Clear()
      requires buf.Length == size && size >= 2
      modifies this`head, this`tail, this`length
      ensures Valid()
      ensures head == 0 && tail == 0 && length == 0
    {
      head := 0;
      tail := 0;
      length := 0;
    }

    /** `push`: hands out the two slots at the tail and returns the first.
        The source asserts that the buffer does not overflow. */
    method Push() returns (index: nat)
      requires Valid() && length + 2 <= size
      modifies this`tail, this`length
      ensures Valid()
      ensures index == old(tail) && tail == (old(tail) + 2) % size
      ensures length == old(length) + 2
      ensures Prev(tail, size) == index
    {
      index := tail;
      ModOnce(tail + 2, size);
      tail := (tail + 2) % size;
      length := length + 2;
      PrevAfterPush(index, size);
    }

    /** `pop`: frees the slot at the head. The source asserts that the
        length does not go below zero. */
    method Pop()
      requires Valid() && length >= 1
      modifies this`head, this`length
      ensures Valid()
      ensures head == (old(head) + 1) % size && tail == old(tail)
      ensures length == old(length) - 1
    {
      ModOnce(head + 1, size);
      head := (head + 1) % size;
      length := length - 1;
    }

    /** `rollback`: drops every instruction after the one at `index`; the
        length is recomputed from head and tail, so a tail that lands on
        the head reads as an empty buffer. */
    method Rollback(index: nat)
      requires Valid() && index < size
      modifies this`tail, this`length
      ensures Valid()
      ensures tail == (index + 2) % size && head == old(head)
      ensures length == Dist(head, tail, size)
    {
      tail := (index + 2) % size;
      length := (size + tail - head) % size;
      RecomputedIsDist(head, tail, size);
    }

    /** `checkpoint`: the tail, which `restore` takes back. */
    function Checkpoint(): (t: nat)
      reads this
      requires Valid()
      ensures t < size && t == tail
    {
      tail
    }

    /** `restore`: the tail goes back to a checkpoint and the length is
        recomputed. Restoring the current checkpoint keeps the tail and,
        unless the buffer is full, the length; a full buffer reads as
        empty afterwards. */
    method Restore(index: nat)
      requires Valid() && index < size
      modifies this`tail, this`length
      ensures Valid()
      ensures tail == index && head == old(head)
      ensures length == Dist(head, tail, size)
      ensures index == old(Checkpoint()) ==>
                tail == old(tail) && length == (if old(length) == size then 0 else old(length))
    {
      tail := index;
      length := (size + tail - head) % size;
      RecomputedIsDist(head, tail, size);
    }

    /** `map_to_actual`: decides the good path flag and debug index of the
        slot at `index` from the slot two before it, following the
        transition table `Classify`; no other slot changes. A good ELSE
        slot followed by anything but a CMOV must have a successor in the
        functional simulator (the source asserts it). */
    method MapToActual(o: Oracle, index: nat)
      requires Valid() && index < size
      requires ElseContinues(buf[Prev(index, size)], buf[index], index == head, o)
      modifies buf
      ensures buf[..] == old(buf[..])[index := Classify(old(buf[Prev(index, size)]), old(buf[index]), index == head, o)]
    {
      var prevIndex := (index + size - 2) % size;
      var prev, cur := buf[prevIndex], buf[index];
      var good, db := cur.good, cur.dbIndex;
      if index == head {
        good, db := true, o.first(cur.pc);
      } else if prev.good {
        if prev.branch && prev.hammockBranch {
          db := o.checkNext(prev.dbIndex, cur.pc);
          if db == Invalid {
            good, db := false, prev.dbIndex;
          } else {
            good := true;
          }
        } else if prev.kind == Normal {
          db := o.checkNext(prev.dbIndex, cur.pc);
          good := db != Invalid;
        } else if prev.kind == Then {
          if cur.kind == Cmov {
            good, db := true, prev.dbIndex;
          } else {
            db := o.checkNext(prev.dbIndex, cur.pc);
            if db == Invalid {
              good, db := false, prev.dbIndex;
            } else {
              good := true;
            }
          }
        } else if prev.kind == Else {
          if cur.kind == Cmov {
            good, db := true, prev.dbIndex;
          } else {
            db := o.checkNext(prev.dbIndex, cur.pc);
            good := true;
          }
        } else {
          if cur.kind == Cmov {
            good, db := true, prev.dbIndex;
          } else {
            db := o.checkNext(prev.dbIndex, cur.pc);
            good := true;
          }
        }
      } else {
        if prev.kind == Normal || prev.kind == Cmov {
          good, db := false, Invalid;
        } else if prev.kind == Then {
          if prev.dbIndex == Invalid {
            good, db := false, Invalid;
          } else {
            good := cur.kind != Then;
            if cur.kind == Else {
              db := o.checkNext(prev.dbIndex, cur.pc);
            } else if cur.kind == Cmov || cur.kind == Then {
              db := prev.dbIndex;
            }
          }
        } else {
          if prev.dbIndex == Invalid {
            good, db := false, Invalid;
          } else {
            good := cur.kind != Else;
            db := prev.dbIndex;
          }
        }
      }
      buf[index] := cur.(good := good, dbIndex := db);
    }
  }
}
