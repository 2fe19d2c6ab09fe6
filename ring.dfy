/** Circular-buffer arithmetic shared by the free list, the active list and
    the payload buffer. Positions wrap with a comparison, as the source does
    (`if (i == size-1) i = 0; else i++;`), so no proof here needs `%`. */
module Ring {

  /** Reduces a position in [0, 2n) into [0, n). */
  function Wrap(x: nat, n: nat): (r: nat)
    requires x < 2 * n
    ensures r < n
    ensures r == x || r == x - n
  {
    if x < n then x else x - n
  }

  /** The slot after `i` in a ring of `n` slots. */
  function Next(i: nat, n: nat): (r: nat)
    requires i < n
    ensures r < n
    ensures r == Wrap(i + 1, n)
  {
    if i == n - 1 then 0 else i + 1
  }

  /** How many steps forward lead from slot `from` to slot `to`. */
  function Dist(from: nat, to: nat, n: nat): (d: nat)
    requires from < n && to < n
    ensures d < n
    ensures Wrap(from + d, n) == to
    ensures d == 0 <==> from == to
  {
    if from <= to then to - from else to + n - from
  }

  /** The values lo, lo+1, ..., hi-1. */
  function Range(lo: nat, hi: nat): (r: seq<nat>)
    requires lo <= hi
    ensures |r| == hi - lo
    ensures forall i :: 0 <= i < |r| ==> r[i] == lo + i
  {
    seq(hi - lo, i requires 0 <= i < hi - lo => lo + i)
  }

  /** Going a to b and b back to a is once around the ring. */
  lemma DistBack(a: nat, b: nat, n: nat)
    requires a < n && b < n && a != b
    ensures Dist(a, b, n) + Dist(b, a, n) == n
  {
  }

  /** The `len` elements of the ring `s` that start at slot `start`, in ring order. */
  function Slice<T>(s: seq<T>, start: nat, len: nat): (r: seq<T>)
    requires start < |s| && len <= |s|
    ensures |r| == len
  {
    seq(len, i requires 0 <= i < len => s[Wrap(start + i, |s|)])
  }

  /** A slice grows at its end by the slot that follows it. */
  lemma SliceGrow<T>(s: seq<T>, start: nat, len: nat)
    requires start < |s| && len < |s|
    ensures Slice(s, start, len + 1) == Slice(s, start, len) + [s[Wrap(start + len, |s|)]]
  {
    var a, b := Slice(s, start, len + 1), Slice(s, start, len) + [s[Wrap(start + len, |s|)]];
    assert |a| == |b|;
    forall i | 0 <= i < |a| ensures a[i] == b[i] {
      if i < len { assert b[i] == Slice(s, start, len)[i]; }
    }
  }

  /** Dropping the first element of a slice is the slice that starts one slot later. */
  lemma SliceShift<T>(s: seq<T>, start: nat, len: nat)
    requires start < |s| && 1 <= len <= |s|
    ensures Slice(s, Next(start, |s|), len - 1) == Slice(s, start, len)[1..]
  {
    var a, b := Slice(s, Next(start, |s|), len - 1), Slice(s, start, len)[1..];
    assert |a| == |b|;
    forall i | 0 <= i < |a| ensures a[i] == b[i] {
      assert b[i] == Slice(s, start, len)[i + 1];
      assert Wrap(Next(start, |s|) + i, |s|) == Wrap(start + (i + 1), |s|);
    }
  }

  /** A shorter slice from the same start is a prefix of a longer one. */
  lemma SlicePrefix<T>(s: seq<T>, start: nat, k: nat, len: nat)
    requires start < |s| && k <= len <= |s|
    ensures Slice(s, start, k) == Slice(s, start, len)[..k]
  {
  }

  /** Writing a slot that lies outside a slice leaves the slice unchanged. */
  lemma SliceFrame<T>(s: seq<T>, j: nat, v: T, start: nat, len: nat)
    requires start < |s| && j < |s| && len <= Dist(start, j, |s|)
    ensures Slice(s[j := v], start, len) == Slice(s, start, len)
  {
    var a, b := Slice(s[j := v], start, len), Slice(s, start, len);
    forall i | 0 <= i < len ensures a[i] == b[i] {
      assert Wrap(start + i, |s|) != j;
    }
  }

  /** Writing `v` into the slot just past a run of `len` slots from `start`
      extends that run by `v`, and the rest of the ring, read from the
      written slot on, loses its first element. */
  lemma WriteAtEnd<T>(s: seq<T>, start: nat, j: nat, len: nat, v: T)
    requires start < |s| && j < |s| && len < |s| && Wrap(start + len, |s|) == j
    ensures Slice(s[j := v], start, len + 1) == Slice(s, start, len) + [v]
    ensures Slice(s[j := v], Next(j, |s|), |s| - len - 1) == Slice(s, j, |s| - len)[1..]
  {
    assert len == Dist(start, j, |s|);
    SliceFrame(s, j, v, start, len);
    SliceGrow(s[j := v], start, len);
    SliceShift(s, j, |s| - len);
    SliceFrame(s, j, v, Next(j, |s|), |s| - len - 1);
  }

  /** Moving the first slot of a run of `len` slots from `start` onto the
      end of the run that ends there: the first run loses its first
      element, the other gains it. */
  lemma MoveFront<T>(s: seq<T>, start: nat, j: nat, len: nat)
    requires start < |s| && j < |s| && 1 <= len <= |s| && Wrap(j + (|s| - len), |s|) == start
    ensures Slice(s, Next(start, |s|), len - 1) == Slice(s, start, len)[1..]
    ensures Slice(s, j, |s| - len + 1) == Slice(s, j, |s| - len) + [s[start]]
    ensures Slice(s, start, len)[0] == s[start]
  {
    SliceShift(s, start, len);
    SliceGrow(s, j, |s| - len);
    assert Slice(s, start, len)[0] == s[Wrap(start + 0, |s|)];
  }

  /** A slice around the whole ring holds exactly the ring's elements. */
  lemma {:induction false} SliceWhole<T>(s: seq<T>, start: nat)
    requires start < |s|
    ensures multiset(Slice(s, start, |s|)) == multiset(s)
  {
    var r := Slice(s, start, |s|);
    assert r == s[start..] + s[..start] by {
      var t := s[start..] + s[..start];
      assert |r| == |t|;
      forall i | 0 <= i < |r| ensures r[i] == t[i] {
        assert r[i] == s[Wrap(start + i, |s|)];
        if i < |s| - start { assert t[i] == s[start..][i] == s[start + i]; }
        else {
          assert t[i] == s[..start][i - (|s| - start)] == s[i - (|s| - start)];
          assert Wrap(start + i, |s|) == i - (|s| - start);
        }
      }
    }
    assert s == s[..start] + s[start..];
    calc {
      multiset(r);
      multiset(s[start..]) + multiset(s[..start]);
      multiset(s[..start] + s[start..]);
      multiset(s);
    }
  }

  /** Two slices that meet end to start and together go once around the
      ring hold exactly the ring's elements between them. */
  lemma {:induction false} SliceSplit<T>(s: seq<T>, start: nat, k: nat)
    requires start < |s| && k <= |s|
    ensures multiset(Slice(s, start, k)) + multiset(Slice(s, Wrap(start + k, |s|), |s| - k)) == multiset(s)
  {
    var n := |s|;
    var m := Wrap(start + k, n);
    var whole := Slice(s, start, n);
    var a, b := Slice(s, start, k), Slice(s, m, n - k);
    assert whole == a + b by {
      assert |whole| == |a + b|;
      forall i | 0 <= i < n ensures whole[i] == (a + b)[i] {
        if i >= k {
          assert (a + b)[i] == b[i - k];
          assert Wrap(m + (i - k), n) == Wrap(start + i, n);
        }
      }
    }
    SliceWhole(s, start);
  }
}
