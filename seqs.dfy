/** Order-preserving selection from a sequence: what a boolean mask does to the
    rows of a data frame, and what a list comprehension with a condition builds. */
module Seqs {

  /** The elements of `s` that satisfy `p`, in their order in `s`. */
  function Filter<T(!new)>(s: seq<T>, p: T -> bool): (r: seq<T>)
    ensures |r| <= |s|
    ensures forall x :: x in r <==> x in s && p(x)
  {
    if s == [] then []
    else
      var init, last := s[..|s| - 1], s[|s| - 1];
      assert s == init + [last];
      Filter(init, p) + (if p(last) then [last] else [])
  }

  /** The positions of `s` whose element satisfies `p`, in increasing order: the
      positions a boolean mask is true at. */
  function KeptIndices<T>(s: seq<T>, p: T -> bool): (idx: seq<nat>)
    ensures forall j :: 0 <= j < |idx| ==> idx[j] < |s| && p(s[idx[j]])
    ensures forall j, k :: 0 <= j < k < |idx| ==> idx[j] < idx[k]
    ensures forall i :: 0 <= i < |s| && p(s[i]) ==> i in idx
  {
    if s == [] then []
    else
      var n := |s| - 1;
      var init := s[..n];
      assert forall i :: 0 <= i < n ==> init[i] == s[i];
      KeptIndices(init, p) + (if p(s[n]) then [n] else [])
  }

  /** `f` applied to every element. */
  function MapSeq<T, U>(s: seq<T>, f: T -> U): seq<U> {
    seq(|s|, i requires 0 <= i < |s| => f(s[i]))
  }

  /** Filtering picks exactly the elements at the kept positions, in order. */
  lemma {:induction false} FilterSelects<T(!new)>(s: seq<T>, p: T -> bool)
    ensures |Filter(s, p)| == |KeptIndices(s, p)|
    ensures forall j :: 0 <= j < |Filter(s, p)| ==> Filter(s, p)[j] == s[KeptIndices(s, p)[j]]
  {
    if s != [] {
      var n := |s| - 1;
      var init := s[..n];
      FilterSelects(init, p);
      var r, idx := Filter(s, p), KeptIndices(s, p);
      var r0, idx0 := Filter(init, p), KeptIndices(init, p);
      assert r == r0 + (if p(s[n]) then [s[n]] else []);
      assert idx == idx0 + (if p(s[n]) then [n] else []);
      forall j | 0 <= j < |r| ensures r[j] == s[idx[j]] {
        if j < |r0| {
          assert r[j] == r0[j] == init[idx0[j]];
        }
      }
    }
  }

  /** A mask computed after mapping keeps the same positions as the composed mask. */
  lemma {:induction false} KeptIndicesAfterMap<T, U>(s: seq<T>, f: T -> U, p: U -> bool, q: T -> bool)
    requires forall x :: p(f(x)) == q(x)
    ensures KeptIndices(MapSeq(s, f), p) == KeptIndices(s, q)
  {
    if s != [] {
      var n := |s| - 1;
      assert MapSeq(s, f)[..n] == MapSeq(s[..n], f);
      KeptIndicesAfterMap(s[..n], f, p, q);
    }
  }

  /** Concatenation is associative. */
  lemma ConcatAssoc<T>(x: seq<T>, y: seq<T>, z: seq<T>)
    ensures x + (y + z) == (x + y) + z
  {
  }

  /** Dropping a prefix of the left operand of a concatenation. */
  lemma DropConcat<T>(x: seq<T>, y: seq<T>, i: nat)
    requires i <= |x|
    ensures (x + y)[i..] == x[i..] + y
  {
  }

  /** A sequence is its prefix followed by the rest. */
  lemma TakeDrop<T>(x: seq<T>, k: nat)
    requires k <= |x|
    ensures x == x[..k] + x[k..]
  {
  }
}
