/** Generic sequence operations the tracker's derivations are built from:
    order-preserving filtering (JavaScript's Array.prototype.filter) and a
    stable sort by an integer key (Array.prototype.sort, which is stable). */
module Seqs {

  /** The elements of s that satisfy p, in their original order. */
  function Filter<T>(s: seq<T>, p: T -> bool): (r: seq<T>)
    ensures |r| <= |s|
    ensures forall x :: x in r ==> x in s && p(x)
    ensures forall x :: x in s && p(x) ==> x in r
  {
    if s == [] then []
    else if p(s[0]) then [s[0]] + Filter(s[1..], p)
    else Filter(s[1..], p)
  }

  /** The positions i of s with p(s[i]), in increasing order. */
  function KeptIndices<T>(s: seq<T>, p: T -> bool): seq<nat>
  {
    if s == [] then []
    else (if p(s[0]) then [0] else []) + Shifted(KeptIndices(s[1..], p))
  }

  function Shifted(ix: seq<nat>): (r: seq<nat>)
    ensures |r| == |ix|
    ensures forall k :: 0 <= k < |ix| ==> r[k] == ix[k] + 1
  {
    seq(|ix|, k requires 0 <= k < |ix| => ix[k] + 1)
  }

  /** r is the subsequence of s at the strictly increasing positions ix. */
  ghost predicate SubsequenceAt<T>(r: seq<T>, s: seq<T>, ix: seq<nat>)
  {
    && |ix| == |r|
    && (forall k :: 0 <= k < |ix| ==> ix[k] < |s| && r[k] == s[ix[k]])
    && (forall k, l :: 0 <= k < l < |ix| ==> ix[k] < ix[l])
  }

  /** Filter keeps exactly the positions whose element satisfies p, in order. */
  lemma {:induction false} FilterKeepsExactly<T>(s: seq<T>, p: T -> bool)
    ensures SubsequenceAt(Filter(s, p), s, KeptIndices(s, p))
    ensures forall i :: 0 <= i < |s| ==> (p(s[i]) <==> i in KeptIndices(s, p))
  {
    if s != [] {
      FilterKeepsExactly(s[1..], p);
      KeptIndicesStep(s, p);
      FilterStep(s, p);
    }
  }

  /** The positions kept from a non-empty s, in terms of those kept from s[1..]. */
  lemma KeptIndicesStep<T>(s: seq<T>, p: T -> bool)
    requires s != []
    requires forall i :: 0 <= i < |s| - 1 ==> (p(s[1..][i]) <==> i in KeptIndices(s[1..], p))
    ensures forall i :: 0 <= i < |s| ==> (p(s[i]) <==> i in KeptIndices(s, p))
  {
    var tail := KeptIndices(s[1..], p);
    var head: seq<nat> := if p(s[0]) then [0] else [];
    var ks := KeptIndices(s, p);
    assert ks == head + Shifted(tail);
    forall i | 0 <= i < |s|
      ensures p(s[i]) <==> i in ks
    {
      ShiftedMember(tail, i);
      if i > 0 {
        assert s[i] == s[1..][i - 1];
      }
    }
  }

  lemma ShiftedMember(ix: seq<nat>, i: int)
    ensures i in Shifted(ix) <==> i >= 1 && i - 1 in ix
  {
    if i >= 1 && i - 1 in ix {
      var k :| 0 <= k < |ix| && ix[k] == i - 1;
      assert Shifted(ix)[k] == i;
    }
    if i in Shifted(ix) {
      var k :| 0 <= k < |ix| && Shifted(ix)[k] == i;
      assert ix[k] == i - 1;
    }
  }

  /** The subsequence property of a non-empty s, from that of s[1..]. */
  lemma FilterStep<T>(s: seq<T>, p: T -> bool)
    requires s != []
    requires SubsequenceAt(Filter(s[1..], p), s[1..], KeptIndices(s[1..], p))
    ensures SubsequenceAt(Filter(s, p), s, KeptIndices(s, p))
  {
    var rt := Filter(s[1..], p);
    var sh := Shifted(KeptIndices(s[1..], p));
    ShiftedSubsequence(s, rt, KeptIndices(s[1..], p));
    if p(s[0]) {
      assert Filter(s, p) == [s[0]] + rt;
      assert KeptIndices(s, p) == [0] + sh;
      ConsSubsequence(s, rt, sh);
    } else {
      assert Filter(s, p) == rt;
      assert KeptIndices(s, p) == sh;
    }
  }

  lemma ShiftedSubsequence<T>(s: seq<T>, rt: seq<T>, tail: seq<nat>)
    requires s != []
    requires SubsequenceAt(rt, s[1..], tail)
    ensures SubsequenceAt(rt, s, Shifted(tail))
    ensures forall k :: 0 <= k < |tail| ==> 0 < Shifted(tail)[k]
  {
    var sh := Shifted(tail);
    forall k | 0 <= k < |sh|
      ensures sh[k] < |s| && rt[k] == s[sh[k]]
    {
      assert s[1..][tail[k]] == s[tail[k] + 1];
    }
  }

  lemma ConsSubsequence<T>(s: seq<T>, rt: seq<T>, sh: seq<nat>)
    requires s != []
    requires SubsequenceAt(rt, s, sh)
    requires forall k :: 0 <= k < |sh| ==> 0 < sh[k]
    ensures SubsequenceAt([s[0]] + rt, s, [0] + sh)
  {
    var r, ix := [s[0]] + rt, [0] + sh;
    forall k | 0 < k < |ix|
      ensures ix[k] < |s| && r[k] == s[ix[k]] && 0 < ix[k]
    {
      assert ix[k] == sh[k - 1] && r[k] == rt[k - 1];
    }
    forall k, l | 0 <= k < l < |ix|
      ensures ix[k] < ix[l]
    {
      if k > 0 {
        assert ix[k] == sh[k - 1] && ix[l] == sh[l - 1];
      }
    }
  }

  /** Filtering with a predicate every element satisfies changes nothing. */
  lemma {:induction false} FilterAll<T>(s: seq<T>, p: T -> bool)
    requires forall x :: x in s ==> p(x)
    ensures Filter(s, p) == s
  {
    if s != [] {
      FilterAll(s[1..], p);
    }
  }

  /** Filtering distributes over concatenation. */
  lemma {:induction false} FilterAppend<T>(s: seq<T>, t: seq<T>, p: T -> bool)
    ensures Filter(s + t, p) == Filter(s, p) + Filter(t, p)
  {
    if s == [] {
      assert s + t == t;
    } else {
      var st := s + t;
      assert st[0] == s[0];
      assert st[1..] == s[1..] + t;
      FilterAppend(s[1..], t, p);
      if p(s[0]) {
        assert Filter(st, p) == [s[0]] + Filter(st[1..], p);
        assert Filter(s, p) == [s[0]] + Filter(s[1..], p);
      } else {
        assert Filter(st, p) == Filter(st[1..], p);
        assert Filter(s, p) == Filter(s[1..], p);
      }
    }
  }

  /** Filtering twice is filtering once with both conditions. */
  lemma {:induction false} FilterFilter<T>(s: seq<T>, p: T -> bool, q: T -> bool, pq: T -> bool)
    requires forall x :: pq(x) <==> p(x) && q(x)
    ensures Filter(Filter(s, p), q) == Filter(s, pq)
  {
    if s != [] {
      FilterFilter(s[1..], p, q, pq);
      if p(s[0]) {
        assert ([s[0]] + Filter(s[1..], p))[1..] == Filter(s[1..], p);
      }
    }
  }

  /** A filter and its complement split s between them. */
  lemma {:induction false} FilterComplement<T>(s: seq<T>, p: T -> bool, q: T -> bool)
    requires forall x :: q(x) <==> !p(x)
    ensures |Filter(s, p)| + |Filter(s, q)| == |s|
  {
    if s != [] {
      FilterComplement(s[1..], p, q);
    }
  }

  /** The elements of s are in non-decreasing order of key. */
  ghost predicate SortedBy<T>(s: seq<T>, key: T -> int)
  {
    forall i, j :: 0 <= i < j < |s| ==> key(s[i]) <= key(s[j])
  }

  /** Inserts x before the first element whose key is not smaller than x's,
      so that x precedes every element of s with the same key. */
  function Insert<T>(x: T, s: seq<T>, key: T -> int): (r: seq<T>)
    ensures |r| == |s| + 1
    ensures multiset(r) == multiset{x} + multiset(s)
    ensures SortedBy(s, key) ==> SortedBy(r, key)
  {
    if s == [] || key(x) <= key(s[0]) then [x] + s
    else
      var t := Insert(x, s[1..], key);
      assert s == [s[0]] + s[1..];
      InsertSortedStep(x, s, key, t);
      [s[0]] + t
  }

  lemma InsertSortedStep<T>(x: T, s: seq<T>, key: T -> int, t: seq<T>)
    requires s != [] && key(s[0]) < key(x)
    requires multiset(t) == multiset{x} + multiset(s[1..])
    requires SortedBy(s, key) ==> SortedBy(t, key)
    ensures SortedBy(s, key) ==> SortedBy([s[0]] + t, key)
  {
    if SortedBy(s, key) {
      var r := [s[0]] + t;
      forall j | 0 < j < |r|
        ensures key(s[0]) <= key(r[j])
      {
        var y := r[j];
        assert y == t[j - 1];
        assert y in multiset(t);
        if y != x {
          assert y in multiset(s[1..]);
          var m :| 0 <= m < |s[1..]| && s[1..][m] == y;
          assert s[m + 1] == y;
        }
      }
      forall i, j | 0 <= i < j < |r|
        ensures key(r[i]) <= key(r[j])
      {
        if i > 0 {
          assert r[i] == t[i - 1] && r[j] == t[j - 1];
        }
      }
    }
  }

  /** Stable sort in non-decreasing order of key (insertion sort). */
  function SortBy<T>(s: seq<T>, key: T -> int): (r: seq<T>)
    ensures |r| == |s|
    ensures multiset(r) == multiset(s)
    ensures SortedBy(r, key)
  {
    if s == [] then []
    else
      assert s == [s[0]] + s[1..];
      Insert(s[0], SortBy(s[1..], key), key)
  }

  /** Inserting x does not reorder the elements of one key class, and puts x
      before the members of its own class that are already there. */
  lemma {:induction false} InsertStable<T>(x: T, s: seq<T>, key: T -> int, k: int, p: T -> bool)
    requires forall y :: p(y) <==> key(y) == k
    ensures Filter(Insert(x, s, key), p) == if p(x) then [x] + Filter(s, p) else Filter(s, p)
  {
    if s == [] || key(x) <= key(s[0]) {
      assert ([x] + s)[1..] == s;
    } else {
      InsertStable(x, s[1..], key, k, p);
      assert ([s[0]] + Insert(x, s[1..], key))[1..] == Insert(x, s[1..], key);
    }
  }

  /** SortBy is stable: the elements of any one key class keep their
      original relative order. */
  lemma {:induction false} SortByStable<T>(s: seq<T>, key: T -> int, k: int, p: T -> bool)
    requires forall y :: p(y) <==> key(y) == k
    ensures Filter(SortBy(s, key), p) == Filter(s, p)
  {
    if s != [] {
      SortByStable(s[1..], key, k, p);
      InsertStable(s[0], SortBy(s[1..], key), key, k, p);
    }
  }

  /** Filtering a sorted sequence with a threshold on its key keeps a suffix. */
  lemma {:induction false} FilterSortedIsSuffix<T>(s: seq<T>, key: T -> int, c: int, p: T -> bool)
    requires SortedBy(s, key)
    requires forall y :: p(y) <==> key(y) >= c
    ensures Filter(s, p) == s[|s| - |Filter(s, p)|..]
  {
    if s != [] {
      if p(s[0]) {
        FilterAll(s, p);
      } else {
        assert SortedBy(s[1..], key);
        FilterSortedIsSuffix(s[1..], key, c, p);
        assert s[1..][|s| - 1 - |Filter(s[1..], p)|..] == s[|s| - |Filter(s, p)|..];
      }
    }
  }
}
