/** java.util.ArrayList as the modelled code uses it, the list operations its
    table models promise (the abstract contract of CustomAbstractTableModel),
    and the stable sort behind Collections.sort and List.sort. */
module Lists {
  import opened Outcomes

  /** The list after ArrayList.remove(i): slot i is gone and every later
      element moves down by one. */
  function RemovedAt<T>(s: seq<T>, i: nat): (r: seq<T>)
    requires i < |s|
    ensures |r| == |s| - 1
    ensures forall j :: 0 <= j < i ==> r[j] == s[j]
    ensures forall j :: i <= j < |r| ==> r[j] == s[j + 1]
    ensures multiset(r) + multiset{s[i]} == multiset(s)
  {
    assert s == s[..i] + [s[i]] + s[i + 1..];
    s[..i] + s[i + 1..]
  }

  /** A prefix of `s` followed by the next element of `s` is the next prefix;
      stated over any element type so that callers whose elements are costly
      to compare need not compare them. */
  lemma {:induction false} PrefixGrows<T>(s: seq<T>, prefix: seq<T>, x: T)
    requires |prefix| < |s| && prefix == s[..|prefix|] && x == s[|prefix|]
    ensures prefix + [x] == s[..|prefix| + 1]
  {
  }

  lemma {:induction false} PrefixWhole<T>(s: seq<T>, prefix: seq<T>)
    requires |prefix| == |s| && prefix == s[..|prefix|]
    ensures prefix == s
  {
  }

  /** Moving the head of the remainder onto the end of what was collected
      leaves the concatenation unchanged. */
  lemma {:induction false} CollectedGrows<T>(done: seq<T>, head: seq<T>, rest: seq<T>, whole: seq<T>)
    requires done + (head + rest) == whole
    ensures (done + head) + rest == whole
  {
    assert done + (head + rest) == (done + head) + rest;
  }

  /** List.indexOf: the first position holding a value equal to x, or -1. The
      equality is whatever the element class's equals compares, so callers
      pass the projection that equals looks at. */
  function IndexOf<T(==)>(s: seq<T>, x: T): (r: int)
    ensures -1 <= r < |s|
    ensures r == -1 <==> x !in s
    ensures r >= 0 ==> s[r] == x && x !in s[..r]
  {
    if s == [] then -1
    else if s[0] == x then 0
    else
      var k := IndexOf(s[1..], x);
      assert s[1..][..k + 1] == s[1..k + 2] || k < 0;
      if k < 0 then -1 else k + 1
  }

  /** A java.util.ArrayList object: a mutable list that several holders may
      share by reference. */
  class ArrayList<T> {
    var elems: seq<T>

    constructor ()
      ensures elems == []
    {
      elems := [];
    }

    function Size(): nat
      reads this
    {
      |elems|
    }

    /** ArrayList.get: IndexOutOfBounds unless 0 <= i < size. */
    function Get(i: int): (r: Result<T>)
      reads this
      ensures r.Returned? <==> 0 <= i < |elems|
      ensures r.Returned? ==> r.value == elems[i]
      ensures r.Raised? ==> r.error == IndexOutOfBounds
    {
      if 0 <= i < |elems| then Returned(elems[i]) else Raised(IndexOutOfBounds)
    }

    method Add(x: T)
      modifies this
      ensures elems == old(elems) + [x]
    {
      elems := elems + [x];
    }

    /** ArrayList.set: replaces one slot, or throws and changes nothing. */
    method Set(i: int, x: T) returns (s: Status)
      modifies this
      ensures s == if 0 <= i < |old(elems)| then Completed else Threw(IndexOutOfBounds)
      ensures elems == if s.Completed? then old(elems)[i := x] else old(elems)
    {
      if 0 <= i < |elems| {
        elems := elems[i := x];
        s := Completed;
      } else {
        s := Threw(IndexOutOfBounds);
      }
    }

    /** ArrayList.remove(int): deletes one slot, or throws and changes nothing. */
    method RemoveAt(i: int) returns (s: Status)
      modifies this
      ensures s == if 0 <= i < |old(elems)| then Completed else Threw(IndexOutOfBounds)
      ensures elems == if s.Completed? then RemovedAt(old(elems), i) else old(elems)
    {
      if 0 <= i < |elems| {
        elems := RemovedAt(elems, i);
        s := Completed;
      } else {
        s := Threw(IndexOutOfBounds);
      }
    }

    method Clear()
      modifies this
      ensures elems == []
    {
      elems := [];
    }
  }

  // ---------------------------------------------------------------------
  // Stable sorting. Collections.sort and List.sort are stable merge sorts;
  // for a comparator that is a total preorder their result is the unique
  // stable sorted permutation, which the insertion sort below also builds.
  // The sort is given the keys the comparator compares and yields the order
  // in which the positions of the input are to be taken.

  /** The positions lo, lo + 1, ..., hi - 1. */
  function Range(lo: nat, hi: nat): (r: seq<nat>)
    requires lo <= hi
    ensures |r| == hi - lo
    ensures forall i :: 0 <= i < |r| ==> r[i] == lo + i
    decreases hi - lo
  {
    if lo == hi then [] else [lo] + Range(lo + 1, hi)
  }

  ghost predicate Total<K(!new)>(le: (K, K) -> bool) {
    forall a, b :: le(a, b) || le(b, a)
  }

  ghost predicate Transitive<K(!new)>(le: (K, K) -> bool) {
    forall a, b, c :: le(a, b) && le(b, c) ==> le(a, c)
  }

  predicate InBounds(order: seq<nat>, n: nat) {
    forall i :: 0 <= i < |order| ==> order[i] < n
  }

  lemma {:induction false} InBoundsConcat(a: seq<nat>, b: seq<nat>, n: nat)
    requires InBounds(a, n) && InBounds(b, n)
    ensures InBounds(a + b, n)
  {
    forall i | 0 <= i < |a + b|
      ensures (a + b)[i] < n
    {
      if i >= |a| {
        assert (a + b)[i] == b[i - |a|];
      }
    }
  }

  lemma {:induction false} InBoundsSplit(o: seq<nat>, n: nat, k: nat)
    requires InBounds(o, n) && k < |o|
    ensures InBounds(o[..k], n) && InBounds(o[k + 1..], n) && InBounds(o[k..k + 1], n)
    ensures InBounds(o[..k] + o[k + 1..], n)
  {
    var r := o[..k] + o[k + 1..];
    forall i | 0 <= i < |r|
      ensures r[i] < n
    {
      if i >= k {
        assert r[i] == o[i + 1];
      }
    }
  }

  /** The keys taken in the given order never decrease. */
  predicate SortedBy<K>(keys: seq<K>, le: (K, K) -> bool, order: seq<nat>)
    requires InBounds(order, |keys|)
  {
    forall i, j :: 0 <= i < j < |order| ==> le(keys[order[i]], keys[order[j]])
  }

  /** The order of positions lo.. |keys| - 1 after a stable insertion sort. */
  function SortOrderFrom<K>(keys: seq<K>, le: (K, K) -> bool, lo: nat): (r: seq<nat>)
    requires lo <= |keys|
    ensures InBounds(r, |keys|)
    ensures |r| == |keys| - lo
    ensures multiset(r) == multiset(Range(lo, |keys|))
    decreases |keys| - lo
  {
    if lo == |keys| then []
    else
      var rest := SortOrderFrom(keys, le, lo + 1);
      assert Range(lo, |keys|) == [lo] + Range(lo + 1, |keys|);
      Insert(keys, le, lo, rest)
  }

  /** The stable sorted order of all positions of keys. */
  function SortOrder<K>(keys: seq<K>, le: (K, K) -> bool): (r: seq<nat>)
    ensures InBounds(r, |keys|)
    ensures |r| == |keys|
    ensures multiset(r) == multiset(Range(0, |keys|))
  {
    SortOrderFrom(keys, le, 0)
  }

  /** Puts position k before the first position whose key it does not exceed,
      so that k, which came first in the input, stays ahead of equal keys. */
  function Insert<K>(keys: seq<K>, le: (K, K) -> bool, k: nat, order: seq<nat>): (r: seq<nat>)
    requires k < |keys| && InBounds(order, |keys|)
    ensures InBounds(r, |keys|)
    ensures |r| == |order| + 1
    ensures multiset(r) == multiset(order) + multiset{k}
  {
    if order == [] then [k]
    else if le(keys[k], keys[order[0]]) then [k] + order
    else
      assert order == [order[0]] + order[1..];
      [order[0]] + Insert(keys, le, k, order[1..])
  }

  lemma {:induction false} InsertSorted<K(!new)>(keys: seq<K>, le: (K, K) -> bool, k: nat, order: seq<nat>)
    requires Total(le) && Transitive(le)
    requires k < |keys| && InBounds(order, |keys|) && SortedBy(keys, le, order)
    ensures SortedBy(keys, le, Insert(keys, le, k, order))
  {
    var r := Insert(keys, le, k, order);
    if order == [] {
    } else if le(keys[k], keys[order[0]]) {
      forall i, j | 0 <= i < j < |r|
        ensures le(keys[r[i]], keys[r[j]])
      {
        if i == 0 && j > 1 {
          assert le(keys[order[0]], keys[order[j - 1]]);
        }
      }
    } else {
      var head, tail := order[0], order[1..];
      var rest := Insert(keys, le, k, tail);
      InsertSorted(keys, le, k, tail);
      HeadBelowInserted(keys, le, k, order);
      assert r == [head] + rest;
      forall i, j | 0 <= i < j < |r|
        ensures le(keys[r[i]], keys[r[j]])
      {
        if i > 0 {
          assert r[i] == rest[i - 1] && r[j] == rest[j - 1];
        }
      }
    }
  }

  /** When k goes behind the head of the order, the head's key is at most
      every key of the tail with k inserted. */
  lemma {:induction false} HeadBelowInserted<K(!new)>(keys: seq<K>, le: (K, K) -> bool, k: nat, order: seq<nat>)
    requires Total(le)
    requires k < |keys| && InBounds(order, |keys|) && SortedBy(keys, le, order)
    requires order != [] && !le(keys[k], keys[order[0]])
    ensures forall j :: 0 <= j < |Insert(keys, le, k, order[1..])| ==>
      le(keys[order[0]], keys[Insert(keys, le, k, order[1..])[j]])
  {
    var head, tail := order[0], order[1..];
    var rest := Insert(keys, le, k, tail);
    forall j | 0 <= j < |rest|
      ensures le(keys[head], keys[rest[j]])
    {
      assert rest[j] in multiset(tail) + multiset{k} by {
        assert rest[j] in multiset(rest);
      }
      if rest[j] != k {
        assert rest[j] in tail;
        var t :| 0 <= t < |tail| && tail[t] == rest[j];
        assert order[t + 1] == rest[j];
      }
    }
  }

  lemma {:induction false} SortOrderFromSorted<K(!new)>(keys: seq<K>, le: (K, K) -> bool, lo: nat)
    requires Total(le) && Transitive(le) && lo <= |keys|
    ensures SortedBy(keys, le, SortOrderFrom(keys, le, lo))
    decreases |keys| - lo
  {
    if lo < |keys| {
      SortOrderFromSorted(keys, le, lo + 1);
      InsertSorted(keys, le, lo, SortOrderFrom(keys, le, lo + 1));
    }
  }

  /** Entries come out in input order whenever the later one's key does not
      exceed the earlier one's: equal keys keep their relative order. */
  predicate StableBy<K>(keys: seq<K>, le: (K, K) -> bool, order: seq<nat>)
    requires InBounds(order, |keys|)
  {
    forall i, j :: 0 <= i < j < |order| && le(keys[order[j]], keys[order[i]]) ==> order[i] < order[j]
  }

  /** Insertion adds k and nothing else. */
  lemma {:induction false} InsertMembers<K>(keys: seq<K>, le: (K, K) -> bool, k: nat, order: seq<nat>)
    requires k < |keys| && InBounds(order, |keys|)
    ensures forall j :: 0 <= j < |Insert(keys, le, k, order)| ==>
      Insert(keys, le, k, order)[j] == k || Insert(keys, le, k, order)[j] in order
  {
    if order != [] && !le(keys[k], keys[order[0]]) {
      var tail := order[1..];
      var rest := Insert(keys, le, k, tail);
      InsertMembers(keys, le, k, tail);
      forall j | 0 <= j < |rest|
        ensures rest[j] == k || rest[j] in order
      {
        if rest[j] != k {
          var t :| 0 <= t < |tail| && tail[t] == rest[j];
          assert order[t + 1] == rest[j];
        }
      }
    }
  }

  /** Inserting a position that precedes all others in the input keeps the
      order stable. */
  lemma {:induction false} InsertStable<K>(keys: seq<K>, le: (K, K) -> bool, k: nat, order: seq<nat>)
    requires k < |keys| && InBounds(order, |keys|) && StableBy(keys, le, order)
    requires forall i :: 0 <= i < |order| ==> k < order[i]
    ensures StableBy(keys, le, Insert(keys, le, k, order))
  {
    var r := Insert(keys, le, k, order);
    if order == [] {
    } else if le(keys[k], keys[order[0]]) {
      assert r == [k] + order;
      forall i, j | 0 <= i < j < |r| && le(keys[r[j]], keys[r[i]])
        ensures r[i] < r[j]
      {
        assert r[j] == order[j - 1];
        if i > 0 {
          assert r[i] == order[i - 1];
        }
      }
    } else {
      var head, tail := order[0], order[1..];
      var rest := Insert(keys, le, k, tail);
      assert StableBy(keys, le, tail) by {
        forall i, j | 0 <= i < j < |tail| && le(keys[tail[j]], keys[tail[i]])
          ensures tail[i] < tail[j]
        {
          assert tail[i] == order[i + 1] && tail[j] == order[j + 1];
        }
      }
      InsertStable(keys, le, k, tail);
      InsertMembers(keys, le, k, tail);
      assert r == [head] + rest;
      forall i, j | 0 <= i < j < |r| && le(keys[r[j]], keys[r[i]])
        ensures r[i] < r[j]
      {
        assert r[j] == rest[j - 1];
        if i > 0 {
          assert r[i] == rest[i - 1];
        } else if rest[j - 1] != k {
          var t :| 0 <= t < |tail| && tail[t] == rest[j - 1];
          assert order[t + 1] == rest[j - 1];
        }
      }
    }
  }

  /** The sort order of positions lo.. is stable and names no position
      before lo. */
  lemma {:induction false} SortOrderFromStable<K>(keys: seq<K>, le: (K, K) -> bool, lo: nat)
    requires lo <= |keys|
    ensures StableBy(keys, le, SortOrderFrom(keys, le, lo))
    ensures forall i :: 0 <= i < |SortOrderFrom(keys, le, lo)| ==> lo <= SortOrderFrom(keys, le, lo)[i]
    decreases |keys| - lo
  {
    if lo < |keys| {
      var rest := SortOrderFrom(keys, le, lo + 1);
      var r := SortOrderFrom(keys, le, lo);
      SortOrderFromStable(keys, le, lo + 1);
      InsertStable(keys, le, lo, rest);
      InsertMembers(keys, le, lo, rest);
      forall i | 0 <= i < |r|
        ensures lo <= r[i]
      {
        if r[i] != lo {
          var t :| 0 <= t < |rest| && rest[t] == r[i];
        }
      }
    }
  }

  /** For a total preorder, the sort order takes every position exactly once,
      the keys come out in non-decreasing order, and entries with equal keys
      keep their input order. */
  lemma {:induction false} SortOrderCorrect<K(!new)>(keys: seq<K>, le: (K, K) -> bool)
    requires Total(le) && Transitive(le)
    ensures |SortOrder(keys, le)| == |keys|
    ensures forall i: nat :: i < |keys| ==> multiset(SortOrder(keys, le))[i] == 1
    ensures SortedBy(keys, le, SortOrder(keys, le))
    ensures StableBy(keys, le, SortOrder(keys, le))
  {
    var r: seq<nat> := SortOrder(keys, le);
    SortOrderFromSorted(keys, le, 0);
    SortOrderFromStable(keys, le, 0);
    assert |r| == |multiset(r)| == |multiset(Range(0, |keys|))|;
    forall i: nat | i < |keys|
      ensures multiset(r)[i] == 1
    {
      RangeCount(0, |keys|, i);
    }
  }

  /** No element occurs twice. */
  predicate Distinct<T(==)>(s: seq<T>) {
    forall i, j :: 0 <= i < j < |s| ==> s[i] != s[j]
  }

  /** A sort order never names a position twice. */
  lemma {:induction false} SortOrderDistinct<K>(keys: seq<K>, le: (K, K) -> bool)
    ensures Distinct(SortOrder(keys, le))
  {
    var r := SortOrder(keys, le);
    forall a, b | 0 <= a < b < |r|
      ensures r[a] != r[b]
    {
      var v := r[a];
      assert r == r[..b] + r[b..];
      assert multiset(r)[v] == multiset(r[..b])[v] + multiset(r[b..])[v];
      assert v in multiset(r[..b]) by {
        assert r[..b][a] == v;
      }
      RangeCount(0, |keys|, v);
      assert multiset(r[b..])[v] == 0;
      assert r[b..][0] == r[b];
    }
  }

  /** Taking distinct elements at distinct positions gives distinct elements. */
  lemma {:induction false} PermutedDistinct<T>(s: seq<T>, order: seq<nat>)
    requires InBounds(order, |s|) && Distinct(s) && Distinct(order)
    ensures Distinct(Permuted(s, order))
  {
  }

  lemma {:induction false} RangeCount(lo: nat, hi: nat, i: nat)
    requires lo <= i < hi
    ensures multiset(Range(lo, hi))[i] == 1
    decreases hi - lo
  {
    assert Range(lo, hi) == [lo] + Range(lo + 1, hi);
    if i > lo {
      RangeCount(lo + 1, hi, i);
    } else if lo + 1 < hi {
      RangeAbove(lo + 1, hi);
    } else {
      assert Range(lo + 1, hi) == [];
    }
  }

  lemma {:induction false} RangeAbove(lo: nat, hi: nat)
    requires lo <= hi
    ensures lo - 1 !in Range(lo, hi)
  {
  }

  /** The elements of s taken in the given order. */
  function Permuted<T>(s: seq<T>, order: seq<nat>): (r: seq<T>)
    requires InBounds(order, |s|)
    ensures |r| == |order|
    ensures forall i :: 0 <= i < |r| ==> r[i] == s[order[i]]
  {
    seq(|order|, i requires 0 <= i < |order| => s[order[i]])
  }

  lemma {:induction false} PermutedAppend<T>(s: seq<T>, a: seq<nat>, b: seq<nat>)
    requires InBounds(a, |s|) && InBounds(b, |s|)
    ensures InBounds(a + b, |s|)
    ensures Permuted(s, a + b) == Permuted(s, a) + Permuted(s, b)
  {
  }

  lemma {:induction false} PermutedAppendMultiset<T>(s: seq<T>, a: seq<nat>, b: seq<nat>)
    requires InBounds(a, |s|) && InBounds(b, |s|)
    ensures InBounds(a + b, |s|)
    ensures multiset(Permuted(s, a + b)) == multiset(Permuted(s, a)) + multiset(Permuted(s, b))
  {
    InBoundsConcat(a, b, |s|);
    PermutedAppend(s, a, b);
  }

  lemma {:induction false} MultisetRegroup<T>(x: multiset<T>, t: multiset<T>, f: multiset<T>, b: multiset<T>)
    requires t == f + b
    ensures x + t == f + x + b
  {
  }

  /** Taking position k out of o2, which holds the head of o1: the two
      remainders still take the same positions equally often. */
  lemma {:induction false} TakeOutHead(n: nat, o1: seq<nat>, o2: seq<nat>, k: nat)
    requires InBounds(o1, n) && InBounds(o2, n) && multiset(o1) == multiset(o2)
    requires o1 != [] && k < |o2| && o2[k] == o1[0]
    ensures o1 == [o1[0]] + o1[1..] && o2 == o2[..k] + [o1[0]] + o2[k + 1..]
    ensures InBounds(o1[1..], n) && InBounds(o2[..k], n) && InBounds(o2[k + 1..], n)
    ensures InBounds(o2[..k] + o2[k + 1..], n)
    ensures multiset(o1[1..]) == multiset(o2[..k] + o2[k + 1..])
  {
    var x := o1[0];
    InBoundsSplit(o2, n, k);
    InBoundsSplit(o1, n, 0);
    var front, back, tail := o2[..k], o2[k + 1..], o1[1..];
    assert o2[k..k + 1] == [x] && o1[0..1] == [x];
    assert o2 == front + [x] + back;
    assert o1 == [x] + tail;
    assert multiset(tail) == multiset(o1) - multiset{x};
    assert multiset(front + back) == multiset(o2) - multiset{x};
  }

  /** Putting one position back at the front of one order and between the
      parts of the other keeps the taken elements equally often. */
  lemma {:induction false} PutBack<T>(s: seq<T>, x: nat, tail: seq<nat>, front: seq<nat>, back: seq<nat>)
    requires x < |s| && InBounds(tail, |s|) && InBounds(front, |s|) && InBounds(back, |s|)
    requires InBounds(front + back, |s|)
    requires multiset(Permuted(s, tail)) == multiset(Permuted(s, front + back))
    ensures InBounds([x] + tail, |s|) && InBounds(front + [x] + back, |s|)
    ensures multiset(Permuted(s, [x] + tail)) == multiset(Permuted(s, front + [x] + back))
  {
    PermutedAppendMultiset(s, [x], tail);
    PermutedAppendMultiset(s, front, [x]);
    PermutedAppendMultiset(s, front + [x], back);
    PermutedAppendMultiset(s, front, back);
    var mx, mt, mf, mb := multiset(Permuted(s, [x])), multiset(Permuted(s, tail)),
                          multiset(Permuted(s, front)), multiset(Permuted(s, back));
    MultisetRegroup(mx, mt, mf, mb);
  }

  /** Orders that take the same positions equally often take the same
      elements equally often. */
  lemma {:induction false} PermutedSameMultiset<T>(s: seq<T>, o1: seq<nat>, o2: seq<nat>)
    requires InBounds(o1, |s|) && InBounds(o2, |s|) && multiset(o1) == multiset(o2)
    ensures multiset(Permuted(s, o1)) == multiset(Permuted(s, o2))
    decreases |o1|
  {
    if o1 == [] {
      assert |multiset(o2)| == 0;
    } else {
      var x := o1[0];
      assert x in multiset(o2);
      var k :| 0 <= k < |o2| && o2[k] == x;
      TakeOutHead(|s|, o1, o2, k);
      var front, back, tail := o2[..k], o2[k + 1..], o1[1..];
      PermutedSameMultiset(s, tail, front + back);
      PutBack(s, x, tail, front, back);
    }
  }

  /** Taking the elements in a sort order rearranges them without losing or
      duplicating any. */
  lemma {:induction false} SortOrderPermutes<T, K>(s: seq<T>, keys: seq<K>, le: (K, K) -> bool)
    requires |keys| == |s|
    ensures multiset(Permuted(s, SortOrder(keys, le))) == multiset(s)
  {
    var order := SortOrder(keys, le);
    var id := Range(0, |s|);
    PermutedSameMultiset(s, order, id);
    assert Permuted(s, id) == s;
  }
}
