/**
 `intersectionOfArrays` (src/utils/intersectionOfArrays.ts): the elements of the
 first array that occur in every array, kept in the first array's order and
 with its duplicates.
 */
module Intersection {

  /** `x` occurs in every one of `arrays`. */
  predicate InAll<T(==)>(x: T, arrays: seq<seq<T>>) {
    forall k | 0 <= k < |arrays| :: x in arrays[k]
  }

  /** One step of the reduction: the items of `acc`, in order, that also occur in `arr`. */
  function KeepMembers<T(==)>(acc: seq<T>, arr: seq<T>): (r: seq<T>)
    ensures |r| <= |acc|
  {
    if acc == [] then []
    else (if acc[0] in arr then [acc[0]] else []) + KeepMembers(acc[1..], arr)
  }

  /** Reference definition: the elements of `s` that occur in all of `arrays`. */
  function KeepCommon<T(==)>(s: seq<T>, arrays: seq<seq<T>>): seq<T> {
    if s == [] then []
    else (if InAll(s[0], arrays) then [s[0]] else []) + KeepCommon(s[1..], arrays)
  }

  /** `a` is `b` with some elements deleted, order kept. */
  predicate IsSubsequence<T(==)>(a: seq<T>, b: seq<T>)
    decreases |b|
  {
    if a == [] then true
    else if b == [] then false
    else if a[0] == b[0] then IsSubsequence(a[1..], b[1..])
    else IsSubsequence(a, b[1..])
  }

  /** The array the reduction starts from: `arrays[0] || []`. */
  function Initial<T>(arrays: seq<seq<T>>): seq<T> {
    if |arrays| == 0 then [] else arrays[0]
  }

  /**
   `intersectionOfArrays(arrays)`: reduce over every array (the first one
   included), filtering the accumulator by membership.
   */
  method IntersectionOfArrays<T(==)>(arrays: seq<seq<T>>) returns (r: seq<T>)
    ensures r == KeepCommon(Initial(arrays), arrays)
    ensures |arrays| == 0 ==> r == []
    ensures |r| <= |Initial(arrays)|
  {
    r := Initial(arrays);
    KeepCommonNothing(r);
    var i := 0;
    while i < |arrays|
      invariant 0 <= i <= |arrays|
      invariant r == KeepCommon(Initial(arrays), arrays[..i])
    {
      KeepMembersStep(Initial(arrays), arrays[..i], arrays[i]);
      assert arrays[..i + 1] == arrays[..i] + [arrays[i]];
      r := KeepMembers(r, arrays[i]);
      i := i + 1;
    }
    assert arrays[..i] == arrays;
    KeepCommonLength(Initial(arrays), arrays);
  }

  /** With no arrays to check against, every element is kept. */
  lemma {:induction false} KeepCommonNothing<T>(s: seq<T>)
    ensures KeepCommon(s, []) == s
  {
    if s != [] {
      KeepCommonNothing(s[1..]);
    }
  }

  /** One reduction step adds one array to the ones every kept element must be in. */
  lemma {:induction false} KeepMembersStep<T>(s: seq<T>, arrays: seq<seq<T>>, arr: seq<T>)
    ensures KeepMembers(KeepCommon(s, arrays), arr) == KeepCommon(s, arrays + [arr])
  {
    if s != [] {
      KeepMembersStep(s[1..], arrays, arr);
      assert InAll(s[0], arrays + [arr]) <==> InAll(s[0], arrays) && s[0] in arr by {
        if InAll(s[0], arrays) && s[0] in arr {
          forall k | 0 <= k < |arrays + [arr]|
            ensures s[0] in (arrays + [arr])[k]
          {
            if k < |arrays| { assert (arrays + [arr])[k] == arrays[k]; }
          }
        }
        if InAll(s[0], arrays + [arr]) {
          assert (arrays + [arr])[|arrays|] == arr;
          forall k | 0 <= k < |arrays|
            ensures s[0] in arrays[k]
          {
            assert (arrays + [arr])[k] == arrays[k];
          }
        }
      }
      var rest := KeepCommon(s[1..], arrays);
      if InAll(s[0], arrays) {
        assert KeepCommon(s, arrays) == [s[0]] + rest;
        assert ([s[0]] + rest)[0] == s[0];
        assert ([s[0]] + rest)[1..] == rest;
      } else {
        assert KeepCommon(s, arrays) == rest;
      }
    }
  }

  lemma {:induction false} KeepCommonLength<T>(s: seq<T>, arrays: seq<seq<T>>)
    ensures |KeepCommon(s, arrays)| <= |s|
  {
    if s != [] {
      KeepCommonLength(s[1..], arrays);
    }
  }

  /** A subsequence of `b` is also one of any extension `[x] + b`. */
  lemma {:induction false} SubsequenceOfCons<T>(a: seq<T>, x: T, b: seq<T>)
    requires IsSubsequence(a, b)
    ensures IsSubsequence(a, [x] + b)
    decreases |b|, 1
  {
    var xb := [x] + b;
    assert xb[1..] == b;
    if a != [] && a[0] == x {
      // Matching greedily against `x` leaves `a[1..]`, a subsequence of `b`.
      SubsequenceDropHead(a, b);
    }
  }

  /** Dropping the head of a subsequence keeps a subsequence. */
  lemma {:induction false} SubsequenceDropHead<T>(a: seq<T>, b: seq<T>)
    requires a != [] && IsSubsequence(a, b)
    ensures IsSubsequence(a[1..], b)
    decreases |b|, 0
  {
    assert b != [];
    if a[0] == b[0] {
      SubsequenceOfCons(a[1..], b[0], b[1..]);
      assert [b[0]] + b[1..] == b;
    } else {
      SubsequenceDropHead(a, b[1..]);
      SubsequenceOfCons(a[1..], b[0], b[1..]);
      assert [b[0]] + b[1..] == b;
    }
  }

  /** The result keeps the first array's order: it is a subsequence of it. */
  lemma {:induction false} KeepCommonIsSubsequence<T>(s: seq<T>, arrays: seq<seq<T>>)
    ensures IsSubsequence(KeepCommon(s, arrays), s)
  {
    if s != [] {
      KeepCommonIsSubsequence(s[1..], arrays);
      var rest := KeepCommon(s[1..], arrays);
      if InAll(s[0], arrays) {
        var r := [s[0]] + rest;
        assert r[0] == s[0] && r[1..] == rest;
      } else {
        assert KeepCommon(s, arrays) == rest;
        SubsequenceOfCons(rest, s[0], s[1..]);
        assert [s[0]] + s[1..] == s;
      }
    }
  }

  /**
   Exactly the occurrences of common elements are kept: an element found in all
   arrays keeps every occurrence it has in `s`, and any other element has none.
   */
  lemma {:induction false} KeepCommonCounts<T>(s: seq<T>, arrays: seq<seq<T>>, x: T)
    ensures multiset(KeepCommon(s, arrays))[x] == (if InAll(x, arrays) then multiset(s)[x] else 0)
  {
    if s != [] {
      KeepCommonCounts(s[1..], arrays, x);
      assert s == [s[0]] + s[1..];
      assert multiset(s) == multiset([s[0]]) + multiset(s[1..]);
      var rest := KeepCommon(s[1..], arrays);
      if InAll(s[0], arrays) {
        assert multiset([s[0]] + rest) == multiset([s[0]]) + multiset(rest);
      }
    }
  }

  /** Every element of the result occurs in every input array. */
  lemma {:induction false} KeepCommonMembers<T>(s: seq<T>, arrays: seq<seq<T>>)
    ensures forall x | x in KeepCommon(s, arrays) :: InAll(x, arrays) && x in s
  {
    forall x | x in KeepCommon(s, arrays)
      ensures InAll(x, arrays) && x in s
    {
      KeepCommonCounts(s, arrays, x);
      assert x in multiset(KeepCommon(s, arrays));
    }
  }

  /**
   The properties of `intersectionOfArrays` in one place: the result is an
   order-keeping subsequence of the first array, holding exactly the occurrences
   of the elements common to all arrays; no arrays give [], one array gives it back.
   */
  lemma {:induction false} IntersectionProperties<T>(arrays: seq<seq<T>>)
    ensures |arrays| == 0 ==> KeepCommon(Initial(arrays), arrays) == []
    ensures |arrays| == 1 ==> KeepCommon(Initial(arrays), arrays) == arrays[0]
    ensures IsSubsequence(KeepCommon(Initial(arrays), arrays), Initial(arrays))
    ensures forall x | x in KeepCommon(Initial(arrays), arrays) :: InAll(x, arrays)
    ensures forall x | InAll(x, arrays) ::
      multiset(KeepCommon(Initial(arrays), arrays))[x] == multiset(Initial(arrays))[x]
  {
    var s := Initial(arrays);
    KeepCommonIsSubsequence(s, arrays);
    KeepCommonMembers(s, arrays);
    forall x | InAll(x, arrays)
      ensures multiset(KeepCommon(s, arrays))[x] == multiset(s)[x]
    {
      KeepCommonCounts(s, arrays, x);
    }
    if |arrays| == 1 {
      KeepCommonSelf(arrays[0], arrays);
    }
  }

  /** Filtering a sequence by arrays that all contain it keeps all of it. */
  lemma {:induction false} KeepCommonSelf<T>(s: seq<T>, arrays: seq<seq<T>>)
    requires forall k | 0 <= k < |arrays| :: arrays[k] == s
    ensures KeepCommon(s, arrays) == s
  {
    KeepCommonAllCommon(s, s, arrays);
  }

  lemma {:induction false} KeepCommonAllCommon<T>(s: seq<T>, whole: seq<T>, arrays: seq<seq<T>>)
    requires forall k | 0 <= k < |arrays| :: arrays[k] == whole
    requires forall i | 0 <= i < |s| :: s[i] in whole
    ensures KeepCommon(s, arrays) == s
  {
    if s != [] {
      assert InAll(s[0], arrays);
      KeepCommonAllCommon(s[1..], whole, arrays);
    }
  }
}
