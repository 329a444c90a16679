/** Result types, and the counting facts that the list comparisons of the catalog rest on. */
module Prelude {

  datatype Option<+T> = None | Some(value: T)

  /** The error classes of internal/northbound/errors that the catalog returns. */
  datatype Error = InvalidArgument | NotFound | AlreadyExists | FailedPrecondition | DatabaseError

  /** A value to go on with, or the error a request is rejected with. */
  datatype Result<+T> = Ok(value: T) | Err(error: Error) {
    predicate IsFailure() { Err? }

    function PropagateFailure<U>(): Result<U>
      requires Err?
    {
      Err(error)
    }

    function Extract(): T
      requires Ok?
    {
      value
    }
  }

  predicate NoDup<T(==)>(s: seq<T>) {
    forall i, j :: 0 <= i < j < |s| ==> s[i] != s[j]
  }

  function Elements<T>(s: seq<T>): set<T> {
    set x | x in s
  }

  /** Keeps the first occurrence of every element. */
  function Dedup<T(==, !new)>(s: seq<T>): (r: seq<T>)
    ensures NoDup(r)
    ensures forall x :: x in r <==> x in s
  {
    if s == [] then [] else
      var r := Dedup(s[..|s| - 1]);
      assert s == s[..|s| - 1] + [s[|s| - 1]];
      if s[|s| - 1] in r then r else r + [s[|s| - 1]]
  }

  lemma {:induction false} DedupOfDistinct<T(!new)>(s: seq<T>)
    requires NoDup(s)
    ensures Dedup(s) == s
  {
    if s != [] {
      var n := |s| - 1;
      DedupOfDistinct(s[..n]);
      assert s == s[..n] + [s[n]];
    }
  }

  function MapSeq<T, U>(f: T -> U, s: seq<T>): (r: seq<U>)
    ensures |r| == |s|
    ensures forall i :: 0 <= i < |s| ==> r[i] == f(s[i])
  {
    seq(|s|, i requires 0 <= i < |s| => f(s[i]))
  }

  function RemoveAt<T>(s: seq<T>, i: nat): seq<T>
    requires i < |s|
  {
    s[..i] + s[i + 1..]
  }

  lemma RemoveAtMultiset<T>(s: seq<T>, i: nat)
    requires i < |s|
    ensures multiset(s) == multiset(RemoveAt(s, i)) + multiset{s[i]}
  {
    assert s == s[..i] + [s[i]] + s[i + 1..];
  }

  /**
   * The argument behind every "same length, and each requested item is present" comparison:
   * if the requested items are pairwise distinct, nothing else can be stored.
   */
  lemma {:induction false} Pigeonhole<T(!new)>(stored: seq<T>, wanted: seq<T>)
    requires |stored| == |wanted|
    requires NoDup(wanted)
    requires forall x :: x in wanted ==> x in stored
    ensures multiset(stored) == multiset(wanted)
    decreases |wanted|
  {
    if wanted != [] {
      var last := |wanted| - 1;
      assert wanted[last] in stored;
      var i :| 0 <= i < |stored| && stored[i] == wanted[last];
      var rest := RemoveAt(stored, i);
      forall x | x in wanted[..last]
        ensures x in rest
      {
        assert x != wanted[last] && x in stored;
        var j :| 0 <= j < |stored| && stored[j] == x;
        assert if j < i then rest[j] == x else rest[j - 1] == x;
      }
      Pigeonhole(rest, wanted[..last]);
      RemoveAtMultiset(stored, i);
      assert wanted == wanted[..last] + [wanted[last]];
    }
  }

  lemma MultisetMembers<T(!new)>(s: seq<T>, t: seq<T>)
    requires multiset(s) == multiset(t)
    ensures forall x :: x in s <==> x in t
  {
    forall x ensures x in s <==> x in t {
      assert x in s <==> x in multiset(s);
      assert x in t <==> x in multiset(t);
    }
  }

  lemma CountTwice<T>(s: seq<T>, i: nat, j: nat)
    requires i < j < |s| && s[i] == s[j]
    ensures multiset(s)[s[i]] >= 2
  {
    RemoveAtMultiset(s, j);
    assert RemoveAt(s, j)[i] == s[i];
    assert s[i] in multiset(RemoveAt(s, j));
  }

  lemma {:induction false} DistinctCount<T>(s: seq<T>, x: T)
    requires NoDup(s)
    ensures multiset(s)[x] <= 1
  {
    if s != [] {
      var n := |s| - 1;
      assert s == s[..n] + [s[n]];
      DistinctCount(s[..n], x);
      if x == s[n] {
        assert x !in s[..n];
      }
    }
  }

  /** A list that equals a duplicate-free list up to order has no duplicates either. */
  lemma MultisetKeepsDistinct<T>(s: seq<T>, t: seq<T>)
    requires NoDup(s) && multiset(s) == multiset(t)
    ensures NoDup(t)
  {
    forall i, j | 0 <= i < j < |t|
      ensures t[i] != t[j]
    {
      if t[i] == t[j] {
        CountTwice(t, i, j);
        DistinctCount(s, t[i]);
      }
    }
  }

  /**
   * Exactly when a comparison by length and presence is right: against stored items without
   * duplicates, it certifies equality up to order if and only if the request has no duplicates.
   */
  lemma PigeonholeExact<T(!new)>(stored: seq<T>, wanted: seq<T>)
    requires |stored| == |wanted|
    requires NoDup(stored)
    requires forall x :: x in wanted ==> x in stored
    ensures multiset(stored) == multiset(wanted) <==> NoDup(wanted)
  {
    if NoDup(wanted) {
      Pigeonhole(stored, wanted);
    }
    if multiset(stored) == multiset(wanted) {
      MultisetKeepsDistinct(stored, wanted);
    }
  }

  lemma {:induction false} DistinctSize<T>(s: seq<T>)
    ensures |Elements(s)| <= |s|
    ensures NoDup(s) <==> |Elements(s)| == |s|
  {
    if s == [] {
      assert Elements(s) == {};
    } else {
      var n := |s| - 1;
      DistinctSize(s[..n]);
      assert s == s[..n] + [s[n]];
      if s[n] in s[..n] {
        assert Elements(s) == Elements(s[..n]);
        var i :| 0 <= i < n && s[i] == s[n];
      } else {
        assert Elements(s) == Elements(s[..n]) + {s[n]};
        if NoDup(s[..n]) {
          assert NoDup(s);
        } else {
          assert !NoDup(s);
        }
      }
    }
  }

  lemma {:induction false} MapKeepsMultiset<T, U>(s: seq<T>, t: seq<T>, f: T -> U)
    requires multiset(s) == multiset(t)
    ensures multiset(MapSeq(f, s)) == multiset(MapSeq(f, t))
  {
    hide MapSeq;
    assert |multiset(s)| == |s| && |multiset(t)| == |t|;
    if t != [] {
      var n := |t| - 1;
      assert t[n] in multiset(s);
      var i :| 0 <= i < |s| && s[i] == t[n];
      RemoveAtMultiset(s, i);
      RemoveAtMultiset(t, n);
      assert RemoveAt(t, n) == t[..n];
      assert multiset(RemoveAt(s, i)) == multiset(s) - multiset{t[n]};
      assert multiset(t[..n]) == multiset(t) - multiset{t[n]};
      MapKeepsMultiset(RemoveAt(s, i), t[..n], f);
      MapOfRemoved(s, i, f);
      MapOfRemoved(t, n, f);
    }
  }

  lemma MapOfRemoved<T, U>(s: seq<T>, i: nat, f: T -> U)
    requires i < |s|
    ensures multiset(MapSeq(f, s)) == multiset(MapSeq(f, RemoveAt(s, i))) + multiset{f(s[i])}
  {
    RemoveAtMultiset(MapSeq(f, s), i);
    assert RemoveAt(MapSeq(f, s), i) == MapSeq(f, RemoveAt(s, i));
  }
}
