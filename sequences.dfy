/** Sequence helpers standing for the array operations the engine uses:
    `new Set(xs)` read back as an array, `Array.prototype.reverse` and `filter`. */
module Sequences {

  predicate NoDuplicates<T(==)>(s: seq<T>)
  {
    forall i, j :: 0 <= i < j < |s| ==> s[i] != s[j]
  }

  /** The distinct elements of `s`, each kept at its first occurrence. */
  function Dedup<T(==,!new)>(s: seq<T>): (r: seq<T>)
    ensures NoDuplicates(r)
    ensures forall x :: x in r <==> x in s
  {
    if s == [] then []
    else
      var d := Dedup(s[..|s| - 1]);
      if s[|s| - 1] in d then d else d + [s[|s| - 1]]
  }

  /** A sequence without duplicates is its own deduplication. */
  lemma {:induction false} DedupOfDistinct<T(!new)>(s: seq<T>)
    requires NoDuplicates(s)
    ensures Dedup(s) == s
  {
    if s != [] {
      var p := s[..|s| - 1];
      assert NoDuplicates(p);
      DedupOfDistinct(p);
      assert s[|s| - 1] !in p;
      assert p + [s[|s| - 1]] == s;
    }
  }

  /** Appending an element already present does not change the deduplication. */
  lemma DedupAppendSeen<T(!new)>(s: seq<T>, x: T)
    requires x in s
    ensures Dedup(s + [x]) == Dedup(s)
  {
    assert (s + [x])[..|s + [x]| - 1] == s;
  }

  /** Appending a new element puts it last. */
  lemma DedupAppendNew<T(!new)>(s: seq<T>, x: T)
    requires x !in s
    ensures Dedup(s + [x]) == Dedup(s) + [x]
  {
    assert (s + [x])[..|s + [x]| - 1] == s;
  }

  /** A sequence without duplicates is no longer than any set holding its elements. */
  lemma {:induction false} DistinctWithin<T>(s: seq<T>, u: set<T>)
    requires NoDuplicates(s) && forall x :: x in s ==> x in u
    ensures |s| <= |u|
  {
    if s != [] {
      var p, x := s[..|s| - 1], s[|s| - 1];
      forall y | y in p ensures y in u - {x} {
        var k :| 0 <= k < |p| && p[k] == y;
        assert s[k] == y;
      }
      DistinctWithin(p, u - {x});
    }
  }

  function Reverse<T>(s: seq<T>): (r: seq<T>)
    ensures |r| == |s|
    ensures forall k :: 0 <= k < |s| ==> r[k] == s[|s| - 1 - k]
  {
    if s == [] then [] else Reverse(s[1..]) + [s[0]]
  }

  lemma ReverseMembers<T>(s: seq<T>)
    ensures forall x :: x in Reverse(s) <==> x in s
  {
    var r := Reverse(s);
    forall x | x in s ensures x in r {
      var k :| 0 <= k < |s| && s[k] == x;
      assert r[|s| - 1 - k] == x;
    }
  }

  lemma ReverseNoDuplicates<T>(s: seq<T>)
    requires NoDuplicates(s)
    ensures NoDuplicates(Reverse(s))
  {
    var r := Reverse(s);
    forall i, j | 0 <= i < j < |r| ensures r[i] != r[j] {
      assert r[i] == s[|s| - 1 - i] && r[j] == s[|s| - 1 - j];
    }
  }

  /** The elements of `s` that are in `keep`, in their order in `s`. */
  function Filter<T(!new)>(s: seq<T>, keep: set<T>): (r: seq<T>)
    ensures forall x :: x in r <==> x in s && x in keep
    ensures |r| <= |s|
  {
    if s == [] then []
    else Filter(s[..|s| - 1], keep) + (if s[|s| - 1] in keep then [s[|s| - 1]] else [])
  }

  /** `Filter(s, keep)` is the subsequence of `s` at the positions holding a kept
      element: `idx` lists those positions, increasing, and misses none of them. */
  lemma {:induction false} FilterPositions<T(!new)>(s: seq<T>, keep: set<T>) returns (idx: seq<nat>)
    ensures |idx| == |Filter(s, keep)|
    ensures forall i :: 0 <= i < |idx| ==> idx[i] < |s| && s[idx[i]] == Filter(s, keep)[i]
    ensures forall i, j :: 0 <= i < j < |idx| ==> idx[i] < idx[j]
    ensures forall k :: 0 <= k < |s| && s[k] in keep ==> k in idx
  {
    if s == [] {
      idx := [];
    } else {
      var p, n := s[..|s| - 1], |s| - 1;
      var prev := FilterPositions(p, keep);
      var f := Filter(p, keep);
      forall i | 0 <= i < |prev| ensures prev[i] < n && s[prev[i]] == f[i] {
        assert p[prev[i]] == s[prev[i]];
      }
      if s[n] in keep {
        idx := prev + [n];
        assert Filter(s, keep) == f + [s[n]];
      } else {
        idx := prev;
        assert Filter(s, keep) == f;
      }
      forall k | 0 <= k < |s| && s[k] in keep ensures k in idx {
        if k < n {
          assert p[k] == s[k] && k in prev;
        }
      }
    }
  }

  lemma {:induction false} FilterNoDuplicates<T(!new)>(s: seq<T>, keep: set<T>)
    requires NoDuplicates(s)
    ensures NoDuplicates(Filter(s, keep))
  {
    if s != [] {
      var p := s[..|s| - 1];
      assert NoDuplicates(p);
      FilterNoDuplicates(p, keep);
      assert s[|s| - 1] !in p;
    }
  }
}
