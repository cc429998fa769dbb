/** Counting, filtering and multiplicity facts over sequences: the
    vocabulary in which pandas' boolean masks, `sum()` and `duplicated()`
    are stated. The number of occurrences of `x` in `s` is Dafny's
    `multiset(s)[x]`. */
module Seqs {

  function Min(a: int, b: int): int {
    if a <= b then a else b
  }

  function Max(a: int, b: int): int {
    if a <= b then b else a
  }

  /** Number of elements of `s` satisfying `p` (a boolean mask's `sum()`). */
  function Count<T>(s: seq<T>, p: T -> bool): (n: nat)
    ensures n <= |s|
  {
    if s == [] then 0 else Count(s[..|s| - 1], p) + (if p(s[|s| - 1]) then 1 else 0)
  }

  /** `f` applied to every element (a column projection or `.str` operation). */
  function Map<T, U>(s: seq<T>, f: T -> U): (r: seq<U>)
    ensures |r| == |s|
    ensures forall i :: 0 <= i < |s| ==> r[i] == f(s[i])
  {
    if s == [] then [] else Map(s[..|s| - 1], f) + [f(s[|s| - 1])]
  }

  /** `r` can be obtained from `s` by deleting elements, keeping the order. */
  predicate IsSubsequence<T(==)>(r: seq<T>, s: seq<T>)
    decreases |s|
  {
    r == [] ||
    (s != [] &&
     (IsSubsequence(r, s[..|s| - 1]) ||
      (r[|r| - 1] == s[|s| - 1] && IsSubsequence(r[..|r| - 1], s[..|s| - 1]))))
  }

  /** The elements of `s` that satisfy `p`, in their original order
      (indexing a frame with a boolean mask). */
  function Filter<T(==)>(s: seq<T>, p: T -> bool): (r: seq<T>)
    ensures |r| == Count(s, p)
    ensures forall i :: 0 <= i < |r| ==> p(r[i])
    ensures forall x :: x in s && p(x) ==> x in r
    ensures forall x :: x in r ==> x in s
    ensures IsSubsequence(r, s)
  {
    if s == [] then []
    else
      var init, last := s[..|s| - 1], s[|s| - 1];
      var r' := Filter(init, p);
      assert s == init + [last];
      if p(last) then
        var r := r' + [last];
        assert r[..|r| - 1] == r';
        r
      else
        r'
  }

  lemma {:induction false} SubsequenceOfItself<T>(s: seq<T>)
    ensures IsSubsequence(s, s)
    decreases |s|
  {
    if s != [] {
      SubsequenceOfItself(s[..|s| - 1]);
    }
  }

  /** Every element of a subsequence is an element of the sequence. */
  lemma {:induction false} SubsequenceMembers<T>(r: seq<T>, s: seq<T>)
    requires IsSubsequence(r, s)
    ensures forall x :: x in r ==> x in s
    decreases |s|
  {
    if r != [] {
      var init := s[..|s| - 1];
      if IsSubsequence(r, init) {
        SubsequenceMembers(r, init);
      } else {
        SubsequenceMembers(r[..|r| - 1], init);
        assert r == r[..|r| - 1] + [s[|s| - 1]];
      }
    }
  }

  /** A subsequence made of elements satisfying `p` is no longer than the
      number of such elements. */
  lemma {:induction false} SubsequenceBound<T>(r: seq<T>, s: seq<T>, p: T -> bool)
    requires IsSubsequence(r, s)
    requires forall i :: 0 <= i < |r| ==> p(r[i])
    ensures |r| <= Count(s, p)
    decreases |s|
  {
    if r != [] {
      var init := s[..|s| - 1];
      if IsSubsequence(r, init) {
        SubsequenceBound(r, init, p);
      } else {
        SubsequenceBound(r[..|r| - 1], init, p);
      }
    }
  }

  /** `Filter` is the only subsequence of `s` made of elements satisfying
      `p` that has `Count(s, p)` elements: its ensures characterise it. */
  lemma {:induction false} FilterUnique<T>(r: seq<T>, s: seq<T>, p: T -> bool)
    requires IsSubsequence(r, s)
    requires forall i :: 0 <= i < |r| ==> p(r[i])
    requires |r| == Count(s, p)
    ensures r == Filter(s, p)
    decreases |s|
  {
    if s != [] {
      var init, last := s[..|s| - 1], s[|s| - 1];
      if r == [] {
        assert |Filter(s, p)| == 0;
      } else if p(last) {
        if IsSubsequence(r, init) {
          SubsequenceBound(r, init, p);
          assert false;
        }
        var front := r[..|r| - 1];
        assert r[|r| - 1] == last && IsSubsequence(front, init);
        assert forall i :: 0 <= i < |front| ==> p(front[i]) by {
          forall i | 0 <= i < |front| ensures p(front[i]) {
            assert front[i] == r[i];
          }
        }
        FilterUnique(front, init, p);
        assert r == front + [last];
      } else {
        assert IsSubsequence(r, init);
        FilterUnique(r, init, p);
      }
    }
  }

  /** When every element satisfies exactly one of `p` and `q`, the two
      counts add up to the length. */
  lemma {:induction false} CountComplement<T>(s: seq<T>, p: T -> bool, q: T -> bool)
    requires forall x :: q(x) == !p(x)
    ensures Count(s, p) + Count(s, q) == |s|
  {
    if s != [] {
      CountComplement(s[..|s| - 1], p, q);
    }
  }

  /** When every element satisfies `p`, all of them are counted. */
  lemma {:induction false} CountAll<T>(s: seq<T>, p: T -> bool)
    requires forall x :: x in s ==> p(x)
    ensures Count(s, p) == |s|
  {
    if s != [] {
      CountAll(s[..|s| - 1], p);
    }
  }

  /** The positions of `s` whose element satisfies `p`. */
  function Positions<T>(s: seq<T>, p: T -> bool): set<int> {
    set i | 0 <= i < |s| && p(s[i])
  }

  /** `Count` is the number of positions whose element satisfies `p`. */
  lemma {:induction false} CountIsPositions<T>(s: seq<T>, p: T -> bool)
    ensures Count(s, p) == |Positions(s, p)|
  {
    if s != [] {
      var n := |s| - 1;
      var init := s[..n];
      CountIsPositions(init, p);
      var a, b := Positions(init, p), Positions(s, p);
      if p(s[n]) {
        assert b == a + {n};
        assert n !in a;
      } else {
        assert b == a;
      }
    }
  }

  /** An element satisfying `p` contributes all its occurrences to `Count`. */
  lemma {:induction false} CountAtLeastMultiplicity<T>(s: seq<T>, p: T -> bool, x: T)
    requires p(x)
    ensures Count(s, p) >= multiset(s)[x]
  {
    if s != [] {
      var init := s[..|s| - 1];
      assert s == init + [s[|s| - 1]];
      CountAtLeastMultiplicity(init, p, x);
    }
  }

  /** The element at position `i` occurs at least twice exactly when some
      other position holds an equal element. */
  lemma TwinIff<T>(s: seq<T>, i: int)
    requires 0 <= i < |s|
    ensures multiset(s)[s[i]] >= 2 <==> exists j :: 0 <= j < |s| && j != i && s[j] == s[i]
  {
    var x := s[i];
    assert s == s[..i] + [x] + s[i + 1..];
    assert multiset(s)[x] == multiset(s[..i])[x] + 1 + multiset(s[i + 1..])[x];
    if multiset(s)[x] >= 2 {
      if x in s[..i] {
        var j :| 0 <= j < i && s[..i][j] == x;
        assert s[j] == x;
      } else {
        assert x in s[i + 1..];
        var j :| 0 <= j < |s| - i - 1 && s[i + 1..][j] == x;
        assert s[i + 1 + j] == x;
      }
    }
    if exists j :: 0 <= j < |s| && j != i && s[j] == s[i] {
      var j :| 0 <= j < |s| && j != i && s[j] == s[i];
      if j < i {
        assert s[..i][j] == x;
      } else {
        assert s[i + 1..][j - i - 1] == x;
      }
    }
  }

  /** No two positions hold equal elements. */
  predicate Distinct<T(==)>(s: seq<T>) {
    forall i, j :: 0 <= i < j < |s| ==> s[i] != s[j]
  }

  /** In a sequence without repetitions every element occurs at most once. */
  lemma {:induction false} DistinctMultiplicity<T>(s: seq<T>, x: T)
    requires Distinct(s)
    ensures multiset(s)[x] == if x in s then 1 else 0
  {
    if s != [] {
      var init := s[..|s| - 1];
      assert s == init + [s[|s| - 1]];
      DistinctMultiplicity(init, x);
    }
  }

  /** Permuting a sequence without repetitions leaves none. */
  lemma DistinctPermutation<T>(a: seq<T>, b: seq<T>)
    requires Distinct(a) && multiset(a) == multiset(b)
    ensures Distinct(b)
  {
    forall i, j | 0 <= i < j < |b|
      ensures b[i] != b[j]
    {
      if b[i] == b[j] {
        TwinIff(b, i);
        DistinctMultiplicity(a, b[i]);
        assert false;
      }
    }
  }

  /** A sequence without repetitions has as many distinct elements as positions. */
  lemma {:induction false} DistinctCardinality<T>(s: seq<T>)
    requires Distinct(s)
    ensures |set x | x in s| == |s|
  {
    if s != [] {
      var init := s[..|s| - 1];
      DistinctCardinality(init);
      assert s == init + [s[|s| - 1]];
      assert (set x | x in s) == (set x | x in init) + {s[|s| - 1]};
    }
  }
}
