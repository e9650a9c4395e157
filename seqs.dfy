/** Order-preserving filtering (`Array.prototype.filter`) and the
    subsequence relation used to state that an operation keeps order. */
module Seqs {

  /** `sub` can be obtained from `s` by deleting elements. */
  ghost predicate IsSubsequence<T>(sub: seq<T>, s: seq<T>)
    decreases |s|
  {
    if sub == [] then true
    else if s == [] then false
    else if sub[|sub| - 1] == s[|s| - 1] then IsSubsequence(sub[..|sub| - 1], s[..|s| - 1])
    else IsSubsequence(sub, s[..|s| - 1])
  }

  /** The elements of `s` satisfying `p`, in their order in `s`. */
  function Filter<T>(s: seq<T>, p: T -> bool): (r: seq<T>)
    ensures |r| <= |s|
    ensures forall x :: x in r ==> x in s && p(x)
    ensures forall x :: x in s && p(x) ==> x in r
    decreases |s|
  {
    if s == [] then []
    else
      var init := Filter(s[..|s| - 1], p);
      assert forall x :: x in s ==> x in s[..|s| - 1] || x == s[|s| - 1];
      if p(s[|s| - 1]) then init + [s[|s| - 1]] else init
  }

  lemma {:induction false} SubsequenceRefl<T>(s: seq<T>)
    ensures IsSubsequence(s, s)
    decreases |s|
  {
    if s != [] {
      SubsequenceRefl(s[..|s| - 1]);
    }
  }

  /** Filtering keeps the relative order of the kept elements. */
  lemma {:induction false} FilterIsSubsequence<T>(s: seq<T>, p: T -> bool)
    ensures IsSubsequence(Filter(s, p), s)
    decreases |s|
  {
    if s != [] {
      var init := s[..|s| - 1];
      FilterIsSubsequence(init, p);
      if p(s[|s| - 1]) {
        var r := Filter(init, p) + [s[|s| - 1]];
        assert r[..|r| - 1] == Filter(init, p);
      } else if Filter(init, p) != [] {
        SubsequenceDropLast(Filter(init, p), init, s);
      }
    }
  }

  /** A subsequence of `init` is a subsequence of `init` extended by one element. */
  lemma {:induction false} SubsequenceDropLast<T>(sub: seq<T>, init: seq<T>, s: seq<T>)
    requires s != [] && init == s[..|s| - 1]
    requires IsSubsequence(sub, init)
    ensures IsSubsequence(sub, s)
    decreases |s|, 0
  {
    if sub != [] && sub[|sub| - 1] == s[|s| - 1] {
      // The last elements agree, so the definition strips both.
      assert IsSubsequence(sub[..|sub| - 1], init) by {
        SubsequenceShorter(sub, init);
      }
    }
  }

  /** Dropping the last element of a subsequence keeps it a subsequence. */
  lemma {:induction false} SubsequenceShorter<T>(sub: seq<T>, s: seq<T>)
    requires sub != []
    requires IsSubsequence(sub, s)
    ensures IsSubsequence(sub[..|sub| - 1], s)
    decreases |s|, 1
  {
    if sub[|sub| - 1] == s[|s| - 1] {
      if sub[..|sub| - 1] != [] {
        SubsequenceDropLast(sub[..|sub| - 1], s[..|s| - 1], s);
      }
    } else {
      SubsequenceShorter(sub, s[..|s| - 1]);
      if sub[..|sub| - 1] != [] {
        SubsequenceDropLast(sub[..|sub| - 1], s[..|s| - 1], s);
      }
    }
  }

  /** Filtering twice with a stronger predicate is filtering once: a filter by
      `q` is a subsequence of the filter by `p` whenever `q` implies `p`. */
  lemma {:induction false} FilterMonotone<T>(s: seq<T>, p: T -> bool, q: T -> bool)
    requires forall x :: q(x) ==> p(x)
    ensures IsSubsequence(Filter(s, q), Filter(s, p))
    decreases |s|
  {
    if s != [] {
      var init := s[..|s| - 1];
      var last := s[|s| - 1];
      FilterMonotone(init, p, q);
      if q(last) {
        var r := Filter(init, q) + [last];
        var t := Filter(init, p) + [last];
        assert r[..|r| - 1] == Filter(init, q);
        assert t[..|t| - 1] == Filter(init, p);
      } else if p(last) && Filter(init, q) != [] {
        var t := Filter(init, p) + [last];
        assert t[..|t| - 1] == Filter(init, p);
        SubsequenceDropLast(Filter(init, q), Filter(init, p), t);
      }
    }
  }

  /** Filtering by a predicate every element satisfies changes nothing. */
  lemma {:induction false} FilterAll<T>(s: seq<T>, p: T -> bool)
    requires forall i :: 0 <= i < |s| ==> p(s[i])
    ensures Filter(s, p) == s
    decreases |s|
  {
    if s != [] {
      FilterAll(s[..|s| - 1], p);
      assert s[..|s| - 1] + [s[|s| - 1]] == s;
    }
  }

  /** Filtering by a predicate no element satisfies leaves nothing. */
  lemma {:induction false} FilterNone<T>(s: seq<T>, p: T -> bool)
    requires forall i :: 0 <= i < |s| ==> !p(s[i])
    ensures Filter(s, p) == []
    decreases |s|
  {
    if s != [] {
      FilterNone(s[..|s| - 1], p);
    }
  }

  /** Filtering a concatenation filters each part. */
  lemma {:induction false} FilterConcat<T>(a: seq<T>, b: seq<T>, p: T -> bool)
    ensures Filter(a + b, p) == Filter(a, p) + Filter(b, p)
    decreases |b|
  {
    if b == [] {
      assert a + b == a;
    } else {
      var init, last := b[..|b| - 1], b[|b| - 1];
      FilterConcat(a, init, p);
      assert (a + b)[..|a + b| - 1] == a + init;
      assert (a + b)[|a + b| - 1] == last;
      if p(last) {
        assert Filter(a + b, p) == Filter(a + init, p) + [last];
        assert Filter(b, p) == Filter(init, p) + [last];
      } else {
        assert Filter(a + b, p) == Filter(a + init, p);
        assert Filter(b, p) == Filter(init, p);
      }
    }
  }

  /** An element put in front of two lists whose filters differ by a suffix `c` keeps that difference. */
  lemma FilterConsSuffix<T>(x: T, t: seq<T>, rest: seq<T>, c: seq<T>, p: T -> bool)
    requires Filter(rest, p) == Filter(t, p) + c
    ensures Filter([x] + rest, p) == Filter([x] + t, p) + c
  {
    calc {
      Filter([x] + rest, p);
      { FilterConcat([x], rest, p); }
      Filter([x], p) + Filter(rest, p);
      Filter([x], p) + (Filter(t, p) + c);
      (Filter([x], p) + Filter(t, p)) + c;
      { FilterConcat([x], t, p); }
      Filter([x] + t, p) + c;
    }
  }

  /** Filtering keeps the multiplicity of every kept value and drops all others. */
  lemma {:induction false} FilterCount<T>(s: seq<T>, p: T -> bool, x: T)
    ensures multiset(Filter(s, p))[x] == if p(x) then multiset(s)[x] else 0
    decreases |s|
  {
    if s != [] {
      FilterCount(s[..|s| - 1], p, x);
      assert s == s[..|s| - 1] + [s[|s| - 1]];
    }
  }
}
