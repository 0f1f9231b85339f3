/** Sequence facts shared by the model: duplicate-freedom and first-occurrence
    deduplication, which is the iteration order of a Python dict filled by insertion. */
module Seqs {
  import opened Common

  /** No element occurs twice. */
  predicate NoDup<T(==)>(s: seq<T>) {
    forall i, j :: 0 <= i < j < |s| ==> s[i] != s[j]
  }

  /** `acc` followed by every element of `s` not yet present, each at its first occurrence. */
  function Extend<T(==, !new)>(acc: seq<T>, s: seq<T>): (r: seq<T>)
    ensures |acc| <= |r| && r[..|acc|] == acc
    ensures forall x :: x in r <==> x in acc || x in s
    ensures NoDup(acc) ==> NoDup(r)
    decreases |s|
  {
    if |s| == 0 then acc
    else
      var p := Extend(acc, s[..|s| - 1]);
      if s[|s| - 1] in p then p else p + [s[|s| - 1]]
  }

  /** The distinct elements of `s` in first-occurrence order. */
  function Dedup<T(==, !new)>(s: seq<T>): (r: seq<T>)
    ensures NoDup(r)
    ensures forall x :: x in r <==> x in s
  {
    Extend([], s)
  }

  /** A prefix one element longer is the prefix with that element appended. */
  lemma TakeNext<T>(s: seq<T>, j: nat)
    requires j < |s|
    ensures s[..j + 1] == s[..j] + [s[j]]
  {
  }

  /** Deduplicating one more element appends it exactly when it is new. */
  lemma DedupSnoc<T(!new)>(s: seq<T>, x: T)
    ensures Dedup(s + [x]) == if x in Dedup(s) then Dedup(s) else Dedup(s) + [x]
  {
    assert (s + [x])[..|s|] == s;
  }

  /** Extending by a concatenation is extending twice. */
  lemma {:induction false} ExtendAppend<T(!new)>(acc: seq<T>, a: seq<T>, b: seq<T>)
    ensures Extend(acc, a + b) == Extend(Extend(acc, a), b)
    decreases |b|
  {
    if |b| == 0 {
      assert a + b == a;
    } else {
      assert (a + b)[..|a + b| - 1] == a + b[..|b| - 1];
      ExtendAppend(acc, a, b[..|b| - 1]);
    }
  }

  /** Some occurrence of `x` in `s` comes before every occurrence of `y`. */
  ghost predicate Precedes<T>(s: seq<T>, x: T, y: T) {
    exists i :: 0 <= i < |s| && s[i] == x && y !in s[..i]
  }

  /** Deduplication keeps the order of first occurrences. */
  lemma {:induction false} DedupOrder<T(!new)>(s: seq<T>)
    ensures forall p, q :: 0 <= p < q < |Dedup(s)| ==> Precedes(s, Dedup(s)[p], Dedup(s)[q])
    decreases |s|
  {
    if |s| > 0 {
      var s0 := s[..|s| - 1];
      var x := s[|s| - 1];
      var r0 := Dedup(s0);
      var r := Dedup(s);
      assert s == s0 + [x];
      DedupOrder(s0);
      forall a, b | Precedes(s0, a, b)
        ensures Precedes(s, a, b)
      {
        var i :| 0 <= i < |s0| && s0[i] == a && b !in s0[..i];
        assert s[..i] == s0[..i];
      }
      if x !in r0 {
        assert r == r0 + [x];
        forall p | 0 <= p < |r0|
          ensures Precedes(s, r[p], x)
        {
          assert r0[p] in s0;
          var i :| 0 <= i < |s0| && s0[i] == r0[p];
          assert s[..i] == s0[..i];
          assert x !in s0;
          assert x !in s0[..i];
        }
      }
    }
  }

  /** `a` is `b` with some elements left out: the elements of `a` occur in `b`
      in the same order. */
  predicate Subsequence<T(==)>(a: seq<T>, b: seq<T>)
    decreases |b|
  {
    if a == [] then true
    else if b == [] then false
    else (a[|a| - 1] == b[|b| - 1] && Subsequence(a[..|a| - 1], b[..|b| - 1]))
         || Subsequence(a, b[..|b| - 1])
  }

  /** A subsequence of `b` is one of every extension of `b`. */
  lemma {:induction false} SubsequenceExtend<T>(a: seq<T>, b: seq<T>, c: seq<T>)
    requires Subsequence(a, b)
    ensures Subsequence(a, b + c)
    decreases |c|
  {
    if c != [] {
      assert (b + c)[..|b + c| - 1] == b + c[..|c| - 1];
      SubsequenceExtend(a, b, c[..|c| - 1]);
    } else {
      assert b + c == b;
    }
  }

  /** Extending `b` by one element, a subsequence of `b` may keep that element or leave it out. */
  lemma SubsequenceSnoc<T>(a: seq<T>, b: seq<T>, x: T, keep: bool)
    requires Subsequence(a, b)
    ensures Subsequence(a + (if keep then [x] else []), b + [x])
  {
    var b' := b + [x];
    assert b'[..|b'| - 1] == b;
    if keep {
      var a' := a + [x];
      assert a'[..|a'| - 1] == a;
    } else {
      SubsequenceExtend(a, b, [x]);
      assert a + [] == a;
    }
  }

  /** Collecting the present values of a sequence that agrees with `xs` wherever
      it holds a value picks a subsequence of `xs`. */
  lemma {:induction false} SomesSubsequence<T>(rs: seq<Option<T>>, xs: seq<T>)
    requires |rs| == |xs|
    requires forall i :: 0 <= i < |rs| && rs[i].Some? ==> rs[i].value == xs[i]
    ensures Subsequence(Somes(rs), xs)
  {
    if rs != [] {
      var n := |rs| - 1;
      SomesSubsequence(rs[..n], xs[..n]);
      if rs[n].Some? {
        var out := Somes(rs);
        assert out == Somes(rs[..n]) + [xs[n]];
        assert out[..|out| - 1] == Somes(rs[..n]);
        assert out[|out| - 1] == xs[|xs| - 1];
        assert Subsequence(out[..|out| - 1], xs[..|xs| - 1]);
      } else {
        assert Somes(rs) == Somes(rs[..n]);
        assert xs[..|xs| - 1] == xs[..n];
      }
    }
  }
}
