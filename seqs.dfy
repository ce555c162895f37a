/** Order-preserving selection from a sequence, the pure meaning of
    `Vec::retain`, and the subsequence relation it establishes. */
module Seqs {

  /** The elements of `s` that satisfy `p`, in their order in `s`. */
  function Keep<T>(s: seq<T>, p: T -> bool): (r: seq<T>)
    ensures |r| <= |s|
    decreases |s|
  {
    if s == [] then []
    else Keep(s[..|s| - 1], p) + (if p(s[|s| - 1]) then [s[|s| - 1]] else [])
  }

  /** `a` is `b` with some elements left out, the rest in their order. */
  predicate IsSubsequence<T(==)>(a: seq<T>, b: seq<T>)
    decreases |b|
  {
    if a == [] then true
    else if b == [] then false
    else (a[|a| - 1] == b[|b| - 1] && IsSubsequence(a[..|a| - 1], b[..|b| - 1]))
         || IsSubsequence(a, b[..|b| - 1])
  }

  /** Keep retains an element exactly as often as the input holds it, when it
      satisfies the predicate, and never otherwise. */
  lemma {:induction false} KeepCount<T>(s: seq<T>, p: T -> bool, x: T)
    ensures multiset(Keep(s, p))[x] == if p(x) then multiset(s)[x] else 0
    decreases |s|
  {
    if s != [] {
      KeepCount(s[..|s| - 1], p, x);
      assert s == s[..|s| - 1] + [s[|s| - 1]];
    }
  }

  /** Membership in the result: exactly the elements of `s` that satisfy `p`. */
  lemma KeepMember<T>(s: seq<T>, p: T -> bool, x: T)
    ensures x in Keep(s, p) <==> x in s && p(x)
  {
    KeepCount(s, p, x);
  }

  /** Keep yields an order-preserving subsequence of its input. */
  lemma {:induction false} KeepIsSubsequence<T>(s: seq<T>, p: T -> bool)
    ensures IsSubsequence(Keep(s, p), s)
    decreases |s|
  {
    if s != [] {
      var init := s[..|s| - 1];
      KeepIsSubsequence(init, p);
      if p(s[|s| - 1]) {
        var r := Keep(s, p);
        assert r[..|r| - 1] == Keep(init, p);
      } else {
        assert Keep(s, p) == Keep(init, p) + [];
        SubsequenceOfPrefix(Keep(init, p), init, s);
        assert IsSubsequence(Keep(init, p), s);
        assert Keep(s, p) == Keep(init, p);
      }
    }
  }

  /** A subsequence of a prefix of `b` obtained by dropping its last element
      is a subsequence of `b`. */
  lemma SubsequenceOfPrefix<T>(a: seq<T>, init: seq<T>, b: seq<T>)
    requires b != [] && init == b[..|b| - 1]
    requires IsSubsequence(a, init)
    ensures IsSubsequence(a, b)
  {
  }

  /** When no element satisfies `p`, Keep yields nothing. */
  lemma {:induction false} KeepNone<T>(s: seq<T>, p: T -> bool)
    requires forall i :: 0 <= i < |s| ==> !p(s[i])
    ensures Keep(s, p) == []
    decreases |s|
  {
    if s != [] {
      KeepNone(s[..|s| - 1], p);
    }
  }

  /** Keep over one more element at the end. */
  lemma KeepSnoc<T>(s: seq<T>, x: T, p: T -> bool)
    ensures Keep(s + [x], p) == Keep(s, p) + (if p(x) then [x] else [])
  {
    assert (s + [x])[..|s + [x]| - 1] == s;
  }

  /** Keep over a prefix one element longer. */
  lemma KeepPrefixStep<T>(s: seq<T>, i: nat, p: T -> bool)
    requires i < |s|
    ensures Keep(s[..i + 1], p) == Keep(s[..i], p) + (if p(s[i]) then [s[i]] else [])
  {
    assert s[..i + 1] == s[..i] + [s[i]];
    KeepSnoc(s[..i], s[i], p);
  }

  /** Keep distributes over concatenation. */
  lemma {:induction false} KeepAppend<T>(a: seq<T>, b: seq<T>, p: T -> bool)
    ensures Keep(a + b, p) == Keep(a, p) + Keep(b, p)
    decreases |b|
  {
    if b == [] {
      assert a + b == a;
    } else {
      var init := b[..|b| - 1];
      var x := b[|b| - 1];
      assert a + b == (a + init) + [x];
      KeepSnoc(a + init, x, p);
      KeepAppend(a, init, p);
      KeepSnoc(init, x, p);
      assert b == init + [x];
    }
  }

  /** Keep depends only on what the predicate says, not how it is written. */
  lemma {:induction false} KeepSamePredicate<T>(s: seq<T>, p: T -> bool, q: T -> bool)
    requires forall x :: p(x) == q(x)
    ensures Keep(s, p) == Keep(s, q)
    decreases |s|
  {
    if s != [] {
      KeepSamePredicate(s[..|s| - 1], p, q);
    }
  }

  /** `Vec::retain` on the first `len` cells of a buffer: the kept elements
      move to the front in their order, and the new length is returned;
      cells from `len` on are untouched. */
  method RetainInPlace<T>(a: array<T>, len: nat, keep: T -> bool) returns (newLen: nat)
    requires len <= a.Length
    modifies a
    ensures newLen <= len
    ensures a[..newLen] == Keep(old(a[..len]), keep)
    ensures forall k :: len <= k < a.Length ==> a[k] == old(a[k])
  {
    ghost var orig := a[..len];
    ghost var kept: seq<T> := [];
    var w, i := 0, 0;
    while i < len
      invariant w <= i <= len && |kept| == w
      invariant kept == Keep(orig[..i], keep)
      invariant forall k :: 0 <= k < w ==> a[k] == kept[k]
      invariant forall k :: i <= k < len ==> a[k] == orig[k]
      invariant forall k :: len <= k < a.Length ==> a[k] == old(a[k])
    {
      var x := a[i];
      KeepPrefixStep(orig, i, keep);
      if keep(x) {
        a[w] := x;
        kept := kept + [x];
        w := w + 1;
      }
      i := i + 1;
    }
    assert orig[..len] == orig;
    newLen := w;
    assert a[..newLen] == kept;
  }
}
