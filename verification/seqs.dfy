/** List comprehensions with a condition (`[x for x in s if p(x)]`) and the
    order-preserving subsequence relation they establish. */
module Seqs {

  /** `[x for x in s if p(x)]`. */
  function Filter<T>(s: seq<T>, p: T -> bool): (r: seq<T>)
    ensures |r| <= |s|
    ensures forall i :: 0 <= i < |r| ==> p(r[i])
    decreases |s|
  {
    if s == [] then [] else Filter(s[..|s| - 1], p) + (if p(s[|s| - 1]) then [s[|s| - 1]] else [])
  }

  /** Filtering one more element appends it exactly when it passes. */
  lemma FilterSnoc<T>(s: seq<T>, x: T, p: T -> bool)
    ensures Filter(s + [x], p) == Filter(s, p) + (if p(x) then [x] else [])
  {
    assert (s + [x])[..|s|] == s;
  }

  /** A value passing `p` keeps all its occurrences; any other value has none. */
  lemma {:induction false} FilterCount<T>(s: seq<T>, p: T -> bool, x: T)
    ensures multiset(Filter(s, p))[x] == if p(x) then multiset(s)[x] else 0
    decreases |s|
  {
    if s != [] {
      var init := s[..|s| - 1];
      FilterCount(init, p, x);
      assert s == init + [s[|s| - 1]];
    }
  }

  /** A filter that every element passes changes nothing. */
  lemma {:induction false} FilterAll<T>(s: seq<T>, p: T -> bool)
    requires forall i :: 0 <= i < |s| ==> p(s[i])
    ensures Filter(s, p) == s
    decreases |s|
  {
    if s != [] {
      FilterAll(s[..|s| - 1], p);
    }
  }

  /** An element survives the filter exactly when it was there and passes. */
  lemma FilterMembership<T>(s: seq<T>, p: T -> bool)
    ensures forall x :: x in Filter(s, p) <==> x in s && p(x)
  {
    forall x ensures x in Filter(s, p) <==> x in s && p(x) {
      FilterCount(s, p, x);
      assert x in Filter(s, p) <==> x in multiset(Filter(s, p));
      assert x in s <==> x in multiset(s);
    }
  }

  /** Two sequences related by permutation keep that relation under a filter. */
  lemma FilterPermutation<T>(s: seq<T>, t: seq<T>, p: T -> bool)
    requires multiset(s) == multiset(t)
    ensures multiset(Filter(s, p)) == multiset(Filter(t, p))
  {
    var a, b := multiset(Filter(s, p)), multiset(Filter(t, p));
    forall x ensures a[x] == b[x] {
      FilterCount(s, p, x);
      FilterCount(t, p, x);
    }
    MultisetExtensional(a, b);
  }

  lemma MultisetExtensional<T>(a: multiset<T>, b: multiset<T>)
    requires forall x :: a[x] == b[x]
    ensures a == b
  {
  }

  /** `idx` lists, in increasing order, positions of `b` that spell out `a`. */
  ghost predicate Embeds<T>(a: seq<T>, b: seq<T>, idx: seq<nat>)
  {
    && |idx| == |a|
    && (forall k :: 0 <= k < |idx| ==> idx[k] < |b| && a[k] == b[idx[k]])
    && (forall k, l :: 0 <= k < l < |idx| ==> idx[k] < idx[l])
  }

  /** `a` is `b` with some elements left out and the rest in their original order. */
  ghost predicate IsSubsequence<T>(a: seq<T>, b: seq<T>)
  {
    exists idx :: Embeds(a, b, idx)
  }

  /** An embedding survives appending an element to the longer sequence,
      matched or not. */
  lemma EmbedsSnoc<T>(a: seq<T>, b: seq<T>, idx: seq<nat>, x: T, matched: bool)
    requires Embeds(a, b, idx)
    ensures matched ==> Embeds(a + [x], b + [x], idx + [|b|])
    ensures Embeds(a, b + [x], idx)
  {
  }

  /** The positions of `s` whose elements pass `p`, in increasing order. */
  function Kept<T>(s: seq<T>, p: T -> bool): (idx: seq<nat>)
    ensures Embeds(Filter(s, p), s, idx)
    ensures forall k :: 0 <= k < |idx| ==> idx[k] < |s|
    decreases |s|
  {
    if s == [] then []
    else
      var init := s[..|s| - 1];
      var x := s[|s| - 1];
      var idx := Kept(init, p);
      assert s == init + [x];
      EmbedsSnoc(Filter(init, p), init, idx, x, p(x));
      if p(x) then idx + [|init|] else idx
  }

  lemma FilterIsSubsequence<T>(s: seq<T>, p: T -> bool)
    ensures IsSubsequence(Filter(s, p), s)
  {
    var idx := Kept(s, p);
    assert Embeds(Filter(s, p), s, idx);
  }

  lemma SubsequenceTransitive<T>(a: seq<T>, b: seq<T>, c: seq<T>)
    requires IsSubsequence(a, b) && IsSubsequence(b, c)
    ensures IsSubsequence(a, c)
  {
    var ab :| Embeds(a, b, ab);
    var bc :| Embeds(b, c, bc);
    var ac := seq(|ab|, k requires 0 <= k < |ab| => bc[ab[k]]);
    assert Embeds(a, c, ac);
  }
}
