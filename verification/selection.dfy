/** Order-preserving selection of the elements of a sequence that satisfy a
    predicate. It is what a pandas boolean mask (`df[df['store_id'] == id]`)
    computes, and what a loop that walks the rows and appends the ones it keeps
    builds up. */
module Selection {

  /** The elements of `s` that satisfy `keep`, in their order in `s`. Written
      from the back, so that the selection of `s[..i+1]` extends that of `s[..i]`
      the way an appending loop does. */
  function Select<T>(s: seq<T>, keep: T -> bool): (r: seq<T>)
    ensures |r| <= |s|
  {
    if s == [] then []
    else
      var init := Select(s[..|s| - 1], keep);
      if keep(s[|s| - 1]) then init + [s[|s| - 1]] else init
  }

  /** `ix` lists, in strictly increasing order, positions of `s` whose elements
      are, one by one, the elements of `sub`. */
  ghost predicate Embeds<T>(ix: seq<int>, sub: seq<T>, s: seq<T>) {
    |ix| == |sub| &&
    (forall k :: 0 <= k < |ix| ==> 0 <= ix[k] < |s| && sub[k] == s[ix[k]]) &&
    (forall k, l :: 0 <= k < l < |ix| ==> ix[k] < ix[l])
  }

  /** An element is selected exactly when it occurs in the input and satisfies the predicate. */
  lemma {:induction false} SelectMembers<T>(s: seq<T>, keep: T -> bool)
    ensures forall x :: x in Select(s, keep) <==> x in s && keep(x)
  {
    if s != [] {
      var init := s[..|s| - 1];
      SelectMembers(init, keep);
      assert s == init + [s[|s| - 1]];
    }
  }

  /** The selection is a subsequence of the input, taken at exactly the positions
      whose elements satisfy the predicate, in increasing order. */
  lemma {:induction false} SelectIsOrderedSubsequence<T>(s: seq<T>, keep: T -> bool)
    returns (ix: seq<int>)
    ensures Embeds(ix, Select(s, keep), s)
    ensures forall i :: 0 <= i < |s| && keep(s[i]) ==> i in ix
    ensures forall i :: i in ix ==> keep(s[i])
  {
    if s == [] {
      ix := [];
    } else {
      var n := |s| - 1;
      var init := s[..n];
      var ix0 := SelectIsOrderedSubsequence(init, keep);
      var sel0 := Select(init, keep);
      assert forall k :: 0 <= k < |ix0| ==> ix0[k] < n;
      if keep(s[n]) {
        ix := ix0 + [n];
        assert Select(s, keep) == sel0 + [s[n]];
      } else {
        ix := ix0;
      }
      forall i | 0 <= i < |s| && keep(s[i])
        ensures i in ix
      {
        if i < n {
          assert init[i] == s[i];
        }
      }
    }
  }

  /** When every element satisfies the predicate, the selection is the whole input. */
  lemma {:induction false} SelectAll<T>(s: seq<T>, keep: T -> bool)
    requires forall x :: x in s ==> keep(x)
    ensures Select(s, keep) == s
  {
    if s != [] {
      var init := s[..|s| - 1];
      SelectAll(init, keep);
      assert s == init + [s[|s| - 1]];
    }
  }

  /** `f` applied to each element, in order; built from the back like an
      appending loop. */
  function MapSeq<A, B>(s: seq<A>, f: A -> B): (r: seq<B>)
    ensures |r| == |s|
  {
    if s == [] then [] else MapSeq(s[..|s| - 1], f) + [f(s[|s| - 1])]
  }

  /** Element `k` of the mapped sequence is `f` of element `k`. */
  lemma {:induction false} MapSeqAt<A, B>(s: seq<A>, f: A -> B)
    ensures forall k :: 0 <= k < |s| ==> MapSeq(s, f)[k] == f(s[k])
  {
    if s != [] {
      var init := s[..|s| - 1];
      MapSeqAt(init, f);
      assert forall k :: 0 <= k < |init| ==> init[k] == s[k];
    }
  }
}
