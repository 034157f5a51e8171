/** Order-preserving "keep and reshape" over sequences: the shape shared by every
    list the checker builds with `append` inside a `for` loop. */
module Seqs {
  import opened Wrappers

  /** The results of `f` on the elements of `s` for which `f` gives a value, in order. */
  function FilterMap<A, B>(s: seq<A>, f: A -> Option<B>): (r: seq<B>)
    ensures |r| <= |s|
  {
    if s == [] then []
    else
      var last := s[|s| - 1];
      FilterMap(s[..|s| - 1], f) + (if f(last).Some? then [f(last).value] else [])
  }

  /** The positions of `s`, in increasing order, at which `f` gives a value. */
  function KeptIndices<A, B>(s: seq<A>, f: A -> Option<B>): (idx: seq<nat>)
    ensures forall k :: 0 <= k < |idx| ==> idx[k] < |s|
  {
    if s == [] then []
    else KeptIndices(s[..|s| - 1], f) + (if f(s[|s| - 1]).Some? then [|s| - 1] else [])
  }

  /** Extending the input by one element extends the output by at most that element's image:
      the step a `for` loop that appends performs. */
  lemma FilterMapSnoc<A, B>(s: seq<A>, x: A, f: A -> Option<B>)
    ensures FilterMap(s + [x], f) == FilterMap(s, f) + (if f(x).Some? then [f(x).value] else [])
  {
    assert (s + [x])[..|s + [x]| - 1] == s;
  }

  /** The kept positions are exactly those where `f` gives a value, listed in increasing order. */
  lemma {:induction false} KeptIndicesExact<A, B>(s: seq<A>, f: A -> Option<B>)
    ensures forall k, l :: 0 <= k < l < |KeptIndices(s, f)| ==> KeptIndices(s, f)[k] < KeptIndices(s, f)[l]
    ensures forall i :: 0 <= i < |s| ==> (f(s[i]).Some? <==> i in KeptIndices(s, f))
  {
    if s != [] {
      var init := s[..|s| - 1];
      KeptIndicesExact(init, f);
      assert forall i :: 0 <= i < |init| ==> s[i] == init[i];
    }
  }

  /** Output element `k` is the image of the input element at the `k`-th kept position,
      so the output is the images of exactly the kept elements in input order. */
  lemma {:induction false} FilterMapAt<A, B>(s: seq<A>, f: A -> Option<B>)
    ensures |FilterMap(s, f)| == |KeptIndices(s, f)|
    ensures forall k :: 0 <= k < |KeptIndices(s, f)| ==>
      f(s[KeptIndices(s, f)[k]]).Some? && FilterMap(s, f)[k] == f(s[KeptIndices(s, f)[k]]).value
  {
    if s != [] {
      var init := s[..|s| - 1];
      FilterMapAt(init, f);
      assert forall i :: 0 <= i < |init| ==> s[i] == init[i];
    }
  }

  /** Every output element comes from a kept input element, and every kept input
      element's image appears in the output. */
  lemma {:induction false} FilterMapMembers<A, B>(s: seq<A>, f: A -> Option<B>)
    ensures forall y :: y in FilterMap(s, f) ==> exists i :: 0 <= i < |s| && f(s[i]) == Some(y)
    ensures forall i :: 0 <= i < |s| && f(s[i]).Some? ==> f(s[i]).value in FilterMap(s, f)
  {
    FilterMapAt(s, f);
    KeptIndicesExact(s, f);
    var r, idx := FilterMap(s, f), KeptIndices(s, f);
    forall y | y in r ensures exists i :: 0 <= i < |s| && f(s[i]) == Some(y) {
      var k :| 0 <= k < |r| && r[k] == y;
      assert f(s[idx[k]]) == Some(y);
    }
    forall i | 0 <= i < |s| && f(s[i]).Some? ensures f(s[i]).value in r {
      var k :| 0 <= k < |idx| && idx[k] == i;
      assert r[k] == f(s[i]).value;
    }
  }
}
