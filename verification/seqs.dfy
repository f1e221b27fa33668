/** Order-preserving filtering, the shape shared by the catalog (cards that
    hold an image) and the details table (fields that have a value). */
module Seqs {
  import opened Options

  /** Keeps, in order, the images under `f` of the elements `f` accepts. */
  function FilterMap<T, U>(s: seq<T>, f: T -> Option<U>): seq<U>
  {
    if |s| == 0 then []
    else
      (match f(s[0]) case Some(u) => [u] case None => []) + FilterMap(s[1..], f)
  }

  /** Filtering never lengthens, and keeps the length exactly when `f` accepts
      every element. */
  lemma {:induction false} FilterMapLength<T, U>(s: seq<T>, f: T -> Option<U>)
    ensures |FilterMap(s, f)| <= |s|
    ensures |FilterMap(s, f)| == |s| <==> forall j :: 0 <= j < |s| ==> f(s[j]).Some?
  {
    if |s| > 0 {
      var tail := s[1..];
      FilterMapLength(tail, f);
      if forall j :: 0 <= j < |s| ==> f(s[j]).Some? {
        forall j | 0 <= j < |tail| ensures f(tail[j]).Some? { assert tail[j] == s[j + 1]; }
      }
      if |FilterMap(s, f)| == |s| {
        forall j | 0 <= j < |s| ensures f(s[j]).Some? {
          if j > 0 { assert s[j] == tail[j - 1]; }
        }
      }
    }
  }

  /** The indices of `s` whose element `f` accepts, ascending. */
  function Kept<T, U>(s: seq<T>, f: T -> Option<U>): seq<nat>
  {
    if |s| == 0 then []
    else (if f(s[0]).Some? then [0] else []) + Shift(Kept(s[1..], f))
  }

  function Shift(xs: seq<nat>): seq<nat>
  {
    seq(|xs|, k requires 0 <= k < |xs| => xs[k] + 1)
  }

  ghost predicate StrictlyIncreasing(xs: seq<nat>)
  {
    forall a, b :: 0 <= a < b < |xs| ==> xs[a] < xs[b]
  }

  /** Every kept index is an index of `s`, listed in ascending order, and the
      filtered sequence is as long as the list of kept indices. */
  lemma {:induction false} KeptShape<T, U>(s: seq<T>, f: T -> Option<U>)
    ensures |FilterMap(s, f)| == |Kept(s, f)|
    ensures forall k :: 0 <= k < |Kept(s, f)| ==> Kept(s, f)[k] < |s|
    ensures StrictlyIncreasing(Kept(s, f))
  {
    if |s| > 0 {
      KeptShape(s[1..], f);
    }
  }

  /** The k-th kept element is the image of the element at the k-th kept index. */
  lemma {:induction false} KeptImages<T, U>(s: seq<T>, f: T -> Option<U>)
    ensures |FilterMap(s, f)| == |Kept(s, f)|
    ensures forall k :: 0 <= k < |Kept(s, f)| ==>
              Kept(s, f)[k] < |s| && f(s[Kept(s, f)[k]]) == Some(FilterMap(s, f)[k])
  {
    KeptShape(s, f);
    if |s| > 0 {
      var tail := s[1..];
      KeptImages(tail, f);
      forall k | 0 <= k < |Kept(s, f)|
        ensures f(s[Kept(s, f)[k]]) == Some(FilterMap(s, f)[k])
      {
        if f(s[0]).Some? && k > 0 {
          assert Kept(s, f)[k] == Kept(tail, f)[k - 1] + 1;
          assert FilterMap(s, f)[k] == FilterMap(tail, f)[k - 1];
        } else if f(s[0]).None? {
          assert Kept(s, f)[k] == Kept(tail, f)[k] + 1;
          assert FilterMap(s, f)[k] == FilterMap(tail, f)[k];
        }
      }
    }
  }

  /** An index is kept exactly when `f` accepts the element there. */
  lemma {:induction false} KeptIsAccepted<T, U>(s: seq<T>, f: T -> Option<U>)
    ensures forall j :: 0 <= j < |s| ==> (f(s[j]).Some? <==> j in Kept(s, f))
  {
    if |s| > 0 {
      var tail := s[1..];
      KeptIsAccepted(tail, f);
      var kt := Kept(tail, f);
      var head: seq<nat> := if f(s[0]).Some? then [0] else [];
      assert Kept(s, f) == head + Shift(kt);
      forall j | 0 <= j < |s|
        ensures f(s[j]).Some? <==> j in Kept(s, f)
      {
        if j > 0 {
          assert s[j] == tail[j - 1];
          if j - 1 in kt {
            var m :| 0 <= m < |kt| && kt[m] == j - 1;
            assert Shift(kt)[m] == j;
          }
          if j in Shift(kt) {
            var m :| 0 <= m < |kt| && Shift(kt)[m] == j;
            assert kt[m] == j - 1;
          }
        }
      }
    }
  }
}
