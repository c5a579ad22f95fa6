/** `Array.prototype.filter`, on sequences. */
module Seqs {

  /** The elements of `s` that satisfy `p`, in their order in `s`. */
  function Keep<T>(s: seq<T>, p: T -> bool): (r: seq<T>)
    ensures |r| <= |s|
    ensures forall i :: 0 <= i < |r| ==> r[i] in s && p(r[i])
    ensures forall i :: 0 <= i < |s| && p(s[i]) ==> s[i] in r
  {
    if s == [] then []
    else (if p(s[0]) then [s[0]] else []) + Keep(s[1..], p)
  }

  /** Filtering a concatenation filters each part. */
  lemma {:induction false} KeepConcat<T>(s: seq<T>, t: seq<T>, p: T -> bool)
    ensures Keep(s + t, p) == Keep(s, p) + Keep(t, p)
  {
    if s != [] {
      assert (s + t)[0] == s[0] && (s + t)[1..] == s[1..] + t;
      KeepConcat(s[1..], t, p);
    } else {
      assert s + t == t;
    }
  }

  /** When every element passes, nothing is removed and the order is kept. */
  lemma {:induction false} KeepAll<T>(s: seq<T>, p: T -> bool)
    requires forall i :: 0 <= i < |s| ==> p(s[i])
    ensures Keep(s, p) == s
  {
    if s != [] {
      KeepAll(s[1..], p);
    }
  }

  /** Filtering twice by the same test is filtering once. */
  lemma KeepIdempotent<T>(s: seq<T>, p: T -> bool)
    ensures Keep(Keep(s, p), p) == Keep(s, p)
  {
    KeepAll(Keep(s, p), p);
  }

  /** What a filter keeps and what its complement keeps add up to the whole. */
  lemma {:induction false} KeepSplit<T>(s: seq<T>, p: T -> bool, q: T -> bool)
    requires forall i :: 0 <= i < |s| ==> q(s[i]) == !p(s[i])
    ensures |Keep(s, p)| + |Keep(s, q)| == |s|
  {
    if s != [] {
      KeepSplit(s[1..], p, q);
    }
  }

  /** When no element passes, nothing is kept. */
  lemma KeepNone<T>(s: seq<T>, p: T -> bool)
    requires forall i :: 0 <= i < |s| ==> !p(s[i])
    ensures Keep(s, p) == []
  {
  }

  /** The first element that passes heads what is kept. */
  lemma {:induction false} KeepFirst<T>(s: seq<T>, p: T -> bool, i: nat)
    requires i < |s| && p(s[i])
    requires forall j :: 0 <= j < i ==> !p(s[j])
    ensures Keep(s, p) == [s[i]] + Keep(s[i + 1..], p)
  {
    if i > 0 {
      KeepFirst(s[1..], p, i - 1);
      assert s[1..][i..] == s[i + 1..];
    }
  }
}
