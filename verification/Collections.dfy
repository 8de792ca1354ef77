/** Facts about finite sets and sequences that several modules share. */
module Collections {
  lemma SubsetSize<T>(a: set<T>, b: set<T>)
    requires a <= b
    ensures |a| <= |b|
  {
    assert |b| == |a| + |b - a| by {
      assert b == a + (b - a);
    }
  }

  lemma SubsetEqual<T>(a: set<T>, b: set<T>)
    requires a <= b && |a| == |b|
    ensures a == b
  {
    assert b == a + (b - a);
  }

  /** `t` is `s` with `e` spliced in behind index `p`. */
  ghost predicate IsGrown<T>(s: seq<T>, t: seq<T>, p: nat, e: T) {
    && p < |s| && |t| == |s| + 1
    && forall j {:trigger t[j]} :: 0 <= j < |t| ==> t[j] == if j <= p then s[j] else if j == p + 1 then e else s[j - 1]
  }

  lemma MakeGrown<T>(s: seq<T>, p: nat, e: T) returns (t: seq<T>)
    requires p < |s|
    ensures IsGrown(s, t, p, e) && e in t
    ensures forall x :: x in t ==> x == e || x in s
  {
    t := s[..p + 1] + [e] + s[p + 1..];
    assert t[p + 1] == e;
  }
}
