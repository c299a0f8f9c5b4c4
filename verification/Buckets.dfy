/** Tables of bins, as sequences of sequences: their size, and the order in which the
    iterators and the snapshots of the containers visit the elements. */
module Buckets {

  function Size<T>(t: seq<seq<T>>): nat {
    if t == [] then 0 else |t[0]| + Size(t[1..])
  }

  /** Bin after bin. */
  function Flat<T>(t: seq<seq<T>>): (s: seq<T>)
    ensures |s| == Size(t)
  {
    if t == [] then [] else t[0] + Flat(t[1..])
  }

  /** Number of elements in the bins before bin b. */
  function Before<T>(t: seq<seq<T>>, b: nat): nat
    requires b <= |t|
  {
    if b == 0 then 0 else Before(t, b - 1) + |t[b - 1]|
  }

  lemma {:induction false} SizeConcat<T>(t: seq<seq<T>>, u: seq<seq<T>>)
    ensures Size(t + u) == Size(t) + Size(u)
  {
    if t == [] {
      assert t + u == u;
    } else {
      assert (t + u)[1..] == t[1..] + u;
      SizeConcat(t[1..], u);
    }
  }

  lemma {:induction false} FlatConcat<T>(t: seq<seq<T>>, u: seq<seq<T>>)
    ensures Flat(t + u) == Flat(t) + Flat(u)
  {
    if t == [] {
      assert t + u == u;
    } else {
      assert (t + u)[1..] == t[1..] + u;
      FlatConcat(t[1..], u);
    }
  }

  lemma {:induction false} BeforeIsPrefix<T>(t: seq<seq<T>>, b: nat)
    requires b <= |t|
    ensures Before(t, b) == |Flat(t[..b])| == Size(t[..b])
    ensures Flat(t) == Flat(t[..b]) + Flat(t[b..])
    ensures Before(t, b) + Size(t[b..]) == Size(t)
  {
    if b > 0 {
      BeforeIsPrefix(t, b - 1);
      assert t[..b] == t[..b - 1] + [t[b - 1]];
      SizeConcat(t[..b - 1], [t[b - 1]]);
      assert Size([t[b - 1]]) == |t[b - 1]|;
    }
    assert t == t[..b] + t[b..];
    FlatConcat(t[..b], t[b..]);
    SizeConcat(t[..b], t[b..]);
  }

  /** The element j of bin b has rank Before(t, b) + j. */
  lemma FlatAt<T>(t: seq<seq<T>>, b: nat, j: nat)
    requires b < |t| && j < |t[b]|
    ensures Before(t, b) + j < Size(t) && Flat(t)[Before(t, b) + j] == t[b][j]
  {
    BeforeIsPrefix(t, b);
    assert t[b..][0] == t[b];
  }

  /** Ranks of a bin start where those of the bin before it end. */
  lemma {:induction false} BeforeGrows<T>(t: seq<seq<T>>, b: nat, c: nat)
    requires b <= c <= |t|
    ensures Before(t, b) <= Before(t, c)
  {
    if b < c { BeforeGrows(t, b, c - 1); }
  }

  lemma {:induction false} SizeOfParts<T>(t: seq<seq<T>>, u: seq<seq<T>>, v: seq<seq<T>>)
    requires |t| == |u| == |v| && forall b :: 0 <= b < |t| ==> |t[b]| == |u[b]| + |v[b]|
    ensures Size(t) == Size(u) + Size(v)
  {
    if t != [] {
      assert forall b :: 0 <= b < |t[1..]| ==> |t[1..][b]| == |u[1..][b]| + |v[1..][b]|;
      SizeOfParts(t[1..], u[1..], v[1..]);
    }
  }

  /** A doubled table whose new bins took a part of the old ones has the same size. */
  lemma SizeOfHalves<T>(t: seq<seq<T>>, u: seq<seq<T>>)
    requires |u| == 2 * |t| && forall b :: 0 <= b < |t| ==> |t[b]| == |u[b]| + |u[|t| + b]|
    ensures Size(u) == Size(t)
  {
    var v, w := u[..|t|], u[|t|..];
    assert u == v + w;
    SizeConcat(v, w);
    forall b | 0 <= b < |t| ensures |t[b]| == |v[b]| + |w[b]| { HalvesAt(u, |t|, b); }
    SizeOfParts(t, v, w);
  }

  lemma HalvesAt<T>(u: seq<T>, n: nat, b: nat)
    requires b < n && |u| == n + n
    ensures u[..n][b] == u[b] && u[n..][b] == u[n + b]
  {
  }

  /** Changing one bin changes the size by the difference. */
  lemma SizeOfUpdate<T>(t: seq<seq<T>>, b: nat, s: seq<T>)
    requires b < |t|
    ensures Size(t[b := s]) == Size(t) - |t[b]| + |s|
  {
    var u := t[b := s];
    BeforeIsPrefix(t, b);
    BeforeIsPrefix(u, b);
    assert u[..b] == t[..b] && t[b..][1..] == u[b..][1..];
    assert Size(t[b..]) == |t[b]| + Size(t[b..][1..]);
    assert Size(u[b..]) == |s| + Size(u[b..][1..]);
  }

  lemma {:induction false} AllEmpty<T>(t: seq<seq<T>>)
    requires forall b :: 0 <= b < |t| ==> t[b] == []
    ensures Size(t) == 0
  {
    if t != [] { AllEmpty(t[1..]); }
  }

  /** The bins up to and with bin i, in order. */
  lemma FlatNext<T>(t: seq<seq<T>>, i: nat)
    requires i < |t|
    ensures Flat(t[..i + 1]) == Flat(t[..i]) + t[i]
  {
    assert t[..i + 1] == t[..i] + [t[i]];
    FlatConcat(t[..i], [t[i]]);
    assert Flat([t[i]]) == t[i];
  }

  /** The ranks of a bin end before those of the next one, and none is beyond the size. */
  lemma Ranks<T>(t: seq<seq<T>>, b: nat)
    requires b < |t|
    ensures Before(t, b + 1) == Before(t, b) + |t[b]| <= Size(t) && Before(t, |t|) == Size(t)
  {
    BeforeIsPrefix(t, |t|);
    assert t[..|t|] == t;
    BeforeGrows(t, b + 1, |t|);
  }
}
