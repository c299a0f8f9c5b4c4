/** An input that meets the fault of the pointer hash. */
module PpHashWitnesses {
  /* A run of src/main/pphash.cpp from a new container to an iterator that stands at another
     tuple than its index says. */

  import opened Basics
  import opened Bits
  import opened Buckets
  import opened HashTable
  import opened PpHash
  import opened PpHashIter
  import opened SplitTables

  function Identity(): Spec {
    Plain(k => k)
  }

  /** Keys 1 to n with their numbers as hashes, each alone in its bin. */
  ghost function Ones(n: nat): Table {
    seq(0x10, b => if 1 <= b <= n then [Entry(b, b, NULL)] else [])
  }

  lemma {:induction false} OnesSize(n: nat)
    requires n < 16
    ensures Size(Ones(n)) == n
  {
    if n == 0 {
      AllEmpty(Ones(0));
    } else {
      OnesSize(n - 1);
      SizeOfUpdate(Ones(n - 1), n, [Entry(n, n, NULL)]);
      assert Ones(n) == Ones(n - 1)[n := [Entry(n, n, NULL)]];
    }
  }

  lemma OnesNext(n: nat)
    requires n < 15
    ensures Pushed(if n == 0 then [] else Ones(n), Entry(n + 1, n + 1, NULL)) == Ones(n + 1)
  {
    OnesSize(n);
    if n == 0 { assert MadeRoom([], true) == Ones(0); }
    OneInFront(n);
  }

  lemma OneInFront(n: nat)
    requires n < 15
    ensures InFront(Ones(n), Entry(n + 1, n + 1, NULL)) == Ones(n + 1)
  {
    assert PowerOfTwo(1) && PowerOfTwo(2) && PowerOfTwo(4) && PowerOfTwo(8) && PowerOfTwo(16);
    AndMask(n + 1, 16);
    var u, e := Ones(n), Entry(n + 1, n + 1, NULL);
    assert [e] + u[n + 1] == [e];
  }

  ghost predicate UnboundAbove(spec: Spec, t: Table, i: nat) {
    forall k :: k > i ==> Lookup(spec, t, k) == None
  }

  lemma StillUnbound(spec: Spec, t: Table, u: Table, i: nat)
    requires spec == Identity() && UnboundAbove(spec, t, i) && Binds(spec, t, u, i + 1, NULL)
    ensures UnboundAbove(spec, u, i + 1)
  {
  }

  method CreateOnes(n: nat) returns (d: PpHash, granted: bool)
    requires n < 16
    ensures fresh(d) && d.spec == Identity() && (granted <==> d.refused == 0)
    ensures granted ==> d.Valid() && d.Contents() == (if n == 0 then [] else Ones(n))
  {
    PlainLawful(Identity().hash);
    d := new PpHash(Identity());
    granted := true;
    EmptyMap(d.spec, d.Contents());
    for i := 0 to n
      invariant fresh(d) && d.spec == Identity() && d.Valid() && d.refused == 0 && d.Contents() == (if i == 0 then [] else Ones(i))
      invariant UnboundAbove(Identity(), d.Contents(), i)
    {
      ghost var t: Table := d.Contents();
      var o;
      ghost var copy;
      o, copy := d.Create(i + 1, NULL);
      if !o.Created? { return d, false; }
      OnesNext(i);
      StillUnbound(Identity(), t, d.Contents(), i);
    }
  }

  /** Three creations, riter(), and a move by two back: the iterator has index 0, and stands
      at the second tuple. */
  method MoveBackOverBin() returns (d: PpHash, key: Ptr, it: Iterator)
    ensures fresh(d) && (d.refused == 0 ==> it.Iterator? && key == 2 && it.index == 0)
  {
    PlainLawful(Identity().hash);
    var granted;
    d, granted := CreateOnes(3);
    key, it := NULL, Invalid;
    if !granted { return; }
    OnesSize(3);
    key, it := MoveBackTwo(d);
  }

  method MoveBackTwo(d: PpHash) returns (key: Ptr, it: Iterator)
    requires d.Valid() && d.Contents() == Ones(3) && Size(Ones(3)) == 3
    ensures it.Iterator? && key == 2 && it.index == 0
  {
    it := PpHashIter.Last(d);
    ghost var j;
    StartOf(it.offset);
    it, j := PpHashIter.IterMove(d, it, -2, 0);
    EntryAt(d.mem, d.lists, it, j);
    EndOf(it.offset, j);
    key := d.mem[it.item].data.key;
  }

  lemma StartOf(b: nat)
    requires b < 16 && Ones(3)[b] != [] && Before(Ones(3), b) == 2
    ensures b == 3 && |Ones(3)[b]| == 1 && Lag(Ones(3), 3, -2) == 1
  {
    RanksOfOnes();
    assert Lag(Ones(3), 2, 0) == 0;
  }

  lemma RanksOfOnes()
    ensures Before(Ones(3), 1) == 0 && Before(Ones(3), 2) == 1 && Before(Ones(3), 3) == 2
  {
    var t := Ones(3);
    assert Before(t, 0) == 0 && |t[0]| == 0 && |t[1]| == 1 && |t[2]| == 1;
  }

  lemma EndOf(b: nat, j: nat)
    requires b < 16 && j < |Ones(3)[b]| && Before(Ones(3), b) + j == 1
    ensures b == 2 && j == 0 && Ones(3)[b][j].key == 2
  {
    RanksOfOnes();
  }
}
