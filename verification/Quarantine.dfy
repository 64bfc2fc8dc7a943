/** The FIFO quarantine: total size, the cut the eviction loop makes, and bytes of a run of blocks. */
module Quarantine {
  import opened Machine
  import opened Blocks

  function Total(q: seq<AllocInfo>): nat {
    if q == [] then 0 else q[0].sysSize + Total(q[1..])
  }

  /** How many blocks have to leave the front before the rest fits into max bytes. */
  function Cut(q: seq<AllocInfo>, max: nat): (k: nat)
    ensures k <= |q|
  {
    if Total(q) <= max then 0 else 1 + Cut(q[1..], max)
  }

  /** kept is a suffix of q that fits, and every longer suffix does not. */
  ghost predicate LongestFittingSuffix(kept: seq<AllocInfo>, q: seq<AllocInfo>, max: nat) {
    && |kept| <= |q|
    && kept == q[|q| - |kept|..]
    && Total(kept) <= max
    && forall j :: 0 <= j < |q| - |kept| ==> max < Total(q[j..])
  }

  lemma {:induction false} TotalAppend(a: seq<AllocInfo>, b: seq<AllocInfo>)
    ensures Total(a + b) == Total(a) + Total(b)
  {
    if a == [] {
      assert a + b == b;
    } else {
      assert (a + b)[1..] == a[1..] + b;
      TotalAppend(a[1..], b);
    }
  }

  lemma {:induction false} TotalDrop(q: seq<AllocInfo>, j: nat, k: nat)
    requires j <= k <= |q|
    ensures Total(q[k..]) <= Total(q[j..])
  {
    assert q[j..] == q[j..k] + q[k..];
    TotalAppend(q[j..k], q[k..]);
  }

  /** The cut is the least one: exactly the longest fitting suffix stays. */
  lemma {:induction false} CutLeavesLongestSuffix(q: seq<AllocInfo>, max: nat)
    ensures LongestFittingSuffix(q[Cut(q, max)..], q, max)
  {
    if max < Total(q) {
      CutLeavesLongestSuffix(q[1..], max);
      var k := Cut(q[1..], max);
      assert q[1..][k..] == q[k + 1..];
      forall j | 0 <= j < k + 1
        ensures max < Total(q[j..])
      {
        if j > 0 {
          assert q[j..] == q[1..][j - 1..];
        } else {
          assert q[0..] == q;
        }
      }
    }
  }

  /** There is only one longest fitting suffix. */
  lemma LongestSuffixUnique(kept: seq<AllocInfo>, q: seq<AllocInfo>, max: nat)
    requires LongestFittingSuffix(kept, q, max)
    ensures |q| - |kept| == Cut(q, max) && kept == q[Cut(q, max)..]
  {
    CutLeavesLongestSuffix(q, max);
    var k, c := |q| - |kept|, Cut(q, max);
    assert Total(q[k..]) <= max && Total(q[c..]) <= max;
  }

  /** Cutting after every append keeps the same blocks as cutting the whole history once. */
  lemma CutAppend(q: seq<AllocInfo>, x: AllocInfo, max: nat)
    ensures var kept := q[Cut(q, max)..] + [x];
            Cut(q + [x], max) == Cut(q, max) + Cut(kept, max)
            && (q + [x])[Cut(q + [x], max)..] == kept[Cut(kept, max)..]
  {
    hide Cut, Total;
    var c := Cut(q, max);
    var kept := q[c..] + [x];
    var d := Cut(kept, max);
    CutLeavesLongestSuffix(q, max);
    CutLeavesLongestSuffix(kept, max);
    var all := q + [x];
    assert all[c..] == kept;
    assert kept[d..] == all[c + d..];
    forall j | 0 <= j < c + d
      ensures max < Total(all[j..])
    {
      if j < c {
        assert all[j..] == q[j..] + [x];
        TotalAppend(q[j..], [x]);
      } else {
        assert all[j..] == kept[j - c..];
      }
    }
    LongestSuffixUnique(kept[d..], all, max);
  }

  // ---- bytes ----

  predicate InSome(q: seq<AllocInfo>, a: Addr) {
    exists j :: 0 <= j < |q| && InRegion(q[j], a)
  }

  function RegionBytes(i: AllocInfo): set<Addr> { Range(i.sysPtr, i.sysPtr + i.sysSize) }

  function AllBytes(q: seq<AllocInfo>): set<Addr> {
    if q == [] then {} else RegionBytes(q[0]) + AllBytes(q[1..])
  }

  lemma {:induction false} AllBytesMeans(q: seq<AllocInfo>)
    ensures forall a :: a in AllBytes(q) <==> InSome(q, a)
  {
    if q != [] {
      AllBytesMeans(q[1..]);
      forall a
        ensures InSome(q, a) <==> InRegion(q[0], a) || InSome(q[1..], a)
      {
        InSomeCons(q, a);
      }
    }
  }

  lemma InSomeCons(q: seq<AllocInfo>, a: Addr)
    requires q != []
    ensures InSome(q, a) <==> InRegion(q[0], a) || InSome(q[1..], a)
  {
    if InSome(q[1..], a) {
      var j :| 0 <= j < |q[1..]| && InRegion(q[1..][j], a);
      assert InRegion(q[j + 1], a);
    }
    if InSome(q, a) {
      var j :| 0 <= j < |q| && InRegion(q[j], a);
      assert j > 0 ==> q[1..][j - 1] == q[j];
    }
  }

  function SysPtrs(q: seq<AllocInfo>): set<Addr> { set j | 0 <= j < |q| :: q[j].sysPtr }

  function UserPtrs(q: seq<AllocInfo>): set<Addr> { set j | 0 <= j < |q| :: q[j].userPtr }

  ghost predicate PairwiseApart(q: seq<AllocInfo>) {
    forall j, k :: 0 <= j < k < |q| ==> Apart(q[j].sysPtr, q[j].sysSize, q[k].sysPtr, q[k].sysSize)
  }

  lemma FirstApart(q: seq<AllocInfo>)
    requires q != [] && PairwiseApart(q)
    ensures RegionBytes(q[0]) !! AllBytes(q[1..]) && PairwiseApart(q[1..])
  {
    AllBytesMeans(q[1..]);
    forall a | a in AllBytes(q[1..])
      ensures a !in RegionBytes(q[0])
    {
      var j :| 0 <= j < |q[1..]| && InRegion(q[1..][j], a);
      assert Apart(q[0].sysPtr, q[0].sysSize, q[j + 1].sysPtr, q[j + 1].sysSize);
    }
  }

  lemma {:induction false} TotalIsByteCount(q: seq<AllocInfo>)
    requires PairwiseApart(q)
    ensures |AllBytes(q)| == Total(q)
  {
    if q != [] {
      FirstApart(q);
      TotalIsByteCount(q[1..]);
      RangeSize(q[0].sysPtr, q[0].sysPtr + q[0].sysSize);
      assert AllBytes(q) == RegionBytes(q[0]) + AllBytes(q[1..]);
    }
  }

  /** Disjoint regions inside the address space never add up to 2^64: the size counter cannot wrap. */
  lemma TotalFitsWord(q: seq<AllocInfo>)
    requires PairwiseApart(q)
    requires forall j :: 0 <= j < |q| ==> q[j].sysPtr + q[j].sysSize < WORD
    ensures Total(q) < WORD
  {
    TotalIsByteCount(q);
    RangeSize(0, WORD - 1);
    AllBytesMeans(q);
    assert AllBytes(q) <= Range(0, WORD - 1);
    SubsetSize(AllBytes(q), Range(0, WORD - 1));
  }
}
