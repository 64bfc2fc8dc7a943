/** The allocator's promises, over every operation and over every run. */
module HeapTheorems {
  import opened Machine
  import opened Layout
  import opened Blocks
  import opened Quarantine
  import opened HeapModel
  import opened HeapInvariant

  // ---- every operation keeps the invariant ----

  lemma PassThroughKeeps(cfg: Config, h: Heap, n: nat, reply: Reply)
    requires Inv(cfg, h) && SystemServes(h.held, RawSize(n), reply)
    ensures Inv(cfg, PassThrough(h, n, reply).0)
  {
    if reply.Block? {
      AddRawKeeps(cfg, h, reply.addr, RawSize(n), reply.init);
    }
  }

  lemma MallocKeeps(cfg: Config, h: Heap, n: nat, reply: Reply)
    requires Inv(cfg, h) && Served(cfg, h, n, reply)
    ensures Inv(cfg, Malloc(cfg, h, n, reply).0)
  {
    if !IsFenced(cfg, n) {
      PassThroughKeeps(cfg, h, n, reply);
    } else if reply.Block? {
      IdealInfoWellFormed(cfg, n, reply.addr);
      AddFencedKeeps(cfg, h, IdealInfo(cfg, n, reply.addr), reply.init);
    }
  }

  lemma BytesDoNotMatter(cfg: Config, h: Heap, m: map<Addr, Byte>)
    requires Inv(cfg, h)
    ensures Inv(cfg, h.(bytes := m))
  {
    SameBlocksCore(cfg, h, h.(bytes := m));
  }

  lemma MallocZeroedKeeps(cfg: Config, h: Heap, total: nat, reply: Reply)
    requires Inv(cfg, h) && Served(cfg, h, total, reply)
    ensures Inv(cfg, MallocZeroed(cfg, h, total, reply).0)
  {
    hide Inv, Malloc, Served, Zero;
    MallocKeeps(cfg, h, total, reply);
    var (h1, p) := Malloc(cfg, h, total, reply);
    BytesDoNotMatter(cfg, h1, Zero(h1.bytes, p, total));
  }

  lemma CallocKeeps(cfg: Config, h: Heap, count: nat, size: nat, reply: Reply)
    requires Inv(cfg, h) && Legal(cfg, h, DoCalloc(count, size, reply))
    ensures Inv(cfg, Calloc(cfg, h, count, size, reply).0)
  {
    hide Inv, MallocZeroed;
    if count == 0 || size == 0 {
      EmptyProduct(count, size);
      PassThroughKeeps(cfg, h, 0, reply);
    } else if Mul64(count, size) / count == size {
      MallocZeroedKeeps(cfg, h, Mul64(count, size), reply);
    }
  }

  lemma EmptyProduct(count: nat, size: nat)
    requires count == 0 || size == 0
    ensures Mul64(count, size) == 0 && (count != 0 ==> Mul64(count, size) / count == size)
  {
  }

  /** One more free, then the loop: again the longest fitting suffix of everything freed. */
  lemma FreeCloses(cfg: Config, h: Heap, p: Addr)
    requires Inv(cfg, h) && cfg.useafterfree && p in h.active
    ensures var h1 := MoveToQuarantine(h, p);
            QuarantineClosed(cfg, EvictFirst(h1, Cut(h1.quarantine, cfg.quarantineMax)))
  {
    hide Core, Cut, Total, AllBytes, SysPtrs, RegionBytes, LongestFittingSuffix;
    var max, i := cfg.quarantineMax, h.active[p];
    var kept := h.quarantine + [i];
    SuffixAfterFree(h.quarantine, h.freed, i, max);
    assert EvictFirst(MoveToQuarantine(h, p), Cut(kept, max)).quarantine == kept[Cut(kept, max)..];
  }

  /** The queue and the flag after one more block, from the queue before. */
  lemma SuffixAfterFree(q: seq<AllocInfo>, freed: seq<AllocInfo>, i: AllocInfo, max: nat)
    requires LongestFittingSuffix(q, freed, max)
    ensures LongestFittingSuffix((q + [i])[Cut(q + [i], max)..], freed + [i], max)
    ensures max < Total(freed + [i]) <==> max < Total(freed) || 0 < Cut(q + [i], max)
  {
    LongestSuffixUnique(q, freed, max);
    CutAppend(freed, i, max);
    CutLeavesLongestSuffix(freed + [i], max);
    TotalAppend(freed, [i]);
    assert Total(freed) <= max ==> q == freed[0..] && freed[0..] == freed;
    hide LongestFittingSuffix;
  }

  lemma FreeKeeps(cfg: Config, h: Heap, p: Addr)
    requires Inv(cfg, h) && MayFree(h, p)
    ensures Inv(cfg, Free(cfg, h, p))
  {
    if p != NULL && p !in h.userAddrs {
      DropRawKeeps(cfg, h, p);
    } else if p != NULL && p in h.active {
      if cfg.useafterfree {
        MoveToQuarantineKeeps(cfg, h, p);
        var h1 := MoveToQuarantine(h, p);
        EvictFirstKeeps(cfg, h1, Cut(h1.quarantine, cfg.quarantineMax));
        FreeCloses(cfg, h, p);
      } else {
        ReleaseNowKeeps(cfg, h, p);
      }
    }
  }

  lemma SystemReallocKeeps(cfg: Config, h: Heap, p: Addr, n: nat, reply: Reply)
    requires Inv(cfg, h) && p in h.raw && SystemServes(h.held - {p}, RawSize(n), reply)
    ensures Inv(cfg, SystemRealloc(h, p, n, reply).0)
  {
    if reply.Block? {
      DropRawKeeps(cfg, h, p);
      AddRawKeeps(cfg, DropRaw(h, p), reply.addr, RawSize(n), reply.init);
    }
  }

  lemma ReallocKeeps(cfg: Config, h: Heap, p: Addr, n: nat, reply: Reply)
    requires Inv(cfg, h) && Legal(cfg, h, DoRealloc(p, n, reply))
    ensures Inv(cfg, Realloc(cfg, h, p, n, reply).0)
  {
    if p == NULL {
      MallocKeeps(cfg, h, n, reply);
    } else if n == 0 {
      FreeKeeps(cfg, h, p);
    } else if p in h.active {
      MallocKeeps(cfg, h, n, reply);
      var (h1, q) := Malloc(cfg, h, n, reply);
      var h2 := if q == NULL then h1
                else h1.(bytes := Copy(h1.bytes, q, p, Min(n, h.active[p].userSize)));
      BytesDoNotMatter(cfg, h1, h2.bytes);
      assert Owned(cfg, h, h.active[p]);
      FreeKeeps(cfg, h2, p);
    } else {
      SystemReallocKeeps(cfg, h, p, n, reply);
    }
  }

  lemma StepKeeps(cfg: Config, h: Heap, op: Op)
    requires Inv(cfg, h) && Legal(cfg, h, op)
    ensures Inv(cfg, Step(cfg, h, op).0)
  {
    match op
    case DoMalloc(n, reply) => MallocKeeps(cfg, h, n, reply);
    case DoFree(p) => FreeKeeps(cfg, h, p);
    case DoCalloc(count, size, reply) => CallocKeeps(cfg, h, count, size, reply);
    case DoRealloc(p, n, reply) => ReallocKeeps(cfg, h, p, n, reply);
  }

  lemma {:induction false} RunKeeps(cfg: Config, h: Heap, ops: seq<Op>)
    requires Inv(cfg, h) && LegalRun(cfg, h, ops)
    ensures Inv(cfg, Run(cfg, h, ops))
    decreases |ops|
  {
    if ops != [] {
      StepKeeps(cfg, h, ops[0]);
      RunKeeps(cfg, Step(cfg, h, ops[0]).0, ops[1..]);
    }
  }

  lemma EmptyIsFine(cfg: Config)
    ensures Inv(cfg, EMPTY)
  {
  }

  lemma {:induction false} ReachableInv(cfg: Config, ops: seq<Op>)
    requires LegalRun(cfg, EMPTY, ops)
    ensures Inv(cfg, Run(cfg, EMPTY, ops))
  {
    EmptyIsFine(cfg);
    RunKeeps(cfg, EMPTY, ops);
  }

  // ---- protection ----

  ghost predicate LiveBytesAccessible(h: Heap) {
    forall p, a :: p in h.active && InUserArea(h.active[p], a) ==> a !in h.guarded
  }

  ghost predicate FencesTrap(cfg: Config, h: Heap) {
    forall p, a :: p in h.active && InFence(cfg, h.active[p], a) ==> a in h.guarded
  }

  ghost predicate QuarantineTraps(h: Heap) {
    forall j, a :: 0 <= j < |h.quarantine| && InRegion(h.quarantine[j], a) ==> a in h.guarded
  }

  ghost predicate InHeldFenced(h: Heap, a: Addr) {
    (exists p :: p in h.active && InRegion(h.active[p], a)) || InSome(h.quarantine, a)
  }

  /** Memory not held for a fenced block is readable and writable: in particular all memory given back. */
  ghost predicate RestAccessible(h: Heap) {
    forall a :: a in h.guarded ==> InHeldFenced(h, a)
  }

  lemma ActiveApart(cfg: Config, h: Heap, p: Addr, a: Addr)
    requires HeldApart(h.held) && BlocksOwned(cfg, h) && BlocksDistinct(h)
    requires p in h.active && InRegion(h.active[p], a)
    ensures !InSome(h.quarantine, a)
    ensures forall q :: q in h.active && q != p ==> !InRegion(h.active[q], a) && !InFence(cfg, h.active[q], a)
  {
    assert Owned(cfg, h, h.active[p]);
    forall q | q in h.active && q != p
      ensures !InRegion(h.active[q], a) && !InFence(cfg, h.active[q], a)
    {
      assert Owned(cfg, h, h.active[q]);
    }
    forall j | 0 <= j < |h.quarantine|
      ensures !InRegion(h.quarantine[j], a)
    {
      assert Owned(cfg, h, h.quarantine[j]);
    }
  }

  lemma InvProtects(cfg: Config, h: Heap)
    requires Inv(cfg, h)
    ensures LiveBytesAccessible(h) && FencesTrap(cfg, h) && QuarantineTraps(h) && RestAccessible(h) && Guarding(cfg, h)
  {
    forall p, a | p in h.active && InUserArea(h.active[p], a)
      ensures a !in h.guarded
    {
      assert Owned(cfg, h, h.active[p]);
      ActiveApart(cfg, h, p, a);
    }
    forall a | a in h.guarded
      ensures InHeldFenced(h, a)
    {
      if InActiveFence(cfg, h, a) {
        var p :| p in h.active && InFence(cfg, h.active[p], a);
        assert Owned(cfg, h, h.active[p]) && InRegion(h.active[p], a);
      }
    }
  }

  /**
   * In every run, against every answer of the system: bytes of live blocks never fault, fence pages
   * and quarantined blocks always do, and everything else is accessible: a byte is protected exactly
   * when it lies in the fence of an active block or in a quarantined one. So padding and slack inside
   * active blocks are accessible, as is all memory given back.
   */
  lemma ProtectionInEveryRun(cfg: Config, ops: seq<Op>)
    requires LegalRun(cfg, EMPTY, ops)
    ensures var h := Run(cfg, EMPTY, ops);
            && LiveBytesAccessible(h) && FencesTrap(cfg, h) && QuarantineTraps(h) && RestAccessible(h)
            && (forall a :: a in h.guarded <==> MustTrap(cfg, h, a))
  {
    ReachableInv(cfg, ops);
    InvProtects(cfg, Run(cfg, EMPTY, ops));
  }

  // ---- the quarantine over whole runs ----

  /** The fenced blocks an operation frees, in order. */
  ghost function FreedBy(cfg: Config, h: Heap, op: Op): seq<AllocInfo> {
    match op
    case DoFree(p) => if p in h.active then [h.active[p]] else []
    case DoRealloc(p, n, reply) => if p in h.active then [h.active[p]] else []
    case _ => []
  }

  ghost function FreedInRun(cfg: Config, h: Heap, ops: seq<Op>): seq<AllocInfo>
    requires LegalRun(cfg, h, ops)
    decreases |ops|
  {
    if ops == [] then [] else FreedBy(cfg, h, ops[0]) + FreedInRun(cfg, Step(cfg, h, ops[0]).0, ops[1..])
  }

  /** The fenced block an operation obtains from the system. */
  ghost function GrantedBy(cfg: Config, h: Heap, op: Op): seq<AllocInfo> {
    match op
    case DoMalloc(n, Block(addr, _)) => if IsFenced(cfg, n) then [IdealInfo(cfg, n, addr)] else []
    case DoCalloc(count, size, Block(addr, _)) =>
      if count != 0 && size != 0 && Mul64(count, size) / count == size && IsFenced(cfg, Mul64(count, size))
      then [IdealInfo(cfg, Mul64(count, size), addr)] else []
    case DoRealloc(p, n, Block(addr, _)) =>
      if (p == NULL || p in h.active) && IsFenced(cfg, n) then [IdealInfo(cfg, n, addr)] else []
    case _ => []
  }

  ghost function GrantedInRun(cfg: Config, h: Heap, ops: seq<Op>): seq<AllocInfo>
    requires LegalRun(cfg, h, ops)
    decreases |ops|
  {
    if ops == [] then [] else GrantedBy(cfg, h, ops[0]) + GrantedInRun(cfg, Step(cfg, h, ops[0]).0, ops[1..])
  }

  lemma NullNeverActive(cfg: Config, h: Heap)
    requires BlocksOwned(cfg, h)
    ensures NULL !in h.active && h.active.Keys <= h.userAddrs
  {
    forall p | p in h.active
      ensures p != NULL && p in h.userAddrs
    {
      assert Owned(cfg, h, h.active[p]);
    }
  }

  lemma FreeHistory(cfg: Config, h: Heap, p: Addr)
    requires NULL !in h.active && h.active.Keys <= h.userAddrs
    ensures Free(cfg, h, p).freed == h.freed + (if p in h.active then [h.active[p]] else [])
    ensures Free(cfg, h, p).granted == h.granted
  {
  }

  lemma InvIsCore(cfg: Config, h: Heap)
    requires Inv(cfg, h)
    ensures Core(cfg, h)
  {
  }

  /** Allocating does not touch the blocks that are already active. */
  lemma MallocHistory(cfg: Config, h: Heap, n: nat, reply: Reply)
    requires Inv(cfg, h) && Served(cfg, h, n, reply)
    ensures var h' := Malloc(cfg, h, n, reply).0;
            && h'.freed == h.freed
            && h'.granted == h.granted
                             + (if IsFenced(cfg, n) && reply.Block? then [IdealInfo(cfg, n, reply.addr)] else [])
            && (forall p :: p in h.active ==> p in h'.active && h'.active[p] == h.active[p])
  {
    hide Inv, IdealSysSize;
    if IsFenced(cfg, n) && reply.Block? {
      var i := IdealInfo(cfg, n, reply.addr);
      IdealInfoWellFormed(cfg, n, reply.addr);
      AddFencedKeeps(cfg, h, i, reply.init) by { assert Core(cfg, h) by { InvIsCore(cfg, h); } }
    }
  }

  lemma ReallocHistory(cfg: Config, h: Heap, p: Addr, n: nat, reply: Reply)
    requires Inv(cfg, h) && p in h.active && 0 < n && Served(cfg, h, n, reply)
    ensures var h' := Realloc(cfg, h, p, n, reply).0;
            && h'.freed == h.freed + [h.active[p]]
            && h'.granted == h.granted
                             + (if IsFenced(cfg, n) && reply.Block? then [IdealInfo(cfg, n, reply.addr)] else [])
  {
    NullNeverActive(cfg, h);
    MallocHistory(cfg, h, n, reply);
    MallocKeeps(cfg, h, n, reply);
    var (h1, q) := Malloc(cfg, h, n, reply);
    NullNeverActive(cfg, h1);
    var h2 := if q == NULL then h1 else h1.(bytes := Copy(h1.bytes, q, p, Min(n, h.active[p].userSize)));
    FreeHistory(cfg, h2, p);
  }

  ghost predicate Recorded(cfg: Config, h: Heap, op: Op)
    requires Legal(cfg, h, op)
  {
    && Step(cfg, h, op).0.freed == h.freed + FreedBy(cfg, h, op)
    && Step(cfg, h, op).0.granted == h.granted + GrantedBy(cfg, h, op)
  }

  lemma CallocRecorded(cfg: Config, h: Heap, count: nat, size: nat, reply: Reply)
    requires Inv(cfg, h) && Legal(cfg, h, DoCalloc(count, size, reply))
    ensures Recorded(cfg, h, DoCalloc(count, size, reply))
  {
    if count != 0 && size != 0 && Mul64(count, size) / count == size {
      MallocHistory(cfg, h, Mul64(count, size), reply);
    }
  }

  lemma ReallocRecorded(cfg: Config, h: Heap, p: Addr, n: nat, reply: Reply)
    requires Inv(cfg, h) && Legal(cfg, h, DoRealloc(p, n, reply))
    ensures Recorded(cfg, h, DoRealloc(p, n, reply))
  {
    NullNeverActive(cfg, h);
    if p == NULL {
      MallocHistory(cfg, h, n, reply);
    } else if n == 0 {
      FreeHistory(cfg, h, p);
    } else if p in h.active {
      ReallocHistory(cfg, h, p, n, reply);
    }
  }

  lemma HistoryRecorded(cfg: Config, h: Heap, op: Op)
    requires Inv(cfg, h) && Legal(cfg, h, op)
    ensures Recorded(cfg, h, op)
  {
    match op
    case DoMalloc(n, reply) => MallocHistory(cfg, h, n, reply);
    case DoFree(p) =>
      NullNeverActive(cfg, h);
      FreeHistory(cfg, h, p);
    case DoCalloc(count, size, reply) => CallocRecorded(cfg, h, count, size, reply);
    case DoRealloc(p, n, reply) => ReallocRecorded(cfg, h, p, n, reply);
  }

  lemma {:induction false} RunHistoryRecorded(cfg: Config, h: Heap, ops: seq<Op>)
    requires Inv(cfg, h) && LegalRun(cfg, h, ops)
    ensures Run(cfg, h, ops).freed == h.freed + FreedInRun(cfg, h, ops)
    ensures Run(cfg, h, ops).granted == h.granted + GrantedInRun(cfg, h, ops)
    decreases |ops|
  {
    if ops != [] {
      var op, rest := ops[0], ops[1..];
      var h1 := Step(cfg, h, op).0;
      StepKeeps(cfg, h, op);
      RunHistoryRecorded(cfg, h1, rest);
      HistoryRecorded(cfg, h, op);
      Regroup(h.freed, FreedBy(cfg, h, op), FreedInRun(cfg, h1, rest));
      Regroup(h.granted, GrantedBy(cfg, h, op), GrantedInRun(cfg, h1, rest));
    }
  }

  lemma Regroup<T>(a: seq<T>, b: seq<T>, c: seq<T>)
    ensures (a + b) + c == a + (b + c)
  {
  }

  /**
   * Closed form: with use-after-free detection the quarantine is the longest suffix of all freed
   * fenced blocks that fits the limit, and the eviction flag is raised exactly when they do not all fit.
   */
  lemma QuarantineInEveryRun(cfg: Config, ops: seq<Op>)
    requires LegalRun(cfg, EMPTY, ops) && cfg.useafterfree
    ensures var h, freed := Run(cfg, EMPTY, ops), FreedInRun(cfg, EMPTY, ops);
            && LongestFittingSuffix(h.quarantine, freed, cfg.quarantineMax)
            && h.released + h.quarantine == freed
            && (h.evicted <==> cfg.quarantineMax < Total(freed))
            && (h.evicted <==> h.quarantine != freed)
  {
    EmptyIsFine(cfg);
    ReachableInv(cfg, ops);
    RunHistoryRecorded(cfg, EMPTY, ops);
    var h, freed := Run(cfg, EMPTY, ops), FreedInRun(cfg, EMPTY, ops);
    assert [] + freed == freed;
    LongestSuffixUnique(h.quarantine, freed, cfg.quarantineMax);
  }

  /** The j-th freed block is still trapped exactly while it and all later frees together fit. */
  lemma TrappedWhileItFits(cfg: Config, ops: seq<Op>, j: nat)
    requires LegalRun(cfg, EMPTY, ops) && cfg.useafterfree
    requires j < |FreedInRun(cfg, EMPTY, ops)|
    ensures var h, freed := Run(cfg, EMPTY, ops), FreedInRun(cfg, EMPTY, ops);
            |h.quarantine| <= |freed| &&
            (|freed| - |h.quarantine| <= j <==> Total(freed[j..]) <= cfg.quarantineMax)
  {
    QuarantineInEveryRun(cfg, ops);
    var h, freed := Run(cfg, EMPTY, ops), FreedInRun(cfg, EMPTY, ops);
    var c := |freed| - |h.quarantine|;
    if c <= j {
      TotalDrop(freed, c, j);
    }
  }

  // ---- ownership ----

  ghost predicate UserPtrsUnique(h: Heap) {
    && (forall p, j :: p in h.active && 0 <= j < |h.quarantine| ==> h.quarantine[j].userPtr != p)
    && (forall j, k :: 0 <= j < k < |h.quarantine| ==> h.quarantine[j].userPtr != h.quarantine[k].userPtr)
  }

  lemma InvUserPtrsUnique(cfg: Config, h: Heap)
    requires HeldApart(h.held) && BlocksOwned(cfg, h) && BlocksDistinct(h)
    ensures UserPtrsUnique(h)
  {
    forall p, j | p in h.active && 0 <= j < |h.quarantine|
      ensures h.quarantine[j].userPtr != p
    {
      assert Owned(cfg, h, h.quarantine[j]) && Owned(cfg, h, h.active[p]);
    }
    forall j, k | 0 <= j < k < |h.quarantine|
      ensures h.quarantine[j].userPtr != h.quarantine[k].userPtr
    {
      assert Owned(cfg, h, h.quarantine[j]) && Owned(cfg, h, h.quarantine[k]);
    }
  }

  /**
   * Every fenced block ever obtained is active, quarantined or given back, each exactly once however
   * often its pointer is freed; held regions are disjoint and user pointers identify blocks.
   */
  lemma OwnershipInEveryRun(cfg: Config, ops: seq<Op>, i: AllocInfo)
    requires LegalRun(cfg, EMPTY, ops)
    ensures var h := Run(cfg, EMPTY, ops);
            && multiset(GrantedInRun(cfg, EMPTY, ops))[i]
               == (if IsActive(h, i) then 1 else 0) + multiset(h.quarantine)[i] + multiset(h.released)[i]
            && HeldApart(h.held) && UserPtrsUnique(h)
            && h.active.Keys <= h.userAddrs
            && h.quarantineSize == Total(h.quarantine) < WORD
  {
    EmptyIsFine(cfg);
    hide Inv, Run, LegalRun;
    ReachableInv(cfg, ops);
    RunHistoryRecorded(cfg, EMPTY, ops);
    var h := Run(cfg, EMPTY, ops);
    assert [] + GrantedInRun(cfg, EMPTY, ops) == GrantedInRun(cfg, EMPTY, ops);
    InvOwns(cfg, h, i);
  }

  lemma InvOwns(cfg: Config, h: Heap, i: AllocInfo)
    requires Inv(cfg, h)
    ensures multiset(h.granted)[i]
            == (if IsActive(h, i) then 1 else 0) + multiset(h.quarantine)[i] + multiset(h.released)[i]
    ensures HeldApart(h.held) && UserPtrsUnique(h) && h.active.Keys <= h.userAddrs
    ensures h.quarantineSize == Total(h.quarantine) < WORD
  {
    InvUserPtrsUnique(cfg, h);
    NullNeverActive(cfg, h);
    QuarantineApart(cfg, h);
    TotalFitsWord(h.quarantine);
  }

  // ---- addresses that stay known ----

  /** An unfenced block is never mistaken for a fenced one that is still alive. */
  lemma RawNotActive(cfg: Config, h: Heap, p: Addr)
    requires HeldApart(h.held) && BlocksOwned(cfg, h) && h.raw <= h.held.Keys && p in h.raw
    ensures p !in h.active
  {
    forall q | q in h.active
      ensures q != p
    {
      assert Owned(cfg, h, h.active[q]);
    }
  }

  lemma OnePointer(i: AllocInfo)
    ensures UserPtrs([i]) == {i.userPtr} && UserPtrs([]) == {}
  {
    assert [i][0] == i;
  }

  lemma PointersOfBoth(a: seq<AllocInfo>, b: seq<AllocInfo>)
    ensures UserPtrs(a + b) == UserPtrs(a) + UserPtrs(b)
  {
    assert forall i :: 0 <= i < |a| ==> (a + b)[i] == a[i];
    assert forall i :: 0 <= i < |b| ==> (a + b)[|a| + i] == b[i];
  }

  lemma MallocKnows(cfg: Config, h: Heap, n: nat, reply: Reply)
    ensures Malloc(cfg, h, n, reply).0.userAddrs
            == h.userAddrs
               + UserPtrs(if IsFenced(cfg, n) && reply.Block? then [IdealInfo(cfg, n, reply.addr)] else [])
  {
    if reply.Block? {
      OnePointer(IdealInfo(cfg, n, reply.addr));
    } else {
      OnePointer(AllocInfo(0, 0, 0, 0));
    }
    hide IdealInfo, Fill, FenceBytes, UserPtrs;
  }

  lemma FreeKnows(cfg: Config, h: Heap, p: Addr)
    ensures Free(cfg, h, p).userAddrs == h.userAddrs
  {
  }

  /** The operation makes exactly the pointer it obtains known, and forgets none. */
  ghost predicate Knows(cfg: Config, h: Heap, h': Heap, op: Op) {
    h'.userAddrs == h.userAddrs + UserPtrs(GrantedBy(cfg, h, op))
  }

  lemma CallocKnows(cfg: Config, h: Heap, count: nat, size: nat, reply: Reply)
    ensures Knows(cfg, h, Calloc(cfg, h, count, size, reply).0, DoCalloc(count, size, reply))
  {
    OnePointer(AllocInfo(0, 0, 0, 0));
    hide Malloc, UserPtrs, IdealInfo, Zero, Fill, Mul64;
    if count != 0 && size != 0 && Mul64(count, size) / count == size {
      MallocKnows(cfg, h, Mul64(count, size), reply);
    }
  }

  lemma ReallocKnows(cfg: Config, h: Heap, p: Addr, n: nat, reply: Reply)
    requires NULL !in h.active
    ensures Knows(cfg, h, Realloc(cfg, h, p, n, reply).0, DoRealloc(p, n, reply))
  {
    if p == NULL {
      MallocKnows(cfg, h, n, reply);
    } else if n == 0 {
      OnePointer(AllocInfo(0, 0, 0, 0));
      FreeKnows(cfg, h, p);
    } else if p in h.active {
      MallocKnows(cfg, h, n, reply);
      MoveKnows(cfg, h, p, n, reply);
    } else {
      OnePointer(AllocInfo(0, 0, 0, 0));
      SystemReallocKnows(h, p, n, reply);
    }
    hide Malloc, Free, SystemRealloc, UserPtrs, IdealInfo, Copy;
  }

  lemma MoveKnows(cfg: Config, h: Heap, p: Addr, n: nat, reply: Reply)
    requires p in h.active && n != 0 && p != NULL
    ensures Realloc(cfg, h, p, n, reply).0.userAddrs == Malloc(cfg, h, n, reply).0.userAddrs
  {
    hide Malloc, Free, Copy, SystemRealloc;
    var (h1, q) := Malloc(cfg, h, n, reply);
    FreeKnows(cfg, h1, p);
    FreeKnows(cfg, h1.(bytes := Copy(h1.bytes, q, p, Min(n, h.active[p].userSize))), p);
  }

  lemma SystemReallocKnows(h: Heap, p: Addr, n: nat, reply: Reply)
    ensures SystemRealloc(h, p, n, reply).0.userAddrs == h.userAddrs
  {
  }

  lemma StepKnows(cfg: Config, h: Heap, op: Op)
    requires Inv(cfg, h) && Legal(cfg, h, op)
    ensures Knows(cfg, h, Step(cfg, h, op).0, op)
  {
    match op
    case DoMalloc(n, reply) =>
      OnePointer(AllocInfo(0, 0, 0, 0));
      MallocKnows(cfg, h, n, reply);
    case DoFree(p) =>
      OnePointer(AllocInfo(0, 0, 0, 0));
      FreeKnows(cfg, h, p);
    case DoCalloc(count, size, reply) => CallocKnows(cfg, h, count, size, reply);
    case DoRealloc(p, n, reply) =>
      NullNeverActive(cfg, h);
      ReallocKnows(cfg, h, p, n, reply);
  }

  lemma {:induction false} RunKnows(cfg: Config, h: Heap, ops: seq<Op>)
    requires Inv(cfg, h) && LegalRun(cfg, h, ops)
    ensures Run(cfg, h, ops).userAddrs == h.userAddrs + UserPtrs(GrantedInRun(cfg, h, ops))
    decreases |ops|
  {
    hide Inv, Step, GrantedBy, UserPtrs;
    if ops == [] {
      OnePointer(AllocInfo(0, 0, 0, 0));
    } else {
      var h1 := Step(cfg, h, ops[0]).0;
      StepKeeps(cfg, h, ops[0]);
      StepKnows(cfg, h, ops[0]);
      RunKnows(cfg, h1, ops[1..]);
      PointersOfBoth(GrantedBy(cfg, h, ops[0]), GrantedInRun(cfg, h1, ops[1..]));
    }
  }

  /** Some fenced block obtained in the run had the address p. */
  ghost predicate EverFenced(cfg: Config, ops: seq<Op>, p: Addr)
    requires LegalRun(cfg, EMPTY, ops)
  {
    exists i :: i in GrantedInRun(cfg, EMPTY, ops) && i.userPtr == p
  }

  /** hu_user_addrs never forgets: in every run it holds exactly the addresses fenced blocks ever had. */
  lemma KnownInEveryRun(cfg: Config, ops: seq<Op>, p: Addr)
    requires LegalRun(cfg, EMPTY, ops)
    ensures p in Run(cfg, EMPTY, ops).userAddrs <==> EverFenced(cfg, ops, p)
  {
    EmptyIsFine(cfg);
    hide Inv, Run, LegalRun, GrantedInRun;
    RunKnows(cfg, EMPTY, ops);
    var granted := GrantedInRun(cfg, EMPTY, ops);
    assert p in UserPtrs(granted) <==> exists k :: 0 <= k < |granted| && granted[k].userPtr == p;
  }

  /**
   * After any run, freeing an unfenced block gives it back exactly when no fenced block ever had its
   * address in that run; otherwise the free does nothing at all, and the block stays held.
   */
  lemma UnfencedFreeWorksUnlessKnown(cfg: Config, ops: seq<Op>, p: Addr)
    requires LegalRun(cfg, EMPTY, ops) && p in Run(cfg, EMPTY, ops).raw
    ensures var h := Run(cfg, EMPTY, ops);
            && (p !in Free(cfg, h, p).held <==> !EverFenced(cfg, ops, p))
            && (EverFenced(cfg, ops, p) ==> Free(cfg, h, p) == h)
  {
    hide Run, LegalRun, EverFenced;
    ReachableInv(cfg, ops);
    KnownInEveryRun(cfg, ops, p);
    RawNotActive(cfg, Run(cfg, EMPTY, ops), p);
  }

  const OVERFLOW_ONLY: Config := Settings(4096, true, false, 0, 0, false, false, false, true)

  /** malloc(1), free, malloc(0) answered with the address the first block had, free. */
  function KnownAddressRun(): seq<Op> {
    [DoMalloc(1, Block(4096, seq(8192, i => 0))), DoFree(8176), DoMalloc(0, Block(8176, [0])), DoFree(8176)]
  }

  /** Such a run exists: the program has freed everything, but a block is still held. */
  lemma KnownAddressLeaks()
    ensures LegalRun(OVERFLOW_ONLY, EMPTY, KnownAddressRun())
    ensures var h := Run(OVERFLOW_ONLY, EMPTY, KnownAddressRun()); h.active == map[] && h.held.Keys == {8176}
  {
    var ops := KnownAddressRun();
    assert IdealInfo(OVERFLOW_ONLY, 1, 4096) == AllocInfo(8176, 1, 4096, 8192);
    var h1 := Step(OVERFLOW_ONLY, EMPTY, ops[0]).0;
    var h2 := Free(OVERFLOW_ONLY, h1, 8176);
    assert h2.active == map[] && h2.held == map[];
    var (h3, _) := Malloc(OVERFLOW_ONLY, h2, 0, ops[2].reply);
    assert Free(OVERFLOW_ONLY, h3, 8176) == h3;
    OneStep(OVERFLOW_ONLY, EMPTY, ops);
    OneStep(OVERFLOW_ONLY, h1, ops[1..]);
    OneStep(OVERFLOW_ONLY, h2, ops[1..][1..]);
    OneStep(OVERFLOW_ONLY, h3, ops[1..][1..][1..]);
  }

  lemma OneStep(cfg: Config, h: Heap, ops: seq<Op>)
    requires ops != [] && Legal(cfg, h, ops[0])
    ensures LegalRun(cfg, h, ops) <==> LegalRun(cfg, Step(cfg, h, ops[0]).0, ops[1..])
    ensures LegalRun(cfg, h, ops) ==> Run(cfg, h, ops) == Run(cfg, Step(cfg, h, ops[0]).0, ops[1..])
  {
  }

  // ---- a state with everything in it ----

  const EVERYTHING: Config := Settings(4096, true, true, 0, 8192, false, false, false, true)

  /** One byte at 8176, one byte at 16368, and the first block is freed. */
  function SampleRun(): seq<Op> {
    [DoMalloc(1, Block(4096, seq(8192, i => 0))), DoMalloc(1, Block(12288, seq(8192, i => 0))), DoFree(8176)]
  }

  const FIRST := AllocInfo(8176, 1, 4096, 8192)
  const SECOND := AllocInfo(16368, 1, 12288, 8192)

  lemma SampleFirst()
    ensures Legal(EVERYTHING, EMPTY, SampleRun()[0])
    ensures Step(EVERYTHING, EMPTY, SampleRun()[0]).0 == AddFenced(EVERYTHING, EMPTY, FIRST, seq(8192, i => 0))
  {
    assert IdealInfo(EVERYTHING, 1, 4096) == FIRST;
  }

  lemma SampleSecond(h: Heap)
    requires h.held == map[4096 := 8192]
    ensures Legal(EVERYTHING, h, SampleRun()[1])
    ensures Step(EVERYTHING, h, SampleRun()[1]).0 == AddFenced(EVERYTHING, h, SECOND, seq(8192, i => 0))
  {
    assert IdealInfo(EVERYTHING, 1, 12288) == SECOND;
  }

  lemma SampleThird(h: Heap)
    requires h.active == map[8176 := FIRST, 16368 := SECOND] && h.quarantine == [] && !h.evicted && 8176 in h.userAddrs
    ensures Legal(EVERYTHING, h, SampleRun()[2])
    ensures var h' := Step(EVERYTHING, h, SampleRun()[2]).0;
            h'.active.Keys == {16368} && h'.quarantine == [FIRST] && !h'.evicted
  {
    hide AllBytes, SysPtrs, RegionBytes;
    assert [FIRST][1..] == [] && Total([FIRST]) == 8192;
    assert h.quarantine + [FIRST] == [FIRST];
  }

  /** The invariant is met by a state with a live and a quarantined block, which the program can reach. */
  lemma SampleReachable()
    ensures LegalRun(EVERYTHING, EMPTY, SampleRun())
    ensures var h := Run(EVERYTHING, EMPTY, SampleRun());
            Inv(EVERYTHING, h) && h.active.Keys == {16368} && h.quarantine == [FIRST] && !h.evicted
  {
    hide Inv, Legal, Step, Fill, FenceBytes;
    var ops := SampleRun();
    SampleFirst();
    var h1 := Step(EVERYTHING, EMPTY, ops[0]).0;
    SampleSecond(h1);
    var h2 := Step(EVERYTHING, h1, ops[1]).0;
    SampleThird(h2);
    OneStep(EVERYTHING, EMPTY, ops);
    OneStep(EVERYTHING, h1, ops[1..]);
    OneStep(EVERYTHING, h2, ops[1..][1..]);
    ReachableInv(EVERYTHING, ops);
  }
}
