/** What every run of the allocator keeps, and the proof that each transition keeps it. */
module HeapInvariant {
  import opened Machine
  import opened Layout
  import opened Blocks
  import opened Quarantine
  import opened HeapModel

  /** Regions held from the system are non-empty and share no byte. */
  ghost predicate HeldApart(held: map<Addr, nat>) {
    && (forall b :: b in held ==> 0 < b && 0 < held[b] && b + held[b] < WORD)
    && forall b, c :: b in held && c in held && b != c ==> Apart(b, held[b], c, held[c])
  }

  /** A fenced block the checker still holds from the system. */
  ghost predicate Owned(cfg: Config, h: Heap, i: AllocInfo)
  {
    && WellFormed(cfg, i)
    && i.sysPtr in h.held && h.held[i.sysPtr] == i.sysSize
    && i.sysPtr !in h.raw
    && i.userPtr in h.userAddrs
  }

  ghost predicate BlocksOwned(cfg: Config, h: Heap)
  {
    && (forall p :: p in h.active ==> h.active[p].userPtr == p && Owned(cfg, h, h.active[p]))
    && (forall j :: 0 <= j < |h.quarantine| ==> Owned(cfg, h, h.quarantine[j]))
  }

  /** No region serves two blocks. */
  ghost predicate BlocksDistinct(h: Heap) {
    && (forall p, q :: p in h.active && q in h.active && p != q ==> h.active[p].sysPtr != h.active[q].sysPtr)
    && (forall p, j :: p in h.active && 0 <= j < |h.quarantine| ==> h.active[p].sysPtr != h.quarantine[j].sysPtr)
    && (forall j, k :: 0 <= j < k < |h.quarantine| ==> h.quarantine[j].sysPtr != h.quarantine[k].sysPtr)
  }

  ghost predicate ActiveBase(h: Heap, b: Addr) {
    exists p :: p in h.active && h.active[p].sysPtr == b
  }

  ghost predicate QuarantinedBase(h: Heap, b: Addr) {
    exists j :: 0 <= j < |h.quarantine| && h.quarantine[j].sysPtr == b
  }

  /** Every held region is an active block, a quarantined block or an unfenced block. */
  ghost predicate HeldExplained(h: Heap) {
    && h.raw <= h.held.Keys
    && forall b :: b in h.held ==> b in h.raw || ActiveBase(h, b) || QuarantinedBase(h, b)
  }

  ghost predicate InActiveFence(cfg: Config, h: Heap, a: Addr) {
    exists p :: p in h.active && InFence(cfg, h.active[p], a)
  }

  /** The bytes that must trap: fences of active blocks and all of every quarantined block. */
  ghost predicate MustTrap(cfg: Config, h: Heap, a: Addr) {
    InActiveFence(cfg, h, a) || InSome(h.quarantine, a)
  }

  ghost predicate Guarding(cfg: Config, h: Heap) {
    forall a :: a in h.guarded <==> MustTrap(cfg, h, a)
  }

  ghost predicate IsActive(h: Heap, i: AllocInfo) {
    i.userPtr in h.active && h.active[i.userPtr] == i
  }

  /** Each block obtained is now active, quarantined or given back: counted with multiplicity. */
  ghost predicate Conserved(h: Heap) {
    forall i: AllocInfo ::
      multiset(h.granted)[i] == (if IsActive(h, i) then 1 else 0) + multiset(h.quarantine)[i] + multiset(h.released)[i]
  }

  ghost predicate HistoryKept(h: Heap) {
    && h.freed == h.released + h.quarantine
    && h.quarantineSize == Total(h.quarantine)
  }

  /** What holds between any two steps, also in the middle of the eviction loop. */
  ghost predicate Core(cfg: Config, h: Heap)
  {
    && HeldApart(h.held)
    && BlocksOwned(cfg, h)
    && BlocksDistinct(h)
    && HeldExplained(h)
    && Guarding(cfg, h)
    && Conserved(h)
    && HistoryKept(h)
  }

  /** What the quarantine holds once the eviction loop is done, in terms of all frees so far. */
  ghost predicate QuarantineClosed(cfg: Config, h: Heap) {
    if cfg.useafterfree then
      && LongestFittingSuffix(h.quarantine, h.freed, cfg.quarantineMax)
      && (h.evicted <==> cfg.quarantineMax < Total(h.freed))
    else
      h.quarantine == [] && !h.evicted
  }

  ghost predicate Inv(cfg: Config, h: Heap)
  {
    Core(cfg, h) && QuarantineClosed(cfg, h)
  }

  // ---- fresh memory ----

  /** The addresses of a fresh region belong to no block. */
  lemma FreshOutside(cfg: Config, h: Heap, addr: Addr, len: nat, a: Addr)
    requires Core(cfg, h) && Unclaimed(h.held, addr, len) && addr <= a < addr + len
    ensures a !in h.active && !MustTrap(cfg, h, a) && addr !in h.held
    ensures forall j :: 0 <= j < |h.quarantine| ==> h.quarantine[j].userPtr != a
  {
    forall p | p in h.active
      ensures p != a && !InFence(cfg, h.active[p], a)
    {
      assert Owned(cfg, h, h.active[p]);
    }
    forall j | 0 <= j < |h.quarantine|
      ensures h.quarantine[j].userPtr != a && !InRegion(h.quarantine[j], a)
    {
      assert Owned(cfg, h, h.quarantine[j]);
    }
  }

  lemma HeldGrows(held: map<Addr, nat>, addr: Addr, len: nat)
    requires HeldApart(held) && Unclaimed(held, addr, len)
    ensures HeldApart(held[addr := len])
  {
  }

  // ---- unfenced blocks ----

  /** h and h' have the same fenced blocks; only unfenced regions and memory contents differ. */
  ghost predicate SameBlocks(h: Heap, h': Heap) {
    && h'.active == h.active && h'.quarantine == h.quarantine && h'.quarantineSize == h.quarantineSize
    && h'.guarded == h.guarded && h'.userAddrs == h.userAddrs
    && h'.granted == h.granted && h'.freed == h.freed && h'.released == h.released
    && (forall b :: b in h.held && b !in h.raw ==> b in h'.held && h'.held[b] == h.held[b] && b !in h'.raw)
  }

  lemma SameBlocksOwned(cfg: Config, h: Heap, h': Heap)
    requires BlocksOwned(cfg, h) && SameBlocks(h, h')
    ensures BlocksOwned(cfg, h')
  {
    assert forall i :: Owned(cfg, h, i) ==> Owned(cfg, h', i);
    hide Owned;
  }

  lemma SameBlocksFrame(cfg: Config, h: Heap, h': Heap)
    requires Core(cfg, h) && SameBlocks(h, h')
    ensures BlocksOwned(cfg, h') && BlocksDistinct(h') && Guarding(cfg, h') && Conserved(h') && HistoryKept(h')
    ensures forall b :: ActiveBase(h', b) == ActiveBase(h, b) && QuarantinedBase(h', b) == QuarantinedBase(h, b)
  {
    hide BlocksOwned, HeldApart, HeldExplained;
    SameBlocksOwned(cfg, h, h');
    assert forall a :: MustTrap(cfg, h', a) == MustTrap(cfg, h, a);
    assert forall i: AllocInfo :: IsActive(h', i) == IsActive(h, i);
  }

  lemma AddRawIsSameBlocks(cfg: Config, h: Heap, addr: Addr, len: nat, init: seq<Byte>)
    requires Core(cfg, h) && Unclaimed(h.held, addr, len)
    ensures SameBlocks(h, AddRaw(h, addr, len, init)) && addr !in h.held
  {
    FreshOutside(cfg, h, addr, len, addr);
  }

  /** A block passed straight through changes nothing about the fenced ones. */
  lemma AddRawKeeps(cfg: Config, h: Heap, addr: Addr, len: nat, init: seq<Byte>)
    requires Core(cfg, h) && Unclaimed(h.held, addr, len)
    ensures Core(cfg, AddRaw(h, addr, len, init))
  {
    var h' := AddRaw(h, addr, len, init);
    hide BlocksOwned, Guarding, Conserved, HistoryKept, BlocksDistinct, SameBlocks;
    AddRawIsSameBlocks(cfg, h, addr, len, init);
    HeldGrows(h.held, addr, len);
    SameBlocksFrame(cfg, h, h');
    hide ActiveBase, QuarantinedBase, HeldApart;
  }

  lemma DropRawKeeps(cfg: Config, h: Heap, p: Addr)
    requires Core(cfg, h) && p in h.raw
    ensures Core(cfg, DropRaw(h, p))
  {
    SameBlocksFrame(cfg, h, DropRaw(h, p));
    hide BlocksOwned, Guarding, Conserved, HistoryKept, BlocksDistinct, SameBlocks, ActiveBase, QuarantinedBase;
  }

  // ---- obtaining a fenced block ----

  lemma AddFencedOwned(cfg: Config, h: Heap, i: AllocInfo, init: seq<Byte>)
    requires BlocksOwned(cfg, h) && WellFormed(cfg, i)
    requires i.sysPtr !in h.held && i.sysPtr !in h.raw
    ensures BlocksOwned(cfg, AddFenced(cfg, h, i, init))
  {
    var h' := AddFenced(cfg, h, i, init);
    assert Owned(cfg, h', i);
    forall p | p in h.active
      ensures Owned(cfg, h', h.active[p])
    {
      assert Owned(cfg, h, h.active[p]);
    }
    forall j | 0 <= j < |h.quarantine|
      ensures Owned(cfg, h', h.quarantine[j])
    {
      assert Owned(cfg, h, h.quarantine[j]);
    }
  }

  lemma AddFencedDistinct(cfg: Config, h: Heap, i: AllocInfo, init: seq<Byte>)
    requires BlocksOwned(cfg, h) && BlocksDistinct(h) && i.sysPtr !in h.held
    ensures BlocksDistinct(AddFenced(cfg, h, i, init))
  {
    var h' := AddFenced(cfg, h, i, init);
    assert forall p :: p in h.active ==> Owned(cfg, h, h.active[p]);
    assert forall j :: 0 <= j < |h.quarantine| ==> Owned(cfg, h, h.quarantine[j]);
  }

  lemma AddFencedExplained(cfg: Config, h: Heap, i: AllocInfo, init: seq<Byte>)
    requires HeldExplained(h) && i.userPtr !in h.active
    ensures HeldExplained(AddFenced(cfg, h, i, init))
  {
    var h' := AddFenced(cfg, h, i, init);
    assert h'.active[i.userPtr].sysPtr == i.sysPtr;
    forall b | b in h.held
      ensures b in h'.raw || ActiveBase(h', b) || QuarantinedBase(h', b)
    {
      if ActiveBase(h, b) {
        var p :| p in h.active && h.active[p].sysPtr == b;
        assert h'.active[p].sysPtr == b;
      } else if QuarantinedBase(h, b) {
        var j :| 0 <= j < |h.quarantine| && h.quarantine[j].sysPtr == b;
        assert h'.quarantine[j].sysPtr == b;
      }
    }
  }

  lemma AddFencedGuards(cfg: Config, h: Heap, i: AllocInfo, init: seq<Byte>)
    requires Guarding(cfg, h) && i.userPtr !in h.active
    ensures Guarding(cfg, AddFenced(cfg, h, i, init))
  {
    var h' := AddFenced(cfg, h, i, init);
    forall a
      ensures MustTrap(cfg, h', a) <==> MustTrap(cfg, h, a) || InFence(cfg, i, a)
    {
      if InActiveFence(cfg, h, a) {
        var p :| p in h.active && InFence(cfg, h.active[p], a);
        assert p in h'.active && h'.active[p] == h.active[p];
      }
      assert i.userPtr in h'.active && h'.active[i.userPtr] == i;
    }
  }

  lemma AddFencedConserves(cfg: Config, h: Heap, i: AllocInfo, init: seq<Byte>)
    requires Conserved(h) && i.userPtr !in h.active
    ensures Conserved(AddFenced(cfg, h, i, init))
  {
    var h' := AddFenced(cfg, h, i, init);
    forall x: AllocInfo
      ensures (if IsActive(h', x) then 1 else 0) == (if IsActive(h, x) then 1 else 0) + (if x == i then 1 else 0)
    {
    }
  }

  lemma AddFencedKeeps(cfg: Config, h: Heap, i: AllocInfo, init: seq<Byte>)
    requires Core(cfg, h) && WellFormed(cfg, i) && Unclaimed(h.held, i.sysPtr, i.sysSize)
    ensures Core(cfg, AddFenced(cfg, h, i, init)) && i.userPtr !in h.active
  {
    FreshOutside(cfg, h, i.sysPtr, i.sysSize, i.userPtr);
    HeldGrows(h.held, i.sysPtr, i.sysSize);
    AddFencedOwned(cfg, h, i, init);
    AddFencedDistinct(cfg, h, i, init);
    AddFencedExplained(cfg, h, i, init);
    AddFencedGuards(cfg, h, i, init);
    AddFencedConserves(cfg, h, i, init);
  }

  // ---- the user frees a block ----

  lemma QuarantineOwned(cfg: Config, h: Heap, p: Addr)
    requires BlocksOwned(cfg, h) && p in h.active
    ensures BlocksOwned(cfg, MoveToQuarantine(h, p))
  {
    var h' := MoveToQuarantine(h, p);
    assert forall i :: Owned(cfg, h, i) ==> Owned(cfg, h', i);
    hide Owned;
    assert forall j :: 0 <= j < |h.quarantine| ==> h'.quarantine[j] == h.quarantine[j];
  }

  lemma QuarantineDistinct(h: Heap, p: Addr)
    requires BlocksDistinct(h) && p in h.active
    ensures BlocksDistinct(MoveToQuarantine(h, p))
  {
  }

  lemma QuarantineExplained(h: Heap, p: Addr)
    requires HeldExplained(h) && p in h.active
    ensures HeldExplained(MoveToQuarantine(h, p))
  {
    var h' := MoveToQuarantine(h, p);
    var n := |h.quarantine|;
    assert h'.quarantine[n] == h.active[p];
    forall b | b in h.held
      ensures b in h'.raw || ActiveBase(h', b) || QuarantinedBase(h', b)
    {
      if ActiveBase(h, b) {
        var q :| q in h.active && h.active[q].sysPtr == b;
        assert q != p ==> q in h'.active && h'.active[q].sysPtr == b;
      } else if QuarantinedBase(h, b) {
        var j :| 0 <= j < n && h.quarantine[j].sysPtr == b;
        assert h'.quarantine[j].sysPtr == b;
      }
    }
  }

  lemma InSomeAppend(q: seq<AllocInfo>, r: seq<AllocInfo>, a: Addr)
    ensures InSome(q + r, a) <==> InSome(q, a) || InSome(r, a)
  {
    if InSome(q, a) {
      var j :| 0 <= j < |q| && InRegion(q[j], a);
      assert (q + r)[j] == q[j];
    }
    if InSome(r, a) {
      var j :| 0 <= j < |r| && InRegion(r[j], a);
      assert (q + r)[|q| + j] == r[j];
    }
  }

  lemma InSomeOne(i: AllocInfo, a: Addr)
    ensures InSome([i], a) <==> InRegion(i, a)
  {
    assert InRegion([i][0], a) == InRegion(i, a);
  }

  lemma QuarantineGuards(cfg: Config, h: Heap, p: Addr)
    requires Guarding(cfg, h) && p in h.active && WellFormed(cfg, h.active[p])
    ensures Guarding(cfg, MoveToQuarantine(h, p))
  {
    var h' := MoveToQuarantine(h, p);
    var i := h.active[p];
    forall a
      ensures MustTrap(cfg, h', a) <==> MustTrap(cfg, h, a) || InRegion(i, a)
    {
      InSomeAppend(h.quarantine, [i], a);
      InSomeOne(i, a);
      if InActiveFence(cfg, h, a) {
        var q :| q in h.active && InFence(cfg, h.active[q], a);
        assert q != p ==> q in h'.active && InFence(cfg, h'.active[q], a);
      }
    }
  }

  lemma CountSnoc(q: seq<AllocInfo>, i: AllocInfo, x: AllocInfo)
    ensures multiset(q + [i])[x] == multiset(q)[x] + (if x == i then 1 else 0)
  {
  }

  lemma QuarantineConserves(h: Heap, p: Addr)
    requires Conserved(h) && HistoryKept(h) && p in h.active && h.active[p].userPtr == p
    ensures Conserved(MoveToQuarantine(h, p)) && HistoryKept(MoveToQuarantine(h, p))
  {
    var h' := MoveToQuarantine(h, p);
    var i := h.active[p];
    assert h.freed + [i] == h.released + (h.quarantine + [i]);
    forall x: AllocInfo
      ensures multiset(h'.granted)[x]
              == (if IsActive(h', x) then 1 else 0) + multiset(h'.quarantine)[x] + multiset(h'.released)[x]
    {
      assert (if IsActive(h, x) then 1 else 0) == (if IsActive(h', x) then 1 else 0) + (if x == i then 1 else 0);
      CountSnoc(h.quarantine, i, x);
    }
  }

  lemma MoveToQuarantineKeeps(cfg: Config, h: Heap, p: Addr)
    requires Core(cfg, h) && p in h.active
    ensures Core(cfg, MoveToQuarantine(h, p))
  {
    assert Owned(cfg, h, h.active[p]);
    QuarantineOwned(cfg, h, p);
    QuarantineDistinct(h, p);
    QuarantineExplained(h, p);
    QuarantineGuards(cfg, h, p);
    QuarantineConserves(h, p);
  }

  // ---- the oldest blocks leave the quarantine ----

  /** Distinct fenced blocks occupy disjoint regions. */
  lemma QuarantineApart(cfg: Config, h: Heap)
    requires HeldApart(h.held) && BlocksOwned(cfg, h) && BlocksDistinct(h)
    ensures PairwiseApart(h.quarantine)
    ensures forall j :: 0 <= j < |h.quarantine| ==> h.quarantine[j].sysPtr + h.quarantine[j].sysSize < WORD
  {
    assert forall j :: 0 <= j < |h.quarantine| ==> Owned(cfg, h, h.quarantine[j]);
  }

  lemma EvictOwned(cfg: Config, h: Heap, k: nat)
    requires BlocksOwned(cfg, h) && BlocksDistinct(h) && k <= |h.quarantine|
    ensures BlocksOwned(cfg, EvictFirst(h, k)) && BlocksDistinct(EvictFirst(h, k))
  {
    var h' := EvictFirst(h, k);
    forall p | p in h.active
      ensures Owned(cfg, h', h.active[p])
    {
      assert Owned(cfg, h, h.active[p]);
    }
    forall j | 0 <= j < |h'.quarantine|
      ensures Owned(cfg, h', h'.quarantine[j])
    {
      assert h'.quarantine[j] == h.quarantine[k + j] && Owned(cfg, h, h.quarantine[k + j]);
    }
  }

  lemma EvictExplained(cfg: Config, h: Heap, k: nat)
    requires HeldExplained(h) && BlocksOwned(cfg, h) && k <= |h.quarantine|
    ensures HeldExplained(EvictFirst(h, k))
  {
    var h' := EvictFirst(h, k);
    assert forall j :: 0 <= j < |h.quarantine| ==> Owned(cfg, h, h.quarantine[j]);
    assert forall j :: 0 <= j < k ==> h.quarantine[..k][j] == h.quarantine[j];
    forall b | b in h'.held
      ensures b in h'.raw || ActiveBase(h', b) || QuarantinedBase(h', b)
    {
      if QuarantinedBase(h, b) {
        var j :| 0 <= j < |h.quarantine| && h.quarantine[j].sysPtr == b;
        assert h'.quarantine[j - k].sysPtr == b;
      }
    }
  }

  /** A byte of the j-th quarantined block belongs to no other fenced block. */
  lemma QuarantinedApart(cfg: Config, h: Heap, j: nat, a: Addr)
    requires HeldApart(h.held) && BlocksOwned(cfg, h) && BlocksDistinct(h)
    requires j < |h.quarantine| && InRegion(h.quarantine[j], a)
    ensures !InActiveFence(cfg, h, a)
    ensures forall p :: p in h.active ==> !InRegion(h.active[p], a)
    ensures forall k :: 0 <= k < |h.quarantine| && k != j ==> !InRegion(h.quarantine[k], a)
  {
    assert Owned(cfg, h, h.quarantine[j]);
    forall p | p in h.active
      ensures !InRegion(h.active[p], a) && !InFence(cfg, h.active[p], a)
    {
      assert Owned(cfg, h, h.active[p]);
    }
    forall k | 0 <= k < |h.quarantine| && k != j
      ensures !InRegion(h.quarantine[k], a)
    {
      assert Owned(cfg, h, h.quarantine[k]);
    }
  }

  /** The bytes of the blocks that leave stop trapping, and only those. */
  lemma EvictTraps(cfg: Config, h: Heap, k: nat, a: Addr)
    requires HeldApart(h.held) && BlocksOwned(cfg, h) && BlocksDistinct(h) && k <= |h.quarantine|
    ensures MustTrap(cfg, EvictFirst(h, k), a) <==> MustTrap(cfg, h, a) && !InSome(h.quarantine[..k], a)
  {
    var gone, kept := h.quarantine[..k], h.quarantine[k..];
    assert h.quarantine == gone + kept;
    InSomeAppend(gone, kept, a);
    assert InActiveFence(cfg, EvictFirst(h, k), a) == InActiveFence(cfg, h, a);
    if InSome(gone, a) {
      var j :| 0 <= j < k && InRegion(gone[j], a);
      QuarantinedApart(cfg, h, j, a);
      forall m | 0 <= m < |kept|
        ensures !InRegion(kept[m], a)
      {
        assert kept[m] == h.quarantine[k + m];
      }
    }
  }

  lemma EvictGuards(cfg: Config, h: Heap, k: nat)
    requires HeldApart(h.held) && BlocksOwned(cfg, h) && BlocksDistinct(h) && Guarding(cfg, h)
    requires k <= |h.quarantine|
    ensures Guarding(cfg, EvictFirst(h, k))
  {
    var h' := EvictFirst(h, k);
    forall a
      ensures a in h'.guarded <==> MustTrap(cfg, h', a)
    {
      EvictTraps(cfg, h, k, a);
      AllBytesMeans(h.quarantine[..k]);
    }
  }

  lemma SplitCounts(released: seq<AllocInfo>, q: seq<AllocInfo>, k: nat, i: AllocInfo)
    requires k <= |q|
    ensures multiset(q)[i] + multiset(released)[i] == multiset(q[k..])[i] + multiset(released + q[..k])[i]
    ensures released + q == released + q[..k] + q[k..]
  {
    assert q == q[..k] + q[k..];
  }

  lemma EvictConserves(h: Heap, k: nat)
    requires Conserved(h) && HistoryKept(h) && k <= |h.quarantine|
    ensures Conserved(EvictFirst(h, k)) && HistoryKept(EvictFirst(h, k))
  {
    var h' := EvictFirst(h, k);
    forall i: AllocInfo
      ensures multiset(h'.granted)[i]
              == (if IsActive(h', i) then 1 else 0) + multiset(h'.quarantine)[i] + multiset(h'.released)[i]
    {
      SplitCounts(h.released, h.quarantine, k, i);
      assert IsActive(h', i) == IsActive(h, i);
    }
    SplitCounts(h.released, h.quarantine, k, AllocInfo(0, 0, 0, 0));
  }

  lemma EvictFirstKeeps(cfg: Config, h: Heap, k: nat)
    requires Core(cfg, h) && k <= |h.quarantine|
    ensures Core(cfg, EvictFirst(h, k))
  {
    EvictOwned(cfg, h, k);
    EvictExplained(cfg, h, k);
    EvictGuards(cfg, h, k);
    EvictConserves(h, k);
  }

  // ---- without quarantine ----

  /** Releasing at once is quarantining and then letting the block itself leave again. */
  lemma ReleaseNowIsQuarantineAndLeave(cfg: Config, h: Heap, p: Addr)
    requires Core(cfg, h) && p in h.active && h.quarantine == []
    ensures ReleaseNow(h, p) == EvictFirst(MoveToQuarantine(h, p), 1).(evicted := h.evicted)
  {
    hide Core, Total;
    var h1 := MoveToQuarantine(h, p);
    var i := h.active[p];
    assert h.quarantine + [i] == [i] && [i][..1] == [i] && [i][1..] == [];
    JustOneBlock(i);
    assert h.guarded - RegionBytes(i) == h.guarded + RegionBytes(i) - AllBytes([i]);
    assert Total([]) == 0 && h.quarantineSize == 0 by { EmptyQuarantineSize(cfg, h); }
  }

  lemma EmptyQuarantineSize(cfg: Config, h: Heap)
    requires Core(cfg, h) && h.quarantine == []
    ensures h.quarantineSize == 0 && Total([]) == 0
  {
  }

  lemma JustOneBlock(i: AllocInfo)
    ensures SysPtrs([i]) == {i.sysPtr} && AllBytes([i]) == RegionBytes(i)
  {
    assert [i][0].sysPtr == i.sysPtr;
    forall a
      ensures a in AllBytes([i]) <==> a in RegionBytes(i)
    {
      InSomeOne(i, a);
    }
  }

  lemma ReleaseNowKeeps(cfg: Config, h: Heap, p: Addr)
    requires Core(cfg, h) && p in h.active && h.quarantine == []
    ensures Core(cfg, ReleaseNow(h, p))
  {
    ReleaseNowIsQuarantineAndLeave(cfg, h, p);
    MoveToQuarantineKeeps(cfg, h, p);
    EvictFirstKeeps(cfg, MoveToQuarantine(h, p), 1);
    var h2 := EvictFirst(MoveToQuarantine(h, p), 1);
    SameBlocksCore(cfg, h2, h2.(evicted := h.evicted));
  }

  /** The invariant does not look at the sticky flag or at memory contents. */
  lemma SameBlocksCore(cfg: Config, h: Heap, h': Heap)
    requires Core(cfg, h) && h' == h.(evicted := h'.evicted, bytes := h'.bytes)
    ensures Core(cfg, h')
  {
    SameBlocksFrame(cfg, h, h');
  }
}
