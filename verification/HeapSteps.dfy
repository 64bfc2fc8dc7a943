/** The individual statements of hu_malloc and hu_free, connected to the transitions of HeapModel. */
module HeapSteps {
  import opened Machine
  import opened Layout
  import opened Blocks
  import opened Quarantine
  import opened HeapModel
  import opened HeapInvariant
  import opened HeapTheorems
  import opened HeapContents
  import opened LogModel

  // ---- hu_malloc ----

  /** The pointers hu_malloc computes in 64 bits, and the fence page it may protect. */
  lemma FreshBlock(cfg: Config, h: Heap, n: nat, addr: Addr, init: seq<Byte>)
    requires Core(cfg, h) && IsFenced(cfg, n) && Served(cfg, h, n, Block(addr, init))
    ensures var i, s := IdealInfo(cfg, n, addr), SysSize(cfg, UserSize(n));
            var fence := Sub64(Add64(addr, s), cfg.page);
            && Unclaimed(h.held, addr, s) && |init| == s
            && i == AllocInfo(if cfg.overflow then Sub64(fence, UserSize(n)) else addr, n, addr, s)
            && i.userPtr !in h.active
            && (cfg.overflow ==> addr <= fence && fence + cfg.page == addr + s && WholePages(cfg.page, fence, cfg.page))
            && AddFenced(cfg, h, i, init) == h.(
                 held := h.held[addr := s],
                 bytes := Fill(h.bytes, addr, init),
                 guarded := if cfg.overflow then h.guarded + Range(fence, fence + cfg.page) else h.guarded,
                 active := h.active[i.userPtr := i],
                 userAddrs := h.userAddrs + {i.userPtr},
                 granted := h.granted + [i])
  {
    hide Core, UserSize, SysSize, Fill;
    var i := IdealInfo(cfg, n, addr);
    IdealInfoWellFormed(cfg, n, addr);
    AddFencedKeeps(cfg, h, i, init);
    MakeInfoIsIdeal(cfg, n, addr);
    BlockAligned(cfg, i);
    MultipleOf(1, cfg.page);
    hide IdealSysSize, Ceil;
    if cfg.overflow {
      FencePointer(addr, i.sysSize, cfg.page);
    } else {
      assert FenceBytes(cfg, i) == {};
      assert h.guarded + {} == h.guarded;
    }
  }

  lemma FencePointer(addr: nat, size: nat, page: nat)
    requires addr + size < WORD && page <= size
    ensures Sub64(Add64(addr, size), page) == addr + size - page
  {
  }

  lemma FencedUserSize(cfg: Config, i: AllocInfo)
    requires WellFormed(cfg, i)
    ensures i.userSize <= UserSize(i.userSize) < i.userSize + SIZE_MULTIPLE
    ensures cfg.overflow ==> i.userPtr + UserSize(i.userSize) == FenceStart(cfg, i)
  {
    IdealSizeBounds(cfg, i.userSize);
    SizesAreIdeal(cfg, i.userSize);
    hide UserSize, SysSize, Ceil, IdealSysSize;
  }

  // ---- hu_free ----

  lemma UnfencedLeaves(cfg: Config, h: Heap, p: Addr)
    requires Core(cfg, h) && p in h.raw
    ensures SystemFree(h, p).held == h.held - {p}
  {
  }

  lemma QuarantineHolds(h: Heap, p: Addr)
    requires p in h.active
    ensures MoveToQuarantine(h, p).quarantine == h.quarantine + [h.active[p]]
  {
  }

  /** Adding to the size counter never wraps: all quarantined regions fit into the address space. */
  lemma QuarantineSizeExact(cfg: Config, h: Heap, p: Addr)
    requires Core(cfg, h) && p in h.active
    ensures Add64(h.quarantineSize, h.active[p].sysSize) == Total(h.quarantine + [h.active[p]]) < WORD
  {
    var i := h.active[p];
    MoveToQuarantineKeeps(cfg, h, p);
    hide Core, Total, RegionBytes;
    CoreQuarantineFits(cfg, h);
    CoreQuarantineFits(cfg, MoveToQuarantine(h, p));
    TotalSnoc(h.quarantine, i);
    AddExact(h.quarantineSize, i.sysSize);
  }

  lemma TotalSnoc(q: seq<AllocInfo>, i: AllocInfo)
    ensures Total(q + [i]) == Total(q) + i.sysSize
  {
    TotalAppend(q, [i]);
    assert [i][1..] == [] && Total([i]) == i.sysSize;
  }

  lemma AddExact(a: nat, b: nat)
    ensures a + b < WORD ==> Add64(a, b) == a + b
    ensures b <= a < WORD ==> Sub64(a, b) == a - b
  {
  }

  lemma CoreQuarantineFits(cfg: Config, h: Heap)
    requires Core(cfg, h)
    ensures h.quarantineSize == Total(h.quarantine) < WORD
  {
    QuarantineApart(cfg, h);
    hide BlocksOwned, Guarding, Conserved, HeldExplained, HeldApart, BlocksDistinct;
    TotalFitsWord(h.quarantine);
  }

  lemma ServedZero(cfg: Config, h: Heap, reply: Reply)
    requires Served(cfg, h, 0, reply)
    ensures SystemServes(h.held, RawSize(0), reply)
  {
  }

  /** A pointer came back: the system granted a block, and its bytes may be touched. */
  lemma NotNullServed(cfg: Config, h: Heap, n: nat, reply: Reply)
    requires Inv(cfg, h) && Served(cfg, h, n, reply) && Malloc(cfg, h, n, reply).1 != NULL
    ensures reply.Block?
    ensures var (h1, p) := Malloc(cfg, h, n, reply); forall a :: p <= a < p + n ==> a !in h1.guarded
  {
    if reply.Block? {
      MallocServes(cfg, h, n, reply);
    }
  }

  /** What hu_calloc relies on along its three paths. */
  lemma CallocPaths(cfg: Config, h: Heap, count: nat, size: nat, reply: Reply)
    requires Inv(cfg, h) && Legal(cfg, h, DoCalloc(count, size, reply))
    ensures Inv(cfg, Calloc(cfg, h, count, size, reply).0)
    ensures count == 0 || size == 0 ==> SystemServes(h.held, RawSize(0), reply)
    ensures count != 0 && size != 0 && Mul64(count, size) / count == size ==>
              Served(cfg, h, Mul64(count, size), reply)
    ensures count != 0 && size != 0 && Mul64(count, size) / count == size
            && Malloc(cfg, h, Mul64(count, size), reply).1 != NULL ==>
              var (h1, p) := Malloc(cfg, h, Mul64(count, size), reply);
              forall a :: p <= a < p + Mul64(count, size) ==> a !in h1.guarded
  {
    CallocKeeps(cfg, h, count, size, reply);
    hide Inv, Malloc, Calloc;
    if count == 0 || size == 0 {
      assert Mul64(count, size) == 0;
      ServedZero(cfg, h, reply);
    } else if Mul64(count, size) / count == size && Malloc(cfg, h, Mul64(count, size), reply).1 != NULL {
      NotNullServed(cfg, h, Mul64(count, size), reply);
    }
  }

  /** What hu_realloc relies on when it moves a live fenced block. */
  lemma ReallocMoves(cfg: Config, h: Heap, p: Addr, n: nat, reply: Reply)
    requires Inv(cfg, h) && p in h.active && 0 < n && Served(cfg, h, n, reply)
    ensures var (h1, q) := Malloc(cfg, h, n, reply);
            var h2 := Copied(cfg, h, p, n, reply);
            var m := Min(n, h.active[p].userSize);
            && h2 == (if q == NULL then h1 else h1.(bytes := Copy(h1.bytes, q, p, m)))
            && h.active[p].userPtr == p && p in h2.userAddrs
            && Inv(cfg, h2)
            && Realloc(cfg, h, p, n, reply) == (Free(cfg, h2, p), q)
            && EvictedBy(cfg, h2, p) == EvictedBy(cfg, h, p)
            && (q != NULL ==> Apart(q, m, p, m)
                              && forall a: Addr :: p <= a < p + m || q <= a < q + m ==> a !in h1.guarded)
  {
    ActivePointers(cfg, h, p);
    CopiedKeeps(cfg, h, p, n, reply, p);
    ReallocIsCopyAndFree(cfg, h, p, n, reply);
    CopiedQuarantine(cfg, h, p, n, reply);
    hide Inv, Malloc, Realloc, Served, Free, Copy, EvictedBy;
    if Malloc(cfg, h, n, reply).1 != NULL {
      NotNullServed(cfg, h, n, reply);
      ReallocCopiesSafely(cfg, h, p, n, reply);
    }
  }

  /** realloc's copying changes nothing that decides which blocks its free will evict. */
  lemma CopiedQuarantine(cfg: Config, h: Heap, p: Addr, n: nat, reply: Reply)
    requires Inv(cfg, h) && p in h.active && 0 < n && Served(cfg, h, n, reply)
    ensures EvictedBy(cfg, Copied(cfg, h, p, n, reply), p) == EvictedBy(cfg, h, p)
  {
    CopiedKeeps(cfg, h, p, n, reply, p);
    hide Inv, Served, Cut, IdealInfo;
  }

  /** The whole-page region of an owned block. */
  lemma OwnedRegion(cfg: Config, h: Heap, i: AllocInfo)
    requires Owned(cfg, h, i)
    ensures RegionOf(cfg, h, i)
  {
    BlockAligned(cfg, i);
  }

  /** The statements of hu_free that quarantine an active block, and why each is allowed. */
  lemma QuarantineIs(cfg: Config, h: Heap, p: Addr)
    requires Core(cfg, h) && p in h.active
    ensures var i := h.active[p];
            && MoveToQuarantine(h, p) == h.(
                 active := h.active - {p},
                 guarded := h.guarded + Range(i.sysPtr, i.sysPtr + i.sysSize),
                 quarantine := h.quarantine + [i],
                 quarantineSize := Add64(h.quarantineSize, i.sysSize),
                 freed := h.freed + [i])
            && Core(cfg, MoveToQuarantine(h, p))
            && RegionOf(cfg, h, i)
  {
    QuarantineSizeExact(cfg, h, p);
    MoveToQuarantineKeeps(cfg, h, p);
    assert Owned(cfg, h, h.active[p]);
    OwnedRegion(cfg, h, h.active[p]);
    hide Core, Owned, Total;
  }

  lemma ActiveRegion(cfg: Config, h: Heap, p: Addr)
    requires Core(cfg, h) && p in h.active
    ensures RegionOf(cfg, h, h.active[p]) && WellFormed(cfg, h.active[p])
  {
    assert Owned(cfg, h, h.active[p]);
    OwnedRegion(cfg, h, h.active[p]);
  }

  /** Nothing evicted, nothing forgotten by the log. */
  lemma ForgetNothing(m: map<Addr, Entry>)
    ensures m - UserPtrs([]) == m
  {
    assert UserPtrs([]) == {};
  }

  lemma ForgetOneMore(m: map<Addr, Entry>, q: seq<AllocInfo>, k: nat)
    requires k < |q|
    ensures m - UserPtrs(q[..k]) - {q[k].userPtr} == m - UserPtrs(q[..k + 1])
  {
    BytesSnoc(q, k);
    hide UserPtrs;
  }

  // ---- the eviction loop ----

  lemma EvictNothing(h: Heap)
    requires h.quarantineSize == Total(h.quarantine)
    ensures EvictFirst(h, 0) == h
  {
    assert h.quarantine[..0] == [] && h.quarantine[0..] == h.quarantine;
    assert AllBytes([]) == {} && SysPtrs([]) == {};
    assert h.bytes - {} == h.bytes && h.held - {} == h.held;
  }

  lemma BytesSnoc(q: seq<AllocInfo>, k: nat)
    requires k < |q|
    ensures AllBytes(q[..k + 1]) == AllBytes(q[..k]) + RegionBytes(q[k])
    ensures SysPtrs(q[..k + 1]) == SysPtrs(q[..k]) + {q[k].sysPtr}
    ensures UserPtrs(q[..k + 1]) == UserPtrs(q[..k]) + {q[k].userPtr}
  {
    assert q[..k + 1] == q[..k] + [q[k]];
    AllBytesMeans(q[..k]);
    AllBytesMeans(q[..k + 1]);
    forall a
      ensures a in AllBytes(q[..k + 1]) <==> a in AllBytes(q[..k]) || a in RegionBytes(q[k])
    {
      InSomeAppend(q[..k], [q[k]], a);
      InSomeOne(q[k], a);
    }
    PtrsSnoc(q[..k], q[k]);
  }

  lemma PtrsSnoc(q: seq<AllocInfo>, i: AllocInfo)
    ensures SysPtrs(q + [i]) == SysPtrs(q) + {i.sysPtr}
    ensures UserPtrs(q + [i]) == UserPtrs(q) + {i.userPtr}
  {
    assert (q + [i])[|q|] == i;
    assert forall j :: 0 <= j < |q| ==> (q + [i])[j] == q[j];
  }

  lemma LoopStarts(cfg: Config, h: Heap)
    requires Core(cfg, h)
    ensures EvictFirst(h, 0) == h && h.quarantineSize == Total(h.quarantine)
  {
    EvictNothing(h);
  }

  /** A pointer that may be reallocated may also be freed. */
  lemma LiveMayBeFreed(cfg: Config, h: Heap, p: Addr)
    requires Inv(cfg, h) && MayRealloc(h, p)
    ensures MayFree(h, p)
  {
    NullNeverActive(cfg, h);
  }

  lemma NullNotActive(cfg: Config, h: Heap)
    requires Inv(cfg, h)
    ensures NULL !in h.active && h.active.Keys <= h.userAddrs
  {
    NullNeverActive(cfg, h);
  }

  /** Evicting one more after k is evicting k + 1. */
  lemma EvictOneMore(h: Heap, k: nat)
    requires k < |h.quarantine|
    ensures EvictFirst(EvictFirst(h, k), 1) == EvictFirst(h, k + 1)
  {
    var q, i := h.quarantine, h.quarantine[k];
    BytesSnoc(q, k);
    JustOneBlock(i);
    hide AllBytes, SysPtrs, Total, RegionBytes;
    assert q[k..][..1] == [i] && q[k..][1..] == q[k + 1..];
    assert q[..k + 1] == q[..k] + [i];
    assert h.released + (q[..k] + [i]) == h.released + q[..k] + [i];
    assert h.guarded - (AllBytes(q[..k]) + RegionBytes(i)) == h.guarded - AllBytes(q[..k]) - RegionBytes(i);
    assert h.held - (SysPtrs(q[..k]) + {i.sysPtr}) == h.held - SysPtrs(q[..k]) - {i.sysPtr};
    assert h.bytes - (AllBytes(q[..k]) + RegionBytes(i)) == h.bytes - AllBytes(q[..k]) - RegionBytes(i);
  }

  /** The statements of one round of the eviction loop, and why each is allowed. */
  lemma EvictOldestIs(cfg: Config, h: Heap)
    requires Core(cfg, h) && h.quarantine != []
    ensures var i := h.quarantine[0];
            && EvictFirst(h, 1) == h.(
                 quarantine := h.quarantine[1..],
                 quarantineSize := Sub64(h.quarantineSize, i.sysSize),
                 evicted := true,
                 guarded := h.guarded - Range(i.sysPtr, i.sysPtr + i.sysSize),
                 held := h.held - {i.sysPtr},
                 bytes := h.bytes - Range(i.sysPtr, i.sysPtr + i.sysSize),
                 released := h.released + [i])
            && Core(cfg, EvictFirst(h, 1))
            && RegionOf(cfg, h, i)
  {
    var i := h.quarantine[0];
    EvictFirstKeeps(cfg, h, 1);
    OldestOwned(cfg, h);
    OwnedRegion(cfg, h, i);
    SizeStepDown(cfg, h);
    JustOneBlock(i);
    assert h.quarantine[..1] == [i];
    hide Core, Owned, AllBytes, SysPtrs, Total;
  }

  /** i occupies whole pages of one held region. */
  ghost predicate RegionOf(cfg: Config, h: Heap, i: AllocInfo) {
    && i.sysPtr in h.held && h.held[i.sysPtr] == i.sysSize
    && WholePages(cfg.page, i.sysPtr, i.sysSize)
  }

  /** Taking the oldest block off the size counter never underflows. */
  lemma SizeStepDown(cfg: Config, h: Heap)
    requires Core(cfg, h) && h.quarantine != []
    ensures h.quarantine[0].sysSize <= h.quarantineSize < WORD
    ensures Sub64(h.quarantineSize, h.quarantine[0].sysSize) == Total(h.quarantine[1..])
  {
    CoreQuarantineFits(cfg, h);
    assert Total(h.quarantine) == h.quarantine[0].sysSize + Total(h.quarantine[1..]);
    hide Core, Total;
    AddExact(h.quarantineSize, h.quarantine[0].sysSize);
  }

  /** The loop goes on exactly while fewer blocks than the cut have left. */
  lemma CutReached(q: seq<AllocInfo>, max: nat, k: nat)
    requires k <= Cut(q, max)
    ensures max < Total(q[k..]) ==> k < Cut(q, max)
    ensures Total(q[k..]) <= max ==> k == Cut(q, max)
  {
    CutLeavesLongestSuffix(q, max);
    TotalDrop(q, Cut(q, max), Cut(q, max));
  }

  lemma OldestOwned(cfg: Config, h: Heap)
    requires Core(cfg, h) && h.quarantine != []
    ensures Owned(cfg, h, h.quarantine[0])
  {
  }
}
