/** What the program gets for a request, operation by operation, and that held memory has contents. */
module HeapPromises {
  import opened Machine
  import opened Layout
  import opened Blocks
  import opened Quarantine
  import opened HeapModel
  import opened HeapInvariant
  import opened HeapTheorems
  import opened HeapContents

  // ---- answers ----

  /** The program may use n bytes at q: in a fenced block of that size, or in an unfenced one. */
  ghost predicate Usable(h: Heap, q: Addr, n: nat, fenced: bool) {
    && q != NULL
    && (if fenced then q in h.active && h.active[q].userSize == n
        else q in h.raw && q in h.held && n <= h.held[q])
    && forall a :: q <= a < q + n ==> a !in h.guarded
  }

  lemma MallocAnswered(cfg: Config, h: Heap, n: nat, reply: Reply)
    requires Inv(cfg, h) && Served(cfg, h, n, reply)
    ensures var (h', q) := Malloc(cfg, h, n, reply);
            && (reply.Refused? ==> q == NULL && h' == h)
            && (reply.Block? ==> Usable(h', q, n, 0 < n && cfg.minsize <= n))
  {
    if reply.Block? {
      MallocServes(cfg, h, n, reply);
      if !IsFenced(cfg, n) {
        MallocHolds(cfg, h, n, reply);
      }
    }
    hide Inv, Malloc, Served;
  }

  lemma MallocHolds(cfg: Config, h: Heap, n: nat, reply: Reply)
    requires !IsFenced(cfg, n) && reply.Block?
    ensures var (h', q) := Malloc(cfg, h, n, reply); q in h'.held && n <= h'.held[q]
  {
    hide Fill;
  }

  /** Also a request for nothing goes to the system, and gets what it answers. */
  lemma CallocAnswered(cfg: Config, h: Heap, count: nat, size: nat, reply: Reply)
    requires Inv(cfg, h) && Legal(cfg, h, DoCalloc(count, size, reply))
    ensures var (h', q) := Calloc(cfg, h, count, size, reply);
            && (reply.Refused? || WORD <= count * size ==> q == NULL && h' == h)
            && (reply.Block? && count * size < WORD ==>
                  Usable(h', q, count * size, 0 < count * size && cfg.minsize <= count * size))
  {
    hide Inv, Served, Usable;
    if count == 0 || size == 0 {
      EmptyProduct(count, size);
      NoProduct(count, size);
      MallocNothing(cfg, h, reply);
      MallocAnswered(cfg, h, 0, reply);
    } else {
      CallocTestExact(count, size);
      if count * size < WORD {
        SmallRemainder(count * size);
        MallocAnswered(cfg, h, count * size, reply);
        ZeroedStaysUsable(cfg, h, count * size, reply);
      }
    }
  }

  lemma NoProduct(count: nat, size: nat)
    requires count == 0 || size == 0
    ensures count * size == 0
  {
  }

  lemma ZeroedStaysUsable(cfg: Config, h: Heap, total: nat, reply: Reply)
    ensures var (h1, q) := Malloc(cfg, h, total, reply);
            var (h', q') := MallocZeroed(cfg, h, total, reply);
            && q' == q && (q == NULL ==> h' == h1)
            && (forall fenced :: Usable(h1, q, total, fenced) ==> Usable(h', q, total, fenced))
  {
    hide Malloc, Zero;
  }

  lemma UsableAfterFree(cfg: Config, h: Heap, p: Addr, q: Addr, n: nat, fenced: bool)
    requires Inv(cfg, h) && MayFree(h, p) && Usable(h, q, n, fenced) && p != q
    ensures Usable(Free(cfg, h, p), q, n, fenced)
  {
    RawOrActive(cfg, h, q);
    hide Inv, Free;
    OthersUndisturbed(cfg, h, DoFree(p), q);
  }

  lemma RawOrActive(cfg: Config, h: Heap, q: Addr)
    requires Inv(cfg, h)
    ensures q in h.raw ==> q !in h.active
  {
    if q in h.raw {
      RawNotActive(cfg, h, q);
    }
  }

  lemma CopiedUsable(cfg: Config, h: Heap, p: Addr, n: nat, reply: Reply, q: Addr, fenced: bool)
    requires p in h.active && Usable(Malloc(cfg, h, n, reply).0, q, n, fenced)
    ensures Usable(Copied(cfg, h, p, n, reply), q, n, fenced)
  {
    hide Malloc, Copy;
  }

  lemma MovedAnswered(cfg: Config, h: Heap, p: Addr, n: nat, reply: Reply)
    requires Inv(cfg, h) && p in h.active && 0 < n && Served(cfg, h, n, reply)
    ensures var (h', q) := Realloc(cfg, h, p, n, reply);
            && (reply.Refused? ==> q == NULL)
            && (reply.Block? ==> Usable(h', q, n, cfg.minsize <= n))
  {
    hide Inv, Malloc, Free, Realloc, Served, Copy, Usable, Copied;
    MallocAnswered(cfg, h, n, reply);
    ReallocIsCopyAndFree(cfg, h, p, n, reply);
    if reply.Block? {
      var q := Malloc(cfg, h, n, reply).1;
      var h2 := Copied(cfg, h, p, n, reply);
      CopiedKeeps(cfg, h, p, n, reply, p);
      ReallocCopiesSafely(cfg, h, p, n, reply);
      LiveMayGo(cfg, h2, p);
      CopiedUsable(cfg, h, p, n, reply, q, cfg.minsize <= n);
      UsableAfterFree(cfg, h2, p, q, n, cfg.minsize <= n);
    }
  }

  lemma LiveMayGo(cfg: Config, h: Heap, p: Addr)
    requires Inv(cfg, h) && p in h.active
    ensures MayFree(h, p) && p != NULL
  {
    ActiveKnown(cfg, h);
    ActivePointers(cfg, h, p);
  }

  /** The system's realloc of an unfenced block: the old region goes, unless it is the new one. */
  lemma SystemReallocAnswered(cfg: Config, h: Heap, p: Addr, n: nat, reply: Reply)
    requires Inv(cfg, h) && p in h.raw && SystemServes(h.held - {p}, RawSize(n), reply)
    ensures var (h', q) := SystemRealloc(h, p, n, reply);
            && (reply.Refused? ==> q == NULL && h' == h)
            && (reply.Block? ==> q == reply.addr && Usable(h', q, n, false))
            && (reply.Block? && p != q ==> p !in h'.held && p !in h'.raw)
  {
    if reply.Block? {
      DropRawKeeps(cfg, h, p);
      SystemReallocKeeps(cfg, h, p, n, reply);
      var h' := SystemRealloc(h, p, n, reply).0;
      InvIsCore(cfg, h');
      RawAccessible(cfg, h', reply.addr);
    }
    hide Inv, Fill;
  }

  /** realloc of null is malloc; of a fenced block a move; of an unfenced one the system's; to 0 a free. */
  lemma ReallocAnswered(cfg: Config, h: Heap, p: Addr, n: nat, reply: Reply)
    requires Inv(cfg, h) && Legal(cfg, h, DoRealloc(p, n, reply))
    ensures var (h', q) := Realloc(cfg, h, p, n, reply);
            if p != NULL && n == 0 then q == NULL && p !in h'.active
            else
              && (reply.Refused? ==> q == NULL)
              && (reply.Block? ==> Usable(h', q, n, (p == NULL || p in h.active) && 0 < n && cfg.minsize <= n))
              && (reply.Block? && p in h.raw && p != q ==> p !in h'.held)
              && (p in h.active ==> p !in h'.active)
  {
    NullNeverActive(cfg, h);
    RawOrActive(cfg, h, p);
    hide Inv, Malloc, Free, SystemRealloc, Served, Usable;
    if p == NULL {
      NullNotRaw(cfg, h);
      MallocAnswered(cfg, h, n, reply);
    } else if n == 0 {
      FreeEndsIt(cfg, h, p);
    } else if p in h.active {
      MovedAnswered(cfg, h, p, n, reply);
      ReallocAlwaysGivesUpOldBlock(cfg, h, p, n, reply);
    } else {
      SystemReallocAnswered(cfg, h, p, n, reply);
    }
  }

  lemma NullNotRaw(cfg: Config, h: Heap)
    requires Inv(cfg, h)
    ensures NULL !in h.raw
  {
  }

  lemma FreeEndsIt(cfg: Config, h: Heap, p: Addr)
    requires Inv(cfg, h)
    ensures p !in Free(cfg, h, p).active
  {
    NullNeverActive(cfg, h);
    hide Inv, Cut, Total, AllBytes, SysPtrs, RegionBytes;
  }

  // ---- contents ----

  /** Whenever realloc returns a new block for a live fenced one, it has the old bytes as far as they fit. */
  lemma ReallocDelivers(cfg: Config, h: Heap, p: Addr, n: nat, reply: Reply)
    requires Inv(cfg, h) && Legal(cfg, h, DoRealloc(p, n, reply))
    ensures var (h', q) := Realloc(cfg, h, p, n, reply);
            p in h.active && 0 < n && q != NULL ==>
              forall a: Addr :: q <= a && a < q + n && a < q + h.active[p].userSize && p + (a - q) in h.bytes ==>
                a in h'.bytes && h'.bytes[a] == h.bytes[p + (a - q)]
  {
    hide Inv, Realloc, Served, Usable, IdealSysSize;
    if p in h.active && 0 < n {
      LiveMayGo(cfg, h, p);
      if reply.Block? {
        ReallocPreservesContents(cfg, h, p, n, reply);
      } else {
        MovedAnswered(cfg, h, p, n, reply);
      }
    }
  }

  /** Whenever calloc returns a block, it is clear. */
  lemma CallocDelivers(cfg: Config, h: Heap, count: nat, size: nat, reply: Reply)
    requires Inv(cfg, h) && Legal(cfg, h, DoCalloc(count, size, reply))
    ensures var (h', q) := Calloc(cfg, h, count, size, reply);
            q != NULL ==> forall a: Addr :: q <= a < q + count * size ==> a in h'.bytes && h'.bytes[a] == 0
  {
    CallocAnswered(cfg, h, count, size, reply);
    if count == 0 || size == 0 {
      NoProduct(count, size);
    } else if reply.Block? {
      CallocZeroes(cfg, h, count, size, reply);
    }
    hide Inv, Calloc, Served;
  }

  /** Every byte of a held region has contents. */
  ghost predicate Backed(h: Heap) {
    forall b, a: Addr :: b in h.held && b <= a < b + h.held[b] ==> a in h.bytes
  }

  lemma FillBacks(m: map<Addr, Byte>, addr: Addr, init: seq<Byte>)
    ensures forall a: Addr :: a in m || addr <= a < addr + |init| ==> a in Fill(m, addr, init)
  {
    RangeIs(addr, addr + |init|);
  }

  lemma RangeIs(lo: Addr, hi: Addr)
    ensures forall a: Addr :: a in Range(lo, hi) <==> lo <= a < hi
  {
  }

  lemma GrantBacks(h: Heap, addr: Addr, len: nat, init: seq<Byte>)
    requires Backed(h) && |init| == len
    ensures Backed(h.(held := h.held[addr := len], bytes := Fill(h.bytes, addr, init)))
  {
    FillBacks(h.bytes, addr, init);
    hide Fill;
  }

  lemma MallocBacks(cfg: Config, h: Heap, n: nat, reply: Reply)
    requires Backed(h) && Served(cfg, h, n, reply)
    ensures Backed(Malloc(cfg, h, n, reply).0)
  {
    match reply {
      case Refused =>
      case Block(addr, init) => GrantBacks(h, addr, |init|, init);
    }
    hide Backed, Fill, FenceBytes, IdealSysSize;
  }

  /** Regions leave together with their bytes; the others share none with them. */
  lemma EvictBacks(cfg: Config, h: Heap, k: nat)
    requires Core(cfg, h) && Backed(h) && k <= |h.quarantine|
    ensures Backed(EvictFirst(h, k))
  {
    var h', gone := EvictFirst(h, k), h.quarantine[..k];
    AllBytesMeans(gone);
    forall b, a: Addr | b in h'.held && b <= a < b + h'.held[b]
      ensures a in h'.bytes
    {
      forall j | 0 <= j < k
        ensures !InRegion(gone[j], a)
      {
        assert gone[j] == h.quarantine[j] && Owned(cfg, h, h.quarantine[j]);
        assert gone[j].sysPtr in SysPtrs(gone);
      }
    }
  }

  lemma FreeBacks(cfg: Config, h: Heap, p: Addr)
    requires Inv(cfg, h) && Backed(h) && MayFree(h, p)
    ensures Backed(Free(cfg, h, p))
  {
    NullNeverActive(cfg, h);
    if p != NULL && p !in h.userAddrs {
      DropBacks(cfg, h, p);
    } else if p in h.active {
      if cfg.useafterfree {
        MoveToQuarantineKeeps(cfg, h, p);
        var h1 := MoveToQuarantine(h, p);
        EvictBacks(cfg, h1, Cut(h1.quarantine, cfg.quarantineMax));
      } else {
        ReleaseBacks(cfg, h, p);
      }
    }
    hide Inv, Backed, MoveToQuarantine, EvictFirst, ReleaseNow, DropRaw, MayFree;
  }

  lemma DropBacks(cfg: Config, h: Heap, p: Addr)
    requires Inv(cfg, h) && Backed(h) && p in h.held
    ensures Backed(DropRaw(h, p))
  {
    RangeIs(p, p + h.held[p]);
    hide Range;
  }

  lemma ReleaseBacks(cfg: Config, h: Heap, p: Addr)
    requires Inv(cfg, h) && Backed(h) && p in h.active
    ensures Backed(ReleaseNow(h, p))
  {
    var i := h.active[p];
    assert Owned(cfg, h, i);
    RangeIs(i.sysPtr, i.sysPtr + i.sysSize);
    hide Range;
  }

  lemma MoreBytesBack(h: Heap, m: map<Addr, Byte>)
    requires Backed(h) && h.bytes.Keys <= m.Keys
    ensures Backed(h.(bytes := m))
  {
  }

  lemma CallocBacks(cfg: Config, h: Heap, count: nat, size: nat, reply: Reply)
    requires Backed(h) && Legal(cfg, h, DoCalloc(count, size, reply))
    ensures Backed(Calloc(cfg, h, count, size, reply).0)
  {
    if count == 0 || size == 0 {
      EmptyProduct(count, size);
      MallocNothing(cfg, h, reply);
      MallocBacks(cfg, h, 0, reply);
    } else if Mul64(count, size) / count == size {
      var total := Mul64(count, size);
      MallocBacks(cfg, h, total, reply);
      var (h1, p) := Malloc(cfg, h, total, reply);
      MoreBytesBack(h1, Zero(h1.bytes, p, total));
    }
    hide Backed, Malloc, Served, Zero;
  }

  lemma ReallocBacks(cfg: Config, h: Heap, p: Addr, n: nat, reply: Reply)
    requires Inv(cfg, h) && Backed(h) && Legal(cfg, h, DoRealloc(p, n, reply))
    ensures Backed(Realloc(cfg, h, p, n, reply).0)
  {
    if p == NULL {
      MallocBacks(cfg, h, n, reply);
    } else if n == 0 {
      LiveGoes(cfg, h, p);
      FreeBacks(cfg, h, p);
    } else if p in h.active {
      MoveBacks(cfg, h, p, n, reply);
    } else if reply.Block? {
      DropBacks(cfg, h, p);
      GrantBacks(DropRaw(h, p), reply.addr, RawSize(n), reply.init);
    }
    hide Inv, Backed, Malloc, Free, Served, DropRaw, Fill;
  }

  lemma LiveGoes(cfg: Config, h: Heap, p: Addr)
    requires Inv(cfg, h) && MayRealloc(h, p)
    ensures MayFree(h, p)
  {
    NullNeverActive(cfg, h);
  }

  lemma MoveBacks(cfg: Config, h: Heap, p: Addr, n: nat, reply: Reply)
    requires Inv(cfg, h) && Backed(h) && p in h.active && 0 < n && Served(cfg, h, n, reply)
    ensures Backed(Realloc(cfg, h, p, n, reply).0)
  {
    hide Inv, Backed, Malloc, Free, Realloc, Served, Copy, Copied;
    MallocBacks(cfg, h, n, reply);
    ReallocIsCopyAndFree(cfg, h, p, n, reply);
    CopiedKeeps(cfg, h, p, n, reply, p);
    CopiedBacks(cfg, h, p, n, reply);
    var h2 := Copied(cfg, h, p, n, reply);
    LiveMayGo(cfg, h2, p);
    FreeBacks(cfg, h2, p);
  }

  lemma CopiedBacks(cfg: Config, h: Heap, p: Addr, n: nat, reply: Reply)
    requires p in h.active && Backed(Malloc(cfg, h, n, reply).0)
    ensures Backed(Copied(cfg, h, p, n, reply))
  {
    var (h1, q) := Malloc(cfg, h, n, reply);
    MoreBytesBack(h1, Copy(h1.bytes, q, p, Min(n, h.active[p].userSize)));
    hide Malloc, Backed, Copy;
  }

  lemma StepBacks(cfg: Config, h: Heap, op: Op)
    requires Inv(cfg, h) && Backed(h) && Legal(cfg, h, op)
    ensures Backed(Step(cfg, h, op).0)
  {
    hide Inv, Backed, Malloc, Free, Calloc, Realloc;
    match op
    case DoMalloc(n, reply) => MallocBacks(cfg, h, n, reply);
    case DoFree(p) => FreeBacks(cfg, h, p);
    case DoCalloc(count, size, reply) => CallocBacks(cfg, h, count, size, reply);
    case DoRealloc(p, n, reply) => ReallocBacks(cfg, h, p, n, reply);
  }

  lemma {:induction false} RunBacks(cfg: Config, h: Heap, ops: seq<Op>)
    requires Inv(cfg, h) && Backed(h) && LegalRun(cfg, h, ops)
    ensures Backed(Run(cfg, h, ops))
    decreases |ops|
  {
    if ops != [] {
      hide Inv, Backed, Step;
      StepKeeps(cfg, h, ops[0]);
      StepBacks(cfg, h, ops[0]);
      RunBacks(cfg, Step(cfg, h, ops[0]).0, ops[1..]);
    }
  }

  /**
   * In every run every byte of every held region has contents: no live or quarantined block loses any,
   * and what the other theorems say of bytes that have contents is said of all of them.
   */
  lemma BackedInEveryRun(cfg: Config, ops: seq<Op>, b: Addr, a: Addr)
    requires LegalRun(cfg, EMPTY, ops)
    requires var h := Run(cfg, EMPTY, ops); b in h.held && b <= a < b + h.held[b]
    ensures a in Run(cfg, EMPTY, ops).bytes
  {
    EmptyIsFine(cfg);
    hide Inv, LegalRun, Run;
    RunBacks(cfg, EMPTY, ops);
  }
}
