/** What happens to the bytes of blocks: calloc zeroes, realloc copies, nobody else is disturbed. */
module HeapContents {
  import opened Machine
  import opened Layout
  import opened Blocks
  import opened Quarantine
  import opened HeapModel
  import opened HeapInvariant
  import opened HeapTheorems

  function RegionSize(cfg: Config, n: nat): nat
  {
    if IsFenced(cfg, n) then IdealSysSize(cfg, n) else RawSize(n)
  }

  ghost predicate SameBytes(h: Heap, h': Heap, lo: Addr, len: nat) {
    forall a: Addr :: lo <= a < lo + len && a in h.bytes ==> a in h'.bytes && h'.bytes[a] == h.bytes[a]
  }

  /** The byte at a, if there is one, is still there. */
  predicate Kept(m: map<Addr, Byte>, m': map<Addr, Byte>, a: Addr) { a in m ==> a in m' && m'[a] == m[a] }

  /** A served request: n accessible bytes at q inside the fresh region; only that region changes. */
  lemma MallocServes(cfg: Config, h: Heap, n: nat, reply: Reply)
    requires Inv(cfg, h) && Served(cfg, h, n, reply) && reply.Block?
    ensures var (h1, q) := Malloc(cfg, h, n, reply);
            && q != NULL && reply.addr <= q && q + n <= reply.addr + RegionSize(cfg, n)
            && Unclaimed(h.held, reply.addr, RegionSize(cfg, n))
            && (forall a :: q <= a < q + n ==> a !in h1.guarded)
            && (forall a: Addr :: !(reply.addr <= a < reply.addr + RegionSize(cfg, n)) && a in h.bytes ==>
                  a in h1.bytes && h1.bytes[a] == h.bytes[a])
            && (IsFenced(cfg, n) ==> q in h1.active && h1.active[q].userSize == n)
            && (!IsFenced(cfg, n) ==> q in h1.raw)
  {
    var (h1, q) := Malloc(cfg, h, n, reply);
    if IsFenced(cfg, n) {
      IdealInfoWellFormed(cfg, n, reply.addr);
    }
    forall a | q <= a < q + n
      ensures a !in h1.guarded
    {
      FreshOutside(cfg, h, reply.addr, RegionSize(cfg, n), a);
    }
  }

  /** Bytes of a held block lie outside any region the system hands out next. */
  lemma UserAreaOutside(cfg: Config, h: Heap, r: Addr, addr: Addr, len: nat)
    requires Inv(cfg, h) && r in h.active && Unclaimed(h.held, addr, len)
    ensures Apart(r, h.active[r].userSize, addr, len)
    ensures r + h.active[r].userSize < WORD
  {
    assert Owned(cfg, h, h.active[r]);
  }

  lemma InSomePrefix(q: seq<AllocInfo>, k: nat, a: Addr)
    requires k <= |q| && InSome(q[..k], a)
    ensures InSome(q, a)
  {
    var j :| 0 <= j < k && InRegion(q[..k][j], a);
    assert InRegion(q[j], a);
  }

  /** A free can only forget bytes of quarantined blocks, of the freed block or of a freed unfenced block. */
  lemma FreeErasesOnly(cfg: Config, h: Heap, p: Addr, a: Addr)
    requires !Kept(h.bytes, Free(cfg, h, p).bytes, a)
    ensures InSome(h.quarantine, a) || (p in h.active && InRegion(h.active[p], a))
            || (p !in h.userAddrs && p in h.held && p <= a < p + h.held[p])
  {
    if p != NULL && p in h.userAddrs && p in h.active && cfg.useafterfree {
      var q := h.quarantine + [h.active[p]];
      AllBytesMeans(q[..Cut(q, cfg.quarantineMax)]);
      InSomePrefix(q, Cut(q, cfg.quarantineMax), a);
      InSomeAppend(h.quarantine, [h.active[p]], a);
      InSomeOne(h.active[p], a);
    }
  }

  /** Freeing p leaves the records of all other live blocks alone. */
  lemma FreeKeepsRecords(cfg: Config, h: Heap, p: Addr, r: Addr)
    requires r in h.active && r != p
    ensures r in Free(cfg, h, p).active && Free(cfg, h, p).active[r] == h.active[r]
  {
  }

  /** What no block of the quarantine and not the freed block covers survives a free. */
  lemma FreeKeepsRest(cfg: Config, h: Heap, p: Addr, lo: Addr, len: nat)
    requires forall a: Addr :: lo <= a < lo + len ==>
               !InSome(h.quarantine, a) && (p in h.active ==> !InRegion(h.active[p], a))
               && (p !in h.userAddrs && p in h.held ==> !(p <= a < p + h.held[p]))
    ensures SameBytes(h, Free(cfg, h, p), lo, len)
  {
    var h' := Free(cfg, h, p);
    hide Free, InSome, InRegion;
    forall a: Addr | lo <= a < lo + len && a in h.bytes
      ensures a in h'.bytes && h'.bytes[a] == h.bytes[a]
    {
      if !Kept(h.bytes, h'.bytes, a) {
        FreeErasesOnly(cfg, h, p, a);
      }
    }
  }

  /** Freeing p leaves the bytes of every other live block alone. */
  lemma FreeLeavesOthers(cfg: Config, h: Heap, p: Addr, r: Addr)
    requires Inv(cfg, h) && MayFree(h, p) && r in h.active && r != p
    ensures var h' := Free(cfg, h, p);
            r in h'.active && h'.active[r] == h.active[r] && SameBytes(h, h', r, h.active[r].userSize)
  {
    FreeKeepsRecords(cfg, h, p, r);
    assert Owned(cfg, h, h.active[r]);
    hide Free, Guarding, Conserved, HistoryKept, QuarantineClosed, InSome;
    forall a: Addr | r <= a < r + h.active[r].userSize
      ensures !InSome(h.quarantine, a) && (p in h.active ==> !InRegion(h.active[p], a))
      ensures p !in h.userAddrs && p in h.held ==> !(p <= a < p + h.held[p])
    {
      ActiveApart(cfg, h, r, a);
    }
    FreeKeepsRest(cfg, h, p, r, h.active[r].userSize);
  }

  /** Freeing a fenced block leaves the bytes of unfenced blocks alone. */
  lemma FreeLeavesRaw(cfg: Config, h: Heap, p: Addr, r: Addr)
    requires Inv(cfg, h) && p in h.active && r in h.raw
    ensures SameBytes(h, Free(cfg, h, p), r, h.held[r])
  {
    hide Free, Guarding, Conserved, HistoryKept, QuarantineClosed, BlocksDistinct;
    assert Owned(cfg, h, h.active[p]);
    assert forall j :: 0 <= j < |h.quarantine| ==> Owned(cfg, h, h.quarantine[j]);
    FreeKeepsRest(cfg, h, p, r, h.held[r]);
  }

  lemma MallocLeavesOthers(cfg: Config, h: Heap, n: nat, reply: Reply, r: Addr)
    requires Inv(cfg, h) && Served(cfg, h, n, reply) && r in h.active
    ensures var (h1, q) := Malloc(cfg, h, n, reply);
            && r in h1.active && h1.active[r] == h.active[r]
            && SameBytes(h, h1, r, h.active[r].userSize)
            && (q != NULL ==> Apart(r, h.active[r].userSize, q, n))
  {
    MallocHistory(cfg, h, n, reply);
    if reply.Block? {
      MallocServes(cfg, h, n, reply);
      UserAreaOutside(cfg, h, r, reply.addr, RegionSize(cfg, n));
    }
  }

  /** The state realloc hands to hu_free: new block obtained, prefix copied. */
  function Copied(cfg: Config, h: Heap, p: Addr, n: nat, reply: Reply): Heap
    requires p in h.active
  {
    var (h1, q) := Malloc(cfg, h, n, reply);
    if q == NULL then h1 else h1.(bytes := Copy(h1.bytes, q, p, Min(n, h.active[p].userSize)))
  }

  lemma ActiveKnown(cfg: Config, h: Heap)
    requires Inv(cfg, h)
    ensures h.active.Keys <= h.userAddrs
  {
    NullNeverActive(cfg, h);
  }

  lemma ReallocIsCopyAndFree(cfg: Config, h: Heap, p: Addr, n: nat, reply: Reply)
    requires Inv(cfg, h) && p in h.active && 0 < n
    ensures Realloc(cfg, h, p, n, reply) == (Free(cfg, Copied(cfg, h, p, n, reply), p), Malloc(cfg, h, n, reply).1)
  {
    NullNeverActive(cfg, h);
    hide Inv, Malloc, Free, Copy;
  }

  lemma CopiedKeeps(cfg: Config, h: Heap, p: Addr, n: nat, reply: Reply, r: Addr)
    requires Inv(cfg, h) && p in h.active && 0 < n && Served(cfg, h, n, reply) && r in h.active
    ensures var h2 := Copied(cfg, h, p, n, reply);
            && Inv(cfg, h2) && h2.active.Keys <= h2.userAddrs
            && r in h2.active && h2.active[r] == h.active[r] && SameBytes(h, h2, r, h.active[r].userSize)
            && p in h2.active && h2.active[p] == h.active[p]
  {
    hide Inv, Malloc, Served, Copy;
    MallocKeeps(cfg, h, n, reply);
    MallocLeavesOthers(cfg, h, n, reply, r);
    MallocHistory(cfg, h, n, reply);
    var (h1, q) := Malloc(cfg, h, n, reply);
    var h2 := Copied(cfg, h, p, n, reply);
    BytesDoNotMatter(cfg, h1, h2.bytes);
    ActiveKnown(cfg, h2);
    if q != NULL {
      CopyLeaves(h1, q, p, Min(n, h.active[p].userSize), r, h.active[r].userSize);
    }
  }

  lemma ReallocLeavesOthers(cfg: Config, h: Heap, p: Addr, n: nat, reply: Reply, r: Addr)
    requires Inv(cfg, h) && p in h.active && 0 < n && Served(cfg, h, n, reply)
    requires r in h.active && r != p
    ensures var h' := Realloc(cfg, h, p, n, reply).0;
            r in h'.active && h'.active[r] == h.active[r] && SameBytes(h, h', r, h.active[r].userSize)
  {
    hide Inv, Realloc, Malloc, Free, Copied, Served;
    CopiedKeeps(cfg, h, p, n, reply, r);
    ReallocIsCopyAndFree(cfg, h, p, n, reply);
    FreeLeavesOthers(cfg, Copied(cfg, h, p, n, reply), p, r);
  }

  ghost predicate Frees(op: Op, r: Addr) {
    match op
    case DoFree(p) => p == r
    case DoRealloc(p, _, _) => p == r
    case _ => false
  }

  lemma ReallocAnyLeavesOthers(cfg: Config, h: Heap, p: Addr, n: nat, reply: Reply, r: Addr)
    requires Inv(cfg, h) && Legal(cfg, h, DoRealloc(p, n, reply)) && r in h.active && p != r
    ensures BlockSame(h, Realloc(cfg, h, p, n, reply).0, r)
  {
    NullNeverActive(cfg, h);
    hide Inv, Served, Malloc, Free, SystemRealloc;
    if p == NULL {
      MallocLeavesOthers(cfg, h, n, reply, r);
    } else if n == 0 {
      FreeLeavesOthers(cfg, h, p, r);
    } else if p in h.active {
      ReallocLeavesOthers(cfg, h, p, n, reply, r);
    } else if reply.Block? {
      SystemReallocLeavesOthers(cfg, h, p, n, reply, r);
    } else {
      RefusedReallocIsNothing(h, p, n);
    }
  }

  lemma RefusedReallocIsNothing(h: Heap, p: Addr, n: nat)
    ensures SystemRealloc(h, p, n, Refused).0 == h
  {
  }

  /** What an operation leaves of the fenced block r: its record and its bytes. */
  ghost predicate BlockSame(h: Heap, h': Heap, r: Addr)
    requires r in h.active
  {
    r in h'.active && h'.active[r] == h.active[r] && SameBytes(h, h', r, h.active[r].userSize)
  }

  lemma FencedStays(cfg: Config, h: Heap, op: Op, r: Addr)
    requires Inv(cfg, h) && Legal(cfg, h, op) && r in h.active && !Frees(op, r)
    ensures BlockSame(h, Step(cfg, h, op).0, r)
  {
    hide Inv, Malloc, Free, Calloc, Realloc;
    match op {
      case DoMalloc(n, reply) => MallocLeavesOthers(cfg, h, n, reply, r);
      case DoFree(p) => FreeLeavesOthers(cfg, h, p, r);
      case DoCalloc(count, size, reply) => CallocLeavesOthers(cfg, h, count, size, reply, r);
      case DoRealloc(p, n, reply) => ReallocAnyLeavesOthers(cfg, h, p, n, reply, r);
    }
  }

  /** No operation disturbs a live fenced block other than the one it frees: record, contents, access. */
  lemma FencedUndisturbed(cfg: Config, h: Heap, op: Op, r: Addr)
    requires Inv(cfg, h) && Legal(cfg, h, op) && r in h.active && !Frees(op, r)
    ensures var h' := Step(cfg, h, op).0;
            && BlockSame(h, h', r)
            && (forall a :: r <= a < r + h.active[r].userSize ==> a !in h'.guarded)
  {
    var h' := Step(cfg, h, op).0;
    hide Inv, Legal, Step, Core;
    FencedStays(cfg, h, op, r);
    StepKeeps(cfg, h, op);
    InvProtects(cfg, h');
    ActivePointers(cfg, h', r);
    assert forall a: Addr :: r <= a < r + h.active[r].userSize ==> InUserArea(h'.active[r], a);
  }

  /** An unfenced block is entirely accessible, so it may be given back as it is. */
  lemma RawAccessible(cfg: Config, h: Heap, p: Addr)
    requires Core(cfg, h) && p in h.raw
    ensures p in h.held && forall a :: p <= a < p + h.held[p] ==> a !in h.guarded
  {
    hide Conserved, HistoryKept, BlocksDistinct, IdealSysSize, Ceil;
    forall a | p <= a < p + h.held[p]
      ensures !MustTrap(cfg, h, a)
    {
      forall q | q in h.active
        ensures !InFence(cfg, h.active[q], a)
      {
        assert Owned(cfg, h, h.active[q]);
      }
      forall j | 0 <= j < |h.quarantine|
        ensures !InRegion(h.quarantine[j], a)
      {
        assert Owned(cfg, h, h.quarantine[j]);
      }
    }
  }

  /** What an operation leaves of the unfenced block r: all of it. */
  ghost predicate RawSame(h: Heap, h': Heap, r: Addr)
    requires r in h.held
  {
    r in h'.raw && r in h'.held && h'.held[r] == h.held[r] && SameBytes(h, h', r, h.held[r])
  }

  lemma RawHeld(cfg: Config, h: Heap, r: Addr)
    requires Inv(cfg, h) && r in h.raw
    ensures r in h.held && r !in h.active
  {
    RawNotActive(cfg, h, r);
  }

  lemma MallocLeavesRaw(cfg: Config, h: Heap, n: nat, reply: Reply, r: Addr)
    requires Inv(cfg, h) && Served(cfg, h, n, reply) && r in h.raw
    ensures RawSame(h, Malloc(cfg, h, n, reply).0, r)
    ensures var q := Malloc(cfg, h, n, reply).1; q != NULL ==> Apart(r, h.held[r], q, n)
  {
    if reply.Block? {
      MallocServes(cfg, h, n, reply);
      assert Apart(reply.addr, RegionSize(cfg, n), r, h.held[r]);
    }
  }

  lemma FreeFencedLeavesRaw(cfg: Config, h: Heap, p: Addr, r: Addr)
    requires Inv(cfg, h) && p in h.active && r in h.raw
    ensures RawSame(h, Free(cfg, h, p), r)
  {
    FreeLeavesRaw(cfg, h, p, r);
    FreeHeldRaw(cfg, h, p, r);
  }

  lemma FreeHeldRaw(cfg: Config, h: Heap, p: Addr, r: Addr)
    requires Inv(cfg, h) && p in h.active && r in h.raw
    ensures var h' := Free(cfg, h, p); r in h'.raw && r in h'.held && h'.held[r] == h.held[r]
  {
    assert BlocksOwned(cfg, h);
    hide Cut, Total, AllBytes, RegionBytes, SysPtrs, Inv, BlocksOwned, WellFormed;
    RawHeld(cfg, h, r);
    BlocksAreNotRaw(cfg, h, p, r);
    var q := h.quarantine + [h.active[p]];
    NotAmongSysPtrs(q, Cut(q, cfg.quarantineMax), r);
  }

  lemma BlocksAreNotRaw(cfg: Config, h: Heap, p: Addr, r: Addr)
    requires BlocksOwned(cfg, h) && p in h.active && r in h.raw
    ensures forall i :: i in h.quarantine + [h.active[p]] ==> i.sysPtr != r
  {
    hide WellFormed;
    assert Owned(cfg, h, h.active[p]);
    assert forall j :: 0 <= j < |h.quarantine| ==> Owned(cfg, h, h.quarantine[j]);
  }

  lemma NotAmongSysPtrs(q: seq<AllocInfo>, k: nat, r: Addr)
    requires k <= |q| && forall i :: i in q ==> i.sysPtr != r
    ensures r !in SysPtrs(q[..k])
  {
  }

  lemma FreeAnyLeavesRaw(cfg: Config, h: Heap, p: Addr, r: Addr)
    requires Inv(cfg, h) && MayFree(h, p) && r in h.raw && p != r
    ensures RawSame(h, Free(cfg, h, p), r)
  {
    if p in h.active {
      FreeFencedLeavesRaw(cfg, h, p, r);
    } else if p != NULL && p !in h.userAddrs {
      DropRawLeaves(cfg, h, p, r);
    }
  }

  lemma DropRawLeaves(cfg: Config, h: Heap, p: Addr, r: Addr)
    requires Inv(cfg, h) && p in h.raw && r in h.raw && p != r
    ensures RawSame(h, DropRaw(h, p), r)
  {
  }

  lemma ReallocFencedLeavesRaw(cfg: Config, h: Heap, p: Addr, n: nat, reply: Reply, r: Addr)
    requires Inv(cfg, h) && p in h.active && 0 < n && Served(cfg, h, n, reply) && r in h.raw
    ensures RawSame(h, Realloc(cfg, h, p, n, reply).0, r)
  {
    RawHeld(cfg, h, r);
    hide Inv, Realloc, Malloc, Free, Served, Copy, SameBytes;
    CopiedKeeps(cfg, h, p, n, reply, p);
    ReallocIsCopyAndFree(cfg, h, p, n, reply);
    MallocLeavesRaw(cfg, h, n, reply, r);
    var (h1, q) := Malloc(cfg, h, n, reply);
    var h2 := Copied(cfg, h, p, n, reply);
    if q != NULL {
      CopyLeaves(h1, q, p, Min(n, h.active[p].userSize), r, h.held[r]);
    } else {
      SameBytesSelf(h1, r, h.held[r]);
    }
    FreeFencedLeavesRaw(cfg, h2, p, r);
    SameBytesChain(h, h1, h2, r, h.held[r]);
    SameBytesChain(h, h2, Free(cfg, h2, p), r, h.held[r]);
  }

  lemma SameBytesChain(h: Heap, h1: Heap, h2: Heap, lo: Addr, len: nat)
    requires SameBytes(h, h1, lo, len) && SameBytes(h1, h2, lo, len)
    ensures SameBytes(h, h2, lo, len)
  {
  }

  lemma SameBytesSelf(h: Heap, lo: Addr, len: nat)
    ensures SameBytes(h, h, lo, len)
  {
  }

  lemma SystemReallocLeavesRaw(cfg: Config, h: Heap, p: Addr, n: nat, reply: Reply, r: Addr)
    requires Inv(cfg, h) && p in h.raw && r in h.raw && p != r
    requires SystemServes(h.held - {p}, RawSize(n), reply)
    ensures RawSame(h, SystemRealloc(h, p, n, reply).0, r)
  {
    if reply.Block? {
      var h1 := DropRaw(h, p);
      DropRawLeaves(cfg, h, p, r);
      assert Apart(reply.addr, RawSize(n), r, h.held[r]);
      FillLeaves(h1, reply.addr, reply.init, r, h.held[r]);
      hide Inv;
    }
  }

  lemma CallocLeavesRaw(cfg: Config, h: Heap, count: nat, size: nat, reply: Reply, r: Addr)
    requires Inv(cfg, h) && Legal(cfg, h, DoCalloc(count, size, reply)) && r in h.raw
    ensures RawSame(h, Calloc(cfg, h, count, size, reply).0, r)
  {
    RawHeld(cfg, h, r);
    hide Inv, Malloc, Zero;
    if count == 0 || size == 0 {
      EmptyProduct(count, size);
      MallocLeavesRaw(cfg, h, 0, reply, r);
      MallocNothing(cfg, h, reply);
    } else if Mul64(count, size) / count == size {
      var total := Mul64(count, size);
      MallocLeavesRaw(cfg, h, total, reply, r);
      var (h1, q) := Malloc(cfg, h, total, reply);
      if q != NULL {
        ZeroLeaves(h1, q, total, r, h.held[r]);
      }
    }
  }

  lemma MallocNothing(cfg: Config, h: Heap, reply: Reply)
    ensures PassThrough(h, 0, reply) == Malloc(cfg, h, 0, reply)
  {
  }

  lemma ReallocLeavesRaw(cfg: Config, h: Heap, p: Addr, n: nat, reply: Reply, r: Addr)
    requires Inv(cfg, h) && Legal(cfg, h, DoRealloc(p, n, reply)) && r in h.raw && p != r
    ensures RawSame(h, Realloc(cfg, h, p, n, reply).0, r)
  {
    RawHeld(cfg, h, r);
    NullNeverActive(cfg, h);
    hide Inv, Served, RawSame, Malloc, Free, SystemRealloc;
    if p == NULL {
      MallocLeavesRaw(cfg, h, n, reply, r);
    } else if n == 0 {
      FreeAnyLeavesRaw(cfg, h, p, r);
    } else if p in h.active {
      ReallocFencedLeavesRaw(cfg, h, p, n, reply, r);
    } else {
      SystemReallocLeavesRaw(cfg, h, p, n, reply, r);
    }
  }

  /** Nor does it disturb a live unfenced block. */
  lemma UnfencedUndisturbed(cfg: Config, h: Heap, op: Op, r: Addr)
    requires Inv(cfg, h) && Legal(cfg, h, op) && r in h.raw && !Frees(op, r)
    ensures var h' := Step(cfg, h, op).0;
            && r in h.held && RawSame(h, h', r)
            && (forall a :: r <= a < r + h.held[r] ==> a !in h'.guarded)
  {
    var h' := Step(cfg, h, op).0;
    hide Inv, Core, RawSame, Malloc, Free, Calloc, Realloc;
    RawHeld(cfg, h, r);
    RawStays(cfg, h, op, r);
    StepKeeps(cfg, h, op);
    InvIsCore(cfg, h');
    assert r in h'.raw && h'.held[r] == h.held[r] by { RawSameMeans(h, h', r); }
    RawAccessible(cfg, h', r);
  }

  lemma RawSameMeans(h: Heap, h': Heap, r: Addr)
    requires r in h.held && RawSame(h, h', r)
    ensures r in h'.raw && r in h'.held && h'.held[r] == h.held[r] && SameBytes(h, h', r, h.held[r])
  {
  }

  lemma RawStays(cfg: Config, h: Heap, op: Op, r: Addr)
    requires Inv(cfg, h) && Legal(cfg, h, op) && r in h.raw && !Frees(op, r)
    ensures r in h.held && RawSame(h, Step(cfg, h, op).0, r)
  {
    RawHeld(cfg, h, r);
    hide Inv, RawSame, Malloc, Free, Calloc, Realloc;
    match op {
      case DoMalloc(n, reply) => MallocLeavesRaw(cfg, h, n, reply, r);
      case DoFree(p) => FreeAnyLeavesRaw(cfg, h, p, r);
      case DoCalloc(count, size, reply) => CallocLeavesRaw(cfg, h, count, size, reply, r);
      case DoRealloc(p, n, reply) => ReallocLeavesRaw(cfg, h, p, n, reply, r);
    }
  }

  /**
   * No operation disturbs a live block other than the one it frees: it stays, with the same extent,
   * the same contents, and fully accessible.
   */
  lemma OthersUndisturbed(cfg: Config, h: Heap, op: Op, r: Addr)
    requires Inv(cfg, h) && Legal(cfg, h, op) && (r in h.active || r in h.raw) && !Frees(op, r)
    ensures var h' := Step(cfg, h, op).0;
            && (r in h.active ==> r in h'.active && h'.active[r] == h.active[r])
            && (r in h.raw ==> r in h.held && r in h'.raw && r in h'.held && h'.held[r] == h.held[r])
            && (forall a: Addr :: r <= a && a < r + (if r in h.active then h.active[r].userSize else h.held[r]) ==>
                  a !in h'.guarded && (a in h.bytes ==> a in h'.bytes && h'.bytes[a] == h.bytes[a]))
  {
    hide Inv, Legal, Step;
    if r in h.raw {
      RawHeld(cfg, h, r);
      UnfencedUndisturbed(cfg, h, op, r);
    } else {
      FencedUndisturbed(cfg, h, op, r);
    }
  }

  lemma FillLeaves(h: Heap, addr: Addr, init: seq<Byte>, r: Addr, len: nat)
    requires Apart(r, len, addr, |init|)
    ensures SameBytes(h, h.(bytes := Fill(h.bytes, addr, init)), r, len)
  {
  }

  lemma ZeroLeaves(h: Heap, q: Addr, n: nat, r: Addr, len: nat)
    requires Apart(r, len, q, n)
    ensures SameBytes(h, h.(bytes := Zero(h.bytes, q, n)), r, len)
  {
  }

  lemma CopyLeaves(h: Heap, q: Addr, p: Addr, n: nat, r: Addr, len: nat)
    requires Apart(r, len, q, n)
    ensures SameBytes(h, h.(bytes := Copy(h.bytes, q, p, n)), r, len)
  {
  }

  lemma PassThroughLeavesOthers(cfg: Config, h: Heap, reply: Reply, r: Addr)
    requires Inv(cfg, h) && SystemServes(h.held, RawSize(0), reply) && r in h.active
    ensures var h' := PassThrough(h, 0, reply).0;
            r in h'.active && h'.active[r] == h.active[r] && SameBytes(h, h', r, h.active[r].userSize)
  {
    MallocLeavesOthers(cfg, h, 0, reply, r);
  }

  lemma MallocZeroedLeavesOthers(cfg: Config, h: Heap, total: nat, reply: Reply, r: Addr)
    requires Inv(cfg, h) && Served(cfg, h, total, reply) && r in h.active
    ensures var h' := MallocZeroed(cfg, h, total, reply).0;
            r in h'.active && h'.active[r] == h.active[r] && SameBytes(h, h', r, h.active[r].userSize)
  {
    hide Inv, Malloc, Zero;
    MallocLeavesOthers(cfg, h, total, reply, r);
    var (h1, q) := Malloc(cfg, h, total, reply);
    if q != NULL {
      ZeroLeaves(h1, q, total, r, h.active[r].userSize);
    }
  }

  lemma CallocLeavesOthers(cfg: Config, h: Heap, count: nat, size: nat, reply: Reply, r: Addr)
    requires Inv(cfg, h) && Legal(cfg, h, DoCalloc(count, size, reply)) && r in h.active
    ensures var h' := Calloc(cfg, h, count, size, reply).0;
            r in h'.active && h'.active[r] == h.active[r] && SameBytes(h, h', r, h.active[r].userSize)
  {
    hide Inv, Malloc, MallocZeroed;
    if count == 0 || size == 0 {
      assert Mul64(count, size) == 0;
      PassThroughLeavesOthers(cfg, h, reply, r);
    } else if Mul64(count, size) / count == size {
      MallocZeroedLeavesOthers(cfg, h, Mul64(count, size), reply, r);
    }
  }

  lemma SystemReallocLeavesOthers(cfg: Config, h: Heap, p: Addr, n: nat, reply: Reply, r: Addr)
    requires Inv(cfg, h) && p in h.raw && r in h.active && reply.Block?
    requires SystemServes(h.held - {p}, RawSize(n), reply)
    ensures var h' := SystemRealloc(h, p, n, reply).0;
            r in h'.active && h'.active[r] == h.active[r] && SameBytes(h, h', r, h.active[r].userSize)
  {
    RawHeld(cfg, h, p);
    hide Inv, SameBytes, Fill, DropRaw;
    var h1 := DropRaw(h, p);
    DropLeavesBlock(cfg, h, p, r);
    DropRawServes(cfg, h, p, reply, n);
    UserAreaOutside(cfg, h1, r, reply.addr, RawSize(n));
    FillLeaves(h1, reply.addr, reply.init, r, h.active[r].userSize);
    var h2 := h1.(bytes := Fill(h1.bytes, reply.addr, reply.init));
    SameBytesChain(h, h1, h2, r, h.active[r].userSize);
    SameBytesOnly(h, h2, SystemRealloc(h, p, n, reply).0, r, h.active[r].userSize);
  }

  lemma SameBytesOnly(h: Heap, h1: Heap, h2: Heap, lo: Addr, len: nat)
    requires SameBytes(h, h1, lo, len) && h1.bytes == h2.bytes
    ensures SameBytes(h, h2, lo, len)
  {
  }

  lemma DropLeavesBlock(cfg: Config, h: Heap, p: Addr, r: Addr)
    requires Inv(cfg, h) && p in h.raw && r in h.active
    ensures p in h.held && DropRaw(h, p).active == h.active
    ensures SameBytes(h, DropRaw(h, p), r, h.active[r].userSize)
  {
    assert Owned(cfg, h, h.active[r]);
    hide Guarding, Conserved, HistoryKept, BlocksDistinct, QuarantineClosed;
  }

  lemma DropRawServes(cfg: Config, h: Heap, p: Addr, reply: Reply, n: nat)
    requires Inv(cfg, h) && p in h.raw && p in h.held && reply.Block? && SystemServes(h.held - {p}, RawSize(n), reply)
    ensures Inv(cfg, DropRaw(h, p)) && SystemFree(h, p) == DropRaw(h, p)
    ensures Unclaimed(DropRaw(h, p).held, reply.addr, RawSize(n)) && |reply.init| == RawSize(n)
  {
    DropRawKeeps(cfg, h, p);
    hide Inv;
  }

  // ---- realloc ----

  /**
   * The copy inside realloc touches only accessible bytes: the old and the new user area do not overlap,
   * no byte of either is protected, and whatever of the old contents fits has arrived.
   */
  lemma ReallocCopiesSafely(cfg: Config, h: Heap, p: Addr, n: nat, reply: Reply)
    requires Inv(cfg, h) && p in h.active && 0 < n && Served(cfg, h, n, reply) && reply.Block?
    ensures var (h1, q) := Malloc(cfg, h, n, reply);
            && q != NULL && q != p && Apart(p, h.active[p].userSize, q, n)
            && (forall a: Addr :: p <= a < p + h.active[p].userSize || q <= a < q + n ==> a !in h1.guarded)
            && Arrived(h, Copied(cfg, h, p, n, reply), p, h.active[p].userSize, q, n)
  {
    hide Inv, Malloc, IdealSysSize, Served, Copy, Arrived;
    var (h1, q) := Malloc(cfg, h, n, reply);
    ActivePointers(cfg, h, p);
    MallocServes(cfg, h, n, reply);
    MallocKeeps(cfg, h, n, reply);
    MallocLeavesOthers(cfg, h, n, reply, p);
    InvProtects(cfg, h1);
    assert forall a: Addr :: p <= a < p + h.active[p].userSize ==> InUserArea(h1.active[p], a);
    CopyDelivers(h, h1, p, h.active[p].userSize, q, n);
  }

  /** The bytes of the block of len bytes at p, as far as n bytes reach, are found at q. */
  ghost predicate Arrived(h: Heap, h': Heap, p: Addr, len: nat, q: Addr, n: nat) {
    forall a: Addr :: q <= a && a < q + n && a < q + len && p + (a - q) in h.bytes ==>
      a in h'.bytes && h'.bytes[a] == h.bytes[p + (a - q)]
  }

  lemma CopyDelivers(h: Heap, h1: Heap, p: Addr, len: nat, q: Addr, n: nat)
    requires SameBytes(h, h1, p, len)
    ensures Arrived(h, h1.(bytes := Copy(h1.bytes, q, p, Min(n, len))), p, len, q, n)
  {
    hide Copy;
    CopyIs(h1.bytes, q, p, Min(n, len));
  }

  lemma CopyIs(m: map<Addr, Byte>, q: Addr, p: Addr, len: nat)
    ensures forall a: Addr :: q <= a < q + len && p + (a - q) in m ==>
              a in Copy(m, q, p, len) && Copy(m, q, p, len)[a] == m[p + (a - q)]
  {
    forall a: Addr | q <= a < q + len && p + (a - q) in m
      ensures a in Copy(m, q, p, len) && Copy(m, q, p, len)[a] == m[p + (a - q)]
    {
      assert Within(a, q, q + len);
    }
  }

  lemma ActivePointers(cfg: Config, h: Heap, p: Addr)
    requires Inv(cfg, h) && p in h.active
    ensures h.active[p].userPtr == p && p != NULL && 0 < h.active[p].userSize
  {
    assert Owned(cfg, h, h.active[p]);
  }

  lemma FreeLeavesNewBlock(cfg: Config, h: Heap, p: Addr, n: nat, reply: Reply)
    requires Inv(cfg, h) && p in h.active && 0 < n && Served(cfg, h, n, reply) && reply.Block?
    ensures var h2 := Copied(cfg, h, p, n, reply);
            var (h', q) := Realloc(cfg, h, p, n, reply);
            && q != p && SameBytes(h2, h', q, n)
            && (IsFenced(cfg, n) ==> q in h'.active && h'.active[q].userSize == n)
  {
    var h2 := Copied(cfg, h, p, n, reply);
    var q := Malloc(cfg, h, n, reply).1;
    CopiedKeeps(cfg, h, p, n, reply, p);
    ReallocIsCopyAndFree(cfg, h, p, n, reply);
    ReallocCopiesSafely(cfg, h, p, n, reply);
    MallocServes(cfg, h, n, reply);
    if IsFenced(cfg, n) {
      FreeLeavesOthers(cfg, h2, p, q);
    } else {
      FreeLeavesRaw(cfg, h2, p, q);
      assert h2.held[q] == RawSize(n);
    }
  }

  /**
   * realloc of a live fenced block, when the new block is granted: byte for byte, whatever of the old
   * contents fits is in the new block, and the old block leaves for the quarantine or the system.
   */
  lemma ReallocPreservesContents(cfg: Config, h: Heap, p: Addr, n: nat, reply: Reply)
    requires Inv(cfg, h) && p in h.active && 0 < n && Served(cfg, h, n, reply) && reply.Block?
    ensures var (h', q) := Realloc(cfg, h, p, n, reply);
            && q != NULL && q != p && p !in h'.active
            && (IsFenced(cfg, n) ==> q in h'.active && h'.active[q].userSize == n)
            && (forall a: Addr :: q <= a && a < q + n && a < q + h.active[p].userSize && p + (a - q) in h.bytes ==>
                  a in h'.bytes && h'.bytes[a] == h.bytes[p + (a - q)])
            && (h.active[p] in h'.quarantine || h.active[p] in h'.released)
  {
    hide Inv, Realloc, Malloc, Free, Copied, Served;
    CopiedKeeps(cfg, h, p, n, reply, p);
    ReallocIsCopyAndFree(cfg, h, p, n, reply);
    ReallocCopiesSafely(cfg, h, p, n, reply);
    FreeLeavesNewBlock(cfg, h, p, n, reply);
    FreeGoesToQuarantineOrSystem(cfg, Copied(cfg, h, p, n, reply), p);
    var (h', q) := Realloc(cfg, h, p, n, reply);
    ArrivedStays(h, Copied(cfg, h, p, n, reply), h', p, h.active[p].userSize, q, n);
  }

  lemma ArrivedStays(h: Heap, h2: Heap, h': Heap, p: Addr, len: nat, q: Addr, n: nat)
    requires Arrived(h, h2, p, len, q, n) && SameBytes(h2, h', q, n)
    ensures Arrived(h, h', p, len, q, n)
  {
  }

  lemma FreeGoesToQuarantineOrSystem(cfg: Config, h: Heap, p: Addr)
    requires Inv(cfg, h) && p in h.active
    ensures var h' := Free(cfg, h, p);
            p !in h'.active && (h.active[p] in h'.quarantine || h.active[p] in h'.released)
  {
    hide Inv, Cut, Total, AllBytes, SysPtrs, RegionBytes;
    ActiveKnown(cfg, h);
    ActivePointers(cfg, h, p);
    var i := h.active[p];
    var q := h.quarantine + [i];
    var k := Cut(q, cfg.quarantineMax);
    assert q == q[..k] + q[k..];
    assert q[|h.quarantine|] == i;
    assert i in q[..k] || i in q[k..];
  }

  /**
   * ISO/IEC 9899:2011 section 7.22.3.5 keeps the old object when realloc fails. Here the old block
   * is given up in every case, so the promise is kept exactly when the new block was granted.
   */
  lemma ReallocAlwaysGivesUpOldBlock(cfg: Config, h: Heap, p: Addr, n: nat, reply: Reply)
    requires Inv(cfg, h) && p in h.active && 0 < n && Served(cfg, h, n, reply)
    ensures var (h', q) := Realloc(cfg, h, p, n, reply);
            && p !in h'.active
            && (q == NULL <==> reply.Refused?)
            && ((q == NULL ==> p in h'.active) <==> reply.Block?)
  {
    NullNeverActive(cfg, h);
    if reply.Block? {
      ReallocPreservesContents(cfg, h, p, n, reply);
    } else {
      FreeGoesToQuarantineOrSystem(cfg, h, p);
    }
  }

  // ---- calloc ----

  /** calloc answers exactly the representable products, and then with that many accessible zeroes. */
  lemma CallocZeroes(cfg: Config, h: Heap, count: nat, size: nat, reply: Reply)
    requires Inv(cfg, h) && Legal(cfg, h, DoCalloc(count, size, reply))
    requires 0 < count && 0 < size && reply.Block?
    ensures var (h', q) := Calloc(cfg, h, count, size, reply);
            && (q != NULL <==> count * size < WORD)
            && (q != NULL ==> forall a :: q <= a < q + count * size ==>
                                a in h'.bytes && h'.bytes[a] == 0 && a !in h'.guarded)
            && (q == NULL ==> h' == h)
  {
    hide Inv, Malloc, Served;
    CallocTestExact(count, size);
    var total := Mul64(count, size);
    if count * size < WORD {
      assert total == count * size;
      MallocServes(cfg, h, total, reply);
    }
  }
}
