/** The fenced allocator with its static state as fields (src/humalloc.cpp). */
module Humalloc {
  import opened Machine
  import opened Layout
  import opened Blocks
  import opened Quarantine
  import opened HeapModel
  import opened HeapInvariant
  import opened HeapTheorems
  import opened HeapContents
  import opened HeapPromises
  import opened HeapSteps
  import opened LogModel
  import A = AddressSpace
  import L = Hulog

  class Humalloc {
    const cfg: Config
    const os: A.AddressSpace
    const log: L.Hulog
    var userAddrs: set<Addr>
    var activeAllocs: map<Addr, AllocInfo>
    var quarantineAllocs: seq<AllocInfo>
    var quarantineSize: nat
    var quarantineEvicted: bool
    ghost var raw: set<Addr>
    ghost var granted: seq<AllocInfo>
    ghost var freed: seq<AllocInfo>
    ghost var released: seq<AllocInfo>

    ghost function Abs(): Heap
      reads this, os
    {
      Heap(userAddrs, activeAllocs, quarantineAllocs, quarantineSize, quarantineEvicted,
           os.guarded, os.held, os.bytes, raw, granted, freed, released)
    }

    ghost predicate Valid()
      reads this, os
    {
      os.page == cfg.page && log.cfg == cfg && Inv(cfg, Abs())
    }

    constructor (cfg: Config, os: A.AddressSpace, log: L.Hulog)
      requires os.page == cfg.page && os.guarded == {} && os.held == map[] && os.bytes == map[] && log.cfg == cfg
      ensures this.cfg == cfg && this.os == os && this.log == log && Abs() == EMPTY && Valid()
    {
      this.cfg, this.os, this.log := cfg, os, log;
      userAddrs, activeAllocs := {}, map[];
      quarantineAllocs, quarantineSize, quarantineEvicted := [], 0, false;
      raw, granted, freed, released := {}, [], [], [];
      new;
      EmptyIsFine(cfg);
    }

    /** A request the checker passes straight to the system allocator. */
    method SystemMalloc(n: nat, reply: Reply) returns (p: Addr)
      requires Valid() && SystemServes(os.held, RawSize(n), reply)
      modifies this`raw, os`held, os`bytes
      ensures Valid() && (Abs(), p) == PassThrough(old(Abs()), n, reply)
    {
      PassThroughKeeps(cfg, Abs(), n, reply);
      match reply {
        case Refused =>
          p := NULL;
        case Block(addr, init) =>
          os.Grant(addr, RawSize(n), init);
          raw := raw + {addr};
          p := addr;
      }
    }

    method HuMalloc(n: nat, reply: Reply) returns (userPtr: Addr)
      requires Valid() && Served(cfg, Abs(), n, reply)
      modifies this`userAddrs, this`activeAllocs, this`raw, this`granted, os
      ensures Valid() && (Abs(), userPtr) == Malloc(cfg, old(Abs()), n, reply)
    {
      if n == 0 || n < cfg.minsize {
        userPtr := SystemMalloc(n, reply);
      } else {
        userPtr := MallocFenced(n, reply);
      }
    }

    /** A block of whole pages with the user area against the fence. */
    method MallocFenced(n: nat, reply: Reply) returns (userPtr: Addr)
      requires Valid() && IsFenced(cfg, n) && Served(cfg, Abs(), n, reply)
      modifies this`userAddrs, this`activeAllocs, this`granted, os
      ensures Valid() && (Abs(), userPtr) == Malloc(cfg, old(Abs()), n, reply)
    {
      hide Inv, Core, UserSize, SysSize, IdealSysSize, IdealInfo, Fill, WholePages, AddFenced, Range, Served, Unclaimed;
      ghost var h := Abs();
      MallocKeeps(cfg, h, n, reply);
      InvIsCore(cfg, h);
      var rounded := UserSize(n);
      var sysSize := SysSize(cfg, rounded);
      match reply {
        case Refused =>
          userPtr := NULL;
        case Block(sysPtr, init) =>
          ghost var i := IdealInfo(cfg, n, sysPtr);
          FreshBlock(cfg, h, n, sysPtr, init);
          os.Grant(sysPtr, sysSize, init);
          if cfg.overflow {
            var fence := Sub64(Add64(sysPtr, sysSize), cfg.page);
            os.Mprotect(fence, cfg.page, true, sysPtr);
            userPtr := Sub64(fence, rounded);
          } else {
            userPtr := sysPtr;
          }
          var info := AllocInfo(userPtr, n, sysPtr, sysSize);
          if userPtr !in activeAllocs {
            activeAllocs := activeAllocs[userPtr := info];
          }
          userAddrs := userAddrs + {userPtr};
          granted := granted + [info];
      }
    }

    /** One round of the eviction loop: unprotect, give back and forget the oldest block. */
    method EvictOldest()
      requires os.page == cfg.page && log.cfg == cfg && Core(cfg, Abs()) && quarantineAllocs != []
      modifies this`quarantineAllocs, this`quarantineSize, this`quarantineEvicted, this`released
      modifies os, log`freedAllocations
      ensures Core(cfg, Abs()) && Abs() == EvictFirst(old(Abs()), 1)
      ensures log.Abs() == LogForget(cfg, old(log.Abs()), old(quarantineAllocs)[0].userPtr)
    {
      hide Core, EvictFirst, WholePages;
      EvictOldestIs(cfg, Abs());
      var oldest := quarantineAllocs[0];
      quarantineEvicted := true;
      quarantineAllocs := quarantineAllocs[1..];
      os.Mprotect(oldest.sysPtr, oldest.sysSize, false, oldest.sysPtr);
      quarantineSize := Sub64(quarantineSize, oldest.sysSize);
      os.Free(oldest.sysPtr);
      log.RemoveFreedAllocation(oldest.userPtr);
      released := released + [oldest];
    }

    /** Oldest first, until the rest fits. */
    method EvictOverLimit()
      requires os.page == cfg.page && log.cfg == cfg && Core(cfg, Abs())
      modifies this`quarantineAllocs, this`quarantineSize, this`quarantineEvicted, this`released
      modifies os, log`freedAllocations
      ensures Abs() == EvictFirst(old(Abs()), Cut(old(quarantineAllocs), cfg.quarantineMax))
      ensures log.freedAllocations
              == if cfg.logFree then old(log.freedAllocations)
                 else old(log.freedAllocations)
                      - UserPtrs(old(quarantineAllocs)[..Cut(old(quarantineAllocs), cfg.quarantineMax)])
    {
      ghost var h, q, k := Abs(), quarantineAllocs, 0;
      hide Core, Cut, Total, UserPtrs;
      LoopStarts(cfg, h);
      ForgetNothing(log.freedAllocations);
      assert q[..0] == [];
      while cfg.quarantineMax < quarantineSize && quarantineAllocs != []
        invariant k <= Cut(q, cfg.quarantineMax)
        invariant Abs() == EvictFirst(h, k) && Core(cfg, Abs())
        invariant log.freedAllocations
                  == if cfg.logFree then old(log.freedAllocations) else old(log.freedAllocations) - UserPtrs(q[..k])
        decreases |quarantineAllocs|
      {
        CutReached(q, cfg.quarantineMax, k);
        EvictOneMore(h, k);
        ForgetOneMore(old(log.freedAllocations), q, k);
        EvictOldest();
        k := k + 1;
      }
      CutReached(q, cfg.quarantineMax, k);
    }

    /** The block's pages are protected and it joins the end of the queue. */
    method QuarantineBlock(p: Addr)
      requires os.page == cfg.page && Core(cfg, Abs()) && p in activeAllocs
      modifies this`activeAllocs, this`quarantineAllocs, this`quarantineSize, this`freed, os`guarded
      ensures Core(cfg, Abs()) && Abs() == MoveToQuarantine(old(Abs()), p)
    {
      hide Core, MoveToQuarantine, Range, WholePages;
      QuarantineIs(cfg, Abs(), p);
      var info := activeAllocs[p];
      activeAllocs := activeAllocs - {p};
      os.Mprotect(info.sysPtr, info.sysSize, true, info.sysPtr);
      quarantineAllocs := quarantineAllocs + [info];
      quarantineSize := Add64(quarantineSize, info.sysSize);
      freed := freed + [info];
    }

    /** The block goes straight back to the system. */
    method ReleaseBlock(p: Addr)
      requires os.page == cfg.page && Core(cfg, Abs()) && p in activeAllocs
      modifies this`activeAllocs, this`freed, this`released, os
      ensures Abs() == ReleaseNow(old(Abs()), p)
    {
      hide Core, WellFormed, WholePages;
      ActiveRegion(cfg, Abs(), p);
      var info := activeAllocs[p];
      activeAllocs := activeAllocs - {p};
      os.Mprotect(info.sysPtr, info.sysSize, false, info.sysPtr);
      os.Free(info.sysPtr);
      freed := freed + [info];
      released := released + [info];
    }

    /** A pointer hu_malloc never fenced is handed to the system's free. */
    method FreeUnfenced(p: Addr)
      requires Core(cfg, Abs()) && p in raw
      modifies this`raw, os`held, os`bytes
      ensures Abs() == SystemFree(old(Abs()), p)
    {
      hide Core;
      RawAccessible(cfg, Abs(), p);
      os.Free(p);
      raw := raw - {p};
    }

    method HuFree(p: Addr)
      requires Valid() && MayFree(Abs(), p)
      modifies this`activeAllocs, this`quarantineAllocs, this`quarantineSize, this`quarantineEvicted
      modifies this`raw, this`freed, this`released, os, log`freedAllocations
      ensures Valid() && Abs() == Free(cfg, old(Abs()), p)
      ensures log.freedAllocations
              == if cfg.logFree then old(log.freedAllocations)
                 else old(log.freedAllocations) - UserPtrs(EvictedBy(cfg, old(Abs()), p))
    {
      hide Inv, Core, MoveToQuarantine, ReleaseNow, EvictFirst, Cut, UserPtrs, SystemFree;
      FreeKeeps(cfg, Abs(), p);
      InvIsCore(cfg, Abs());
      NullNotActive(cfg, Abs());
      ForgetNothing(log.freedAllocations);
      if p == NULL {
      } else if p !in userAddrs {
        FreeUnfenced(p);
      } else if p !in activeAllocs {
        // a double free: ignored here, reported by the log
      } else if cfg.useafterfree {
        QuarantineHolds(Abs(), p);
        QuarantineBlock(p);
        EvictOverLimit();
      } else {
        ReleaseBlock(p);
      }
    }

    method HuCalloc(count: nat, size: nat, reply: Reply) returns (p: Addr)
      requires Valid() && Legal(cfg, Abs(), DoCalloc(count, size, reply))
      modifies this`userAddrs, this`activeAllocs, this`raw, this`granted, os
      ensures Valid() && (Abs(), p) == Calloc(cfg, old(Abs()), count, size, reply)
      ensures p != NULL ==> forall a: Addr :: p <= a < p + count * size ==> a in os.bytes && os.bytes[a] == 0
    {
      hide Inv, Served, Malloc, Zero, PassThrough, Mul64;
      CallocPaths(cfg, Abs(), count, size, reply);
      CallocDelivers(cfg, Abs(), count, size, reply);
      if count == 0 || size == 0 {
        p := SystemMalloc(0, reply);
      } else {
        var total := Mul64(count, size);
        if total / count != size {
          p := NULL;
        } else {
          p := HuMalloc(total, reply);
          if p != NULL {
            os.Memset0(p, total);
          }
        }
      }
    }

    /** realloc of a live fenced block: new block, copy, free. */
    method MoveBlock(p: Addr, n: nat, reply: Reply) returns (q: Addr)
      requires Valid() && p in activeAllocs && 0 < n && Served(cfg, Abs(), n, reply)
      modifies this, os, log`freedAllocations
      ensures Valid() && (Abs(), q) == Realloc(cfg, old(Abs()), p, n, reply)
      ensures log.freedAllocations
              == if cfg.logFree then old(log.freedAllocations)
                 else old(log.freedAllocations) - UserPtrs(EvictedBy(cfg, old(Abs()), p))
    {
      hide Inv, Served, Malloc, Free, Copy, Realloc, Copied, EvictedBy, UserPtrs;
      ReallocMoves(cfg, Abs(), p, n, reply);
      var info := activeAllocs[p];
      q := HuMalloc(n, reply);
      if q != NULL {
        os.Memcpy(q, info.userPtr, Min(n, info.userSize));
      }
      HuFree(p);
    }

    method HuRealloc(p: Addr, n: nat, reply: Reply) returns (q: Addr)
      requires Valid() && Legal(cfg, Abs(), DoRealloc(p, n, reply))
      modifies this, os, log`freedAllocations
      ensures Valid() && (Abs(), q) == Realloc(cfg, old(Abs()), p, n, reply)
      ensures log.freedAllocations
              == if cfg.logFree then old(log.freedAllocations)
                 else old(log.freedAllocations) - UserPtrs(EvictedBy(cfg, old(Abs()), p))
      ensures p in old(activeAllocs) && 0 < n && q != NULL ==>
                forall a: Addr :: q <= a && a < q + n && a < q + old(activeAllocs)[p].userSize
                                  && p + (a - q) in old(os.bytes) ==>
                  a in os.bytes && os.bytes[a] == old(os.bytes)[p + (a - q)]
    {
      hide Inv, Served, Malloc, Free, Copy, UserPtrs, SystemRealloc;
      NullNotActive(cfg, Abs());
      LiveMayBeFreed(cfg, Abs(), p);
      ReallocDelivers(cfg, Abs(), p, n, reply);
      ForgetNothing(log.freedAllocations);
      if p == NULL {
        q := HuMalloc(n, reply);
      } else if n == 0 {
        HuFree(p);
        q := NULL;
      } else if p in activeAllocs {
        q := MoveBlock(p, n, reply);
      } else {
        q := ReallocUnfenced(p, n, reply);
      }
    }

    /** The system's own realloc of an unfenced block. */
    method ReallocUnfenced(p: Addr, n: nat, reply: Reply) returns (q: Addr)
      requires Valid() && p in raw && SystemServes(os.held - {p}, RawSize(n), reply)
      modifies this`raw, os`held, os`bytes
      ensures Valid() && (Abs(), q) == SystemRealloc(old(Abs()), p, n, reply)
    {
      hide Inv, Core, Fill, SystemFree;
      SystemReallocKeeps(cfg, Abs(), p, n, reply);
      InvIsCore(cfg, Abs());
      match reply {
        case Refused =>
          q := NULL;
        case Block(addr, init) =>
          UnfencedLeaves(cfg, Abs(), p);
          FreeUnfenced(p);
          os.Grant(addr, RawSize(n), init);
          raw := raw + {addr};
          q := addr;
      }
    }

    /** The size the user may touch: up to the fence when there is one. */
    method HuMallocSize(p: Addr) returns (size: nat)
      requires Valid()
      ensures p in activeAllocs ==>
                activeAllocs[p].userSize <= size < activeAllocs[p].userSize + SIZE_MULTIPLE
                && (cfg.overflow ==> p + size == FenceStart(cfg, activeAllocs[p]))
      ensures p !in activeAllocs ==> size == 0
    {
      size := 0;
      if p in activeAllocs {
        ActiveRegion(cfg, Abs(), p);
        size := UserSize(activeAllocs[p].userSize);
        FencedUserSize(cfg, activeAllocs[p]);
      }
    }

    /** True exactly when, with use-after-free detection, what was ever freed no longer all fits. */
    method HuQuarantineWasEvicted() returns (evicted: bool)
      requires Valid()
      ensures evicted <==> cfg.useafterfree && cfg.quarantineMax < Total(freed)
    {
      evicted := quarantineEvicted;
    }
  }
}
