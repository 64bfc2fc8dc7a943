/** One fenced block: where its pages, its user bytes and its fence lie (src/humalloc.cpp). */
module Blocks {
  import opened Machine
  import opened Layout

  datatype AllocInfo = AllocInfo(userPtr: Addr, userSize: nat, sysPtr: Addr, sysSize: nat)

  function FenceStart(cfg: Config, i: AllocInfo): int { i.sysPtr + i.sysSize - cfg.FenceSize() }

  predicate InRegion(i: AllocInfo, a: Addr) { i.sysPtr <= a < i.sysPtr + i.sysSize }

  predicate InFence(cfg: Config, i: AllocInfo, a: Addr) {
    FenceStart(cfg, i) <= a < i.sysPtr + i.sysSize
  }

  predicate InUserArea(i: AllocInfo, a: Addr) { i.userPtr <= a < i.userPtr + i.userSize }

  /** Where hu_malloc puts n user bytes in a region of sysSize bytes at addr. */
  function Place(cfg: Config, n: nat, addr: Addr, rounded: nat, sysSize: nat): AllocInfo {
    var fence := Sub64(Add64(addr, sysSize), cfg.page);
    AllocInfo(if cfg.overflow then Sub64(fence, rounded) else addr, n, addr, sysSize)
  }

  /** The record hu_malloc stores for a request of n bytes served at addr. */
  function MakeInfo(cfg: Config, n: nat, addr: Addr): AllocInfo {
    Place(cfg, n, addr, UserSize(n), SysSize(cfg, UserSize(n)))
  }

  /** The same block on unbounded integers: the user area pushed up against the end of the last page. */
  function IdealInfo(cfg: Config, n: nat, addr: Addr): AllocInfo
  {
    var rounded := Ceil(n, SIZE_MULTIPLE);
    AllocInfo(if cfg.overflow then addr + (Ceil(rounded, cfg.page) - rounded) else addr, n, addr, IdealSysSize(cfg, n))
  }

  /** A usable block: the user's bytes lie inside the pages and end within 16 bytes of the fence. */
  predicate WellFormed(cfg: Config, i: AllocInfo)
  {
    && cfg.minsize <= i.userSize
    && 0 < i.userSize < WORD
    && i.sysSize == IdealSysSize(cfg, i.userSize)
    && 0 < i.sysPtr <= i.userPtr
    && i.sysPtr + i.sysSize < WORD
    && i.sysPtr % cfg.page == 0
    && i.userPtr + i.userSize <= FenceStart(cfg, i)
    && i.sysPtr + cfg.page <= FenceStart(cfg, i)
    && (cfg.overflow ==> i.userPtr + Ceil(i.userSize, SIZE_MULTIPLE) == FenceStart(cfg, i))
    && (cfg.overflow ==> FenceStart(cfg, i) < i.userPtr + i.userSize + SIZE_MULTIPLE)
    && (!cfg.overflow ==> i.userPtr == i.sysPtr)
  }

  lemma IdealSizeBounds(cfg: Config, n: nat)
    requires 0 < n
    ensures n <= Ceil(n, SIZE_MULTIPLE) < n + SIZE_MULTIPLE
    ensures Ceil(n, SIZE_MULTIPLE) + cfg.FenceSize() <= IdealSysSize(cfg, n)
    ensures cfg.page + cfg.FenceSize() <= IdealSysSize(cfg, n)
    ensures Ceil(n, SIZE_MULTIPLE) % SIZE_MULTIPLE == 0 && IdealSysSize(cfg, n) % cfg.page == 0
  {
    var u := Ceil(n, SIZE_MULTIPLE);
    CeilBounds(n, SIZE_MULTIPLE);
    CeilBounds(u, cfg.page);
    MultipleOf(0, cfg.page);
    MultipleOf(1, cfg.page);
    MultiplesApart(0, Ceil(u, cfg.page), cfg.page);
    MultipleSum(Ceil(u, cfg.page), cfg.FenceSize(), cfg.page);
  }

  lemma PointerSteps(addr: nat, size: nat, page: nat, rounded: nat)
    requires addr + size < WORD && page + rounded <= size
    ensures Sub64(Add64(addr, size), page) == addr + size - page
    ensures Sub64(addr + size - page, rounded) == addr + size - page - rounded
  {
  }

  lemma PlaceIsIdeal(cfg: Config, n: nat, addr: Addr, rounded: nat, sysSize: nat)
    requires rounded == Ceil(n, SIZE_MULTIPLE) && sysSize == IdealSysSize(cfg, n)
    requires addr + sysSize < WORD
    ensures Place(cfg, n, addr, rounded, sysSize) == IdealInfo(cfg, n, addr)
  {
    if cfg.overflow {
      PointerSteps(addr, sysSize, cfg.page, rounded);
    }
  }

  /** Without wrapping, the 64-bit computation builds exactly the ideal block. */
  lemma MakeInfoIsIdeal(cfg: Config, n: nat, addr: Addr)
    requires n < WORD && Fits(cfg, n) && addr + IdealSysSize(cfg, n) < WORD
    ensures MakeInfo(cfg, n, addr) == IdealInfo(cfg, n, addr)
  {
    SizesAreIdeal(cfg, n);
    PlaceIsIdeal(cfg, n, addr, UserSize(n), SysSize(cfg, UserSize(n)));
  }

  /** Every block hu_malloc builds without wrapping is well formed. */
  lemma IdealInfoWellFormed(cfg: Config, n: nat, addr: Addr)
    requires 0 < n < WORD && cfg.minsize <= n
    requires 0 < addr && addr + IdealSysSize(cfg, n) < WORD && addr % cfg.page == 0
    ensures WellFormed(cfg, IdealInfo(cfg, n, addr))
  {
    IdealSizeBounds(cfg, n);
  }

  lemma AlignedParts(page: nat, addr: nat, size: nat, fence: nat)
    requires 0 < page && page % SIZE_MULTIPLE == 0
    requires addr % page == 0 && size % page == 0 && (fence == 0 || fence == page)
    ensures (addr + size - fence) % page == 0
    ensures addr % SIZE_MULTIPLE == 0 && (addr + size - fence) % SIZE_MULTIPLE == 0
  {
    MultipleOf(0, page);
    MultipleOf(1, page);
    MultipleSum(addr, size, page);
    MultipleSum(addr + size, fence, page);
    PageMultipleAligned(page, addr);
    PageMultipleAligned(page, addr + size - fence);
  }

  /** Whole pages, and an aligned user pointer. */
  lemma BlockAligned(cfg: Config, i: AllocInfo)
    requires WellFormed(cfg, i)
    ensures i.sysSize % cfg.page == 0 && FenceStart(cfg, i) % cfg.page == 0
    ensures i.userPtr % SIZE_MULTIPLE == 0
  {
    IdealSizeBounds(cfg, i.userSize);
    AlignedParts(cfg.page, i.sysPtr, i.sysSize, cfg.FenceSize());
    if cfg.overflow {
      MultipleSum(FenceStart(cfg, i), Ceil(i.userSize, SIZE_MULTIPLE), SIZE_MULTIPLE);
    }
  }
}
