/**
 * The fenced allocator as a state machine over values (src/humalloc.cpp). The class Humalloc is
 * proved to take exactly these steps; HeapTheorems proves what every run of them keeps.
 */
module HeapModel {
  import opened Machine
  import opened Layout
  import opened Blocks
  import opened Quarantine

  /** What the system allocator answers: nothing, or a block with whatever bytes it contains. */
  datatype Reply = Refused | Block(addr: Addr, init: seq<Byte>)

  datatype Heap = Heap(
    // hu_user_addrs, hu_active_allocs, hu_quarantine_allocs, hu_quarantine_size, hu_quarantine_evicted
    userAddrs: set<Addr>,
    active: map<Addr, AllocInfo>,
    quarantine: seq<AllocInfo>,
    quarantineSize: nat,
    evicted: bool,
    // the system: bytes whose page is PROT_NONE, regions not yet given back, memory contents
    guarded: set<Addr>,
    held: map<Addr, nat>,
    bytes: map<Addr, Byte>,
    // bases of the held regions that are unfenced blocks passed straight through
    raw: set<Addr>,
    // history: every fenced block obtained, freed by the user, given back to the system
    granted: seq<AllocInfo>,
    freed: seq<AllocInfo>,
    released: seq<AllocInfo>)

  const EMPTY: Heap := Heap({}, map[], [], 0, false, {}, map[], map[], {}, [], [], [])

  // ---- memory contents ----

  function Read(m: map<Addr, Byte>, a: Addr): Byte { if a in m then m[a] else 0 }

  function Fill(m: map<Addr, Byte>, addr: Addr, init: seq<Byte>): map<Addr, Byte> {
    var target := Range(addr, addr + |init|);
    m + map a | a in target :: init[a - addr]
  }

  function Copy(m: map<Addr, Byte>, dst: Addr, src: Addr, n: nat): map<Addr, Byte> {
    var target := Range(dst, dst + n);
    m + map a | a in target :: Read(m, src + (a - dst))
  }

  function Zero(m: map<Addr, Byte>, dst: Addr, n: nat): map<Addr, Byte> {
    var target := Range(dst, dst + n);
    m + map a | a in target :: 0
  }

  // ---- transitions ----

  /** Even an empty system block occupies an address of its own. */
  function RawSize(n: nat): nat { if n == 0 then 1 else n }

  function AddRaw(h: Heap, addr: Addr, len: nat, init: seq<Byte>): Heap {
    h.(held := h.held[addr := len], bytes := Fill(h.bytes, addr, init), raw := h.raw + {addr})
  }

  function AddFenced(cfg: Config, h: Heap, i: AllocInfo, init: seq<Byte>): Heap {
    h.(held := h.held[i.sysPtr := i.sysSize],
       bytes := Fill(h.bytes, i.sysPtr, init),
       guarded := h.guarded + FenceBytes(cfg, i),
       active := h.active[i.userPtr := i],
       userAddrs := h.userAddrs + {i.userPtr},
       granted := h.granted + [i])
  }

  function FenceBytes(cfg: Config, i: AllocInfo): set<Addr> {
    if FenceStart(cfg, i) < 0 then Range(0, i.sysPtr + i.sysSize)
    else Range(FenceStart(cfg, i), i.sysPtr + i.sysSize)
  }

  function MoveToQuarantine(h: Heap, p: Addr): Heap
    requires p in h.active
  {
    var i := h.active[p];
    h.(active := h.active - {p},
       guarded := h.guarded + RegionBytes(i),
       quarantine := h.quarantine + [i],
       quarantineSize := Total(h.quarantine + [i]),
       freed := h.freed + [i])
  }

  /** The k oldest quarantined blocks leave: unprotected, given back, forgotten. */
  function EvictFirst(h: Heap, k: nat): Heap
    requires k <= |h.quarantine|
  {
    var gone := h.quarantine[..k];
    h.(quarantine := h.quarantine[k..],
       quarantineSize := Total(h.quarantine[k..]),
       evicted := h.evicted || 0 < k,
       guarded := h.guarded - AllBytes(gone),
       held := h.held - SysPtrs(gone),
       bytes := h.bytes - AllBytes(gone),
       released := h.released + gone)
  }

  /** Without use-after-free detection the block goes straight back to the system. */
  function ReleaseNow(h: Heap, p: Addr): Heap
    requires p in h.active
  {
    var i := h.active[p];
    h.(active := h.active - {p},
       guarded := h.guarded - RegionBytes(i),
       held := h.held - {i.sysPtr},
       bytes := h.bytes - RegionBytes(i),
       freed := h.freed + [i],
       released := h.released + [i])
  }

  function DropRaw(h: Heap, p: Addr): Heap
    requires p in h.held
  {
    h.(held := h.held - {p}, bytes := h.bytes - Range(p, p + h.held[p]), raw := h.raw - {p})
  }

  // ---- operations ----

  function PassThrough(h: Heap, n: nat, reply: Reply): (Heap, Addr) {
    match reply
    case Refused => (h, NULL)
    case Block(addr, init) => (AddRaw(h, addr, RawSize(n), init), addr)
  }

  predicate IsFenced(cfg: Config, n: nat) { n != 0 && cfg.minsize <= n }

  function Malloc(cfg: Config, h: Heap, n: nat, reply: Reply): (Heap, Addr) {
    if !IsFenced(cfg, n) then PassThrough(h, n, reply)
    else match reply
      case Refused => (h, NULL)
      case Block(addr, init) =>
        var i := IdealInfo(cfg, n, addr);
        (AddFenced(cfg, h, i, init), i.userPtr)
  }

  /** Obtain total bytes and clear them. */
  function MallocZeroed(cfg: Config, h: Heap, total: nat, reply: Reply): (Heap, Addr) {
    var (h1, p) := Malloc(cfg, h, total, reply);
    (if p == NULL then h1 else h1.(bytes := Zero(h1.bytes, p, total)), p)
  }

  function Calloc(cfg: Config, h: Heap, count: nat, size: nat, reply: Reply): (Heap, Addr) {
    if count == 0 || size == 0 then PassThrough(h, 0, reply)
    else if Mul64(count, size) / count != size then (h, NULL)
    else MallocZeroed(cfg, h, Mul64(count, size), reply)
  }

  /** The blocks the free of p pushes out of the quarantine. */
  function EvictedBy(cfg: Config, h: Heap, p: Addr): seq<AllocInfo> {
    if p in h.active && cfg.useafterfree then
      var q := h.quarantine + [h.active[p]];
      q[..Cut(q, cfg.quarantineMax)]
    else []
  }

  /** A pointer the system does not hold is beyond the model; Legal rules it out. */
  function SystemFree(h: Heap, p: Addr): Heap {
    if p in h.held then DropRaw(h, p) else h
  }

  function Free(cfg: Config, h: Heap, p: Addr): Heap {
    if p == NULL then h
    else if p !in h.userAddrs then SystemFree(h, p)
    else if p !in h.active then h
    else if cfg.useafterfree then
      var h1 := MoveToQuarantine(h, p);
      EvictFirst(h1, Cut(h1.quarantine, cfg.quarantineMax))
    else ReleaseNow(h, p)
  }

  /** realloc of an unfenced block is the system's own realloc. */
  function SystemRealloc(h: Heap, p: Addr, n: nat, reply: Reply): (Heap, Addr) {
    match reply
    case Refused => (h, NULL)
    case Block(addr, init) => (AddRaw(SystemFree(h, p), addr, RawSize(n), init), addr)
  }

  function Realloc(cfg: Config, h: Heap, p: Addr, n: nat, reply: Reply): (Heap, Addr) {
    if p == NULL then Malloc(cfg, h, n, reply)
    else if n == 0 then (Free(cfg, h, p), NULL)
    else if p in h.active then
      var (h1, q) := Malloc(cfg, h, n, reply);
      var h2 := if q == NULL then h1
                else h1.(bytes := Copy(h1.bytes, q, p, Min(n, h.active[p].userSize)));
      (Free(cfg, h2, p), q)
    else SystemRealloc(h, p, n, reply)
  }

  // ---- what the program and the system are trusted with ----

  /** The program frees null, or a pointer it was handed at some time. */
  ghost predicate MayFree(h: Heap, p: Addr) {
    p == NULL || p in h.userAddrs || p in h.raw
  }

  /** The program reallocates null or a pointer that is live. */
  ghost predicate MayRealloc(h: Heap, p: Addr) {
    p == NULL || p in h.active || p in h.raw
  }

  /** The system hands out non-null memory nobody holds. */
  ghost predicate Unclaimed(held: map<Addr, nat>, addr: Addr, len: nat) {
    && 0 < addr && 0 < len && addr + len < WORD
    && forall b :: b in held ==> Apart(addr, len, b, held[b])
  }

  ghost predicate SystemServes(held: map<Addr, nat>, len: nat, reply: Reply) {
    reply.Block? ==> |reply.init| == len && Unclaimed(held, reply.addr, len)
  }

  /** A request for n bytes whose size computation does not wrap, answered properly. */
  ghost predicate Served(cfg: Config, h: Heap, n: nat, reply: Reply)
  {
    && n < WORD
    && if IsFenced(cfg, n)
       then Fits(cfg, n) && SystemServes(h.held, IdealSysSize(cfg, n), reply)
            && (reply.Block? ==> reply.addr % cfg.page == 0)
       else SystemServes(h.held, RawSize(n), reply)
  }

  datatype Op =
    | DoMalloc(n: nat, reply: Reply)
    | DoFree(p: Addr)
    | DoCalloc(count: nat, size: nat, reply: Reply)
    | DoRealloc(p: Addr, n: nat, reply: Reply)

  ghost predicate Legal(cfg: Config, h: Heap, op: Op)
  {
    match op
    case DoMalloc(n, reply) => Served(cfg, h, n, reply)
    case DoFree(p) => MayFree(h, p)
    case DoCalloc(count, size, reply) =>
      && count < WORD && size < WORD
      && (count == 0 || Mul64(count, size) / count == size ==> Served(cfg, h, Mul64(count, size), reply))
    case DoRealloc(p, n, reply) =>
      && MayRealloc(h, p)
      && n < WORD
      && if p == NULL then Served(cfg, h, n, reply)
         else if n == 0 then true
         else if p in h.active then Served(cfg, h, n, reply)
         else SystemServes(h.held - {p}, RawSize(n), reply)
  }

  ghost function Step(cfg: Config, h: Heap, op: Op): (Heap, Addr)
    requires Legal(cfg, h, op)
  {
    match op
    case DoMalloc(n, reply) => Malloc(cfg, h, n, reply)
    case DoFree(p) => (Free(cfg, h, p), NULL)
    case DoCalloc(count, size, reply) => Calloc(cfg, h, count, size, reply)
    case DoRealloc(p, n, reply) => Realloc(cfg, h, p, n, reply)
  }

  /** Every operation of the run is legal in the state it meets. */
  ghost predicate LegalRun(cfg: Config, h: Heap, ops: seq<Op>)
    decreases |ops|
  {
    ops == [] || (Legal(cfg, h, ops[0]) && LegalRun(cfg, Step(cfg, h, ops[0]).0, ops[1..]))
  }

  ghost function Run(cfg: Config, h: Heap, ops: seq<Op>): Heap
    requires LegalRun(cfg, h, ops)
    decreases |ops|
  {
    if ops == [] then h else Run(cfg, Step(cfg, h, ops[0]).0, ops[1..])
  }
}
