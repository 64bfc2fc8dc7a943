/** Runs of the wrappers that show each way in which a fault is attributed to the wrong block. */
module Scenarios {
  import opened Machine
  import opened Layout
  import opened Blocks
  import opened Quarantine
  import opened HeapModel
  import opened LogModel
  import opened Summary
  import opened Attribution
  import opened Faults
  import opened FaultRuns
  import opened Ownership
  import W = WrapperModel

  /** What the scenarios keep track of in the heap. */
  ghost predicate Holds(s: W.Sys, held: map<Addr, nat>, active: map<Addr, AllocInfo>, quarantine: seq<AllocInfo>) {
    && s.heap.held == held && s.heap.active == active && s.heap.quarantine == quarantine
    && NULL !in active && active.Keys <= s.heap.userAddrs
  }

  function Zeros(n: nat): seq<Byte> { seq(n, _ => 0) }

  /** malloc(n) answered with the region at i.sysPtr. */
  function Granted(i: AllocInfo): W.Call { W.Malloc(i.userSize, Block(i.sysPtr, Zeros(i.sysSize)), []) }

  function Refusal(n: nat): W.Call { W.Malloc(n, Refused, []) }

  function Release(p: Addr): W.Call { W.Free(p, [], true) }

  lemma GrantedStep(cfg: Config, s: W.Sys, held: map<Addr, nat>, active: map<Addr, AllocInfo>, q: seq<AllocInfo>,
                    i: AllocInfo)
    requires Holds(s, held, active, q)
    requires IsFenced(cfg, i.userSize) && i.userSize < WORD && Fits(cfg, i.userSize) && i.userPtr != NULL
    requires i == IdealInfo(cfg, i.userSize, i.sysPtr) && i.sysPtr % cfg.page == 0
    requires Unclaimed(held, i.sysPtr, i.sysSize)
    ensures W.LegalCall(cfg, s, Granted(i))
    ensures var s' := W.Step(cfg, s, Granted(i)).0;
            && Holds(s', held[i.sysPtr := i.sysSize], active[i.userPtr := i], q)
            && s'.log == LogAlloc(cfg, s.log, i.userPtr, i.userSize, [])
  {
    NothingGone(cfg, s);
    hide IdealInfo, Fill, FenceBytes, LogAlloc, Unclaimed;
  }

  lemma NothingGone(cfg: Config, s: W.Sys)
    requires NULL !in s.heap.active
    ensures W.ForgetAll(cfg, s.log, EvictedBy(cfg, s.heap, NULL)) == s.log
  {
    assert UserPtrs([]) == {};
    assert s.log.freed - {} == s.log.freed;
  }

  lemma RefusedStep(cfg: Config, s: W.Sys, held: map<Addr, nat>, active: map<Addr, AllocInfo>, q: seq<AllocInfo>,
                    n: nat)
    requires Holds(s, held, active, q) && IsFenced(cfg, n) && n < WORD && Fits(cfg, n)
    ensures W.LegalCall(cfg, s, Refusal(n))
    ensures var s' := W.Step(cfg, s, Refusal(n)).0;
            Holds(s', held, active, q) && s'.log == LogAlloc(cfg, s.log, NULL, n, [])
  {
    NothingGone(cfg, s);
    hide LogAlloc;
  }

  /** A free with nothing evicted. */
  lemma ReleaseStep(cfg: Config, s: W.Sys, held: map<Addr, nat>, active: map<Addr, AllocInfo>, q: seq<AllocInfo>,
                    p: Addr)
    requires Holds(s, held, active, q) && cfg.useafterfree && p in active && Total(q + [active[p]]) <= cfg.quarantineMax
    ensures W.LegalCall(cfg, s, Release(p))
    ensures var s' := W.Step(cfg, s, Release(p)).0;
            && Holds(s', held, active - {p}, q + [active[p]])
            && s'.log == LogDealloc(cfg, s.log, p, [], true)
  {
    var all := q + [active[p]];
    assert Cut(all, cfg.quarantineMax) == 0;
    assert all[..0] == [] && all[0..] == all && SysPtrs([]) == {} && UserPtrs([]) == {};
    assert s.log.freed - {} == s.log.freed && held - {} == held;
    hide LogDealloc, Total, AllBytes, RegionBytes, Cut;
  }

  lemma ReleaseNullStep(cfg: Config, s: W.Sys, held: map<Addr, nat>, active: map<Addr, AllocInfo>, q: seq<AllocInfo>)
    requires Holds(s, held, active, q)
    ensures W.LegalCall(cfg, s, Release(NULL))
    ensures var s' := W.Step(cfg, s, Release(NULL)).0;
            Holds(s', held, active, q) && s'.log == LogDealloc(cfg, s.log, NULL, [], true)
  {
    NothingGone(cfg, s);
    hide LogDealloc;
  }

  lemma ThreeCalls(cfg: Config, c0: W.Call, c1: W.Call, c2: W.Call)
    requires var s1 := W.Step(cfg, W.START, c0).0; var s2 := W.Step(cfg, s1, c1).0;
             W.LegalCall(cfg, W.START, c0) && W.LegalCall(cfg, s1, c1) && W.LegalCall(cfg, s2, c2)
    requires !c0.Realloc? && !c1.Realloc? && !c2.Realloc?
    ensures W.LegalCalls(cfg, W.START, [c0, c1, c2]) && W.FencedOnlyCalls(cfg, W.START, [c0, c1, c2])
    ensures W.RunCalls(cfg, W.START, [c0, c1, c2])
            == W.Step(cfg, W.Step(cfg, W.Step(cfg, W.START, c0).0, c1).0, c2).0
  {
    hide W.Step, W.LegalCall, W.LegalCalls, W.FencedOnlyCalls, W.RunCalls;
    TwoCalls(cfg, c0, c1);
    W.OneMoreCall(cfg, W.START, [c0, c1], c2);
    assert [c0, c1] + [c2] == [c0, c1, c2];
  }

  lemma TwoCalls(cfg: Config, c0: W.Call, c1: W.Call)
    requires var s1 := W.Step(cfg, W.START, c0).0; W.LegalCall(cfg, W.START, c0) && W.LegalCall(cfg, s1, c1)
    requires !c0.Realloc? && (c1.Realloc? ==> W.FencedOnly(W.Step(cfg, W.START, c0).0, c1))
    ensures W.LegalCalls(cfg, W.START, [c0, c1]) && W.FencedOnlyCalls(cfg, W.START, [c0, c1])
    ensures W.RunCalls(cfg, W.START, [c0, c1]) == W.Step(cfg, W.Step(cfg, W.START, c0).0, c1).0
  {
    OneCall(cfg, c0);
    hide W.Step, W.LegalCall, W.LegalCalls, W.FencedOnlyCalls, W.RunCalls;
    W.OneMoreCall(cfg, W.START, [c0], c1);
    assert [c0] + [c1] == [c0, c1];
  }

  lemma OneCall(cfg: Config, c: W.Call)
    requires W.LegalCall(cfg, W.START, c) && !c.Realloc?
    ensures W.LegalCalls(cfg, W.START, [c]) && W.FencedOnlyCalls(cfg, W.START, [c])
    ensures W.RunCalls(cfg, W.START, [c]) == W.Step(cfg, W.START, c).0
  {
    W.OneMoreCall(cfg, W.START, [], c);
    hide W.Step, W.LegalCall;
    assert [] + [c] == [c];
    assert W.LegalCalls(cfg, W.START, []) && W.FencedOnlyCalls(cfg, W.START, []);
    assert W.RunCalls(cfg, W.START, []) == W.START;
  }

  /** The log after blocks of n bytes at p and m bytes at q were handed out, and q was freed. */
  function TwoThenFree(cfg: Config, p: Addr, n: nat, q: Addr, m: nat): Log {
    LogDealloc(cfg, LogAlloc(cfg, LogAlloc(cfg, EMPTY_LOG, p, n, []), q, m, []), q, [], true)
  }

  /** Two ways of walking the maps, and the two answers they give. */
  ghost predicate OrderDecides(l: Log, a: Addr, liveOrder: seq<Addr>, freedOrder: seq<Addr>, f: Finding,
                               liveOrder': seq<Addr>, freedOrder': seq<Addr>, f': Finding) {
    && f != f'
    && Enumerates(liveOrder, l.live) && Enumerates(freedOrder, l.freed)
    && Enumerates(liveOrder', l.live) && Enumerates(freedOrder', l.freed)
    && Search(4096, l, liveOrder, freedOrder, a) == f
    && Search(4096, l, liveOrder', freedOrder', a) == f'
  }

  // ---- with fences: the neighbour below ----

  const FENCED: Config := Settings(4096, true, true, 0, 8192, false, false, false, true)
  const SMALL := AllocInfo(8176, 16, 4096, 8192)
  const PAGE := AllocInfo(12288, 4096, 12288, 8192)

  lemma Roundings()
    ensures Ceil(16, 16) == 16 && Ceil(16, 4096) == 4096 && Ceil(4096, 16) == 4096 && Ceil(4096, 4096) == 4096
    ensures Ceil(8176, 16) == 8176 && Ceil(8176, 4096) == 8192
  {
    CeilUnique(16, 16, 16);
    CeilUnique(16, 4096, 4096);
    CeilUnique(4096, 16, 4096);
    CeilUnique(4096, 4096, 4096);
    CeilUnique(8176, 16, 8176);
    CeilUnique(8176, 4096, 8192);
  }

  lemma FencedBlocks()
    ensures IdealInfo(FENCED, 16, 4096) == SMALL && IdealInfo(FENCED, 4096, 12288) == PAGE
    ensures IdealSysSize(FENCED, 16) == 8192 && IdealSysSize(FENCED, 4096) == 8192
    ensures IdealSysSize(FENCED, 8176) == 12288
  {
    Roundings();
    hide Ceil;
  }

  lemma OneTotal(i: AllocInfo)
    ensures Total([i]) == i.sysSize
  {
    assert [i][1..] == [];
  }

  lemma TwoTotal(i: AllocInfo, k: AllocInfo)
    ensures Total([i, k]) == i.sysSize + k.sysSize
  {
    assert [i, k][1..] == [k];
    OneTotal(k);
  }

  function NeighbourRun(): seq<W.Call> { [Granted(SMALL), Granted(PAGE), Release(12288)] }

  lemma NeighbourHeap()
    ensures W.LegalCalls(FENCED, W.START, NeighbourRun()) && W.FencedOnlyCalls(FENCED, W.START, NeighbourRun())
    ensures var s := W.RunCalls(FENCED, W.START, NeighbourRun());
            && s.heap.quarantine == [PAGE]
            && s.log == TwoThenFree(FENCED, 8176, 16, 12288, 4096)
  {
    FencedBlocks();
    OneTotal(PAGE);
    assert [] + [PAGE] == [PAGE];
    hide IdealSysSize, IdealInfo, W.Step, W.LegalCall, Total, LogAlloc, LogDealloc;
    var s1 := W.Step(FENCED, W.START, Granted(SMALL)).0;
    var s2 := W.Step(FENCED, s1, Granted(PAGE)).0;
    GrantedStep(FENCED, W.START, map[], map[], [], SMALL);
    GrantedStep(FENCED, s1, map[4096 := 8192], map[8176 := SMALL], [], PAGE);
    ReleaseStep(FENCED, s2, map[4096 := 8192, 12288 := 8192], map[8176 := SMALL, 12288 := PAGE], [], 12288);
    ThreeCalls(FENCED, Granted(SMALL), Granted(PAGE), Release(12288));
  }

  lemma NeighbourLog()
    ensures var l := TwoThenFree(FENCED, 8176, 16, 12288, 4096);
            l.live == map[8176 := Entry(8176, 16, [], [])] && l.freed == map[12288 := Entry(12288, 4096, [], [])]
  {
    var l1 := LogAlloc(FENCED, EMPTY_LOG, 8176, 16, []);
    assert l1.live == map[8176 := Entry(8176, 16, [], [])] && l1.freed == map[];
    var l2 := LogAlloc(FENCED, l1, 12288, 4096, []);
    assert l2.live == l1.live[12288 := Entry(12288, 4096, [], [])] && l2.freed == map[];
    assert l2.live - {12288} == l1.live;
  }

  lemma NeighbourAnswers(l: Log)
    requires l.live == map[8176 := Entry(8176, 16, [], [])] && l.freed == map[12288 := Entry(12288, 4096, [], [])]
    ensures NullSilent(4096, l, 12288) && AlwaysFinds(4096, l, 12288, AfterLive(8176, 4096))
  {
    hide AlwaysFinds;
    LiveAnswerExact(4096, l, 8176, 12288);
  }

  /**
   * A block of 16 bytes, and right behind its fence a block of one page, which is freed. The first byte
   * of the freed block is reported as lying 4096 bytes after the small one, in every order.
   */
  lemma FirstByteGoesToNeighbour()
    ensures W.LegalCalls(FENCED, W.START, NeighbourRun()) && W.FencedOnlyCalls(FENCED, W.START, NeighbourRun())
    ensures var s := W.RunCalls(FENCED, W.START, NeighbourRun());
            && s.heap.quarantine == [PAGE] && 12288 in s.log.freed
            && NoOversizedFrees(FENCED, s.log) && NullSilent(4096, s.log, 12288)
            && AlwaysFinds(4096, s.log, 12288, AfterLive(8176, 4096))
            && FreedFinding(4096, s.log.freed[12288], 12288) == InsideFreed(12288, 0)
  {
    NeighbourHeap();
    NeighbourLog();
    FencedBlocks();
    var s := W.RunCalls(FENCED, W.START, NeighbourRun());
    hide W.RunCalls, W.LegalCalls, W.FencedOnlyCalls, LogAlloc, LogDealloc, IdealSysSize, IdealInfo, AlwaysFinds;
    NeighbourAnswers(s.log);
  }

  // ---- without fences: every neighbour below ----

  const UNFENCED: Config := Settings(4096, false, true, 0, 8192, false, false, false, true)
  const LOWER := AllocInfo(4096, 4096, 4096, 4096)
  const UPPER := AllocInfo(8192, 4096, 8192, 4096)

  /** Two adjacent blocks of one page; the upper one is freed, then the lower one. */
  function UpperFreed(): seq<W.Call> { [Granted(LOWER), Granted(UPPER), Release(8192)] }

  lemma UnfencedBlocks()
    ensures IdealInfo(UNFENCED, 4096, 4096) == LOWER && IdealInfo(UNFENCED, 4096, 8192) == UPPER
    ensures IdealSysSize(UNFENCED, 4096) == 4096
  {
    Roundings();
    hide Ceil;
  }

  lemma UpperFreedHeap()
    ensures W.LegalCalls(UNFENCED, W.START, UpperFreed()) && W.FencedOnlyCalls(UNFENCED, W.START, UpperFreed())
    ensures var s := W.RunCalls(UNFENCED, W.START, UpperFreed());
            && Holds(s, map[4096 := 4096, 8192 := 4096], map[4096 := LOWER, 8192 := UPPER] - {8192}, [UPPER])
            && s.log == TwoThenFree(UNFENCED, 4096, 4096, 8192, 4096)
  {
    UnfencedBlocks();
    OneTotal(UPPER);
    assert [] + [UPPER] == [UPPER];
    hide IdealSysSize, IdealInfo, W.Step, W.LegalCall, Total, LogAlloc, LogDealloc;
    var s1 := W.Step(UNFENCED, W.START, Granted(LOWER)).0;
    var s2 := W.Step(UNFENCED, s1, Granted(UPPER)).0;
    GrantedStep(UNFENCED, W.START, map[], map[], [], LOWER);
    GrantedStep(UNFENCED, s1, map[4096 := 4096], map[4096 := LOWER], [], UPPER);
    ReleaseStep(UNFENCED, s2, map[4096 := 4096, 8192 := 4096], map[4096 := LOWER, 8192 := UPPER], [], 8192);
    ThreeCalls(UNFENCED, Granted(LOWER), Granted(UPPER), Release(8192));
  }

  lemma UpperFreedState()
    ensures W.LegalCalls(UNFENCED, W.START, UpperFreed()) && W.FencedOnlyCalls(UNFENCED, W.START, UpperFreed())
    ensures var s := W.RunCalls(UNFENCED, W.START, UpperFreed());
            && Holds(s, map[4096 := 4096, 8192 := 4096], map[4096 := LOWER], [UPPER])
            && s.log.live == map[4096 := Entry(4096, 4096, [], [])]
            && s.log.freed == map[8192 := Entry(8192, 4096, [], [])]
  {
    hide W.RunCalls, W.LegalCalls, W.FencedOnlyCalls, LogAlloc, LogDealloc;
    UpperFreedHeap();
    TwoPagesLog();
    assert map[4096 := LOWER, 8192 := UPPER] - {8192} == map[4096 := LOWER];
  }

  lemma TwoPagesLog()
    ensures var l := TwoThenFree(UNFENCED, 4096, 4096, 8192, 4096);
            l.live == map[4096 := Entry(4096, 4096, [], [])] && l.freed == map[8192 := Entry(8192, 4096, [], [])]
  {
    var l1 := LogAlloc(UNFENCED, EMPTY_LOG, 4096, 4096, []);
    assert l1.live == map[4096 := Entry(4096, 4096, [], [])] && l1.freed == map[];
    var l2 := LogAlloc(UNFENCED, l1, 8192, 4096, []);
    assert l2.live == l1.live[8192 := Entry(8192, 4096, [], [])] && l2.freed == map[];
    assert l2.live - {8192} == l1.live;
  }

  /** While the lower block is alive, no byte of the freed upper one is ever attributed to it. */
  lemma LiveNeighbourTakesAll(a: Addr)
    requires 8192 <= a < 12288
    ensures W.LegalCalls(UNFENCED, W.START, UpperFreed()) && W.FencedOnlyCalls(UNFENCED, W.START, UpperFreed())
    ensures var s := W.RunCalls(UNFENCED, W.START, UpperFreed());
            && s.heap.quarantine == [UPPER] && 8192 in s.log.freed
            && AlwaysFinds(4096, s.log, a, AfterLive(4096, a - 8192))
            && FreedFinding(4096, s.log.freed[8192], a) == InsideFreed(8192, a - 8192)
  {
    UpperFreedState();
    var l := W.RunCalls(UNFENCED, W.START, UpperFreed()).log;
    hide W.RunCalls, W.LegalCalls, W.FencedOnlyCalls, AlwaysFinds;
    LiveAnswerExact(4096, l, 4096, a);
  }

  /** When both are freed, the answer for the first byte of the upper one is a matter of the order. */
  lemma OrderDecidesWithoutFences()
    ensures var s := W.RunCalls(UNFENCED, W.START, UpperFreed());
            && W.LegalCall(UNFENCED, s, Release(4096))
            && var s' := W.Step(UNFENCED, s, Release(4096)).0;
               && s'.heap.quarantine == [UPPER, LOWER]
               && OrderDecides(s'.log, 8192, [], [4096, 8192], AfterFreed(4096, 0),
                               [], [8192, 4096], InsideFreed(8192, 0))
  {
    UpperFreedState();
    hide W.RunCalls, W.LegalCalls, W.FencedOnlyCalls, W.Step, W.LegalCall, OrderDecides;
    BothFreed(W.RunCalls(UNFENCED, W.START, UpperFreed()));
  }

  lemma BothFreed(s: W.Sys)
    requires Holds(s, map[4096 := 4096, 8192 := 4096], map[4096 := LOWER], [UPPER])
    requires s.log.live == map[4096 := Entry(4096, 4096, [], [])]
    requires s.log.freed == map[8192 := Entry(8192, 4096, [], [])]
    ensures W.LegalCall(UNFENCED, s, Release(4096))
    ensures var s' := W.Step(UNFENCED, s, Release(4096)).0;
            && s'.heap.quarantine == [UPPER, LOWER]
            && OrderDecides(s'.log, 8192, [], [4096, 8192], AfterFreed(4096, 0), [], [8192, 4096], InsideFreed(8192, 0))
  {
    assert [UPPER] + [LOWER] == [UPPER, LOWER];
    TwoTotal(UPPER, LOWER);
    hide W.Step, W.LegalCall, Total, LogDealloc, OrderDecides;
    ReleaseStep(UNFENCED, s, map[4096 := 4096, 8192 := 4096], map[4096 := LOWER], [UPPER], 4096);
    TwoFreedOrders(LogDealloc(UNFENCED, s.log, 4096, [], true), s.log);
  }

  lemma TwoFreedOrders(l: Log, before: Log)
    requires l == LogDealloc(UNFENCED, before, 4096, [], true)
    requires before.live == map[4096 := Entry(4096, 4096, [], [])]
    requires before.freed == map[8192 := Entry(8192, 4096, [], [])]
    ensures OrderDecides(l, 8192, [], [4096, 8192], AfterFreed(4096, 0), [], [8192, 4096], InsideFreed(8192, 0))
  {
    assert l.live == map[];
    assert l.freed == map[8192 := Entry(8192, 4096, [], []), 4096 := Entry(4096, 4096, [], [])];
  }

  // ---- a failed request ----

  /** A block of 16 bytes, and a refused request whose size is the address of that block. */
  function FailureRun(): seq<W.Call> { [Granted(SMALL), Refusal(8176)] }

  lemma FailureState()
    ensures W.LegalCalls(FENCED, W.START, FailureRun()) && W.FencedOnlyCalls(FENCED, W.START, FailureRun())
    ensures var s := W.RunCalls(FENCED, W.START, FailureRun());
            && Holds(s, map[4096 := 8192], map[8176 := SMALL], []) && s.log.freed == map[]
            && s.log.live == map[8176 := Entry(8176, 16, [], []), NULL := Entry(NULL, 8176, [], [])]
  {
    FencedBlocks();
    FailureLog();
    hide LogAlloc,  IdealSysSize, IdealInfo, W.Step, W.LegalCall;
    var s1 := W.Step(FENCED, W.START, Granted(SMALL)).0;
    GrantedStep(FENCED, W.START, map[], map[], [], SMALL);
    RefusedStep(FENCED, s1, map[4096 := 8192], map[8176 := SMALL], [], 8176);
    TwoCalls(FENCED, Granted(SMALL), Refusal(8176));
  }

  lemma FailureLog()
    ensures var l := LogAlloc(FENCED, LogAlloc(FENCED, EMPTY_LOG, 8176, 16, []), NULL, 8176, []);
            && l.live == map[8176 := Entry(8176, 16, [], []), NULL := Entry(NULL, 8176, [], [])] && l.freed == map[]
  {
    var l1 := LogAlloc(FENCED, EMPTY_LOG, 8176, 16, []);
    assert l1.live == map[8176 := Entry(8176, 16, [], [])] && l1.freed == map[];
    assert l1.freed - {NULL} == map[];
  }

  /** An overflow into the fence of the block is attributed to it, or to the failed request. */
  lemma FailureSpoilsOverflow()
    ensures W.LegalCalls(FENCED, W.START, FailureRun()) && W.FencedOnlyCalls(FENCED, W.START, FailureRun())
    ensures var s := W.RunCalls(FENCED, W.START, FailureRun());
            && 8176 in s.heap.active && InFence(FENCED, s.heap.active[8176], 8192)
            && OrderDecides(s.log, 8192, [8176, NULL], [], AfterLive(8176, 0), [NULL, 8176], [], AfterLive(NULL, 16))
  {
    FailureState();
    hide W.RunCalls, W.LegalCalls, W.FencedOnlyCalls;
  }

  /**
   * After the block is freed its first byte is always attributed to the failed request; after free of
   * null, when both entries are on the freed record, that again depends on the order.
   */
  lemma FailureSpoilsUseAfterFree()
    ensures var s := W.RunCalls(FENCED, W.START, FailureRun());
            && W.LegalCall(FENCED, s, Release(8176))
            && var s1 := W.Step(FENCED, s, Release(8176)).0;
               && s1.heap.quarantine == [SMALL] && 8176 in s1.log.freed
               && AlwaysFinds(4096, s1.log, 8176, AfterLive(NULL, 0))
               && W.LegalCall(FENCED, s1, Release(NULL))
               && var l := W.Step(FENCED, s1, Release(NULL)).0.log;
                  OrderDecides(l, 8176, [], [8176, NULL], InsideFreed(8176, 0), [], [NULL, 8176], AfterFreed(NULL, 0))
  {
    FailureState();
    var s := W.RunCalls(FENCED, W.START, FailureRun());
    assert [] + [SMALL] == [SMALL];
    OneTotal(SMALL);
    hide W.RunCalls, W.LegalCalls, W.FencedOnlyCalls, W.Step, W.LegalCall;
    hide Total, LogDealloc, AlwaysFinds, OrderDecides;
    ReleaseStep(FENCED, s, map[4096 := 8192], map[8176 := SMALL], [], 8176);
    var s1 := W.Step(FENCED, s, Release(8176)).0;
    FailureFreed(s.log);
    ReleaseNullStep(FENCED, s1, map[4096 := 8192], map[8176 := SMALL] - {8176}, [SMALL]);
    FailureFreedTwice(s1.log);
  }

  lemma FailureFreed(l: Log)
    requires l.live == map[8176 := Entry(8176, 16, [], []), NULL := Entry(NULL, 8176, [], [])] && l.freed == map[]
    ensures var l1 := LogDealloc(FENCED, l, 8176, [], true);
            && l1.live == map[NULL := Entry(NULL, 8176, [], [])] && l1.freed == map[8176 := Entry(8176, 16, [], [])]
            && AlwaysFinds(4096, l1, 8176, AfterLive(NULL, 0))
  {
    var l1 := LogDealloc(FENCED, l, 8176, [], true);
    assert l.live - {8176} == map[NULL := Entry(NULL, 8176, [], [])];
    assert l1.live == map[NULL := Entry(NULL, 8176, [], [])] && l1.freed == map[8176 := Entry(8176, 16, [], [])];
    hide AlwaysFinds, LogDealloc;
    LiveAnswerExact(4096, l1, NULL, 8176);
  }

  lemma FailureFreedTwice(l1: Log)
    requires l1.live == map[NULL := Entry(NULL, 8176, [], [])] && l1.freed == map[8176 := Entry(8176, 16, [], [])]
    ensures var l := LogDealloc(FENCED, l1, NULL, [], true);
            OrderDecides(l, 8176, [], [8176, NULL], InsideFreed(8176, 0), [], [NULL, 8176], AfterFreed(NULL, 0))
  {
    var l := LogDealloc(FENCED, l1, NULL, [], true);
    assert l.live == map[];
    assert l.freed == map[8176 := Entry(8176, 16, [], []), NULL := Entry(NULL, 8176, [], [])];
  }

  // ---- bytes no block is named for ----

  /** The block of 16 bytes with padding before it, freed. */
  function PaddingRun(): seq<W.Call> { [Granted(SMALL), Release(8176)] }

  lemma PaddingState()
    ensures W.LegalCalls(FENCED, W.START, PaddingRun()) && W.FencedOnlyCalls(FENCED, W.START, PaddingRun())
    ensures var s := W.RunCalls(FENCED, W.START, PaddingRun());
            && s.heap.quarantine == [SMALL] && s.heap.active == map[]
            && s.log.live == map[] && s.log.freed == map[8176 := Entry(8176, 16, [], [])]
  {
    FencedBlocks();
    OneTotal(SMALL);
    OneThenFree(FENCED, 8176, 16);
    assert [] + [SMALL] == [SMALL] && map[8176 := SMALL] - {8176} == map[];
    hide IdealSysSize, IdealInfo, W.Step, W.LegalCall, Total, LogAlloc, LogDealloc;
    var s1 := W.Step(FENCED, W.START, Granted(SMALL)).0;
    GrantedStep(FENCED, W.START, map[], map[], [], SMALL);
    ReleaseStep(FENCED, s1, map[4096 := 8192], map[8176 := SMALL], [], 8176);
    TwoCalls(FENCED, Granted(SMALL), Release(8176));
  }

  lemma OneThenFree(cfg: Config, p: Addr, n: nat)
    requires cfg.minsize <= n && (cfg.useafterfree || cfg.logFree)
    ensures var l := LogDealloc(cfg, LogAlloc(cfg, EMPTY_LOG, p, n, []), p, [], true);
            l.live == map[] && l.freed == map[p := Entry(p, n, [], [])]
  {
    var l := LogAlloc(cfg, EMPTY_LOG, p, n, []);
    assert l.live == map[p := Entry(p, n, [], [])] && l.freed == map[];
    assert l.live - {p} == map[];
  }

  /**
   * Every byte of the padding traps, but no block is ever named for it, although nothing competes. It
   * is about half of the region.
   */
  lemma PaddingNamesNothing(a: Addr)
    requires 4096 <= a < 8176
    ensures W.LegalCalls(FENCED, W.START, PaddingRun()) && W.FencedOnlyCalls(FENCED, W.START, PaddingRun())
    ensures var s := W.RunCalls(FENCED, W.START, PaddingRun());
            && s.heap.quarantine == [SMALL] && InRegion(SMALL, a) && NullSilent(4096, s.log, a)
            && NoNeighbour(s.heap, a) && AlwaysFinds(4096, s.log, a, NotFound)
  {
    PaddingState();
    var s := W.RunCalls(FENCED, W.START, PaddingRun());
    hide W.RunCalls, W.LegalCalls, W.FencedOnlyCalls, AlwaysFinds;
    assert forall q :: !LiveHit(4096, s.log, q, a) && !FreedHit(4096, s.log, q, a);
    assert !Adjoins(SMALL, a);
    NoAnswerExact(4096, s.log, a);
  }

  const ONE := AllocInfo(8176, 1, 4096, 8192)

  /** A live block of one byte: the last 14 bytes of its fence page are attributed to nothing. */
  lemma FenceEndNamesNothing(a: Addr)
    requires 12273 < a < 12288
    ensures W.LegalCalls(FENCED, W.START, [Granted(ONE)]) && W.FencedOnlyCalls(FENCED, W.START, [Granted(ONE)])
    ensures var s := W.RunCalls(FENCED, W.START, [Granted(ONE)]);
            && s.heap.active == map[8176 := ONE] && InFence(FENCED, ONE, a) && AlwaysFinds(4096, s.log, a, NotFound)
  {
    Roundings();
    CeilUnique(1, 16, 16);
    hide Ceil;
    assert IdealInfo(FENCED, 1, 4096) == ONE;
    var s := W.Step(FENCED, W.START, Granted(ONE)).0;
    GrantedStep(FENCED, W.START, map[], map[], [], ONE);
    OneCall(FENCED, Granted(ONE));
    assert W.RunCalls(FENCED, W.START, [Granted(ONE)]) == s;
    assert InFence(FENCED, ONE, a) && s.heap.active == map[8176 := ONE];
    assert s.log.live == map[8176 := Entry(8176, 1, [], [])] && s.log.freed == map[];
    hide W.Step, W.LegalCall, W.LegalCalls, W.FencedOnlyCalls, W.RunCalls, AlwaysFinds, LogAlloc;
    assert forall q :: !LiveHit(4096, s.log, q, a) && !FreedHit(4096, s.log, q, a);
    NoAnswerExact(4096, s.log, a);
  }

  // ---- double frees that are none ----

  const DOUBLE_FREE: Config := Settings(4096, true, false, 0, 0, true, false, false, true)

  /** malloc(1), free, and malloc(0) answered with the address the first block had. */
  function ReusedRun(): seq<W.Call> { [Granted(ONE), Release(8176), W.Malloc(0, Block(8176, [0]), [])] }

  /** malloc(1), and a realloc of it that is refused. */
  function RefusedRun(): seq<W.Call> { [Granted(ONE), W.Realloc(8176, 1, Refused, [], true, [])] }

  lemma OneIsIdeal()
    ensures IdealInfo(DOUBLE_FREE, 1, 4096) == ONE && Fits(DOUBLE_FREE, 1)
  {
    Roundings();
    CeilUnique(1, 16, 16);
    hide Ceil;
  }

  /** A free without quarantine. */
  lemma ReleaseNowStep(cfg: Config, s: W.Sys, held: map<Addr, nat>, active: map<Addr, AllocInfo>, p: Addr)
    requires Holds(s, held, active, []) && !cfg.useafterfree && p in active
    ensures W.LegalCall(cfg, s, Release(p))
    ensures var (s', q) := W.Step(cfg, s, Release(p));
            && Holds(s', held - {active[p].sysPtr}, active - {p}, []) && p in s'.heap.userAddrs && q == NULL
            && s'.log == LogDealloc(cfg, s.log, p, [], true)
  {
    assert UserPtrs([]) == {} && s.log.freed - {} == s.log.freed;
    hide LogDealloc, RegionBytes;
  }

  lemma EmptyRequestStep(cfg: Config, s: W.Sys, addr: Addr)
    requires Holds(s, map[], map[], []) && 0 < addr && addr + 1 < WORD && addr in s.heap.userAddrs
    ensures W.LegalCall(cfg, s, W.Malloc(0, Block(addr, [0]), []))
    ensures var (s', q) := W.Step(cfg, s, W.Malloc(0, Block(addr, [0]), []));
            s'.heap.raw == s.heap.raw + {addr} && s'.heap.userAddrs == s.heap.userAddrs && q == addr && s'.log == s.log
  {
    NothingGone(cfg, s);
    hide Fill;
  }

  lemma OnePtrLog(cfg: Config, p: Addr, n: nat)
    requires cfg.minsize <= n && (cfg.useafterfree || cfg.logFree)
    ensures var l := LogDealloc(cfg, LogAlloc(cfg, EMPTY_LOG, p, n, []), p, [], true);
            l.live == map[] && l.freed == map[p := Entry(p, n, [], [])] && l.invalidFrees == 0 && l.reported == {}
  {
    OneThenFree(cfg, p, n);
  }

  lemma ReusedState()
    ensures W.LegalCalls(DOUBLE_FREE, W.START, ReusedRun())
    ensures var s := W.RunCalls(DOUBLE_FREE, W.START, ReusedRun());
            && 8176 in s.heap.raw && 8176 in s.heap.userAddrs && s.log.invalidFrees == 0
            && CountsAsDouble(DOUBLE_FREE, s.log, 8176)
    ensures LastTouch(DOUBLE_FREE, W.START, Never, ReusedRun(), 8176) == Unlogged(true)
  {
    OneIsIdeal();
    OnePtrLog(DOUBLE_FREE, 8176, 1);
    var c0, c1, c2 := Granted(ONE), Release(8176), W.Malloc(0, Block(8176, [0]), []);
    var (s1, q1) := W.Step(DOUBLE_FREE, W.START, c0);
    assert q1 == 8176;
    hide W.Step, W.LegalCall, IdealInfo, IdealSysSize, LogAlloc, LogDealloc;
    GrantedStep(DOUBLE_FREE, W.START, map[], map[], [], ONE);
    ReleaseNowStep(DOUBLE_FREE, s1, map[4096 := 8192], map[8176 := ONE], 8176);
    var (s2, q2) := W.Step(DOUBLE_FREE, s1, c1);
    assert map[4096 := 8192] - {4096} == map[] && map[8176 := ONE] - {8176} == map[];
    EmptyRequestStep(DOUBLE_FREE, s2, 8176);
    ThreeCalls(DOUBLE_FREE, c0, c1, c2);
    ThreeTouches(DOUBLE_FREE, c0, c1, c2, 8176);
  }

  lemma ThreeTouches(cfg: Config, c0: W.Call, c1: W.Call, c2: W.Call, p: Addr)
    ensures var (s1, q1) := W.Step(cfg, W.START, c0);
            var (s2, q2) := W.Step(cfg, s1, c1);
            var (s3, q3) := W.Step(cfg, s2, c2);
            LastTouch(cfg, W.START, Never, [c0, c1, c2], p)
            == Touched(cfg, Touched(cfg, Touched(cfg, Never, c0, q1, p), c1, q2, p), c2, q3, p)
  {
    hide W.Step, Touched;
    var (s1, q1) := W.Step(cfg, W.START, c0);
    var (s2, q2) := W.Step(cfg, s1, c1);
    var (s3, q3) := W.Step(cfg, s2, c2);
    var t1 := Touched(cfg, Never, c0, q1, p);
    var t2 := Touched(cfg, t1, c1, q2, p);
    var t3 := Touched(cfg, t2, c2, q3, p);
    assert [c0, c1, c2][1..] == [c1, c2] && [c1, c2][1..] == [c2] && [c2][1..] == [];
    assert LastTouch(cfg, s3, t3, [], p) == t3;
    assert LastTouch(cfg, s2, t2, [c2], p) == t3;
    assert LastTouch(cfg, s1, t1, [c1, c2], p) == t3;
  }

  /** The program owns an empty block, and freeing it for the first time is reported as a double free. */
  lemma FirstFreeReported()
    ensures W.LegalCalls(DOUBLE_FREE, W.START, ReusedRun())
    ensures Owned(LastTouch(DOUBLE_FREE, W.START, Never, ReusedRun(), 8176))
    ensures var s := W.RunCalls(DOUBLE_FREE, W.START, ReusedRun());
            && 8176 in s.heap.raw && W.LegalCall(DOUBLE_FREE, s, Release(8176))
            && s.log.invalidFrees == 0 && W.Step(DOUBLE_FREE, s, Release(8176)).0.log.invalidFrees == 1
  {
    ReusedState();
    hide W.RunCalls, W.LegalCalls, LastTouch;
  }

  /** A block whose realloc was refused is still the program's; freeing it is reported as a double free. */
  lemma FreeAfterRefusalReported()
    ensures W.LegalCalls(DOUBLE_FREE, W.START, RefusedRun())
    ensures Owned(LastTouch(DOUBLE_FREE, W.START, Never, RefusedRun(), 8176))
    ensures var s := W.RunCalls(DOUBLE_FREE, W.START, RefusedRun());
            && W.LegalCall(DOUBLE_FREE, s, Release(8176))
            && s.log.invalidFrees == 0 && W.Step(DOUBLE_FREE, s, Release(8176)).0.log.invalidFrees == 1
  {
    OneIsIdeal();
    OnePtrLog(DOUBLE_FREE, 8176, 1);
    var c0, c1 := Granted(ONE), W.Realloc(8176, 1, Refused, [], true, []);
    var (s1, q1) := W.Step(DOUBLE_FREE, W.START, c0);
    assert q1 == 8176;
    GrantedStep(DOUBLE_FREE, W.START, map[], map[], [], ONE);
    hide IdealInfo, IdealSysSize;
    var (s2, q2) := W.Step(DOUBLE_FREE, s1, c1);
    RefusedMove(s1);
    hide W.Step, W.LegalCall;
    TwoCalls(DOUBLE_FREE, c0, c1);
    assert [c0, c1][1..] == [c1] && [c1][1..] == [];
    assert LastTouch(DOUBLE_FREE, s2, Unlogged(true), [], 8176) == Unlogged(true);
    assert LastTouch(DOUBLE_FREE, s1, Logged(1), [c1], 8176) == Unlogged(true);
  }

  lemma RefusedMove(s: W.Sys)
    requires Holds(s, map[4096 := 8192], map[8176 := ONE], []) && Fits(DOUBLE_FREE, 1)
    requires s.log == LogAlloc(DOUBLE_FREE, EMPTY_LOG, 8176, 1, [])
    ensures var c := W.Realloc(8176, 1, Refused, [], true, []);
            && W.LegalCall(DOUBLE_FREE, s, c)
            && var (s', q) := W.Step(DOUBLE_FREE, s, c);
               && q == NULL && s'.log.invalidFrees == 0 && W.LegalCall(DOUBLE_FREE, s', Release(8176))
               && W.Step(DOUBLE_FREE, s', Release(8176)).0.log.invalidFrees == 1
  {
    OnePtrLog(DOUBLE_FREE, 8176, 1);
    assert UserPtrs([]) == {} && s.log.freed - {} == s.log.freed;
    hide RegionBytes, IdealSysSize;
  }

  // ---- both detections on ----

  const BOTH: Config := Settings(4096, true, true, 0, 8192, true, false, false, true)

  lemma BothState()
    ensures W.LegalCalls(BOTH, W.START, PaddingRun()) && W.FencedOnlyCalls(BOTH, W.START, PaddingRun())
    ensures var s := W.RunCalls(BOTH, W.START, PaddingRun());
            && s.heap.quarantine == [SMALL] && s.heap.active == map[] && 8176 in s.heap.userAddrs
            && s.log.live == map[] && s.log.freed == map[8176 := Entry(8176, 16, [], [])]
            && s.log.invalidFrees == 0 && s.log.reported == {}
  {
    Roundings();
    assert IdealInfo(BOTH, 16, 4096) == SMALL && IdealSysSize(BOTH, 16) == 8192 by { hide Ceil; }
    OneTotal(SMALL);
    OnePtrLog(BOTH, 8176, 16);
    assert [] + [SMALL] == [SMALL] && map[8176 := SMALL] - {8176} == map[];
    hide IdealSysSize, IdealInfo, W.Step, W.LegalCall, Total, LogAlloc, LogDealloc, Ceil;
    var s1 := W.Step(BOTH, W.START, Granted(SMALL)).0;
    GrantedStep(BOTH, W.START, map[], map[], [], SMALL);
    ReleaseStep(BOTH, s1, map[4096 := 8192], map[8176 := SMALL], [], 8176);
    ReleaseKnows(BOTH, s1, 8176);
    TwoCalls(BOTH, Granted(SMALL), Release(8176));
  }

  lemma ReleaseKnows(cfg: Config, s: W.Sys, p: Addr)
    requires p in s.heap.userAddrs
    ensures p in W.Step(cfg, s, Release(p)).0.heap.userAddrs
  {
  }

  /** A freed block is named for its first byte, and freeing it again is counted and written. */
  lemma BothDetectionsWork()
    ensures W.LegalCalls(BOTH, W.START, PaddingRun())
    ensures var s := W.RunCalls(BOTH, W.START, PaddingRun());
            && AlwaysNamesFreed(4096, s.log, 8176, 8176)
            && s.log.invalidFrees == 0 && W.LegalCall(BOTH, s, Release(8176))
            && var l := W.Step(BOTH, s, Release(8176)).0.log; l.invalidFrees == 1 && |l.reports| == |s.log.reports| + 1
  {
    BothState();
    var s := W.RunCalls(BOTH, W.START, PaddingRun());
    hide W.RunCalls, W.LegalCalls, W.FencedOnlyCalls, AlwaysNamesFreed;
    FirstByteNamed(s.log);
    SecondFree(s);
  }

  lemma FirstByteNamed(l: Log)
    requires l.live == map[] && l.freed == map[8176 := Entry(8176, 16, [], [])]
    ensures AlwaysNamesFreed(4096, l, 8176, 8176)
  {
    hide AlwaysNamesFreed;
    FreedNamedExact(4096, l, 8176, 8176);
  }

  lemma SecondFree(s: W.Sys)
    requires s.heap.active == map[] && 8176 in s.heap.userAddrs
    requires s.log.live == map[] && s.log.freed == map[8176 := Entry(8176, 16, [], [])] && s.log.reported == {}
    ensures W.LegalCall(BOTH, s, Release(8176))
    ensures var l := W.Step(BOTH, s, Release(8176)).0.log;
            l.invalidFrees == s.log.invalidFrees + 1 && |l.reports| == |s.log.reports| + 1
  {
  }
}
