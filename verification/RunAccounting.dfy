/** The log's trace theorems, carried over to runs of the wrappers. */
module RunAccounting {
  import opened Machine
  import opened Layout
  import opened Blocks
  import opened Quarantine
  import opened HeapModel
  import opened HeapInvariant
  import opened HeapTheorems
  import opened HeapContents
  import opened LogModel
  import opened LogTheorems
  import opened CrossInvariant
  import W = WrapperModel

  // ---- a run of the wrappers is an event trace for the log ----

  function Forgets(gone: seq<AllocInfo>): seq<Event> {
    if gone == [] then [] else Forgets(gone[..|gone| - 1]) + [Forget(gone[|gone| - 1].userPtr)]
  }

  /** The events of one call, in the order the log sees them. */
  function EventsOf(cfg: Config, s: W.Sys, c: W.Call): seq<Event> {
    Forgets(EvictedBy(cfg, s.heap, W.Freed(c)))
    + (match c
       case Free(ptr, stack, valid) => [Dealloc(ptr, stack, valid)]
       case Realloc(ptr, _, _, stack, valid, _) => if ptr == NULL then [] else [Dealloc(ptr, stack, valid)]
       case _ => [])
    + if W.LogsAlloc(c) then [Alloc(W.HeapPart(cfg, s, c).1, W.LoggedSize(c), c.stack)] else []
  }

  function EventsOfRun(cfg: Config, s: W.Sys, calls: seq<W.Call>): seq<Event>
    decreases |calls|
  {
    if calls == [] then []
    else EventsOf(cfg, s, calls[0]) + EventsOfRun(cfg, W.Step(cfg, s, calls[0]).0, calls[1..])
  }

  function ApplyAll(cfg: Config, l: Log, events: seq<Event>): Log
    decreases |events|
  {
    if events == [] then l else ApplyAll(cfg, Apply(cfg, l, events[0]), events[1..])
  }

  lemma {:induction false} ApplyAllAppend(cfg: Config, l: Log, a: seq<Event>, b: seq<Event>)
    ensures ApplyAll(cfg, l, a + b) == ApplyAll(cfg, ApplyAll(cfg, l, a), b)
    decreases |a|
  {
    if a == [] {
      assert a + b == b;
    } else {
      assert (a + b)[1..] == a[1..] + b;
      ApplyAllAppend(cfg, Apply(cfg, l, a[0]), a[1..], b);
    }
  }

  lemma {:induction false} ReplayIsApplyAll(cfg: Config, events: seq<Event>)
    ensures Replay(cfg, events) == ApplyAll(cfg, EMPTY_LOG, events)
    decreases |events|
  {
    if events != [] {
      var n := |events| - 1;
      ReplayIsApplyAll(cfg, events[..n]);
      assert events == events[..n] + [events[n]];
      ApplyAllAppend(cfg, EMPTY_LOG, events[..n], [events[n]]);
      ApplyOne(cfg, Replay(cfg, events[..n]), events[n]);
    }
  }

  lemma ApplyOne(cfg: Config, l: Log, e: Event)
    ensures ApplyAll(cfg, l, [e]) == Apply(cfg, l, e)
  {
    assert [e][1..] == [];
    assert ApplyAll(cfg, Apply(cfg, l, e), []) == Apply(cfg, l, e);
  }

  lemma {:induction false} ForgetsIsForgetAll(cfg: Config, l: Log, gone: seq<AllocInfo>)
    ensures ApplyAll(cfg, l, Forgets(gone)) == W.ForgetAll(cfg, l, gone)
    decreases |gone|
  {
    if gone == [] {
      ForgetsNothing(cfg, l);
    } else {
      var n := |gone| - 1;
      var i := gone[n];
      ForgetsIsForgetAll(cfg, l, gone[..n]);
      ApplyAllAppend(cfg, l, Forgets(gone[..n]), [Forget(i.userPtr)]);
      ApplyOne(cfg, W.ForgetAll(cfg, l, gone[..n]), Forget(i.userPtr));
      assert gone == gone[..n] + [i];
      UserPtrsSnoc(gone[..n], i);
      hide UserPtrs;
      assert l.freed - (UserPtrs(gone[..n]) + {i.userPtr}) == l.freed - UserPtrs(gone[..n]) - {i.userPtr};
    }
  }

  lemma UserPtrsSnoc(q: seq<AllocInfo>, i: AllocInfo)
    ensures UserPtrs(q + [i]) == UserPtrs(q) + {i.userPtr}
  {
    assert (q + [i])[|q|] == i;
    assert forall j :: 0 <= j < |q| ==> (q + [i])[j] == q[j];
  }

  lemma CallIsEvents(cfg: Config, s: W.Sys, c: W.Call)
    ensures W.Step(cfg, s, c).0.log == ApplyAll(cfg, s.log, EventsOf(cfg, s, c))
  {
    hide Malloc, Free, Calloc, Realloc, LogAlloc, LogDealloc, EvictedBy, Forgets, Mul64;
    var (s1, p) := W.HeapPart(cfg, s, c);
    var s2 := W.FreeLogPart(cfg, s1, c);
    var gone := Forgets(EvictedBy(cfg, s.heap, W.Freed(c)));
    var frees := match c
      case Free(ptr, stack, valid) => [Dealloc(ptr, stack, valid)]
      case Realloc(ptr, _, _, stack, valid, _) => if ptr == NULL then [] else [Dealloc(ptr, stack, valid)]
      case _ => [];
    var allocs := if W.LogsAlloc(c) then [Alloc(p, W.LoggedSize(c), c.stack)] else [];
    ForgetsIsForgetAll(cfg, s.log, EvictedBy(cfg, s.heap, W.Freed(c)));
    ApplyAllAppend(cfg, s.log, gone + frees, allocs);
    ApplyAllAppend(cfg, s.log, gone, frees);
    if frees != [] {
      ApplyOne(cfg, s1.log, frees[0]);
    }
    if allocs != [] {
      ApplyOne(cfg, s2.log, allocs[0]);
    }
  }

  lemma {:induction false} RunIsEvents(cfg: Config, s: W.Sys, calls: seq<W.Call>)
    ensures W.RunCalls(cfg, s, calls).log == ApplyAll(cfg, s.log, EventsOfRun(cfg, s, calls))
    decreases |calls|
  {
    if calls != [] {
      var s1 := W.Step(cfg, s, calls[0]).0;
      CallIsEvents(cfg, s, calls[0]);
      RunIsEvents(cfg, s1, calls[1..]);
      ApplyAllAppend(cfg, s.log, EventsOf(cfg, s, calls[0]), EventsOfRun(cfg, s1, calls[1..]));
    }
  }

  /** Everything proved of event traces holds of the log after any run of the wrappers. */
  lemma LogIsReplayOfRun(cfg: Config, calls: seq<W.Call>)
    ensures W.RunCalls(cfg, W.START, calls).log == Replay(cfg, EventsOfRun(cfg, W.START, calls))
  {
    RunIsEvents(cfg, W.START, calls);
    ReplayIsApplyAll(cfg, EventsOfRun(cfg, W.START, calls));
  }

  // ---- only failed requests can distort the byte counter ----

  /** A pointer the system just handed out is not tracked, once a realloc's free is logged. */
  lemma NewPointerUntracked(cfg: Config, s: W.Sys, c: W.Call)
    requires SysInv(cfg, false, s) && W.LegalCall(cfg, s, c) && !c.Free?
    ensures var (s1, p) := W.HeapPart(cfg, s, c);
            p != NULL ==> p !in W.FreeLogPart(cfg, s1, c).log.live
  {
    NullNotThere(cfg, s.heap);
    hide Inv, Malloc, IdealInfo, Served;
    match c {
      case Malloc(size, reply, _) => MallocUntracked(cfg, s, size, reply);
      case Calloc(nmemb, size, reply, _) => CallocUntracked(cfg, s, nmemb, size, reply);
      case Realloc(ptr, size, reply, stack, valid, _) =>
        if ptr == NULL {
          MallocUntracked(cfg, s, size, reply);
        } else if size != 0 && ptr in s.heap.active {
          MallocUntracked(cfg, s, size, reply);
        } else if size != 0 {
          SystemReallocUntracked(cfg, s, ptr, size, reply, stack, valid);
        }
    }
  }

  lemma MallocUntracked(cfg: Config, s: W.Sys, n: nat, reply: Reply)
    requires SysInv(cfg, false, s) && Served(cfg, s.heap, n, reply)
    ensures var p := Malloc(cfg, s.heap, n, reply).1;
            p != NULL ==> p !in s.log.live
  {
    var p := Malloc(cfg, s.heap, n, reply).1;
    MallocView(cfg, s.heap, n, reply);
    if reply.Block? {
      MallocServes(cfg, s.heap, n, reply);
    }
    hide Malloc, Served, IdealInfo, IdealSysSize;
    assert p != NULL ==> p !in s.heap.raw;
  }

  lemma CallocUntracked(cfg: Config, s: W.Sys, count: nat, size: nat, reply: Reply)
    requires SysInv(cfg, false, s) && Legal(cfg, s.heap, DoCalloc(count, size, reply))
    ensures var p := Calloc(cfg, s.heap, count, size, reply).1;
            p != NULL ==> p !in s.log.live
  {
    hide SysInv, Malloc, Served;
    if count == 0 || size == 0 {
      assert Mul64(count, size) == 0;
      MallocUntracked(cfg, s, 0, reply);
      PassThroughIsMalloc(cfg, s.heap, reply);
    } else if Mul64(count, size) / count == size {
      MallocUntracked(cfg, s, Mul64(count, size), reply);
    }
  }

  lemma SystemReallocUntracked(cfg: Config, s: W.Sys, ptr: Addr, n: nat, reply: Reply, stack: Stack, valid: bool)
    requires SysInv(cfg, false, s) && ptr in s.heap.raw && SystemServes(s.heap.held - {ptr}, RawSize(n), reply)
    ensures var q := SystemRealloc(s.heap, ptr, n, reply).1;
            q != NULL ==> q !in LogDealloc(cfg, s.log, ptr, stack, valid).live
  {
    if reply.Block? {
      DropRawKeeps(cfg, s.heap, ptr);
      FreshOutside(cfg, DropRaw(s.heap, ptr), reply.addr, RawSize(n), reply.addr);
      assert reply.addr in s.heap.raw ==> reply.addr == ptr;
    }
  }

  /** The running counter is the tracked live bytes and x more. */
  ghost predicate Ahead(l: Log, x: nat) { l.currentBytes == (SizeSum(l.live) + x) % WORD }

  lemma AllocAhead(cfg: Config, l: Log, p: Addr, n: nat, stack: Stack, x: nat)
    requires Ahead(l, x)
    ensures Ahead(LogAlloc(cfg, l, p, n, stack), x + if cfg.minsize <= n && p in l.live then l.live[p].size else 0)
  {
    if cfg.minsize <= n {
      SizeSumAdd(l.live, p, Entry(p, n, stack, []));
      ModAdd(SizeSum(l.live) + x, n);
    }
  }

  lemma DeallocAhead(cfg: Config, l: Log, p: Addr, stack: Stack, valid: bool, x: nat)
    requires Ahead(l, x)
    ensures Ahead(LogDealloc(cfg, l, p, stack, valid), x)
  {
    if p in l.live {
      SizeSumRemove(l.live, p);
      ModAdd(SizeSum(l.live) + x, l.live[p].size);
    }
  }

  /** The bytes of an earlier failed request, still tracked under null, that another failure overwrites. */
  function Lost(cfg: Config, s: W.Sys, c: W.Call): nat {
    if W.LogsAlloc(c) && cfg.minsize <= W.LoggedSize(c) && W.HeapPart(cfg, s, c).1 == NULL && NULL in s.log.live
    then s.log.live[NULL].size
    else 0
  }

  function LostInRun(cfg: Config, s: W.Sys, calls: seq<W.Call>): nat
    decreases |calls|
  {
    if calls == [] then 0 else Lost(cfg, s, calls[0]) + LostInRun(cfg, W.Step(cfg, s, calls[0]).0, calls[1..])
  }

  lemma CallAhead(cfg: Config, s: W.Sys, c: W.Call, x: nat)
    requires SysInv(cfg, false, s) && W.LegalCall(cfg, s, c) && Ahead(s.log, x)
    ensures Ahead(W.Step(cfg, s, c).0.log, x + Lost(cfg, s, c))
  {
    hide SysInv, Malloc, Calloc, Realloc, Free, LogAlloc, Served, EvictedBy, Ahead;
    var (s1, p) := W.HeapPart(cfg, s, c);
    var s2 := W.FreeLogPart(cfg, s1, c);
    assert Ahead(s1.log, x) by { ForgetAhead(cfg, s.log, EvictedBy(cfg, s.heap, W.Freed(c)), x); }
    if c.Free? || (c.Realloc? && c.ptr != NULL) {
      DeallocAhead(cfg, s1.log, W.Freed(c), if c.Free? then c.stack else c.freeStack, c.valid, x);
    }
    if W.LogsAlloc(c) {
      NewPointerUntracked(cfg, s, c);
      FreeLogKeepsNull(cfg, s1, c);
      AllocAhead(cfg, s2.log, p, W.LoggedSize(c), c.stack, x);
    }
  }

  lemma ForgetAhead(cfg: Config, l: Log, gone: seq<AllocInfo>, x: nat)
    requires Ahead(l, x)
    ensures Ahead(W.ForgetAll(cfg, l, gone), x)
  {
  }

  /** A call that logs an allocation has not logged a free of null. */
  lemma FreeLogKeepsNull(cfg: Config, s: W.Sys, c: W.Call)
    requires W.LogsAlloc(c)
    ensures var l := W.FreeLogPart(cfg, s, c).log;
            (NULL in l.live <==> NULL in s.log.live) && (NULL in l.live ==> l.live[NULL] == s.log.live[NULL])
  {
  }

  lemma {:induction false} CallsAhead(cfg: Config, s: W.Sys, calls: seq<W.Call>, x: nat)
    requires SysInv(cfg, false, s) && W.LegalCalls(cfg, s, calls) && Ahead(s.log, x)
    ensures Ahead(W.RunCalls(cfg, s, calls).log, x + LostInRun(cfg, s, calls))
    decreases |calls|
  {
    hide SysInv, Ahead, W.Step, Lost;
    if calls != [] {
      CallAhead(cfg, s, calls[0], x);
      CallKeeps(cfg, false, s, calls[0]);
      CallsAhead(cfg, W.Step(cfg, s, calls[0]).0, calls[1..], x + Lost(cfg, s, calls[0]));
    }
  }

  /**
   * The system never hands out a pointer that is still tracked, so the counter of used bytes is ahead
   * of the tracked bytes by exactly what failed requests overwrite under null. While that is less than
   * 2^64 the counter is the tracked bytes if and only if no request fails with an earlier, non-empty
   * failure still tracked. A failure that is tracked counts as well: see LeakTotalsInEveryRun.
   */
  lemma CurrentBytesInEveryRun(cfg: Config, calls: seq<W.Call>)
    requires W.LegalCalls(cfg, W.START, calls)
    ensures var l, lost := W.RunCalls(cfg, W.START, calls).log, LostInRun(cfg, W.START, calls);
            && l.currentBytes == (SizeSum(l.live) + lost) % WORD
            && (lost < WORD ==> (l.currentBytes == SizeSum(l.live) % WORD <==> lost == 0))
  {
    hide SysInv, W.LegalCalls, W.RunCalls, LostInRun, SizeSum;
    StartAgrees(cfg, false);
    StartEven();
    CallsAhead(cfg, W.START, calls, 0);
    var lost := LostInRun(cfg, W.START, calls);
    if lost < WORD {
      SameRemainder(SizeSum(W.RunCalls(cfg, W.START, calls).log.live), lost);
    }
  }

  lemma StartEven()
    ensures Ahead(EMPTY_LOG, 0)
  {
  }

  lemma SameRemainder(a: nat, x: nat)
    requires x < WORD
    ensures (a + x) % WORD == a % WORD <==> x == 0
  {
  }

  /** malloc(n) refused twice: the counter says 2n, the tracked bytes are n. */
  lemma TwoFailuresDistort(cfg: Config, n: nat, stack: Stack)
    requires 0 < n && cfg.minsize <= n && Fits(cfg, n) && n < WORD
    ensures var calls := [W.Malloc(n, Refused, stack), W.Malloc(n, Refused, stack)];
            var l := W.RunCalls(cfg, W.START, calls).log;
            && W.LegalCalls(cfg, W.START, calls) && LostInRun(cfg, W.START, calls) == n
            && l.currentBytes == (2 * n) % WORD && SizeSum(l.live) == n
  {
    hide IdealSysSize;
    var c := W.Malloc(n, Refused, stack);
    var e := Entry(NULL, n, stack, []);
    var s1 := W.Step(cfg, W.START, c).0;
    var s2 := W.Step(cfg, s1, c).0;
    assert s1.heap == EMPTY && s1.log.live == map[NULL := e] && s1.log.currentBytes == n;
    assert s2.log.live == map[NULL := e] && s2.log.currentBytes == (2 * n) % WORD;
    SizeSumAdd(map[], NULL, e);
    assert [c, c][1..] == [c] && [c][1..] == [];
    assert Lost(cfg, W.START, c) == 0 && Lost(cfg, s1, c) == n;
    hide W.Step, Lost, SizeSum;
    assert LostInRun(cfg, s1, [c]) == n + LostInRun(cfg, s2, []);
    assert W.LegalCalls(cfg, s2, []) && W.LegalCalls(cfg, s1, [c]);
    assert W.RunCalls(cfg, s1, [c]) == W.RunCalls(cfg, s2, []);
  }

  // ---- tracked blocks fit into the address space ----

  /** Every tracked size is a 64-bit one, and an unfenced block has room for the size it is tracked with. */
  ghost predicate Sized(s: W.Sys) {
    && (forall p :: p in s.log.live ==> s.log.live[p].size < WORD)
    && (forall p :: p in s.log.live && p != NULL && p in s.heap.raw ==>
          p in s.heap.held && s.log.live[p].size <= s.heap.held[p])
  }

  /** The unfenced blocks of h' are unfenced blocks of h of the same size. */
  ghost predicate RawKept(h: Heap, h': Heap) {
    forall p :: p in h'.raw ==> p in h'.held && p in h.raw && p in h.held && h'.held[p] == h.held[p]
  }

  /** The same, except for the pointer q, which was just handed out for n bytes. */
  ghost predicate RawTraced(h: Heap, h': Heap, q: Addr, n: nat) {
    forall p :: p in h'.raw ==>
      p in h'.held && if p == q then h'.held[p] == RawSize(n) else p in h.raw && p in h.held && h'.held[p] == h.held[p]
  }

  lemma RawIsHeld(cfg: Config, h: Heap)
    requires Inv(cfg, h)
    ensures h.raw <= h.held.Keys && NULL !in h.raw
  {
  }

  lemma MallocTraced(cfg: Config, h: Heap, n: nat, reply: Reply)
    requires Inv(cfg, h) && Served(cfg, h, n, reply)
    ensures var (h', q) := Malloc(cfg, h, n, reply); RawTraced(h, h', q, n)
  {
    RawIsHeld(cfg, h);
    hide Inv, RawTraced, Unclaimed, AddFenced, AddRaw, IdealInfo, IdealSysSize;
    if reply.Block? {
      if IsFenced(cfg, n) {
        FencedIsNotRaw(cfg, h, n, reply.addr);
        AddFencedTraced(cfg, h, IdealInfo(cfg, n, reply.addr), reply.init, n);
      } else {
        AddRawTraced(h, reply.addr, n, reply.init);
      }
    } else {
      NothingTraced(h, n);
    }
  }

  lemma NothingTraced(h: Heap, n: nat)
    requires h.raw <= h.held.Keys && NULL !in h.raw
    ensures RawTraced(h, h, NULL, n)
  {
  }

  lemma AddFencedTraced(cfg: Config, h: Heap, i: AllocInfo, init: seq<Byte>, n: nat)
    requires h.raw <= h.held.Keys && i.sysPtr !in h.held && i.userPtr !in h.raw
    ensures RawTraced(h, AddFenced(cfg, h, i, init), i.userPtr, n)
  {
    hide Fill, FenceBytes;
  }

  lemma AddRawTraced(h: Heap, addr: Addr, n: nat, init: seq<Byte>)
    requires h.raw <= h.held.Keys
    ensures RawTraced(h, AddRaw(h, addr, RawSize(n), init), addr, n)
  {
    hide Fill;
  }

  lemma FencedIsNotRaw(cfg: Config, h: Heap, n: nat, addr: Addr)
    requires Inv(cfg, h) && IsFenced(cfg, n) && n < WORD && addr % cfg.page == 0
    requires Unclaimed(h.held, addr, IdealSysSize(cfg, n))
    ensures IdealInfo(cfg, n, addr).userPtr !in h.raw && IdealInfo(cfg, n, addr).sysPtr == addr && addr !in h.held
  {
    var i := IdealInfo(cfg, n, addr);
    RawIsHeld(cfg, h);
    IdealInfoWellFormed(cfg, n, addr);
    FreshOutside(cfg, h, addr, i.sysSize, addr);
    FreshOutside(cfg, h, addr, i.sysSize, i.userPtr);
    hide Inv, IdealSysSize;
  }

  lemma FreeKeepsRaw(cfg: Config, h: Heap, p: Addr)
    requires Inv(cfg, h) && MayFree(h, p)
    ensures RawKept(h, Free(cfg, h, p)) && NULL !in Free(cfg, h, p).raw
  {
    var h' := Free(cfg, h, p);
    FreeKeeps(cfg, h, p);
    RawIsHeld(cfg, h');
    FreeRawShrinks(cfg, h, p);
    hide Inv, Free, MayFree;
    forall r | r in h'.raw
      ensures r in h.held && r in h.raw && h'.held[r] == h.held[r]
    {
      FreeHeldSame(cfg, h, p, r);
    }
  }

  lemma FreeRawShrinks(cfg: Config, h: Heap, p: Addr)
    ensures Free(cfg, h, p).raw <= h.raw
  {
  }

  lemma FreeHeldSame(cfg: Config, h: Heap, p: Addr, r: Addr)
    requires r in Free(cfg, h, p).held
    ensures r in h.held && Free(cfg, h, p).held[r] == h.held[r]
  {
  }

  lemma ReallocFencedTraced(cfg: Config, h: Heap, p: Addr, n: nat, reply: Reply)
    requires Inv(cfg, h) && p in h.active && 0 < n && Served(cfg, h, n, reply)
    ensures var (h', q) := Realloc(cfg, h, p, n, reply); RawTraced(h, h', q, n)
  {
    hide Inv, Malloc, Free, Realloc, Served;
    var (h1, q) := Malloc(cfg, h, n, reply);
    var h2 := Copied(cfg, h, p, n, reply);
    MallocTraced(cfg, h, n, reply);
    CopiedKeeps(cfg, h, p, n, reply, p);
    LiveIsFreeable(cfg, h2, p);
    FreeKeepsRaw(cfg, h2, p);
    ReallocIsCopyAndFree(cfg, h, p, n, reply);
    assert h2.raw == h1.raw && h2.held == h1.held;
  }

  lemma SystemReallocTraced(cfg: Config, h: Heap, p: Addr, n: nat, reply: Reply)
    requires Inv(cfg, h) && p in h.raw
    ensures var (h', q) := SystemRealloc(h, p, n, reply); RawTraced(h, h', q, n)
  {
    RawIsHeld(cfg, h);
    hide Inv, Fill;
  }

  lemma ReallocTraced(cfg: Config, h: Heap, p: Addr, n: nat, reply: Reply)
    requires Inv(cfg, h) && Legal(cfg, h, DoRealloc(p, n, reply))
    ensures var (h', q) := Realloc(cfg, h, p, n, reply); RawTraced(h, h', q, n)
  {
    NullNeverActive(cfg, h);
    hide Inv, Malloc, Free, SystemRealloc, Served;
    if p == NULL {
      MallocTraced(cfg, h, n, reply);
    } else if n == 0 {
      MayReallocMayFree(cfg, h, p);
      FreeKeepsRaw(cfg, h, p);
    } else if p in h.active {
      ReallocFencedTraced(cfg, h, p, n, reply);
    } else {
      SystemReallocTraced(cfg, h, p, n, reply);
    }
  }

  lemma CallocTraced(cfg: Config, h: Heap, count: nat, size: nat, reply: Reply)
    requires Inv(cfg, h) && Legal(cfg, h, DoCalloc(count, size, reply))
    ensures var (h', q) := Calloc(cfg, h, count, size, reply);
            RawTraced(h, h', q, if 0 < count && 0 < size then Mul64(count, size) else 0)
  {
    RawIsHeld(cfg, h);
    hide Inv, Malloc, Served, Zero;
    if count == 0 || size == 0 {
      EmptyProduct(count, size);
      MallocTraced(cfg, h, 0, reply);
      PassThroughIsMalloc(cfg, h, reply);
    } else if Mul64(count, size) / count == size {
      MallocTraced(cfg, h, Mul64(count, size), reply);
    }
  }

  lemma CallTraced(cfg: Config, s: W.Sys, c: W.Call)
    requires SysInv(cfg, false, s) && W.LegalCall(cfg, s, c)
    ensures var (s1, q) := W.HeapPart(cfg, s, c); RawTraced(s.heap, s1.heap, q, W.LoggedSize(c))
  {
    hide Malloc, Free, Calloc, Realloc, Served, Inv, Mul64, EvictedBy;
    match c {
      case Malloc(size, reply, _) => MallocTraced(cfg, s.heap, size, reply);
      case Free(ptr, _, _) => FreeKeepsRaw(cfg, s.heap, ptr);
      case Calloc(nmemb, size, reply, _) => CallocTraced(cfg, s.heap, nmemb, size, reply);
      case Realloc(ptr, size, reply, _, _, _) => ReallocTraced(cfg, s.heap, ptr, size, reply);
    }
  }

  lemma LoggedSizeFits(cfg: Config, s: W.Sys, c: W.Call)
    requires W.LegalCall(cfg, s, c)
    ensures W.LoggedSize(c) < WORD
  {
  }

  /** Logging a free takes entries away, and leaves the sizes of the others. */
  lemma FreeLogSizes(cfg: Config, s: W.Sys, c: W.Call)
    ensures var l := W.FreeLogPart(cfg, s, c).log;
            forall p :: p in l.live ==> p in s.log.live && l.live[p].size == s.log.live[p].size
  {
  }

  lemma AllocLogSizes(cfg: Config, s: W.Sys, c: W.Call, q: Addr)
    ensures var l := W.AllocLogPart(cfg, s, c, q).log;
            forall p :: p in l.live ==>
              (p in s.log.live && l.live[p].size == s.log.live[p].size)
              || (p == q && l.live[p].size == W.LoggedSize(c))
  {
  }

  lemma CallKeepsSized(cfg: Config, s: W.Sys, c: W.Call)
    requires SysInv(cfg, false, s) && W.LegalCall(cfg, s, c) && Sized(s)
    ensures Sized(W.Step(cfg, s, c).0)
  {
    var (s1, q) := W.HeapPart(cfg, s, c);
    var s2 := W.FreeLogPart(cfg, s1, c);
    hide SysInv, W.LegalCall, W.HeapPart, W.FreeLogPart, W.AllocLogPart;
    CallTraced(cfg, s, c);
    LoggedSizeFits(cfg, s, c);
    HeapPartLog(cfg, s, c);
    FreeLogSizes(cfg, s1, c);
    AllocLogSizes(cfg, s2, c, q);
    LogPartsKeepHeap(cfg, s1, c, q);
    if !c.Free? {
      NewPointerUntracked(cfg, s, c);
    } else {
      FreeReturnsNothing(cfg, s, c);
    }
  }

  lemma FreeReturnsNothing(cfg: Config, s: W.Sys, c: W.Call)
    requires c.Free?
    ensures W.HeapPart(cfg, s, c).1 == NULL
  {
  }

  lemma HeapPartLog(cfg: Config, s: W.Sys, c: W.Call)
    ensures W.HeapPart(cfg, s, c).0.log.live == s.log.live
  {
  }

  lemma LogPartsKeepHeap(cfg: Config, s: W.Sys, c: W.Call, q: Addr)
    ensures W.AllocLogPart(cfg, W.FreeLogPart(cfg, s, c), c, q).heap == s.heap
  {
  }

  lemma {:induction false} CallsKeepSized(cfg: Config, s: W.Sys, calls: seq<W.Call>)
    requires SysInv(cfg, false, s) && W.LegalCalls(cfg, s, calls) && Sized(s)
    ensures Sized(W.RunCalls(cfg, s, calls))
    decreases |calls|
  {
    hide SysInv, Sized, W.Step;
    if calls != [] {
      CallKeepsSized(cfg, s, calls[0]);
      CallKeeps(cfg, false, s, calls[0]);
      CallsKeepSized(cfg, W.Step(cfg, s, calls[0]).0, calls[1..]);
    }
  }

  /** Every entry lies below 2^64 and shares no byte with another. */
  ghost predicate EntriesApart(m: map<Addr, Entry>) {
    && (forall p :: p in m ==> p + m[p].size < WORD)
    && (forall p, q :: p in m && q in m && p != q ==> Apart(p, m[p].size, q, m[q].size))
  }

  predicate InEntry(m: map<Addr, Entry>, a: Addr) { exists p :: p in m && p <= a < p + m[p].size }

  lemma EntriesWithout(m: map<Addr, Entry>, p: Addr)
    requires EntriesApart(m) && p in m
    ensures EntriesApart(m - {p})
    ensures forall a: Addr :: InEntry(m - {p}, a) ==> InEntry(m, a) && !(p <= a < p + m[p].size)
  {
    forall a: Addr | InEntry(m - {p}, a)
      ensures InEntry(m, a) && !(p <= a < p + m[p].size)
    {
      var q :| q in m - {p} && q <= a < q + m[q].size;
      assert Apart(p, m[p].size, q, m[q].size);
    }
  }

  /** The bytes of entries that share none are as many as their sizes add up to. */
  lemma {:induction false} SumIsByteCount(m: map<Addr, Entry>) returns (bytes: set<Addr>)
    requires EntriesApart(m)
    ensures |bytes| == SizeSum(m) && forall a: Addr :: a in bytes ==> InEntry(m, a)
    decreases |m|
  {
    EmptySum();
    hide EntriesApart, SizeSum, Range;
    bytes := {};
    if m != map[] {
      var p :| p in m;
      EntriesWithout(m, p);
      SizeSumRemove(m, p);
      var others := SumIsByteCount(m - {p});
      var own := Range(p, p + m[p].size);
      RangeSize(p, p + m[p].size);
      RangeIs(p, p + m[p].size);
      assert own !! others;
      bytes := own + others;
      assert |bytes| == |own| + |others|;
    }
  }

  lemma EmptySum()
    ensures SizeSum(map[]) == 0
  {
  }

  lemma RangeIs(lo: Addr, hi: Addr)
    ensures forall a: Addr :: a in Range(lo, hi) <==> lo <= a < hi
  {
  }

  lemma SumFitsWord(m: map<Addr, Entry>)
    requires EntriesApart(m)
    ensures SizeSum(m) < WORD
  {
    var bytes := SumIsByteCount(m);
    RangeSize(0, WORD - 1);
    forall a | a in bytes
      ensures a in Range(0, WORD - 1)
    {
      assert InEntry(m, a);
    }
    SubsetSize(bytes, Range(0, WORD - 1));
  }

  /** The held region a tracked block lies in. */
  function Home(h: Heap, p: Addr): Addr { if p in h.active then h.active[p].sysPtr else p }

  lemma EntryInHome(cfg: Config, s: W.Sys, p: Addr)
    requires SysInv(cfg, false, s) && Sized(s) && p in s.log.live && p != NULL
    ensures var b := Home(s.heap, p);
            b in s.heap.held && b <= p && p + s.log.live[p].size <= b + s.heap.held[b] < WORD
  {
    if p in s.heap.active {
      assert Owned(cfg, s.heap, s.heap.active[p]);
    }
  }

  lemma HomesDiffer(cfg: Config, s: W.Sys, p: Addr, q: Addr)
    requires SysInv(cfg, false, s) && p in s.log.live && q in s.log.live && p != NULL && q != NULL && p != q
    ensures Home(s.heap, p) != Home(s.heap, q)
  {
    if p in s.heap.active {
      assert Owned(cfg, s.heap, s.heap.active[p]);
    }
    if q in s.heap.active {
      assert Owned(cfg, s.heap, s.heap.active[q]);
    }
  }

  lemma HeldRegionsApart(cfg: Config, h: Heap, b: Addr, c: Addr)
    requires Inv(cfg, h) && b in h.held && c in h.held && b != c
    ensures Apart(b, h.held[b], c, h.held[c])
  {
  }

  /** What is tracked under a real pointer fits into the address space. */
  lemma LiveFitsWord(cfg: Config, s: W.Sys)
    requires SysInv(cfg, false, s) && Sized(s)
    ensures SizeSum(s.log.live - {NULL}) < WORD
    ensures NULL !in s.log.live ==> SizeSum(s.log.live) < WORD
  {
    var m := s.log.live - {NULL};
    assert Inv(cfg, s.heap);
    hide SysInv, Sized, Inv, Home, SizeSum;
    forall p | p in m
      ensures p + m[p].size < WORD
    {
      EntryInHome(cfg, s, p);
    }
    forall p, q | p in m && q in m && p != q
      ensures Apart(p, m[p].size, q, m[q].size)
    {
      EntryInHome(cfg, s, p);
      EntryInHome(cfg, s, q);
      HomesDiffer(cfg, s, p, q);
      HeldRegionsApart(cfg, s.heap, Home(s.heap, p), Home(s.heap, q));
    }
    SumFitsWord(m);
    assert NULL !in s.log.live ==> m == s.log.live;
  }

  /**
   * In every run the blocks tracked under real pointers have sizes that add up to less than 2^64; so
   * without a failed request on record the counter never wraps.
   */
  lemma LiveFitsInEveryRun(cfg: Config, calls: seq<W.Call>)
    requires W.LegalCalls(cfg, W.START, calls)
    ensures SizeSum(W.RunCalls(cfg, W.START, calls).log.live - {NULL}) < WORD
  {
    hide SysInv, W.LegalCalls, W.RunCalls, SizeSum;
    StartAgrees(cfg, false);
    StartSized();
    CallsKeep(cfg, false, W.START, calls);
    CallsKeepSized(cfg, W.START, calls);
    LiveFitsWord(cfg, W.RunCalls(cfg, W.START, calls));
  }

  lemma StartSized()
    ensures Sized(W.START)
  {
  }

  // ---- what is reported as lost is what the program still holds ----

  /** The bytes the program asked for in the blocks that are active. */
  ghost function UserSum(active: map<Addr, AllocInfo>): nat
    decreases |active|
  {
    if active == map[] then 0
    else
      var p :| p in active;
      active[p].userSize + UserSum(active - {p})
  }

  lemma {:induction false} SameSums(m: map<Addr, Entry>, active: map<Addr, AllocInfo>)
    requires m.Keys == active.Keys && forall p :: p in m ==> m[p].size == active[p].userSize
    ensures SizeSum(m) == UserSum(active)
    decreases |active|
  {
    if active == map[] {
      assert m == map[];
      EmptySum();
    } else {
      var p :| p in active && UserSum(active) == active[p].userSize + UserSum(active - {p});
      SizeSumRemove(m, p);
      SameSums(m - {p}, active - {p});
    }
  }

  /** The size of a failed request on record, if any. */
  function NullSize(l: Log): nat { if NULL in l.live then l.live[NULL].size else 0 }

  /** With realloc only on null and fenced blocks, all that is tracked is active, but for a failed request. */
  lemma TrackedIsActive(cfg: Config, s: W.Sys)
    requires SysInv(cfg, true, s)
    ensures SizeSum(s.log.live) == UserSum(s.heap.active) + NullSize(s.log)
    ensures |s.log.live| == |s.heap.active| + if NULL in s.log.live then 1 else 0
  {
    hide SysInv, UserSum, SizeSum;
    var m := s.log.live - {NULL};
    StrictSameKeys(cfg, s);
    SameSums(m, s.heap.active);
    SameKeysSameSize(m, s.heap.active);
    SizeWithout(s.log.live, NULL);
    if NULL in s.log.live {
      SizeSumRemove(s.log.live, NULL);
    } else {
      assert m == s.log.live;
    }
  }

  lemma SameKeysSameSize<K, V, U>(m: map<K, V>, n: map<K, U>)
    requires m.Keys == n.Keys
    ensures |m| == |n|
  {
    assert |m| == |m.Keys| && |n| == |n.Keys|;
  }

  lemma SizeWithout<K, V>(m: map<K, V>, k: K)
    ensures |m| == |m - {k}| + if k in m then 1 else 0
  {
    assert (m - {k}).Keys == m.Keys - {k};
    assert |m| == |m.Keys| && |m - {k}| == |(m - {k}).Keys|;
  }

  lemma StrictSameKeys(cfg: Config, s: W.Sys)
    requires SysInv(cfg, true, s)
    ensures (s.log.live - {NULL}).Keys == s.heap.active.Keys
    ensures forall p :: p in s.heap.active ==> s.log.live[p].size == s.heap.active[p].userSize
  {
    NullNotThere(cfg, s.heap);
    hide Inv;
  }

  /** The totals of the summary are those of the blocks the program holds. */
  ghost predicate TotalsRight(s: W.Sys) {
    SizeSum(s.log.live) % WORD == UserSum(s.heap.active) && |s.log.live| == |s.heap.active|
  }

  lemma TotalsRightUnlessFailure(cfg: Config, s: W.Sys)
    requires SysInv(cfg, true, s) && Sized(s)
    ensures TotalsRight(s) <==> NULL !in s.log.live
    ensures UserSum(s.heap.active) < WORD
  {
    hide SysInv, Sized, SizeSum, UserSum;
    StrictIsAgree(cfg, s);
    TrackedIsActive(cfg, s);
    ActiveFitsWord(cfg, s);
    if NULL !in s.log.live {
      SmallRemainder(UserSum(s.heap.active));
    }
  }

  lemma ActiveFitsWord(cfg: Config, s: W.Sys)
    requires SysInv(cfg, true, s) && SysInv(cfg, false, s) && Sized(s)
    ensures UserSum(s.heap.active) < WORD
  {
    hide SysInv, Sized, SizeSum, UserSum;
    LiveFitsWord(cfg, s);
    StrictSameKeys(cfg, s);
    SameSums(s.log.live - {NULL}, s.heap.active);
  }

  lemma StrictIsAgree(cfg: Config, s: W.Sys)
    requires SysInv(cfg, true, s)
    ensures SysInv(cfg, false, s)
  {
  }

  /**
   * In every run with realloc only on null and fenced blocks: the bytes and blocks reported as
   * definitely lost are those of the blocks the program holds if and only if no failed request is on
   * record; and the counter is those bytes and, on top, every failed request that is on record or was
   * overwritten there, so right if and only if there are none with bytes.
   */
  lemma LeakTotalsInEveryRun(cfg: Config, calls: seq<W.Call>)
    requires W.LegalCalls(cfg, W.START, calls) && W.FencedOnlyCalls(cfg, W.START, calls)
    ensures var s := W.RunCalls(cfg, W.START, calls);
            var failed := NullSize(s.log) + LostInRun(cfg, W.START, calls);
            && (TotalsRight(s) <==> NULL !in s.log.live)
            && s.log.currentBytes == (UserSum(s.heap.active) + failed) % WORD
            && (failed < WORD ==> (s.log.currentBytes == UserSum(s.heap.active) <==> failed == 0))
  {
    var s := W.RunCalls(cfg, W.START, calls);
    hide W.LegalCalls, W.FencedOnlyCalls, W.RunCalls, SysInv, Sized, LostInRun, SizeSum, UserSum, TotalsRight;
    StartAgrees(cfg, true);
    CallsKeep(cfg, true, W.START, calls);
    StartAgrees(cfg, false);
    StartSized();
    CallsKeepSized(cfg, W.START, calls);
    CurrentBytesInEveryRun(cfg, calls);
    TrackedIsActive(cfg, s);
    TotalsRightUnlessFailure(cfg, s);
    var failed := NullSize(s.log) + LostInRun(cfg, W.START, calls);
    if failed < WORD {
      SameRemainder(UserSum(s.heap.active), failed);
      SmallRemainder(UserSum(s.heap.active));
    }
  }

  /** malloc(n) refused once: n bytes in one block are reported as lost, and the program holds nothing. */
  lemma OneFailureIsReported(cfg: Config, n: nat, stack: Stack)
    requires 0 < n && cfg.minsize <= n && Fits(cfg, n) && n < WORD
    ensures var calls := [W.Malloc(n, Refused, stack)];
            var s := W.RunCalls(cfg, W.START, calls);
            && W.LegalCalls(cfg, W.START, calls) && s.heap == EMPTY
            && SizeSum(s.log.live) == n && |s.log.live| == 1 && s.log.currentBytes == n
  {
    hide IdealSysSize;
    var c := W.Malloc(n, Refused, stack);
    var s := W.Step(cfg, W.START, c).0;
    assert s.heap == EMPTY && s.log.live == map[NULL := Entry(NULL, n, stack, [])] && s.log.currentBytes == n;
    SizeSumAdd(map[], NULL, Entry(NULL, n, stack, []));
    EmptySum();
    assert [c][1..] == [];
    hide W.Step, SizeSum;
    assert W.LegalCalls(cfg, s, []) && W.RunCalls(cfg, s, []) == s;
  }

  // ---- counter and peak over whole runs ----

  /** A request that is refused and tracked. */
  predicate TrackedRefusal(cfg: Config, s: W.Sys, c: W.Call) {
    W.LogsAlloc(c) && cfg.minsize <= W.LoggedSize(c) && W.HeapPart(cfg, s, c).1 == NULL
  }

  predicate NoRefusals(cfg: Config, s: W.Sys, calls: seq<W.Call>)
    decreases |calls|
  {
    calls == [] || (!TrackedRefusal(cfg, s, calls[0]) && NoRefusals(cfg, W.Step(cfg, s, calls[0]).0, calls[1..]))
  }

  function Max(a: nat, b: nat): nat { if a < b then b else a }

  /** The most bytes tracked at once, over all states of the run. */
  ghost function PeakLive(cfg: Config, s: W.Sys, calls: seq<W.Call>): nat
    decreases |calls|
  {
    if calls == [] then SizeSum(s.log.live)
    else Max(SizeSum(s.log.live), PeakLive(cfg, W.Step(cfg, s, calls[0]).0, calls[1..]))
  }

  /** The counter is the tracked bytes, the peak is at least that, and nothing failed is on record. */
  ghost predicate Counting(s: W.Sys) {
    NULL !in s.log.live && s.log.currentBytes == SizeSum(s.log.live) <= s.log.peakBytes
  }

  lemma CallCounts(cfg: Config, s: W.Sys, c: W.Call)
    requires SysInv(cfg, false, s) && Sized(s) && W.LegalCall(cfg, s, c) && Counting(s) && !TrackedRefusal(cfg, s, c)
    ensures var s' := W.Step(cfg, s, c).0;
            Counting(s') && s'.log.peakBytes == Max(s.log.peakBytes, SizeSum(s'.log.live))
  {
    var s' := W.Step(cfg, s, c).0;
    hide SysInv, Sized, SizeSum, W.LegalCall, W.Step;
    CallKeeps(cfg, false, s, c);
    CallKeepsSized(cfg, s, c);
    StaysWithoutNull(cfg, s, c);
    LiveFitsWord(cfg, s);
    LiveFitsWord(cfg, s');
    SmallRemainder(SizeSum(s.log.live));
    SmallRemainder(SizeSum(s'.log.live));
    CallAhead(cfg, s, c, 0);
    CallPeak(cfg, s, c);
  }

  lemma StaysWithoutNull(cfg: Config, s: W.Sys, c: W.Call)
    requires NULL !in s.log.live && !TrackedRefusal(cfg, s, c)
    ensures NULL !in W.Step(cfg, s, c).0.log.live
    ensures Lost(cfg, s, c) == 0
  {
    hide Malloc, Free, Calloc, Realloc, EvictedBy, Mul64, UserPtrs;
  }

  /** Only an allocation that is tracked can raise the peak; anything else lowers the counter. */
  lemma CallPeak(cfg: Config, s: W.Sys, c: W.Call)
    ensures var l, l' := s.log, W.Step(cfg, s, c).0.log;
            l'.peakBytes == Max(l.peakBytes, l'.currentBytes)
            || (l'.peakBytes == l.peakBytes && SizeSum(l'.live) <= SizeSum(l.live))
  {
    var (s1, q) := W.HeapPart(cfg, s, c);
    var s2 := W.FreeLogPart(cfg, s1, c);
    hide SizeSum, Malloc, Free, Calloc, Realloc, EvictedBy, Mul64, UserPtrs, Add64, Sub64;
    FreeLogShrinksSum(cfg, s1, c);
    assert s2.log.peakBytes == s.log.peakBytes;
  }

  lemma FreeLogShrinksSum(cfg: Config, s: W.Sys, c: W.Call)
    ensures SizeSum(W.FreeLogPart(cfg, s, c).log.live) <= SizeSum(s.log.live)
  {
    var p := W.Freed(c);
    if p in s.log.live {
      SizeSumRemove(s.log.live, p);
    }
    hide SizeSum;
  }

  lemma {:induction false} CallsCount(cfg: Config, s: W.Sys, calls: seq<W.Call>)
    requires SysInv(cfg, false, s) && Sized(s) && Counting(s)
    requires W.LegalCalls(cfg, s, calls) && NoRefusals(cfg, s, calls)
    ensures var s' := W.RunCalls(cfg, s, calls);
            Counting(s') && s'.log.peakBytes == Max(s.log.peakBytes, PeakLive(cfg, s, calls))
    decreases |calls|
  {
    hide SysInv, Sized, W.Step, SizeSum, TrackedRefusal;
    if calls != [] {
      CallCounts(cfg, s, calls[0]);
      CallKeeps(cfg, false, s, calls[0]);
      CallKeepsSized(cfg, s, calls[0]);
      CallsCount(cfg, W.Step(cfg, s, calls[0]).0, calls[1..]);
    }
  }

  /**
   * In every run, however long, in which no tracked request is refused: the counter is exactly the
   * tracked bytes and the peak the most that was ever tracked at once.
   */
  lemma PeakInEveryRun(cfg: Config, calls: seq<W.Call>)
    requires W.LegalCalls(cfg, W.START, calls) && NoRefusals(cfg, W.START, calls)
    ensures var l := W.RunCalls(cfg, W.START, calls).log;
            l.currentBytes == SizeSum(l.live) && l.peakBytes == PeakLive(cfg, W.START, calls)
  {
    hide SysInv, SizeSum, W.LegalCalls, W.RunCalls, NoRefusals, PeakLive;
    StartAgrees(cfg, false);
    StartSized();
    EmptySum();
    CallsCount(cfg, W.START, calls);
  }
}
