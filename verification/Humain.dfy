/** The critical sections of the wrappers (src/humain.cpp) on the allocator and the log objects. */
module Humain {
  import opened Machine
  import opened Layout
  import opened Quarantine
  import opened HeapModel
  import opened HeapInvariant
  import opened LogModel
  import opened LogTheorems
  import opened Summary
  import opened CrossInvariant
  import opened RunAccounting
  import W = WrapperModel
  import L = Hulog
  import M = Humalloc

  /** The calls as the log sees them: with the verdict on the callstack of the free. */
  function FreeOf(ptr: Addr, stack: Stack, fileOf: Addr -> string): W.Call {
    W.Free(ptr, stack, ValidCallstack(stack, false, fileOf))
  }

  function ReallocOf(ptr: Addr, size: nat, reply: Reply, freeStack: Stack, fileOf: Addr -> string, stack: Stack)
    : W.Call
  {
    W.Realloc(ptr, size, reply, freeStack, ValidCallstack(freeStack, false, fileOf), stack)
  }

  class Humain {
    const cfg: Config
    const heap: M.Humalloc
    const log: L.Hulog

    ghost function Abs(): W.Sys
      reads this, heap, heap.os, log
    {
      W.Sys(heap.Abs(), log.Abs())
    }

    /** The allocator's own invariant, its agreement with the log, and 64-bit tracked sizes. */
    ghost predicate Valid()
      reads this, heap, heap.os, log
    {
      heap.log == log && heap.cfg == cfg && heap.Valid() && SysInv(cfg, false, Abs()) && Sized(Abs())
    }

    constructor (cfg: Config, heap: M.Humalloc, log: L.Hulog)
      requires heap.log == log && heap.cfg == cfg && heap.Valid() && heap.Abs() == EMPTY && log.Abs() == EMPTY_LOG
      ensures this.cfg == cfg && this.heap == heap && this.log == log && Valid() && Abs() == W.START
    {
      this.cfg, this.heap, this.log := cfg, heap, log;
      new;
      StartAgrees(cfg, false);
      StartSized();
    }

    method Malloc(size: nat, reply: Reply, stack: Stack, fileOf: Addr -> string) returns (p: Addr)
      requires Valid() && W.LegalCall(cfg, Abs(), W.Malloc(size, reply, stack))
      modifies heap, heap.os, log
      ensures Valid() && (Abs(), p) == W.Step(cfg, old(Abs()), W.Malloc(size, reply, stack))
    {
      hide Inv, SysInv, Sized, LogAlloc, HeapModel.Malloc;
      CallKeeps(cfg, false, Abs(), W.Malloc(size, reply, stack));
      CallKeepsSized(cfg, Abs(), W.Malloc(size, reply, stack));
      NullFreesNothing(cfg, Abs());
      p := heap.HuMalloc(size, reply);
      if 0 < size {
        log.LogEvent(L.EVENT_MALLOC, p, size, stack, fileOf);
      }
    }

    method Free(ptr: Addr, stack: Stack, fileOf: Addr -> string)
      requires Valid() && W.LegalCall(cfg, Abs(), FreeOf(ptr, stack, fileOf))
      modifies heap, heap.os, log
      ensures Valid() && Abs() == W.Step(cfg, old(Abs()), FreeOf(ptr, stack, fileOf)).0
    {
      hide Inv, SysInv, Sized, LogDealloc, HeapModel.Free, EvictedBy, UserPtrs;
      CallKeeps(cfg, false, Abs(), FreeOf(ptr, stack, fileOf));
      CallKeepsSized(cfg, Abs(), FreeOf(ptr, stack, fileOf));
      heap.HuFree(ptr);
      log.LogEvent(L.EVENT_FREE, ptr, 0, stack, fileOf);
    }

    method Calloc(nmemb: nat, size: nat, reply: Reply, stack: Stack, fileOf: Addr -> string) returns (p: Addr)
      requires Valid() && W.LegalCall(cfg, Abs(), W.Calloc(nmemb, size, reply, stack))
      modifies heap, heap.os, log
      ensures Valid() && (Abs(), p) == W.Step(cfg, old(Abs()), W.Calloc(nmemb, size, reply, stack))
      ensures p != NULL ==>
                forall a: Addr :: p <= a < p + nmemb * size ==> a in heap.os.bytes && heap.os.bytes[a] == 0
    {
      hide Inv, SysInv, Sized, LogAlloc, HeapModel.Calloc, Mul64;
      CallKeeps(cfg, false, Abs(), W.Calloc(nmemb, size, reply, stack));
      CallKeepsSized(cfg, Abs(), W.Calloc(nmemb, size, reply, stack));
      NullFreesNothing(cfg, Abs());
      p := heap.HuCalloc(nmemb, size, reply);
      if 0 < nmemb && 0 < size {
        log.LogEvent(L.EVENT_MALLOC, p, Mul64(nmemb, size), stack, fileOf);
      }
    }

    method Realloc(ptr: Addr, size: nat, reply: Reply, freeStack: Stack, fileOf: Addr -> string, stack: Stack)
      returns (q: Addr)
      requires Valid() && W.LegalCall(cfg, Abs(), ReallocOf(ptr, size, reply, freeStack, fileOf, stack))
      modifies heap, heap.os, log
      ensures Valid()
      ensures (Abs(), q) == W.Step(cfg, old(Abs()), ReallocOf(ptr, size, reply, freeStack, fileOf, stack))
      ensures ptr in old(heap.activeAllocs) && 0 < size && q != NULL ==>
                forall a: Addr :: q <= a && a < q + size && a < q + old(heap.activeAllocs)[ptr].userSize
                                  && ptr + (a - q) in old(heap.os.bytes) ==>
                  a in heap.os.bytes && heap.os.bytes[a] == old(heap.os.bytes)[ptr + (a - q)]
    {
      hide Inv, SysInv, Sized, LogAlloc, LogDealloc, HeapModel.Realloc, EvictedBy, UserPtrs;
      CallKeeps(cfg, false, Abs(), ReallocOf(ptr, size, reply, freeStack, fileOf, stack));
      CallKeepsSized(cfg, Abs(), ReallocOf(ptr, size, reply, freeStack, fileOf, stack));
      q := heap.HuRealloc(ptr, size, reply);
      if ptr != NULL {
        log.LogEvent(L.EVENT_FREE, ptr, 0, freeStack, fileOf);
      }
      if size != 0 {
        log.LogEvent(L.EVENT_MALLOC, q, size, stack, fileOf);
      }
    }

    /**
     * The summary in any state the wrappers reach. The details are the groups of tracked blocks by
     * callstack, largest first; unless a failed request is tracked under null the totals are exact and
     * the details add up to them. With realloc only on null and fenced blocks the totals are those of
     * the blocks the program holds exactly when no failed request is tracked. The warning says that what
     * was ever freed no longer all fits.
     */
    method Report(order: seq<Addr>, groupOrder: seq<Stack>, fileOf: Addr -> string)
      returns (written: bool, text: L.SummaryText)
      requires Valid() && Enumerates(order, log.allocations)
      requires forall cs :: cs in groupOrder <==> With(log.allocations, cs) != map[]
      requires forall i, j :: 0 <= i < j < |groupOrder| ==> groupOrder[i] != groupOrder[j]
      ensures written == cfg.fileOpens
      ensures written ==> text.leakBytes == SizeSum(log.allocations) % WORD && text.leakBlocks == |log.allocations|
      ensures written && NULL !in log.allocations ==> text.leakBytes == SizeSum(log.allocations)
      ensures written && cfg.leak ==> Descending(text.details)
      ensures written && cfg.leak ==> forall g :: g in text.details <==>
                With(log.allocations, g.callstack) != map[]
                && g == Describe(With(log.allocations, g.callstack), g.callstack) && cfg.minsize <= g.size
      ensures written && cfg.leak && (NULL !in log.allocations || SizeSum(log.allocations) < WORD) ==>
                SeqBytes(text.details) == text.leakBytes && SeqBlocks(text.details) == text.leakBlocks
      ensures written && SysInv(cfg, true, Abs()) ==>
                (text.leakBytes == UserSum(heap.activeAllocs) && text.leakBlocks == |heap.activeAllocs|
                 <==> NULL !in log.allocations)
      ensures written ==> (text.evictionWarning <==> cfg.useafterfree && cfg.quarantineMax < Total(heap.freed))
    {
      ReportFacts(cfg, Abs());
      var evicted := heap.HuQuarantineWasEvicted();
      hide SysInv, Inv, Sized, SizeSum, UserSum, With, Describe, Descending, Tidy;
      written, text := log.LogSummary(order, groupOrder, fileOf, evicted);
    }
  }

  /** What the summary can rely on in any state the wrappers reach. */
  lemma ReportFacts(cfg: Config, s: W.Sys)
    requires SysInv(cfg, false, s) && Sized(s)
    ensures Tidy(cfg, s.log) && forall p :: p in s.log.live ==> s.log.live[p].size < WORD
    ensures NULL !in s.log.live ==> SizeSum(s.log.live) % WORD == SizeSum(s.log.live) < WORD
    ensures SysInv(cfg, true, s) ==>
              (SizeSum(s.log.live) % WORD == UserSum(s.heap.active) && |s.log.live| == |s.heap.active|
               <==> NULL !in s.log.live)
  {
    AgreementTidies(cfg, s);
    LiveFitsWord(cfg, s);
    assert forall p :: p in s.log.live ==> s.log.live[p].size < WORD;
    hide SysInv, Sized, SizeSum, UserSum, Tidy;
    SmallRemainder(SizeSum(s.log.live));
    if SysInv(cfg, true, s) {
      TotalsRightUnlessFailure(cfg, s);
    }
  }

  lemma AgreementTidies(cfg: Config, s: W.Sys)
    requires SysInv(cfg, false, s)
    ensures Tidy(cfg, s.log)
  {
  }

  lemma NullFreesNothing(cfg: Config, s: W.Sys)
    requires SysInv(cfg, false, s)
    ensures EvictedBy(cfg, s.heap, NULL) == [] && W.ForgetAll(cfg, s.log, []) == s.log
  {
    NullNotThere(cfg, s.heap);
    ForgetsNothing(cfg, s.log);
  }
}
