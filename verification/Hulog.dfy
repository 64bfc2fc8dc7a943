/** The tracking log with its static state as fields (src/hulog.cpp). */
module Hulog {
  import opened Machine
  import opened Layout
  import opened LogModel
  import opened LogTheorems
  import opened Summary
  import opened Attribution

  datatype EventKind = EVENT_MALLOC | EVENT_FREE

  /** The record of an invalid access: where it happened, and which block it belongs to. */
  datatype AccessReport = NoReport | AccessReport(at: Stack, found: Finding)

  /** "n unique (m total)", for double frees and for invalid accesses. */
  datatype ErrorSummary =
    | NoErrors
    | ErrorSummary(uniqueDeallocs: nat, totalDeallocs: nat, uniqueAccesses: nat, totalAccesses: nat)

  /** What log_summary writes. */
  datatype SummaryText = SummaryText(
    errors: ErrorSummary,
    totalAllocs: nat,
    totalFrees: nat,
    totalBytes: nat,
    peakBytes: nat,
    leakBytes: nat,
    leakBlocks: nat,
    details: seq<Group>,
    evictionWarning: bool)

  class Hulog {
    const cfg: Config
    var allocations: map<Addr, Entry>
    var freedAllocations: map<Addr, Entry>
    var totalAllocs: nat
    var totalFrees: nat
    var totalAllocBytes: nat
    var currentAllocBytes: nat
    var peakAllocBytes: nat
    var totalInvalidDeallocs: nat
    var reportedCallstacks: set<Stack>
    // the records of double frees appended to the log file
    var reports: seq<Report>
    var totalInvalidAccesses: nat
    var reportedAccesses: set<Stack>

    ghost function Abs(): Log
      reads this
    {
      Log(allocations, freedAllocations, totalAllocs, totalFrees, totalAllocBytes, currentAllocBytes,
          peakAllocBytes, totalInvalidDeallocs, reportedCallstacks, reports)
    }

    constructor (cfg: Config)
      ensures this.cfg == cfg && Abs() == EMPTY_LOG && totalInvalidAccesses == 0 && reportedAccesses == {}
    {
      this.cfg := cfg;
      allocations, freedAllocations := map[], map[];
      totalAllocs, totalFrees := 0, 0;
      totalAllocBytes, currentAllocBytes, peakAllocBytes := 0, 0, 0;
      totalInvalidDeallocs, reportedCallstacks, reports := 0, {}, [];
      totalInvalidAccesses, reportedAccesses := 0, {};
    }

    method LogEvent(event: EventKind, ptr: Addr, size: nat, stack: Stack, fileOf: Addr -> string)
      modifies this
      ensures Abs() == match event
                       case EVENT_MALLOC => LogAlloc(cfg, old(Abs()), ptr, size, stack)
                       case EVENT_FREE => LogDealloc(cfg, old(Abs()), ptr, stack, ValidCallstack(stack, false, fileOf))
      ensures totalInvalidDeallocs
              == old(totalInvalidDeallocs)
                 + if event == EVENT_FREE && cfg.logFree && ptr !in old(allocations) && ptr in old(freedAllocations)
                      && !(exists i :: 0 < i < |stack| && fileOf(stack[i]) == "libobjc.A.dylib"
                                       && forall j :: i < j < |stack| ==> fileOf(stack[j]) == "")
                   then 1 else 0
      ensures event == EVENT_FREE && ptr in old(allocations) ==>
                (ptr in freedAllocations <==> cfg.useafterfree || cfg.logFree || ptr in old(freedAllocations))
    {
      ValidMeans(stack, false, fileOf);
      DeallocEffects(cfg, Abs(), ptr, stack, ValidCallstack(stack, false, fileOf));
      hide LogDealloc, ValidCallstack;
      if event == EVENT_MALLOC {
        if cfg.useafterfree || cfg.logFree {
          freedAllocations := freedAllocations - {ptr};
        }
        if cfg.minsize <= size {
          allocations := allocations[ptr := Entry(ptr, size, stack, [])];
          totalAllocs := totalAllocs + 1;
          totalAllocBytes := Add64(totalAllocBytes, size);
          currentAllocBytes := Add64(currentAllocBytes, size);
          if peakAllocBytes < currentAllocBytes {
            peakAllocBytes := currentAllocBytes;
          }
        }
      } else {
        LogFree(ptr, stack, fileOf);
      }
    }

    /** The free branch of log_event. */
    method LogFree(ptr: Addr, stack: Stack, fileOf: Addr -> string)
      modifies this
      ensures Abs() == LogDealloc(cfg, old(Abs()), ptr, stack, ValidCallstack(stack, false, fileOf))
    {
      hide ReportInvalidFree, ValidCallstack;
      if ptr in allocations {
        currentAllocBytes := Sub64(currentAllocBytes, allocations[ptr].size);
        if cfg.useafterfree || cfg.logFree {
          allocations := allocations[ptr := allocations[ptr].(freeCallstack := stack)];
          if ptr !in freedAllocations {
            freedAllocations := freedAllocations[ptr := allocations[ptr]];
          }
        }
        allocations := allocations - {ptr};
        assert allocations == old(allocations) - {ptr};
      } else if cfg.logFree {
        if ptr in freedAllocations {
          var valid := IsValidCallstack(stack, false, fileOf);
          if valid {
            ReportInvalidDealloc(freedAllocations[ptr], stack);
          }
          freedAllocations := freedAllocations - {ptr};
        }
      }
      totalFrees := totalFrees + 1;
    }

    method ReportInvalidDealloc(block: Entry, stack: Stack)
      modifies this`totalInvalidDeallocs, this`reportedCallstacks, this`reports
      ensures Abs() == ReportInvalidFree(cfg, old(Abs()), block, stack)
    {
      totalInvalidDeallocs := totalInvalidDeallocs + 1;
      var key := Trim(stack);
      var isNew := key !in reportedCallstacks;
      reportedCallstacks := reportedCallstacks + {key};
      if isNew || cfg.repeat {
        if cfg.fileOpens {
          reports := reports + [Report(stack, block)];
        }
      }
    }

    /** hu_log_remove_freed_allocation: called for every block the quarantine evicts. */
    method RemoveFreedAllocation(ptr: Addr)
      modifies this`freedAllocations
      ensures Abs() == LogForget(cfg, old(Abs()), ptr)
    {
      if !cfg.logFree {
        freedAllocations := freedAllocations - {ptr};
      }
    }

    /** The two loops of hu_sig_handler over the unordered maps, in whatever order they iterate. */
    method FindBlock(a: Addr, liveOrder: seq<Addr>, freedOrder: seq<Addr>) returns (found: Finding)
      requires Enumerates(liveOrder, allocations) && Enumerates(freedOrder, freedAllocations)
      ensures found == Search(cfg.page, Abs(), liveOrder, freedOrder, a)
    {
      found := NotFound;
      var i := 0;
      while i < |liveOrder| && found == NotFound
        invariant 0 <= i <= |liveOrder|
        invariant FirstLive(cfg.page, allocations, liveOrder, a)
                  == if found != NotFound then found else FirstLive(cfg.page, allocations, liveOrder[i..], a)
      {
        var e := allocations[liveOrder[i]];
        if EndOf(e) <= a && a <= Add64(EndOf(e), cfg.page) {
          found := AfterLive(e.ptr, a - EndOf(e));
        }
        assert liveOrder[i..][1..] == liveOrder[i + 1..];
        i := i + 1;
      }
      if found == NotFound {
        i := 0;
        while i < |freedOrder| && found == NotFound
          invariant 0 <= i <= |freedOrder|
          invariant FirstFreed(cfg.page, freedAllocations, freedOrder, a)
                    == if found != NotFound then found else FirstFreed(cfg.page, freedAllocations, freedOrder[i..], a)
        {
          var e := freedAllocations[freedOrder[i]];
          if EndOf(e) <= a && a <= Add64(EndOf(e), cfg.page) {
            found := AfterFreed(e.ptr, a - EndOf(e));
          } else if e.ptr <= a && a <= Add64(EndOf(e), cfg.page) {
            found := InsideFreed(e.ptr, a - e.ptr);
          }
          assert freedOrder[i..][1..] == freedOrder[i + 1..];
          i := i + 1;
        }
      }
    }

    /** hu_sig_handler for a fault at a: the log itself stays as it is. */
    method HandleFault(a: Addr, stack: Stack, fileOf: Addr -> string, liveOrder: seq<Addr>, freedOrder: seq<Addr>)
      returns (report: AccessReport)
      requires Enumerates(liveOrder, allocations) && Enumerates(freedOrder, freedAllocations)
      modifies this`totalInvalidAccesses, this`reportedAccesses
      ensures totalInvalidAccesses
              == old(totalInvalidAccesses)
                 + if exists i :: 0 < i < |stack| && fileOf(stack[i]) == "libobjc.A.dylib"
                                  && forall j :: i < j < |stack| ==> fileOf(stack[j]) == ""
                   then 0 else 1
      ensures forall key :: key in reportedAccesses
                <==> key in old(reportedAccesses)
                     || (old(totalInvalidAccesses) < totalInvalidAccesses && IsTail(key, stack))
      ensures report == if old(totalInvalidAccesses) < totalInvalidAccesses && cfg.fileOpens
                           && (cfg.repeat || !exists key :: key in old(reportedAccesses) && IsTail(key, stack))
                        then AccessReport(stack, Search(cfg.page, Abs(), liveOrder, freedOrder, a)) else NoReport
    {
      ValidMeans(stack, false, fileOf);
      TailsOf(stack);
      hide IsTail, Trim, ValidCallstack;
      report := NoReport;
      var valid := IsValidCallstack(stack, false, fileOf);
      if valid {
        totalInvalidAccesses := totalInvalidAccesses + 1;
        var isNew := Trim(stack) !in reportedAccesses;
        reportedAccesses := reportedAccesses + {Trim(stack)};
        if isNew || cfg.repeat {
          if cfg.fileOpens {
            var found := FindBlock(a, liveOrder, freedOrder);
            report := AccessReport(stack, found);
          }
        }
      }
    }

    /** order and groupOrder are the iteration orders of the tracked blocks and of their callstacks. */
    method LogSummary(order: seq<Addr>, groupOrder: seq<Stack>, fileOf: Addr -> string, quarantineEvicted: bool)
      returns (written: bool, text: SummaryText)
      requires Enumerates(order, allocations) && Tidy(cfg, Abs())
      requires forall p :: p in allocations ==> allocations[p].size < WORD
      requires forall cs :: cs in groupOrder <==> With(allocations, cs) != map[]
      requires forall i, j :: 0 <= i < j < |groupOrder| ==> groupOrder[i] != groupOrder[j]
      ensures written == cfg.fileOpens
      ensures written ==> (text.errors == NoErrors <==> totalInvalidDeallocs == 0 && totalInvalidAccesses == 0)
      ensures written && text.errors != NoErrors ==>
                text.errors == ErrorSummary(|reportedCallstacks|, totalInvalidDeallocs,
                                            |reportedAccesses|, totalInvalidAccesses)
      ensures written ==> text.totalAllocs == totalAllocs && text.totalFrees == totalFrees
                          && text.totalBytes == totalAllocBytes && text.peakBytes == peakAllocBytes
      ensures written ==> text.leakBytes == SizeSum(allocations) % WORD && text.leakBlocks == |allocations|
      ensures written && !cfg.leak ==> text.details == []
      ensures written && cfg.leak ==> Descending(text.details)
      ensures written && cfg.leak ==> forall g :: g in text.details <==>
                With(allocations, g.callstack) != map[] && g == Describe(With(allocations, g.callstack), g.callstack)
                && cfg.minsize <= g.size
      ensures written && cfg.leak && SizeSum(allocations) < WORD ==>
                SeqBytes(text.details) == text.leakBytes && SeqBlocks(text.details) == text.leakBlocks
      ensures written ==> (text.evictionWarning <==> cfg.useafterfree && quarantineEvicted)
    {
      text := SummaryText(NoErrors, 0, 0, 0, 0, 0, 0, [], false);
      written := cfg.fileOpens;
      if written {
        var groups, leakBytes, leakBlocks := GroupByCallstack(allocations, order);
        GroupsAre(groups, allocations, groupOrder);
        var sorted := SortBySize(groups, groupOrder);
        var details := [];
        if cfg.leak {
          details := PrintLeaks(sorted, cfg.minsize, fileOf);
          ListedDescends(sorted, cfg.minsize);
          ListsMembers(sorted, groups);
          if SizeSum(allocations) < WORD {
            PrintedDetailsAddUp(cfg, Abs(), groups, sorted, leakBytes, leakBlocks);
          }
        }
        var errors := NoErrors;
        if totalInvalidDeallocs > 0 || totalInvalidAccesses > 0 {
          errors := ErrorSummary(|reportedCallstacks|, totalInvalidDeallocs, |reportedAccesses|, totalInvalidAccesses);
        }
        text := SummaryText(errors, totalAllocs, totalFrees, totalAllocBytes, peakAllocBytes, leakBytes, leakBlocks,
                            details, cfg.useafterfree && quarantineEvicted);
      }
    }
  }

  lemma TailsOf(stack: Stack)
    ensures forall key :: key == Trim(stack) <==> IsTail(key, stack)
  {
    forall key
      ensures key == Trim(stack) <==> IsTail(key, stack)
    {
      TrimIsTail(key, stack);
    }
  }

  lemma DeallocEffects(cfg: Config, l: Log, ptr: Addr, stack: Stack, valid: bool)
    ensures var l' := LogDealloc(cfg, l, ptr, stack, valid);
            && l'.invalidFrees
               == l.invalidFrees + (if cfg.logFree && ptr !in l.live && ptr in l.freed && valid then 1 else 0)
            && (ptr in l.live ==> (ptr in l'.freed <==> cfg.useafterfree || cfg.logFree || ptr in l.freed))
  {
  }

  lemma GroupsAre(groups: map<Stack, Group>, m: map<Addr, Entry>, groupOrder: seq<Stack>)
    requires Grouped(groups, m)
    requires forall cs :: cs in groupOrder <==> With(m, cs) != map[]
    requires forall i, j :: 0 <= i < j < |groupOrder| ==> groupOrder[i] != groupOrder[j]
    ensures Enumerates(groupOrder, groups) && forall cs :: cs in groups ==> groups[cs].callstack == cs
    ensures forall g: Group :: g.callstack in groups && groups[g.callstack] == g <==>
              With(m, g.callstack) != map[] && g == Describe(With(m, g.callstack), g.callstack)
  {
    forall cs
      ensures cs in groups <==> With(m, cs) != map[]
      ensures cs in groups ==> groups[cs] == Describe(With(m, cs), cs)
    {
      assert GroupMatches(groups, m, cs);
    }
    hide With;
  }

  lemma ListsMembers(sorted: seq<Group>, groups: map<Stack, Group>)
    requires Lists(sorted, groups)
    ensures forall g: Group :: g in sorted <==> g.callstack in groups && groups[g.callstack] == g
  {
    forall g: Group
      ensures g in sorted <==> g.callstack in groups && groups[g.callstack] == g
    {
      assert g in sorted <==> multiset(sorted)[g] > 0;
    }
  }
}
