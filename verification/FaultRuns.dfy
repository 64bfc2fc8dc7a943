/** Attribution of faults in every state the wrappers reach. */
module FaultRuns {
  import opened Machine
  import opened Layout
  import opened Blocks
  import opened HeapModel
  import opened HeapInvariant
  import opened LogModel
  import opened LogTheorems
  import opened Attribution
  import opened Faults
  import opened CrossInvariant
  import W = WrapperModel

  /** Every freed block on record would fit the quarantine: none left it in its own free. */
  ghost predicate NoOversizedFrees(cfg: Config, l: Log) {
    forall p :: p in l.freed && p != NULL ==> IdealSysSize(cfg, l.freed[p].size) <= cfg.quarantineMax
  }

  lemma AgreeMeansFenced(cfg: Config, s: W.Sys)
    requires SysInv(cfg, true, s)
    ensures Core(cfg, s.heap) && LiveFenced(s.heap, s.log)
  {
  }

  lemma AgreeMeansKeyed(cfg: Config, strict: bool, s: W.Sys)
    requires SysInv(cfg, strict, s)
    ensures Keyed(s.log)
  {
  }

  lemma AgreeMeansTracked(cfg: Config, s: W.Sys)
    requires SysInv(cfg, true, s) && cfg.useafterfree && !cfg.logFree && NoOversizedFrees(cfg, s.log)
    ensures Tracked(cfg, s.heap, s.log)
    ensures forall j :: 0 <= j < |s.heap.quarantine| ==> OnRecord(s.heap, s.log, j)
    ensures forall p :: p in s.heap.active ==> p in s.log.live && p != NULL
  {
    NullNotThere(cfg, s.heap);
    AgreeMeansFenced(cfg, s);
    AgreeMeansKeyed(cfg, true, s);
    hide Inv, Core, IdealSysSize, Tidy, LiveFenced, Keyed;
    forall p | p in s.log.freed && p != NULL
      ensures exists j :: QuarantinedAt(s.heap, s.log.freed[p], j)
    {
      FreedIsQuarantined(cfg, s, p);
    }
    assert forall p :: p in s.log.freed ==> s.log.freed[p].ptr == p by {
      assert Keyed(s.log);
    }
  }

  lemma FreedIsQuarantined(cfg: Config, s: W.Sys, p: Addr)
    requires SysInv(cfg, true, s) && cfg.useafterfree && !cfg.logFree && NoOversizedFrees(cfg, s.log)
    requires p in s.log.freed && p != NULL
    ensures exists j :: QuarantinedAt(s.heap, s.log.freed[p], j)
  {
    hide Inv, Core, IdealSysSize, Tidy;
    assert IsQuarantined(ViewOf(s.heap), p);
    var j: nat :| j < |s.heap.quarantine| && s.heap.quarantine[j].userPtr == p;
    assert QuarantinedAt(s.heap, s.log.freed[p], j);
  }

  lemma AllOnRecord(h: Heap, l: Log, a: Addr)
    requires forall p :: p in h.active ==> p in l.live && p != NULL
    requires forall j :: 0 <= j < |h.quarantine| ==> h.quarantine[j].userPtr in l.freed
    ensures NothingAdjoins(h, l, a) <==> NoNeighbour(h, a)
  {
    hide Adjoins;
  }

  // ---- the promises over every run ----

  /**
   * In every run whatsoever: the answer about a freed pointer on record is the right one in every
   * order exactly when no live entry and no other freed entry matches the address.
   */
  lemma FreedAnswerInEveryRun(cfg: Config, calls: seq<W.Call>, p: Addr, a: Addr)
    requires W.LegalCalls(cfg, W.START, calls) && p in W.RunCalls(cfg, W.START, calls).log.freed
    ensures var l := W.RunCalls(cfg, W.START, calls).log;
            && (AlwaysFinds(cfg.page, l, a, MatchFreed(cfg.page, l.freed[p], a))
                <==> NothingElseHits(cfg.page, l, p, a))
            && (AlwaysNamesFreed(cfg.page, l, a, p)
                <==> FreedHit(cfg.page, l, p, a) && NothingElseHits(cfg.page, l, p, a))
  {
    hide SysInv, AlwaysFinds, AlwaysNamesFreed, JustAfter, InsideOrAfter, W.LegalCalls, W.RunCalls;
    StartAgrees(cfg, false);
    CallsKeep(cfg, false, W.START, calls);
    var l := W.RunCalls(cfg, W.START, calls).log;
    AgreeMeansKeyed(cfg, false, W.RunCalls(cfg, W.START, calls));
    FreedAnswerExact(cfg.page, l, p, a, MatchFreed(cfg.page, l.freed[p], a));
    FreedNamedExact(cfg.page, l, p, a);
  }

  /** In every run whatsoever: a live block is named in every order exactly when only its entry matches. */
  lemma LiveAnswerInEveryRun(cfg: Config, calls: seq<W.Call>, p: Addr, a: Addr)
    requires W.LegalCalls(cfg, W.START, calls) && p in W.RunCalls(cfg, W.START, calls).log.live
    ensures var l := W.RunCalls(cfg, W.START, calls).log;
            AlwaysNamesLive(cfg.page, l, a, p)
            <==> LiveHit(cfg.page, l, p, a) && forall q :: q != p ==> !LiveHit(cfg.page, l, q, a)
  {
    hide SysInv, AlwaysNamesLive, JustAfter, W.LegalCalls, W.RunCalls;
    StartAgrees(cfg, false);
    CallsKeep(cfg, false, W.START, calls);
    AgreeMeansKeyed(cfg, false, W.RunCalls(cfg, W.START, calls));
    LiveNamedExact(cfg.page, W.RunCalls(cfg, W.START, calls).log, p, a);
  }

  /**
   * Also with unfenced blocks on record: a fault in the fence of an active block is attributed to it,
   * whatever the orders, exactly when it lies at most one page behind the user's last byte and no other
   * live entry matches.
   */
  lemma FenceAnswerInEveryRun(cfg: Config, calls: seq<W.Call>, p: Addr, a: Addr)
    requires cfg.overflow && W.LegalCalls(cfg, W.START, calls)
    requires var h := W.RunCalls(cfg, W.START, calls).heap; p in h.active && InFence(cfg, h.active[p], a)
    ensures var l := W.RunCalls(cfg, W.START, calls).log;
            && p in l.live
            && (AlwaysNamesLive(cfg.page, l, a, p)
                <==> a <= p + l.live[p].size + cfg.page && forall q :: q != p ==> !LiveHit(cfg.page, l, q, a))
  {
    var s := W.RunCalls(cfg, W.START, calls);
    hide W.LegalCalls, W.RunCalls, InFence, AlwaysNamesLive, JustAfter;
    StartAgrees(cfg, false);
    CallsKeep(cfg, false, W.START, calls);
    AgreeMeansFenceBehind(cfg, s, p, a);
    hide SysInv;
    LiveAnswerInEveryRun(cfg, calls, p, a);
  }

  lemma AgreeMeansFenceBehind(cfg: Config, s: W.Sys, p: Addr, a: Addr)
    requires cfg.overflow && SysInv(cfg, false, s) && p in s.heap.active && InFence(cfg, s.heap.active[p], a)
    ensures p in s.log.live && (JustAfter(cfg.page, s.log.live[p], a) <==> a <= p + s.log.live[p].size + cfg.page)
  {
    CoreBlock(cfg, s.heap, p);
    assert p in s.log.live && Describes(s.log.live[p], s.heap.active[p]);
    hide Inv, Agree, WellFormed, InFence, JustAfter;
    FenceBehind(cfg, s.heap.active[p], s.log.live[p], a);
  }

  lemma AgreeMeansRight(cfg: Config, s: W.Sys, j: nat)
    requires SysInv(cfg, false, s) && j < |s.heap.quarantine| && s.heap.quarantine[j].userPtr in s.log.freed
    ensures Describes(s.log.freed[s.heap.quarantine[j].userPtr], s.heap.quarantine[j])
    ensures WellFormed(cfg, s.heap.quarantine[j])
  {
    assert Owned(cfg, s.heap, s.heap.quarantine[j]);
  }

  lemma QuarantinedAnswer(cfg: Config, s: W.Sys, j: nat, a: Addr)
    requires SysInv(cfg, false, s)
    requires j < |s.heap.quarantine| && InRegion(s.heap.quarantine[j], a) && s.heap.quarantine[j].userPtr in s.log.freed
    ensures var p, l := s.heap.quarantine[j].userPtr, s.log;
            && l.freed[p].size == s.heap.quarantine[j].userSize
            && (AlwaysNamesFreed(cfg.page, l, a, p)
                <==> Reaches(cfg.page, l.freed[p], a) && RoomBehind(cfg.page, l.freed[p])
                     && NothingElseHits(cfg.page, l, p, a))
            && (AlwaysFinds(cfg.page, l, a, FreedFinding(cfg.page, l.freed[p], a))
                <==> RoomBehind(cfg.page, l.freed[p]) && NothingElseHits(cfg.page, l, p, a))
            && (cfg.overflow ==> RoomBehind(cfg.page, l.freed[p]))
  {
    hide SysInv, AlwaysFinds, AlwaysNamesFreed, JustAfter, InsideOrAfter, WellFormed, RoomBehind, Reaches, InRegion;
    var p := s.heap.quarantine[j].userPtr;
    AgreeMeansKeyed(cfg, false, s);
    AgreeMeansRight(cfg, s, j);
    OwnFreedMatch(cfg, s.heap.quarantine[j], s.log.freed[p], a);
    FreedAnswerExact(cfg.page, s.log, p, a, FreedFinding(cfg.page, s.log.freed[p], a));
    NamedIfReached(cfg.page, s.log, p, a);
  }

  /**
   * Also with double-free logging, where a record outlives its block and a second free removes it: a
   * fault in a quarantined block that is on record is attributed to it, whatever the orders, exactly
   * when it lies between the user's first byte and one page behind the last, nothing else on record
   * matches, and the block does not lie in the last page below 2^64.
   */
  lemma QuarantinedAnswerInEveryRun(cfg: Config, calls: seq<W.Call>, j: nat, a: Addr)
    requires W.LegalCalls(cfg, W.START, calls)
    requires var s := W.RunCalls(cfg, W.START, calls);
             && j < |s.heap.quarantine| && InRegion(s.heap.quarantine[j], a)
             && s.heap.quarantine[j].userPtr in s.log.freed
    ensures var s := W.RunCalls(cfg, W.START, calls);
            var p, l := s.heap.quarantine[j].userPtr, s.log;
            && l.freed[p].size == s.heap.quarantine[j].userSize
            && (AlwaysNamesFreed(cfg.page, l, a, p)
                <==> Reaches(cfg.page, l.freed[p], a) && RoomBehind(cfg.page, l.freed[p])
                     && NothingElseHits(cfg.page, l, p, a))
            && (AlwaysFinds(cfg.page, l, a, FreedFinding(cfg.page, l.freed[p], a))
                <==> RoomBehind(cfg.page, l.freed[p]) && NothingElseHits(cfg.page, l, p, a))
            && (cfg.overflow ==> RoomBehind(cfg.page, l.freed[p]))
  {
    hide W.RunCalls, W.LegalCalls, SysInv, AlwaysFinds, AlwaysNamesFreed, NothingElseHits;
    hide RoomBehind, Reaches, InRegion;
    StartAgrees(cfg, false);
    CallsKeep(cfg, false, W.START, calls);
    QuarantinedAnswer(cfg, W.RunCalls(cfg, W.START, calls), j, a);
  }

  /** Attribution of an overflow in any run, in any iteration orders. */
  lemma OverflowAttributedInEveryRun(cfg: Config, calls: seq<W.Call>, p: Addr, a: Addr)
    requires cfg.overflow && W.LegalCalls(cfg, W.START, calls) && W.FencedOnlyCalls(cfg, W.START, calls)
    requires var h := W.RunCalls(cfg, W.START, calls).heap; p in h.active && InFence(cfg, h.active[p], a)
    ensures var l := W.RunCalls(cfg, W.START, calls).log;
            && p in l.live
            && (AlwaysNamesLive(cfg.page, l, a, p)
                <==> a <= l.live[p].ptr + l.live[p].size + cfg.page && !LiveHit(cfg.page, l, NULL, a))
            && (AlwaysFinds(cfg.page, l, a, OverflowFinding(cfg.page, l.live[p], a))
                <==> !LiveHit(cfg.page, l, NULL, a)
                     && (l.live[p].ptr + l.live[p].size + cfg.page < a ==> forall q :: !FreedHit(cfg.page, l, q, a)))
  {
    hide W.RunCalls, W.LegalCalls, W.FencedOnlyCalls;
    var s := W.RunCalls(cfg, W.START, calls);
    RecordsExactInEveryRun(cfg, calls);
    StartAgrees(cfg, true);
    CallsKeep(cfg, true, W.START, calls);
    NullNotThere(cfg, s.heap);
    AgreeMeansFenced(cfg, s);
    AgreeMeansKeyed(cfg, true, s);
    hide Core, SysInv, LiveFenced, Keyed, InFence, AlwaysFinds, AlwaysNamesLive, OverflowFinding, JustAfter, FreedHit;
    OverflowAttributed(cfg, s.heap, s.log, p, a);
  }

  /** No block, live or quarantined, ends its fence at a without slack before it. */
  ghost predicate NoNeighbour(h: Heap, a: Addr) {
    && (forall q :: q in h.active ==> !Adjoins(h.active[q], a))
    && (forall k :: 0 <= k < |h.quarantine| ==> !Adjoins(h.quarantine[k], a))
  }

  /** Attribution of a use after free in any run with fences, in any iteration orders. */
  lemma UseAfterFreeAttributedInEveryRun(cfg: Config, calls: seq<W.Call>, j: nat, a: Addr)
    requires cfg.overflow && cfg.useafterfree && !cfg.logFree
    requires W.LegalCalls(cfg, W.START, calls) && W.FencedOnlyCalls(cfg, W.START, calls)
    requires var s := W.RunCalls(cfg, W.START, calls);
             j < |s.heap.quarantine| && InRegion(s.heap.quarantine[j], a) && NoOversizedFrees(cfg, s.log)
    ensures var s := W.RunCalls(cfg, W.START, calls);
            && s.heap.quarantine[j].userPtr in s.log.freed
            && (AlwaysNamesFreed(cfg.page, s.log, a, s.heap.quarantine[j].userPtr)
                <==> Reaches(cfg.page, s.log.freed[s.heap.quarantine[j].userPtr], a)
                     && NullSilent(cfg.page, s.log, a) && NoNeighbour(s.heap, a))
            && (AlwaysFinds(cfg.page, s.log, a, FreedFinding(cfg.page, s.log.freed[s.heap.quarantine[j].userPtr], a))
                <==> NullSilent(cfg.page, s.log, a) && NoNeighbour(s.heap, a))
            && (s.heap.quarantine[j].sysPtr < a ==> NoNeighbour(s.heap, a))
  {
    hide W.RunCalls, W.LegalCalls, W.FencedOnlyCalls;
    var s := W.RunCalls(cfg, W.START, calls);
    StartAgrees(cfg, true);
    CallsKeep(cfg, true, W.START, calls);
    AgreeMeansTracked(cfg, s);
    assert forall k :: 0 <= k < |s.heap.quarantine| ==> s.heap.quarantine[k].userPtr in s.log.freed;
    hide SysInv, Tracked, AlwaysFinds, AlwaysNamesFreed, NullSilent, NoOversizedFrees, NothingAdjoins, NoNeighbour;
    hide FreedFinding, Reaches;
    AllOnRecord(s.heap, s.log, a);
    UseAfterFreeAttributed(cfg, s.heap, s.log, j, a);
  }

  /** Attribution of a use after free in any run, also without fences. */
  lemma UseAfterFreeExactInEveryRun(cfg: Config, calls: seq<W.Call>, j: nat, a: Addr)
    requires cfg.useafterfree && !cfg.logFree
    requires W.LegalCalls(cfg, W.START, calls) && W.FencedOnlyCalls(cfg, W.START, calls)
    requires var s := W.RunCalls(cfg, W.START, calls);
             j < |s.heap.quarantine| && InRegion(s.heap.quarantine[j], a) && NoOversizedFrees(cfg, s.log)
    ensures var s := W.RunCalls(cfg, W.START, calls);
            var p, l := s.heap.quarantine[j].userPtr, s.log;
            && p in l.freed
            && (AlwaysNamesFreed(cfg.page, l, a, p)
                <==> Reaches(cfg.page, l.freed[p], a) && RoomBehind(cfg.page, l.freed[p]) && NoRival(cfg.page, l, p, a))
            && (AlwaysFinds(cfg.page, l, a, FreedFinding(cfg.page, l.freed[p], a))
                <==> RoomBehind(cfg.page, l.freed[p]) && NoRival(cfg.page, l, p, a))
  {
    hide W.RunCalls, W.LegalCalls, W.FencedOnlyCalls;
    var s := W.RunCalls(cfg, W.START, calls);
    StartAgrees(cfg, true);
    CallsKeep(cfg, true, W.START, calls);
    AgreeMeansTracked(cfg, s);
    hide SysInv, Tracked, AlwaysFinds, AlwaysNamesFreed, NullSilent, JustAfter, NoOversizedFrees, FreedFinding;
    hide RoomBehind, Reaches, NoRival;
    UseAfterFreeExact(cfg, s.heap, s.log, j, a);
  }
}
