/** Which block a fault belongs to, and exactly when the search of the signal handler names it. */
module Faults {
  import opened Machine
  import opened Layout
  import opened Blocks
  import opened HeapModel
  import opened HeapInvariant
  import opened LogModel
  import opened Attribution

  ghost predicate Describes(e: Entry, i: AllocInfo) { e.ptr == i.userPtr && e.size == i.userSize }

  /** Every tracked live block is fenced, except a failed allocation tracked under null. */
  ghost predicate LiveFenced(h: Heap, l: Log) {
    forall p :: p in l.live ==> l.live[p].ptr == p && (p != NULL ==> p in h.active && Describes(l.live[p], h.active[p]))
  }

  ghost predicate QuarantinedAt(h: Heap, e: Entry, j: nat) {
    j < |h.quarantine| && Describes(e, h.quarantine[j])
  }

  /** Every freed block on record is still quarantined, except one recorded under null. */
  ghost predicate FreedQuarantined(h: Heap, l: Log) {
    forall p :: p in l.freed ==> l.freed[p].ptr == p && (p != NULL ==> exists j :: QuarantinedAt(h, l.freed[p], j))
  }

  ghost predicate Tracked(cfg: Config, h: Heap, l: Log) {
    Core(cfg, h) && LiveFenced(h, l) && FreedQuarantined(h, l)
  }

  /** No failed allocation, live or freed, is on record with a size that reaches up to a. */
  predicate NullSilent(page: nat, l: Log, a: Addr) {
    !LiveHit(page, l, NULL, a) && !FreedHit(page, l, NULL, a)
  }

  // ---- two blocks ----

  ghost predicate TwoBlocks(cfg: Config, i: AllocInfo, k: AllocInfo) {
    WellFormed(cfg, i) && WellFormed(cfg, k) && Apart(i.sysPtr, i.sysSize, k.sysPtr, k.sysSize)
  }

  lemma ActivePairApart(cfg: Config, h: Heap, p: Addr, q: Addr)
    requires Core(cfg, h) && p in h.active && q in h.active && p != q
    ensures TwoBlocks(cfg, h.active[p], h.active[q])
  {
    assert Owned(cfg, h, h.active[p]) && Owned(cfg, h, h.active[q]);
  }

  lemma MixedPairApart(cfg: Config, h: Heap, j: nat, q: Addr)
    requires Core(cfg, h) && j < |h.quarantine| && q in h.active
    ensures TwoBlocks(cfg, h.quarantine[j], h.active[q]) && h.quarantine[j].userPtr != q
  {
    assert Owned(cfg, h, h.quarantine[j]) && Owned(cfg, h, h.active[q]);
  }

  lemma QuarantinePairApart(cfg: Config, h: Heap, j: nat, k: nat)
    requires Core(cfg, h) && j < |h.quarantine| && k < |h.quarantine| && j != k
    ensures TwoBlocks(cfg, h.quarantine[j], h.quarantine[k])
  {
    assert Owned(cfg, h, h.quarantine[j]) && Owned(cfg, h, h.quarantine[k]);
  }

  lemma CoreBlock(cfg: Config, h: Heap, p: Addr)
    requires Core(cfg, h) && p in h.active
    ensures WellFormed(cfg, h.active[p]) && h.active[p].userPtr == p && p != NULL
  {
    assert Owned(cfg, h, h.active[p]);
  }

  lemma CoreQuarantined(cfg: Config, h: Heap, j: nat)
    requires Core(cfg, h) && j < |h.quarantine|
    ensures WellFormed(cfg, h.quarantine[j]) && h.quarantine[j].userPtr != NULL
  {
    assert Owned(cfg, h, h.quarantine[j]);
  }

  lemma EndIs(cfg: Config, i: AllocInfo, e: Entry)
    requires WellFormed(cfg, i) && Describes(e, i)
    ensures EndOf(e) == i.userPtr + i.userSize <= i.sysPtr + i.sysSize
    ensures cfg.overflow ==> Add64(EndOf(e), cfg.page) == i.userPtr + i.userSize + cfg.page
  {
    SmallSum(0, i.userPtr + i.userSize);
    if cfg.overflow {
      SmallSum(EndOf(e), cfg.page);
    }
    hide Ceil, IdealSysSize;
  }

  /** A byte of another region is never inside this block: it matches as "after", or not at all. */
  lemma OnlyAfter(cfg: Config, i: AllocInfo, k: AllocInfo, e: Entry, a: Addr)
    requires TwoBlocks(cfg, i, k) && Describes(e, k) && InRegion(i, a)
    ensures InsideOrAfter(cfg.page, e, a) ==> JustAfter(cfg.page, e, a)
  {
    EndIs(cfg, k, e);
  }

  /** The fence of k ends at a, and no slack separates k's user area from it. */
  predicate Adjoins(k: AllocInfo, a: Addr) {
    k.sysPtr + k.sysSize == a && k.userSize % SIZE_MULTIPLE == 0
  }

  lemma SlackIsRemainder(n: nat)
    ensures Ceil(n, SIZE_MULTIPLE) == n <==> n % SIZE_MULTIPLE == 0
  {
    CeilIsLeast(n, SIZE_MULTIPLE);
  }

  /** With fences, a byte of another region matches in one case: it is the first behind the fence. */
  lemma FencedHit(cfg: Config, i: AllocInfo, k: AllocInfo, e: Entry, a: Addr)
    requires cfg.overflow && TwoBlocks(cfg, i, k) && Describes(e, k) && InRegion(i, a)
    ensures JustAfter(cfg.page, e, a) <==> Adjoins(k, a)
    ensures Adjoins(k, a) ==> a == i.sysPtr
  {
    EndIs(cfg, k, e);
    SlackIsRemainder(k.userSize);
    hide EndOf, Ceil, IdealSysSize;
  }

  // ---- overflows ----

  /**
   * What the entry of a live block makes of a fault in its fence: nothing in the last bytes, which lie
   * more than one page behind the user's bytes when slack separates those from the fence.
   */
  function OverflowFinding(page: nat, e: Entry, a: Addr): Finding {
    var past := e.ptr + e.size;
    if past <= a <= past + page then AfterLive(e.ptr, a - past) else NotFound
  }

  lemma OwnLiveHit(cfg: Config, i: AllocInfo, e: Entry, a: Addr)
    requires cfg.overflow && WellFormed(cfg, i) && Describes(e, i)
    ensures MatchLive(cfg.page, e, a) == OverflowFinding(cfg.page, e, a)
  {
    EndIs(cfg, i, e);
  }

  lemma PageAtLeast16(cfg: Config)
    ensures SIZE_MULTIPLE <= cfg.page
  {
    assert cfg.Valid();
  }

  lemma NoOtherLiveHit(cfg: Config, h: Heap, l: Log, p: Addr, a: Addr, q: Addr)
    requires cfg.overflow && Core(cfg, h) && LiveFenced(h, l)
    requires p in h.active && InFence(cfg, h.active[p], a) && q != p && q != NULL
    ensures !LiveHit(cfg.page, l, q, a)
  {
    if q in l.live {
      CoreBlock(cfg, h, p);
      ActivePairApart(cfg, h, p, q);
      PageAtLeast16(cfg);
      hide Core, JustAfter, LiveFenced;
      FencedHit(cfg, h.active[p], h.active[q], l.live[q], a);
    }
  }

  /** Only p and null can match among the live entries. */
  lemma OneLiveCandidate(page: nat, l: Log, p: Addr, a: Addr)
    requires Keyed(l) && p in l.live && p != NULL && forall q :: q != p && q != NULL ==> !LiveHit(page, l, q, a)
    ensures AlwaysFinds(page, l, a, MatchLive(page, l.live[p], a))
            <==> !LiveHit(page, l, NULL, a)
                 && (!LiveHit(page, l, p, a) ==> forall q :: !FreedHit(page, l, q, a))
  {
    hide JustAfter, FreedHit, AlwaysFinds;
    if LiveHit(page, l, p, a) {
      LiveAnswerExact(page, l, p, a);
    } else {
      NoAnswerExact(page, l, a);
    }
  }

  /**
   * A fault in the fence of a live block is attributed to that block, whatever the iteration orders,
   * exactly when it lies at most one page behind the user's last byte and no failed allocation tracked
   * under null reaches it. The bytes beyond, fewer than 16, are attributed to nothing, unless the null
   * entry or a freed one reaches them.
   */
  lemma OverflowAttributed(cfg: Config, h: Heap, l: Log, p: Addr, a: Addr)
    requires cfg.overflow && Core(cfg, h) && LiveFenced(h, l) && Keyed(l)
    requires p in l.live && p in h.active && InFence(cfg, h.active[p], a)
    ensures AlwaysNamesLive(cfg.page, l, a, p)
            <==> a <= l.live[p].ptr + l.live[p].size + cfg.page && !LiveHit(cfg.page, l, NULL, a)
    ensures l.live[p].ptr + l.live[p].size + cfg.page < a ==>
              h.active[p].sysPtr + h.active[p].sysSize - a < SIZE_MULTIPLE
    ensures AlwaysFinds(cfg.page, l, a, OverflowFinding(cfg.page, l.live[p], a))
            <==> !LiveHit(cfg.page, l, NULL, a)
                 && (l.live[p].ptr + l.live[p].size + cfg.page < a ==> forall q :: !FreedHit(cfg.page, l, q, a))
  {
    CoreBlock(cfg, h, p);
    assert Describes(l.live[p], h.active[p]);
    hide Core, LiveFenced, JustAfter, FreedHit, InFence, WellFormed, OverflowFinding, Keyed;
    hide AlwaysFinds, AlwaysNamesLive;
    OwnLiveHit(cfg, h.active[p], l.live[p], a);
    FenceBehind(cfg, h.active[p], l.live[p], a);
    forall q | q != p && q != NULL
      ensures !LiveHit(cfg.page, l, q, a)
    {
      NoOtherLiveHit(cfg, h, l, p, a, q);
    }
    OneLiveCandidate(cfg.page, l, p, a);
    LiveNamedExact(cfg.page, l, p, a);
  }

  lemma FenceBehind(cfg: Config, i: AllocInfo, e: Entry, a: Addr)
    requires cfg.overflow && WellFormed(cfg, i) && Describes(e, i) && InFence(cfg, i, a)
    ensures JustAfter(cfg.page, e, a) <==> a <= e.ptr + e.size + cfg.page
    ensures e.ptr + e.size + cfg.page < a ==> i.sysPtr + i.sysSize - a < SIZE_MULTIPLE
  {
    EndIs(cfg, i, e);
  }

  /** When all freed blocks on record are quarantined, only a null entry can match in the last fence bytes. */
  lemma FreedSilentInFence(cfg: Config, h: Heap, l: Log, p: Addr, a: Addr, q: Addr)
    requires cfg.overflow && Tracked(cfg, h, l) && q != NULL
    requires p in h.active && InFence(cfg, h.active[p], a)
    ensures !FreedHit(cfg.page, l, q, a)
  {
    if q in l.freed {
      var k: nat :| QuarantinedAt(h, l.freed[q], k);
      MixedPairApart(cfg, h, k, p);
      hide Core, JustAfter, InsideOrAfter, LiveFenced, FreedQuarantined;
      OnlyAfter(cfg, h.active[p], h.quarantine[k], l.freed[q], a);
      FencedHit(cfg, h.active[p], h.quarantine[k], l.freed[q], a);
    }
  }

  // ---- uses after free ----

  /**
   * What the entry of a quarantined block makes of a fault in its region: nothing in the padding before
   * the user's bytes, and nothing more than one page behind them.
   */
  function FreedFinding(page: nat, e: Entry, a: Addr): Finding {
    var past := e.ptr + e.size;
    if a < e.ptr || past + page < a then NotFound
    else if a < past then InsideFreed(e.ptr, a - e.ptr)
    else AfterFreed(e.ptr, a - past)
  }

  /** From the user's first byte to one page behind the last. */
  predicate Reaches(page: nat, e: Entry, a: Addr) { e.ptr <= a <= e.ptr + e.size + page }

  /** Without fences that is the whole region; with fences all but the padding and fewer than 16 bytes. */
  lemma MissedBytes(cfg: Config, i: AllocInfo, e: Entry, a: Addr)
    requires WellFormed(cfg, i) && Describes(e, i) && InRegion(i, a)
    ensures FreedFinding(cfg.page, e, a) == NotFound <==> !Reaches(cfg.page, e, a)
    ensures !Reaches(cfg.page, e, a) ==> cfg.overflow && (a < i.userPtr || i.sysPtr + i.sysSize - a < SIZE_MULTIPLE)
    ensures a < i.userPtr ==> !Reaches(cfg.page, e, a)
  {
    if !cfg.overflow {
      RegionWithinReach(i.userSize, cfg.page);
    }
    hide Ceil, IdealSysSize;
  }

  lemma RegionWithinReach(n: nat, page: nat)
    requires 0 < page && page % SIZE_MULTIPLE == 0
    ensures Ceil(Ceil(n, SIZE_MULTIPLE), page) <= n + page
  {
    var u := Ceil(n, SIZE_MULTIPLE);
    var c := Ceil(u, page);
    CeilBounds(n, SIZE_MULTIPLE);
    CeilBounds(u, page);
    PageMultipleAligned(page, c);
    MultipleSum(u, page, SIZE_MULTIPLE);
    MultiplesApart(c, u + page, SIZE_MULTIPLE);
  }

  /** One page more behind the block is still below 2^64; with a fence it always is. */
  predicate RoomBehind(page: nat, e: Entry) { e.ptr + e.size + page < WORD }

  lemma OwnFreedMatch(cfg: Config, i: AllocInfo, e: Entry, a: Addr)
    requires WellFormed(cfg, i) && Describes(e, i) && InRegion(i, a)
    ensures MatchFreed(cfg.page, e, a) == FreedFinding(cfg.page, e, a) <==> RoomBehind(cfg.page, e)
    ensures cfg.overflow ==> RoomBehind(cfg.page, e)
    ensures MatchFreed(cfg.page, e, a) == NotFound || MatchFreed(cfg.page, e, a) == FreedFinding(cfg.page, e, a)
  {
    EndIs(cfg, i, e);
    FirstPageAtLeast(cfg.page, i.sysPtr);
    hide WellFormed, EndOf;
    assert e.ptr <= EndOf(e);
    if RoomBehind(cfg.page, e) {
      SmallSum(EndOf(e), cfg.page);
    } else {
      WrapsLow(EndOf(e), cfg.page);
    }
  }

  lemma FirstPageAtLeast(page: nat, addr: nat)
    requires 0 < page && addr % page == 0 && 0 < addr
    ensures page <= addr
  {
    MultipleOf(0, page);
    MultiplesApart(0, addr, page);
  }

  lemma WrapsLow(a: nat, b: nat)
    requires a < WORD && b < WORD && WORD <= a + b
    ensures Add64(a, b) == a + b - WORD
  {
  }

  ghost predicate OnRecord(h: Heap, l: Log, j: nat) {
    j < |h.quarantine| && h.quarantine[j].userPtr in l.freed && QuarantinedAt(h, l.freed[h.quarantine[j].userPtr], j)
  }

  /** Another freed entry, if it matches a byte of block j at all, matches as "just after". */
  lemma OtherFreedHit(cfg: Config, h: Heap, l: Log, j: nat, a: Addr, q: Addr)
    requires Tracked(cfg, h, l) && OnRecord(h, l, j) && InRegion(h.quarantine[j], a)
    requires q in l.freed && q != h.quarantine[j].userPtr && q != NULL
    ensures FreedHit(cfg.page, l, q, a) <==> JustAfter(cfg.page, l.freed[q], a)
  {
    var k: nat :| QuarantinedAt(h, l.freed[q], k);
    QuarantinePairApart(cfg, h, j, k);
    hide Core, JustAfter, InsideOrAfter, WellFormed, LiveFenced, FreedQuarantined;
    OnlyAfter(cfg, h.quarantine[j], h.quarantine[k], l.freed[q], a);
  }

  /** No null entry reaches a, and no entry but that of p ends at or at most one page before a. */
  ghost predicate NoRival(page: nat, l: Log, p: Addr, a: Addr) {
    && NullSilent(page, l, a)
    && (forall q :: q in l.live && q != NULL ==> !JustAfter(page, l.live[q], a))
    && (forall q :: q in l.freed && q != NULL && q != p ==> !JustAfter(page, l.freed[q], a))
  }

  /**
   * With or without fences: a fault in a quarantined block is attributed to it, whatever the iteration
   * orders, exactly when it lies between the user's first byte and one page behind the last, no other
   * entry, live or freed, ends at or at most one page before it, no null entry reaches it, and the block
   * does not lie in the last page below 2^64.
   */
  lemma UseAfterFreeExact(cfg: Config, h: Heap, l: Log, j: nat, a: Addr)
    requires Tracked(cfg, h, l) && OnRecord(h, l, j) && InRegion(h.quarantine[j], a)
    ensures var p := h.quarantine[j].userPtr;
            AlwaysNamesFreed(cfg.page, l, a, p)
            <==> Reaches(cfg.page, l.freed[p], a) && RoomBehind(cfg.page, l.freed[p]) && NoRival(cfg.page, l, p, a)
    ensures var p := h.quarantine[j].userPtr;
            AlwaysFinds(cfg.page, l, a, FreedFinding(cfg.page, l.freed[p], a))
            <==> RoomBehind(cfg.page, l.freed[p]) && NoRival(cfg.page, l, p, a)
  {
    var p := h.quarantine[j].userPtr;
    hide Tracked, JustAfter, InsideOrAfter, InRegion, AlwaysFinds, AlwaysNamesFreed, RoomBehind, Reaches;
    OwnRecord(cfg, h, l, j, a);
    NamedIfReached(cfg.page, l, p, a);
    forall q | q in l.freed && q != NULL && q != p
      ensures FreedHit(cfg.page, l, q, a) <==> JustAfter(cfg.page, l.freed[q], a)
    {
      OtherFreedHit(cfg, h, l, j, a, q);
    }
    FreedAnswerExact(cfg.page, l, p, a, FreedFinding(cfg.page, l.freed[p], a));
    OnlyKeysHit(cfg.page, l, p, a);
  }

  /** Once the answer is that of the own entry, the block is named exactly within its reach. */
  lemma NamedIfReached(page: nat, l: Log, p: Addr, a: Addr)
    requires Keyed(l) && p in l.freed
    requires MatchFreed(page, l.freed[p], a) == FreedFinding(page, l.freed[p], a)
             || MatchFreed(page, l.freed[p], a) == NotFound
    ensures AlwaysNamesFreed(page, l, a, p)
            <==> Reaches(page, l.freed[p], a) && AlwaysFinds(page, l, a, FreedFinding(page, l.freed[p], a))
  {
    hide JustAfter, InsideOrAfter, AlwaysFinds, AlwaysNamesFreed;
    FreedNamedExact(page, l, p, a);
    FreedAnswerExact(page, l, p, a, FreedFinding(page, l.freed[p], a));
  }

  lemma OwnRecord(cfg: Config, h: Heap, l: Log, j: nat, a: Addr)
    requires Tracked(cfg, h, l) && OnRecord(h, l, j) && InRegion(h.quarantine[j], a)
    ensures var p := h.quarantine[j].userPtr;
            && p != NULL && l.freed[p].ptr == p && Keyed(l)
            && (MatchFreed(cfg.page, l.freed[p], a) == FreedFinding(cfg.page, l.freed[p], a)
                <==> RoomBehind(cfg.page, l.freed[p]))
            && (MatchFreed(cfg.page, l.freed[p], a) == FreedFinding(cfg.page, l.freed[p], a)
                || MatchFreed(cfg.page, l.freed[p], a) == NotFound)
            && (cfg.overflow ==> RoomBehind(cfg.page, l.freed[p]))
  {
    CoreQuarantined(cfg, h, j);
    hide Core, WellFormed, InRegion, MatchFreed, FreedFinding;
    OwnFreedMatch(cfg, h.quarantine[j], l.freed[h.quarantine[j].userPtr], a);
  }

  /** Quantifying over all pointers or over those on record is the same, null set apart. */
  lemma OnlyKeysHit(page: nat, l: Log, p: Addr, a: Addr)
    requires p != NULL
    ensures (forall q :: !LiveHit(page, l, q, a))
            <==> !LiveHit(page, l, NULL, a) && forall q :: q in l.live && q != NULL ==> !JustAfter(page, l.live[q], a)
    ensures (forall q :: q != p ==> !FreedHit(page, l, q, a))
            <==> !FreedHit(page, l, NULL, a)
                 && forall q :: q in l.freed && q != NULL && q != p ==> !FreedHit(page, l, q, a)
  {
    hide JustAfter, InsideOrAfter;
    forall q
      ensures LiveHit(page, l, q, a) <==> q in l.live && JustAfter(page, l.live[q], a)
    {
    }
    forall q
      ensures FreedHit(page, l, q, a) ==> q in l.freed
    {
    }
    if forall q :: !LiveHit(page, l, q, a) {
      forall q | q in l.live
        ensures !JustAfter(page, l.live[q], a)
      {
        assert !LiveHit(page, l, q, a);
      }
    }
  }

  /** No block on record, live or quarantined, ends its fence at a without slack before it. */
  ghost predicate NothingAdjoins(h: Heap, l: Log, a: Addr) {
    && (forall q :: q in l.live && q != NULL && q in h.active ==> !Adjoins(h.active[q], a))
    && (forall k :: 0 <= k < |h.quarantine| && h.quarantine[k].userPtr in l.freed ==> !Adjoins(h.quarantine[k], a))
  }

  /** With fences the neighbour that matches is the one whose fence ends at the address. */
  lemma NeighbourIs(cfg: Config, h: Heap, l: Log, j: nat, a: Addr)
    requires cfg.overflow && Tracked(cfg, h, l) && OnRecord(h, l, j) && InRegion(h.quarantine[j], a)
    ensures (forall q :: q in l.live && q != NULL ==> !JustAfter(cfg.page, l.live[q], a))
            && (forall q :: q in l.freed && q != NULL && q != h.quarantine[j].userPtr ==>
                  !JustAfter(cfg.page, l.freed[q], a))
            <==> NothingAdjoins(h, l, a)
    ensures h.quarantine[j].sysPtr < a ==> NothingAdjoins(h, l, a)
  {
    hide Tracked, OnRecord, JustAfter, Adjoins, InRegion;
    LiveNeighbourIs(cfg, h, l, j, a);
    FreedNeighbourIs(cfg, h, l, j, a);
  }

  lemma LiveNeighbourIs(cfg: Config, h: Heap, l: Log, j: nat, a: Addr)
    requires cfg.overflow && Tracked(cfg, h, l) && OnRecord(h, l, j) && InRegion(h.quarantine[j], a)
    ensures (forall q :: q in l.live && q != NULL ==> !JustAfter(cfg.page, l.live[q], a))
            <==> (forall q :: q in l.live && q != NULL && q in h.active ==> !Adjoins(h.active[q], a))
    ensures h.quarantine[j].sysPtr < a ==>
              forall q :: q in l.live && q != NULL && q in h.active ==> !Adjoins(h.active[q], a)
  {
    hide Tracked, JustAfter, Adjoins, InRegion;
    forall q | q in l.live && q != NULL
      ensures q in h.active && (JustAfter(cfg.page, l.live[q], a) <==> Adjoins(h.active[q], a))
      ensures h.quarantine[j].sysPtr < a ==> !Adjoins(h.active[q], a)
    {
      LiveNeighbourHit(cfg, h, l, j, q, a);
    }
  }

  lemma FreedNeighbourIs(cfg: Config, h: Heap, l: Log, j: nat, a: Addr)
    requires cfg.overflow && Tracked(cfg, h, l) && OnRecord(h, l, j) && InRegion(h.quarantine[j], a)
    ensures (forall q :: q in l.freed && q != NULL && q != h.quarantine[j].userPtr ==>
               !JustAfter(cfg.page, l.freed[q], a))
            <==> forall k :: 0 <= k < |h.quarantine| && h.quarantine[k].userPtr in l.freed ==>
                   !Adjoins(h.quarantine[k], a)
    ensures h.quarantine[j].sysPtr < a ==>
              forall k :: 0 <= k < |h.quarantine| && h.quarantine[k].userPtr in l.freed ==> !Adjoins(h.quarantine[k], a)
  {
    var p := h.quarantine[j].userPtr;
    hide Tracked, OnRecord, JustAfter, Adjoins, InRegion;
    NotOwnNeighbour(h, j, a);
    forall k | 0 <= k < |h.quarantine| && h.quarantine[k].userPtr in l.freed && k != j
      ensures h.quarantine[k].userPtr != NULL && h.quarantine[k].userPtr != p
      ensures JustAfter(cfg.page, l.freed[h.quarantine[k].userPtr], a) <==> Adjoins(h.quarantine[k], a)
      ensures h.quarantine[j].sysPtr < a ==> !Adjoins(h.quarantine[k], a)
    {
      QuarantinedHit(cfg, h, l, j, k, a);
    }
    forall q | q in l.freed && q != NULL && q != p
      ensures exists k :: 0 <= k < |h.quarantine| && k != j && h.quarantine[k].userPtr == q
    {
      RecordIsQuarantined(cfg, h, l, q);
    }
  }

  lemma NotOwnNeighbour(h: Heap, j: nat, a: Addr)
    requires j < |h.quarantine| && InRegion(h.quarantine[j], a)
    ensures !Adjoins(h.quarantine[j], a)
  {
  }

  lemma RecordIsQuarantined(cfg: Config, h: Heap, l: Log, q: Addr)
    requires Tracked(cfg, h, l) && q in l.freed && q != NULL
    ensures exists k :: 0 <= k < |h.quarantine| && h.quarantine[k].userPtr == q
  {
    var k: nat :| QuarantinedAt(h, l.freed[q], k);
  }

  lemma LiveNeighbourHit(cfg: Config, h: Heap, l: Log, j: nat, q: Addr, a: Addr)
    requires cfg.overflow && Tracked(cfg, h, l) && j < |h.quarantine| && InRegion(h.quarantine[j], a)
    requires q in l.live && q != NULL
    ensures q in h.active && (JustAfter(cfg.page, l.live[q], a) <==> Adjoins(h.active[q], a))
    ensures h.quarantine[j].sysPtr < a ==> !Adjoins(h.active[q], a)
  {
    assert LiveFenced(h, l);
    hide Core, JustAfter, Adjoins, WellFormed, FreedQuarantined, InRegion;
    MixedPairApart(cfg, h, j, q);
    FencedHit(cfg, h.quarantine[j], h.active[q], l.live[q], a);
  }

  lemma QuarantinedHit(cfg: Config, h: Heap, l: Log, j: nat, k: nat, a: Addr)
    requires cfg.overflow && Tracked(cfg, h, l) && OnRecord(h, l, j) && InRegion(h.quarantine[j], a)
    requires k < |h.quarantine| && k != j && h.quarantine[k].userPtr in l.freed
    ensures h.quarantine[k].userPtr != NULL && h.quarantine[k].userPtr != h.quarantine[j].userPtr
    ensures JustAfter(cfg.page, l.freed[h.quarantine[k].userPtr], a) <==> Adjoins(h.quarantine[k], a)
    ensures h.quarantine[j].sysPtr < a ==> !Adjoins(h.quarantine[k], a)
  {
    hide Core, JustAfter, Adjoins, WellFormed, InRegion;
    RecordedAtK(cfg, h, l, k);
    hide LiveFenced, FreedQuarantined;
    CoreQuarantined(cfg, h, k);
    OnePtr(cfg, h, k, j);
    QuarantinePairApart(cfg, h, j, k);
    FencedHit(cfg, h.quarantine[j], h.quarantine[k], l.freed[h.quarantine[k].userPtr], a);
  }

  /** The record under the pointer of a quarantined block describes that block. */
  lemma RecordedAtK(cfg: Config, h: Heap, l: Log, k: nat)
    requires Tracked(cfg, h, l) && k < |h.quarantine| && h.quarantine[k].userPtr in l.freed
    ensures OnRecord(h, l, k)
  {
    hide Core, LiveFenced, WellFormed;
    CoreQuarantined(cfg, h, k);
    var m: nat :| QuarantinedAt(h, l.freed[h.quarantine[k].userPtr], m);
    OnePtr(cfg, h, k, m);
  }

  lemma OnePtr(cfg: Config, h: Heap, k: nat, m: nat)
    requires Core(cfg, h) && k < |h.quarantine| && m < |h.quarantine|
    ensures h.quarantine[k].userPtr == h.quarantine[m].userPtr <==> k == m
  {
    assert Owned(cfg, h, h.quarantine[k]) && Owned(cfg, h, h.quarantine[m]);
  }

  /**
   * With fences: a fault in a quarantined block is attributed to it, whatever the iteration orders,
   * exactly when it lies between the user's first byte and one page behind the last, no null entry
   * reaches it and no neighbour without slack ends its fence there. Strictly above the start of the
   * region no neighbour does.
   */
  lemma UseAfterFreeAttributed(cfg: Config, h: Heap, l: Log, j: nat, a: Addr)
    requires cfg.overflow && Tracked(cfg, h, l) && OnRecord(h, l, j) && InRegion(h.quarantine[j], a)
    ensures var p := h.quarantine[j].userPtr;
            AlwaysNamesFreed(cfg.page, l, a, p)
            <==> Reaches(cfg.page, l.freed[p], a) && NullSilent(cfg.page, l, a) && NothingAdjoins(h, l, a)
    ensures AlwaysFinds(cfg.page, l, a, FreedFinding(cfg.page, l.freed[h.quarantine[j].userPtr], a))
            <==> NullSilent(cfg.page, l, a) && NothingAdjoins(h, l, a)
    ensures h.quarantine[j].sysPtr < a ==> NothingAdjoins(h, l, a)
  {
    hide Tracked, AlwaysFinds, AlwaysNamesFreed, NothingAdjoins, NullSilent, JustAfter, InRegion, RoomBehind, Reaches;
    OwnRecord(cfg, h, l, j, a);
    UseAfterFreeExact(cfg, h, l, j, a);
    NeighbourIs(cfg, h, l, j, a);
  }
}
