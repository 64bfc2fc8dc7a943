/** What ties the allocator's blocks to the log's entries over every run of the wrappers. */
module CrossInvariant {
  import opened Machine
  import opened Layout
  import opened Blocks
  import opened Quarantine
  import opened HeapModel
  import opened HeapInvariant
  import opened HeapTheorems
  import opened HeapContents
  import opened LogModel
  import opened LogTheorems
  import opened Faults
  import W = WrapperModel

  /** The part of the heap the log has to agree with. */
  datatype View = View(active: map<Addr, AllocInfo>, quarantine: seq<AllocInfo>, raw: set<Addr>)

  function ViewOf(h: Heap): View { View(h.active, h.quarantine, h.raw) }

  predicate IsQuarantined(v: View, p: Addr) {
    exists j :: 0 <= j < |v.quarantine| && v.quarantine[j].userPtr == p
  }

  /** Pointers identify blocks, and every block has the size its region was computed from. */
  ghost predicate Distinct(cfg: Config, v: View) {
    && (forall p :: p in v.active ==> p != NULL && v.active[p].userPtr == p)
    && (forall p :: p in v.active || p in v.raw ==> !IsQuarantined(v, p))
    && (forall j, k :: 0 <= j < k < |v.quarantine| ==> v.quarantine[j].userPtr != v.quarantine[k].userPtr)
    && (forall j :: 0 <= j < |v.quarantine| ==> v.quarantine[j].userPtr != NULL)
    && (forall p :: p in v.active ==> v.active[p].sysSize == IdealSysSize(cfg, v.active[p].userSize))
  }

  ghost predicate ActiveTracked(v: View, l: Log) {
    forall p :: p in v.active ==> p in l.live && Describes(l.live[p], v.active[p])
  }

  ghost predicate LiveExplained(v: View, l: Log) {
    forall p :: p in l.live && p != NULL ==> p in v.active || p in v.raw
  }

  ghost predicate QuarantineRecorded(v: View, l: Log) {
    forall j :: 0 <= j < |v.quarantine| ==>
      v.quarantine[j].userPtr in l.freed && Describes(l.freed[v.quarantine[j].userPtr], v.quarantine[j])
  }

  /** A quarantined block that is on the freed record is there with its own size. */
  ghost predicate RecordsRight(v: View, l: Log) {
    forall j :: 0 <= j < |v.quarantine| && v.quarantine[j].userPtr in l.freed ==>
      Describes(l.freed[v.quarantine[j].userPtr], v.quarantine[j])
  }

  /**
   * Every active block is tracked with its size, every tracked pointer is a block, and with
   * use-after-free on and double-free logging off every quarantined block is on the freed record.
   */
  ghost predicate Cross(cfg: Config, v: View, l: Log) {
    && Tidy(cfg, l)
    && ActiveTracked(v, l)
    && LiveExplained(v, l)
    && RecordsRight(v, l)
    && (cfg.useafterfree && !cfg.logFree ==> QuarantineRecorded(v, l))
  }

  // ---- allocations ----

  lemma AllocFencedKeeps(cfg: Config, v: View, l: Log, i: AllocInfo, stack: Stack)
    requires Cross(cfg, v, l) && cfg.minsize <= i.userSize && !IsQuarantined(v, i.userPtr)
    ensures Cross(cfg, v.(active := v.active[i.userPtr := i]), LogAlloc(cfg, l, i.userPtr, i.userSize, stack))
  {
    ApplyKeepsTidy(cfg, l, Alloc(i.userPtr, i.userSize, stack));
    hide Tidy;
    assert forall j :: 0 <= j < |v.quarantine| ==> v.quarantine[j].userPtr != i.userPtr;
  }

  /** A request of any size answered with an unfenced block or refused (p null). */
  lemma AllocOtherKeeps(cfg: Config, v: View, l: Log, p: Addr, n: nat, stack: Stack, raw: set<Addr>)
    requires Cross(cfg, v, l) && p !in v.active && !IsQuarantined(v, p)
    requires v.raw <= raw && (p == NULL || p in raw)
    ensures Cross(cfg, v.(raw := raw), LogAlloc(cfg, l, p, n, stack))
  {
    ApplyKeepsTidy(cfg, l, Alloc(p, n, stack));
    hide Tidy;
    assert forall j :: 0 <= j < |v.quarantine| ==> v.quarantine[j].userPtr != p;
  }

  lemma MoreRawKeeps(cfg: Config, v: View, l: Log, raw: set<Addr>)
    requires Cross(cfg, v, l) && v.raw <= raw
    ensures Cross(cfg, v.(raw := raw), l)
  {
    hide Tidy;
  }

  // ---- frees ----

  /** Logging a free ends the life of that pointer; without double-free logging no record is lost. */
  lemma FreeOnLog(cfg: Config, l: Log, p: Addr, stack: Stack, valid: bool)
    ensures var l' := LogDealloc(cfg, l, p, stack, valid);
            && l'.live == l.live - {p}
            && (!cfg.logFree ==> forall q :: q in l.freed ==> q in l'.freed && l'.freed[q] == l.freed[q])
            && (forall q :: q in l'.freed && !(q == p && p in l.live) ==> q in l.freed && l'.freed[q] == l.freed[q])
  {
    assert p !in l.live ==> l.live - {p} == l.live;
  }

  /** Freeing something that is not an active block. */
  lemma FreeOtherKeeps(cfg: Config, v: View, l: Log, p: Addr, stack: Stack, valid: bool)
    requires Cross(cfg, v, l) && p !in v.active && (p in l.live ==> !IsQuarantined(v, p))
    ensures Cross(cfg, v.(raw := v.raw - {p}), LogDealloc(cfg, l, p, stack, valid))
    ensures Cross(cfg, v, LogDealloc(cfg, l, p, stack, valid))
  {
    FreeForgottenKeeps(cfg, v, l, p, stack, valid);
    var v' := v.(raw := v.raw - {p});
    assert v'.(raw := v.raw) == v;
    hide Cross, LogDealloc;
    MoreRawKeeps(cfg, v', LogDealloc(cfg, l, p, stack, valid), v.raw);
  }

  lemma FreeForgottenKeeps(cfg: Config, v: View, l: Log, p: Addr, stack: Stack, valid: bool)
    requires Cross(cfg, v, l) && p !in v.active && (p in l.live ==> !IsQuarantined(v, p))
    ensures Cross(cfg, v.(raw := v.raw - {p}), LogDealloc(cfg, l, p, stack, valid))
  {
    ApplyKeepsTidy(cfg, l, Dealloc(p, stack, valid));
    hide Tidy, Describes, LogDealloc;
    FreeOnLog(cfg, l, p, stack, valid);
    assert forall j :: 0 <= j < |v.quarantine| && p in l.live ==> v.quarantine[j].userPtr != p;
    hide IsQuarantined;
  }

  lemma ForgetKeepsTidy(cfg: Config, l: Log, gone: seq<AllocInfo>)
    requires Tidy(cfg, l)
    ensures Tidy(cfg, W.ForgetAll(cfg, l, gone))
  {
  }

  /** Freeing an active block when no quarantine is kept. */
  lemma FreeReleasedKeeps(cfg: Config, v: View, l: Log, p: Addr, stack: Stack, valid: bool)
    requires Cross(cfg, v, l) && Distinct(cfg, v) && p in v.active && !cfg.useafterfree
    ensures Cross(cfg, v.(active := v.active - {p}), LogDealloc(cfg, l, p, stack, valid))
  {
    ApplyKeepsTidy(cfg, l, Dealloc(p, stack, valid));
    hide Tidy;
  }

  /** The view after a free with quarantine that evicts the k oldest blocks. */
  function AfterFree(v: View, p: Addr, k: nat): View
    requires p in v.active && k <= |v.quarantine| + 1
  {
    View(v.active - {p}, (v.quarantine + [v.active[p]])[k..], v.raw)
  }

  /** Although evictions happen before the free itself is logged, the record stays complete. */
  lemma FreeQuarantinedKeeps(cfg: Config, v: View, l: Log, p: Addr, k: nat, stack: Stack, valid: bool)
    requires Cross(cfg, v, l) && Distinct(cfg, v) && p in v.active && cfg.useafterfree && k <= |v.quarantine| + 1
    ensures var l1 := W.ForgetAll(cfg, l, (v.quarantine + [v.active[p]])[..k]);
            Cross(cfg, AfterFree(v, p, k), LogDealloc(cfg, l1, p, stack, valid))
  {
    var q := v.quarantine + [v.active[p]];
    var l1 := W.ForgetAll(cfg, l, q[..k]);
    ForgetKeepsTidy(cfg, l, q[..k]);
    ApplyKeepsTidy(cfg, l1, Dealloc(p, stack, valid));
    assert p !in l.freed;
    hide Tidy;
    if !cfg.logFree {
      KeptRecorded(cfg, v, l, p, k, stack, valid);
    }
  }

  lemma KeptRecorded(cfg: Config, v: View, l: Log, p: Addr, k: nat, stack: Stack, valid: bool)
    requires Distinct(cfg, v) && p in v.active && cfg.useafterfree && !cfg.logFree && k <= |v.quarantine| + 1
    requires QuarantineRecorded(v, l) && ActiveTracked(v, l) && p !in l.freed
    ensures var l1 := W.ForgetAll(cfg, l, (v.quarantine + [v.active[p]])[..k]);
            QuarantineRecorded(AfterFree(v, p, k), LogDealloc(cfg, l1, p, stack, valid))
  {
    var q := v.quarantine + [v.active[p]];
    var l1 := W.ForgetAll(cfg, l, q[..k]);
    var l2 := LogDealloc(cfg, l1, p, stack, valid);
    forall j | 0 <= j < |q[k..]|
      ensures q[k..][j].userPtr in l2.freed && Describes(l2.freed[q[k..][j].userPtr], q[k..][j])
    {
      var i := q[k + j];
      assert q[k..][j] == i;
      if k + j < |v.quarantine| {
        assert i == v.quarantine[k + j];
        NotEvicted(cfg, v, p, k, k + j);
        assert i.userPtr != p;
      }
    }
  }

  /** The pointer of a block that stays is not among the pointers that leave. */
  lemma NotEvicted(cfg: Config, v: View, p: Addr, k: nat, m: nat)
    requires Distinct(cfg, v) && p in v.active && k <= m < |v.quarantine|
    ensures v.quarantine[m].userPtr !in UserPtrs((v.quarantine + [v.active[p]])[..k])
    ensures v.quarantine[m].userPtr != p
  {
    var q := v.quarantine + [v.active[p]];
    forall j | 0 <= j < k
      ensures q[..k][j].userPtr != v.quarantine[m].userPtr
    {
      assert q[..k][j] == v.quarantine[j];
    }
    assert IsQuarantined(v, v.quarantine[m].userPtr);
  }

  // ---- when only fenced blocks are reallocated ----

  ghost predicate LiveActive(v: View, l: Log) {
    forall p :: p in l.live && p != NULL ==> p in v.active
  }

  /** A freed block is still quarantined exactly when its region fits the quarantine at all. */
  ghost predicate FreedExact(cfg: Config, v: View, l: Log) {
    forall p :: p in l.freed && p != NULL ==>
      (IsQuarantined(v, p) <==> IdealSysSize(cfg, l.freed[p].size) <= cfg.quarantineMax)
  }

  /** The converse of Cross: what is tracked is fenced, what is on the freed record is quarantined. */
  ghost predicate Strict(cfg: Config, v: View, l: Log) {
    LiveActive(v, l) && (cfg.useafterfree && !cfg.logFree ==> FreedExact(cfg, v, l))
  }

  lemma AllocFencedStrict(cfg: Config, v: View, l: Log, i: AllocInfo, stack: Stack)
    requires Strict(cfg, v, l)
    ensures Strict(cfg, v.(active := v.active[i.userPtr := i]), LogAlloc(cfg, l, i.userPtr, i.userSize, stack))
  {
    var v' := v.(active := v.active[i.userPtr := i]);
    assert forall p :: IsQuarantined(v', p) == IsQuarantined(v, p);
    hide IsQuarantined, IdealSysSize;
  }

  lemma AllocOtherStrict(cfg: Config, v: View, l: Log, p: Addr, n: nat, stack: Stack, raw: set<Addr>)
    requires Strict(cfg, v, l) && (p == NULL || n < cfg.minsize)
    ensures Strict(cfg, v.(raw := raw), LogAlloc(cfg, l, p, n, stack))
  {
    var v' := v.(raw := raw);
    assert forall q :: IsQuarantined(v', q) == IsQuarantined(v, q);
    hide IsQuarantined, IdealSysSize;
  }

  lemma RawStrict(cfg: Config, v: View, l: Log, raw: set<Addr>)
    requires Strict(cfg, v, l)
    ensures Strict(cfg, v.(raw := raw), l)
  {
    var v' := v.(raw := raw);
    assert forall q :: IsQuarantined(v', q) == IsQuarantined(v, q);
    hide IsQuarantined, IdealSysSize;
  }

  lemma FreeOtherStrict(cfg: Config, v: View, l: Log, p: Addr, stack: Stack, valid: bool)
    requires Strict(cfg, v, l) && p !in v.active
    ensures Strict(cfg, v, LogDealloc(cfg, l, p, stack, valid))
  {
    hide IsQuarantined, IdealSysSize;
  }

  lemma FreeReleasedStrict(cfg: Config, v: View, l: Log, p: Addr, stack: Stack, valid: bool)
    requires Strict(cfg, v, l) && p in v.active && p in l.live && !cfg.useafterfree
    ensures Strict(cfg, v.(active := v.active - {p}), LogDealloc(cfg, l, p, stack, valid))
  {
    hide FreedExact;
  }

  /** The newest block stays exactly when it fits on its own. */
  lemma NewestStays(q: seq<AllocInfo>, i: AllocInfo, max: nat)
    ensures Cut(q + [i], max) <= |q| <==> i.sysSize <= max
  {
    var all := q + [i];
    CutLeavesLongestSuffix(all, max);
    assert all[|q|..] == [i] && [i][1..] == [];
    assert Total([i]) == i.sysSize;
    if Cut(all, max) <= |q| {
      TotalDrop(all, Cut(all, max), |q|);
    }
  }

  lemma QuarantinedAfter(cfg: Config, v: View, p: Addr, k: nat, f: Addr)
    requires Distinct(cfg, v) && p in v.active && k <= |v.quarantine| + 1
    ensures var q := v.quarantine + [v.active[p]];
            IsQuarantined(AfterFree(v, p, k), f) <==>
              if f == p then k <= |v.quarantine| else IsQuarantined(v, f) && f !in UserPtrs(q[..k])
  {
    var q := v.quarantine + [v.active[p]];
    var v' := AfterFree(v, p, k);
    if f == p {
      if k <= |v.quarantine| {
        assert v'.quarantine[|v.quarantine| - k] == v.active[p];
      }
    } else {
      if IsQuarantined(v', f) {
        var j :| 0 <= j < |v'.quarantine| && v'.quarantine[j].userPtr == f;
        assert v'.quarantine[j] == q[k + j] && q[k + j] == v.quarantine[k + j];
        NotEvicted(cfg, v, p, k, k + j);
      }
      if IsQuarantined(v, f) && f !in UserPtrs(q[..k]) {
        assert forall j :: 0 <= j < |v.quarantine| && j < k ==> q[..k][j] == v.quarantine[j];
        var j :| 0 <= j < |v.quarantine| && v.quarantine[j].userPtr == f;
        assert v'.quarantine[j - k].userPtr == f;
      }
    }
  }

  lemma FreeQuarantinedStrict(cfg: Config, v: View, l: Log, p: Addr, stack: Stack, valid: bool)
    requires Cross(cfg, v, l) && Strict(cfg, v, l) && Distinct(cfg, v) && p in v.active && cfg.useafterfree
    ensures var q := v.quarantine + [v.active[p]];
            var k := Cut(q, cfg.quarantineMax);
            Strict(cfg, AfterFree(v, p, k), LogDealloc(cfg, W.ForgetAll(cfg, l, q[..k]), p, stack, valid))
  {
    var q := v.quarantine + [v.active[p]];
    var k := Cut(q, cfg.quarantineMax);
    var v' := AfterFree(v, p, k);
    var l' := LogDealloc(cfg, W.ForgetAll(cfg, l, q[..k]), p, stack, valid);
    NewestStays(v.quarantine, v.active[p], cfg.quarantineMax);
    assert p !in l.freed && Describes(l.live[p], v.active[p]);
    assert LiveActive(v', l');
    if !cfg.logFree {
      hide Cut, IdealSysSize, UserPtrs, AfterFree, IsQuarantined, Tidy;
      forall f | f in l'.freed && f != NULL
        ensures IsQuarantined(v', f) <==> IdealSysSize(cfg, l'.freed[f].size) <= cfg.quarantineMax
      {
        QuarantinedAfter(cfg, v, p, k, f);
      }
    }
  }

  // ---- from heaps to views ----

  lemma ViewDistinct(cfg: Config, h: Heap)
    requires Inv(cfg, h)
    ensures Distinct(cfg, ViewOf(h))
  {
    InvUserPtrsUnique(cfg, h);
    NullNeverActive(cfg, h);
    forall p | p in h.active
      ensures h.active[p].userPtr == p && h.active[p].sysSize == IdealSysSize(cfg, h.active[p].userSize)
    {
      assert Owned(cfg, h, h.active[p]);
    }
    forall j | 0 <= j < |h.quarantine|
      ensures h.quarantine[j].userPtr != NULL && h.quarantine[j].userPtr !in h.raw
    {
      assert Owned(cfg, h, h.quarantine[j]);
    }
  }

  /** Cross and, when asked for, its converse. */
  ghost predicate Agree(cfg: Config, strict: bool, v: View, l: Log) {
    Cross(cfg, v, l) && (strict ==> Strict(cfg, v, l))
  }

  /** A pointer nobody has: where a fresh block lies. */
  ghost predicate Untaken(v: View, p: Addr) { p !in v.active && !IsQuarantined(v, p) }

  /** What the malloc of n bytes does to the view. */
  lemma MallocView(cfg: Config, h: Heap, n: nat, reply: Reply)
    requires Inv(cfg, h) && Served(cfg, h, n, reply)
    ensures var (h', p) := Malloc(cfg, h, n, reply);
            var v := ViewOf(h);
            && Untaken(v, p)
            && (reply.Refused? ==> p == NULL && ViewOf(h') == v)
            && (reply.Block? && IsFenced(cfg, n) ==>
                  p == IdealInfo(cfg, n, reply.addr).userPtr
                  && ViewOf(h') == v.(active := v.active[p := IdealInfo(cfg, n, reply.addr)]))
            && (reply.Block? && !IsFenced(cfg, n) ==> p == reply.addr && ViewOf(h') == v.(raw := v.raw + {p}))
  {
    if reply.Refused? {
      ViewDistinct(cfg, h);
      assert Untaken(ViewOf(h), NULL);
    } else if IsFenced(cfg, n) {
      var i := IdealInfo(cfg, n, reply.addr);
      IdealInfoWellFormed(cfg, n, reply.addr);
      FreshOutside(cfg, h, reply.addr, i.sysSize, i.userPtr);
    } else {
      FreshOutside(cfg, h, reply.addr, RawSize(n), reply.addr);
    }
  }

  /** Logging a served or refused request keeps the agreement; v is the view without the new block. */
  lemma AllocAgrees(cfg: Config, strict: bool, v: View, l: Log, n: nat, reply: Reply, p: Addr, v': View, stack: Stack)
    requires Agree(cfg, strict, v, l) && Untaken(v, p) && n < WORD
    requires reply.Refused? ==> p == NULL && v' == v
    requires reply.Block? && IsFenced(cfg, n) ==>
               p == IdealInfo(cfg, n, reply.addr).userPtr
               && v' == v.(active := v.active[p := IdealInfo(cfg, n, reply.addr)])
    requires reply.Block? && !IsFenced(cfg, n) ==> v' == v.(raw := v.raw + {p})
    ensures n != 0 ==> Agree(cfg, strict, v', LogAlloc(cfg, l, p, n, stack))
    ensures n == 0 ==> Agree(cfg, strict, v', l)
  {
    hide Cross, Strict, LogAlloc, IsQuarantined;
    if reply.Refused? {
      assert v.(raw := v.raw) == v;
      AllocOtherKeeps(cfg, v, l, NULL, n, stack, v.raw);
      AllocOtherStrictIf(cfg, strict, v, l, NULL, n, stack, v.raw);
    } else if IsFenced(cfg, n) {
      var i := IdealInfo(cfg, n, reply.addr);
      AllocFencedKeeps(cfg, v, l, i, stack);
      if strict {
        AllocFencedStrict(cfg, v, l, i, stack);
      }
    } else {
      AllocOtherKeeps(cfg, v, l, p, n, stack, v.raw + {p});
      MoreRawKeeps(cfg, v, l, v.raw + {p});
      AllocOtherStrictIf(cfg, strict && n != 0, v, l, p, n, stack, v.raw + {p});
      if strict {
        RawStrict(cfg, v, l, v.raw + {p});
      }
    }
  }

  lemma AllocOtherStrictIf(cfg: Config, strict: bool, v: View, l: Log, p: Addr, n: nat, stack: Stack, raw: set<Addr>)
    requires strict ==> Strict(cfg, v, l) && (p == NULL || n < cfg.minsize)
    ensures strict ==> Strict(cfg, v.(raw := raw), LogAlloc(cfg, l, p, n, stack))
  {
    if strict {
      AllocOtherStrict(cfg, v, l, p, n, stack, raw);
    }
  }

  /** What a free does to the view. */
  lemma FreeView(cfg: Config, h: Heap, p: Addr)
    requires Inv(cfg, h) && MayFree(h, p)
    ensures var v, v' := ViewOf(h), ViewOf(Free(cfg, h, p));
            && (p !in h.active ==> v' == v || v' == v.(raw := v.raw - {p}))
            && (p in h.active && !cfg.useafterfree ==> v' == v.(active := v.active - {p}))
            && (p in h.active && cfg.useafterfree ==>
                  v' == AfterFree(v, p, Cut(h.quarantine + [h.active[p]], cfg.quarantineMax)))
            && (p !in h.active || !cfg.useafterfree ==> EvictedBy(cfg, h, p) == [])
  {
    NullNeverActive(cfg, h);
    hide Inv, Cut, AllBytes, Total, SysPtrs;
  }

  /** hu_free, the removals its evictions cause, and the logging of the free. */
  lemma FreeAgrees(cfg: Config, strict: bool, h: Heap, l: Log, p: Addr, stack: Stack, valid: bool)
    requires Inv(cfg, h) && Agree(cfg, strict, ViewOf(h), l) && MayFree(h, p)
    ensures Agree(cfg, strict, ViewOf(Free(cfg, h, p)),
                  LogDealloc(cfg, W.ForgetAll(cfg, l, EvictedBy(cfg, h, p)), p, stack, valid))
  {
    hide Inv, Cross, Strict, LogDealloc, Free, AfterFree, Cut;
    var v := ViewOf(h);
    FreeView(cfg, h, p);
    ViewDistinct(cfg, h);
    ForgetsNothing(cfg, l);
    if p !in v.active {
      if p in l.live {
        LiveNotQuarantined(cfg, v, l, p);
      }
      FreeOtherKeeps(cfg, v, l, p, stack, valid);
      if strict {
        FreeOtherStrict(cfg, v, l, p, stack, valid);
        RawStrict(cfg, v, LogDealloc(cfg, l, p, stack, valid), v.raw - {p});
      }
    } else if cfg.useafterfree {
      var q := h.quarantine + [h.active[p]];
      FreeQuarantinedKeeps(cfg, v, l, p, Cut(q, cfg.quarantineMax), stack, valid);
      if strict {
        FreeQuarantinedStrict(cfg, v, l, p, stack, valid);
      }
    } else {
      FreeReleasedKeeps(cfg, v, l, p, stack, valid);
      CrossTracks(cfg, v, l, p);
      if strict {
        FreeReleasedStrict(cfg, v, l, p, stack, valid);
      }
    }
  }

  lemma LiveNotQuarantined(cfg: Config, v: View, l: Log, p: Addr)
    requires Cross(cfg, v, l) && Distinct(cfg, v) && p in l.live
    ensures !IsQuarantined(v, p)
  {
  }

  lemma CrossTracks(cfg: Config, v: View, l: Log, p: Addr)
    requires Cross(cfg, v, l) && p in v.active
    ensures p in l.live
  {
  }

  lemma ForgetsNothing(cfg: Config, l: Log)
    ensures W.ForgetAll(cfg, l, []) == l
  {
    assert UserPtrs([]) == {};
    assert l.freed - {} == l.freed;
  }

  // ---- whole wrapper calls ----

  ghost predicate SysInv(cfg: Config, strict: bool, s: W.Sys) {
    Inv(cfg, s.heap) && Agree(cfg, strict, ViewOf(s.heap), s.log)
  }

  lemma MallocCall(cfg: Config, strict: bool, s: W.Sys, n: nat, reply: Reply, stack: Stack)
    requires SysInv(cfg, strict, s) && Served(cfg, s.heap, n, reply)
    ensures var (h', p) := Malloc(cfg, s.heap, n, reply);
            SysInv(cfg, strict, W.Sys(h', if n != 0 then LogAlloc(cfg, s.log, p, n, stack) else s.log))
  {
    hide Inv, Agree, Malloc, LogAlloc;
    MallocKeeps(cfg, s.heap, n, reply);
    MallocView(cfg, s.heap, n, reply);
    var (h', p) := Malloc(cfg, s.heap, n, reply);
    AllocAgrees(cfg, strict, ViewOf(s.heap), s.log, n, reply, p, ViewOf(h'), stack);
  }

  lemma CallocCall(cfg: Config, strict: bool, s: W.Sys, count: nat, size: nat, reply: Reply, stack: Stack)
    requires SysInv(cfg, strict, s) && Legal(cfg, s.heap, DoCalloc(count, size, reply))
    ensures var (h', p) := Calloc(cfg, s.heap, count, size, reply);
            SysInv(cfg, strict, W.Sys(h', if 0 < count && 0 < size
                                          then LogAlloc(cfg, s.log, p, Mul64(count, size), stack) else s.log))
  {
    hide Inv, Agree, Malloc, LogAlloc, Served;
    CallocKeeps(cfg, s.heap, count, size, reply);
    var total := Mul64(count, size);
    if count == 0 || size == 0 {
      assert total == 0;
      MallocCall(cfg, strict, s, 0, reply, stack);
      PassThroughIsMalloc(cfg, s.heap, reply);
    } else if total / count != size {
      RefusedAgrees(cfg, strict, s, total, stack);
    } else {
      MallocCall(cfg, strict, s, total, reply, stack);
      assert 0 < total by { NonZeroTotal(count, size); }
    }
  }

  lemma NonZeroTotal(count: nat, size: nat)
    requires 0 < count && 0 < size && Mul64(count, size) / count == size
    ensures 0 < Mul64(count, size)
  {
    hide Mul64;
  }

  lemma PassThroughIsMalloc(cfg: Config, h: Heap, reply: Reply)
    ensures Malloc(cfg, h, 0, reply) == PassThrough(h, 0, reply)
  {
  }

  /** calloc refuses a wrapping product itself, and still logs it under null. */
  lemma RefusedAgrees(cfg: Config, strict: bool, s: W.Sys, n: nat, stack: Stack)
    requires SysInv(cfg, strict, s) && n < WORD
    ensures SysInv(cfg, strict, W.Sys(s.heap, LogAlloc(cfg, s.log, NULL, n, stack)))
  {
    hide Cross, Strict, Inv, LogAlloc;
    var v := ViewOf(s.heap);
    ViewDistinct(cfg, s.heap);
    assert v.(raw := v.raw) == v;
    AllocOtherKeeps(cfg, v, s.log, NULL, n, stack, v.raw);
    AllocOtherStrictIf(cfg, strict, v, s.log, NULL, n, stack, v.raw);
  }

  lemma FreeCall(cfg: Config, strict: bool, s: W.Sys, p: Addr, stack: Stack, valid: bool)
    requires SysInv(cfg, strict, s) && MayFree(s.heap, p)
    ensures SysInv(cfg, strict, W.Sys(Free(cfg, s.heap, p),
                   LogDealloc(cfg, W.ForgetAll(cfg, s.log, EvictedBy(cfg, s.heap, p)), p, stack, valid)))
  {
    hide Inv, Agree, Free, LogDealloc, EvictedBy;
    FreeKeeps(cfg, s.heap, p);
    FreeAgrees(cfg, strict, s.heap, s.log, p, stack, valid);
  }

  /** The view realloc leaves behind is that of freeing the old block and then obtaining the new one. */
  lemma ReallocView(cfg: Config, h: Heap, p: Addr, n: nat, reply: Reply)
    requires Inv(cfg, h) && p in h.active && 0 < n && Served(cfg, h, n, reply)
    ensures var (h', q) := Realloc(cfg, h, p, n, reply);
            var freed := ViewOf(Free(cfg, h, p));
            && Untaken(freed, q)
            && (reply.Refused? ==> q == NULL && ViewOf(h') == freed)
            && (reply.Block? && IsFenced(cfg, n) ==>
                  q == IdealInfo(cfg, n, reply.addr).userPtr
                  && ViewOf(h') == freed.(active := freed.active[q := IdealInfo(cfg, n, reply.addr)]))
            && (reply.Block? && !IsFenced(cfg, n) ==> ViewOf(h') == freed.(raw := freed.raw + {q}))
  {
    hide Inv, Malloc, Free, Realloc, Served, Cut, IdealInfo;
    var (h1, q) := Malloc(cfg, h, n, reply);
    var h2 := Copied(cfg, h, p, n, reply);
    CopiedKeeps(cfg, h, p, n, reply, p);
    ReallocIsCopyAndFree(cfg, h, p, n, reply);
    MallocView(cfg, h, n, reply);
    assert ViewOf(h2) == ViewOf(h1);
    FreeView(cfg, h2, p);
    ViewDistinct(cfg, h);
    LiveIsFreeable(cfg, h, p);
    FreeView(cfg, h, p);
    StillUntaken(cfg, ViewOf(h), p, Cut(h.quarantine + [h.active[p]], cfg.quarantineMax), q);
  }

  lemma LiveIsFreeable(cfg: Config, h: Heap, p: Addr)
    requires Inv(cfg, h) && p in h.active
    ensures MayFree(h, p)
  {
    NullNeverActive(cfg, h);
  }

  lemma StillUntaken(cfg: Config, v: View, p: Addr, k: nat, q: Addr)
    requires Distinct(cfg, v) && p in v.active && Untaken(v, q) && k <= |v.quarantine| + 1
    ensures Untaken(v.(active := v.active - {p}), q) && Untaken(AfterFree(v, p, k), q)
  {
    QuarantinedAfter(cfg, v, p, k, q);
    assert IsQuarantined(v.(active := v.active - {p}), q) == IsQuarantined(v, q);
  }

  lemma ReallocFencedCall(cfg: Config, strict: bool, s: W.Sys, p: Addr, n: nat, reply: Reply,
                          freeStack: Stack, valid: bool, stack: Stack)
    requires SysInv(cfg, strict, s) && p in s.heap.active && 0 < n && Served(cfg, s.heap, n, reply)
    ensures var (h', q) := Realloc(cfg, s.heap, p, n, reply);
            var l2 := LogDealloc(cfg, W.ForgetAll(cfg, s.log, EvictedBy(cfg, s.heap, p)), p, freeStack, valid);
            Agree(cfg, strict, ViewOf(h'), LogAlloc(cfg, l2, q, n, stack))
  {
    hide Inv, Agree, Realloc, Free, LogDealloc, LogAlloc, EvictedBy, Served;
    LiveIsFreeable(cfg, s.heap, p);
    FreeAgrees(cfg, strict, s.heap, s.log, p, freeStack, valid);
    ReallocView(cfg, s.heap, p, n, reply);
    ServedFits(cfg, s.heap, n, reply);
    var (h', q) := Realloc(cfg, s.heap, p, n, reply);
    var l2 := LogDealloc(cfg, W.ForgetAll(cfg, s.log, EvictedBy(cfg, s.heap, p)), p, freeStack, valid);
    AllocAgrees(cfg, strict, ViewOf(Free(cfg, s.heap, p)), l2, n, reply, q, ViewOf(h'), stack);
  }

  lemma ServedFits(cfg: Config, h: Heap, n: nat, reply: Reply)
    requires Served(cfg, h, n, reply)
    ensures n < WORD
  {
  }

  lemma ReallocUnfencedCall(cfg: Config, s: W.Sys, p: Addr, n: nat, reply: Reply,
                            freeStack: Stack, valid: bool, stack: Stack)
    requires SysInv(cfg, false, s) && p in s.heap.raw && p !in s.heap.active
    requires SystemServes(s.heap.held - {p}, RawSize(n), reply)
    ensures var (h', q) := SystemRealloc(s.heap, p, n, reply);
            Agree(cfg, false, ViewOf(h'), LogAlloc(cfg, LogDealloc(cfg, s.log, p, freeStack, valid), q, n, stack))
  {
    var v := ViewOf(s.heap);
    var (h', q) := SystemRealloc(s.heap, p, n, reply);
    var l2 := LogDealloc(cfg, s.log, p, freeStack, valid);
    ViewDistinct(cfg, s.heap);
    if p in s.log.live {
      LiveNotQuarantined(cfg, v, s.log, p);
    }
    FreeOtherKeeps(cfg, v, s.log, p, freeStack, valid);
    if reply.Block? {
      DropRawKeeps(cfg, s.heap, p);
      FreshOutside(cfg, DropRaw(s.heap, p), reply.addr, RawSize(n), reply.addr);
      AllocOtherKeeps(cfg, v.(raw := v.raw - {p}), l2, q, n, stack, v.raw - {p} + {q});
    } else {
      assert v.(raw := v.raw) == v;
      AllocOtherKeeps(cfg, v, l2, NULL, n, stack, v.raw);
    }
  }

  lemma ReallocCall(cfg: Config, strict: bool, s: W.Sys, c: W.Call)
    requires SysInv(cfg, strict, s) && c.Realloc? && W.LegalCall(cfg, s, c) && (strict ==> W.FencedOnly(s, c))
    ensures SysInv(cfg, strict, W.Step(cfg, s, c).0)
  {
    ReallocKeeps(cfg, s.heap, c.ptr, c.size, c.reply);
    NullNeverActive(cfg, s.heap);
    ForgetsNothing(cfg, s.log);
    hide Inv, Agree, LogAlloc, LogDealloc, Served, Malloc, Free, SystemRealloc;
    if c.ptr == NULL {
      MallocCall(cfg, strict, s, c.size, c.reply, c.stack);
    } else if c.size == 0 {
      MayReallocMayFree(cfg, s.heap, c.ptr);
      FreeCall(cfg, strict, s, c.ptr, c.freeStack, c.valid);
    } else if c.ptr in s.heap.active {
      ReallocFencedCall(cfg, strict, s, c.ptr, c.size, c.reply, c.freeStack, c.valid, c.stack);
    } else {
      ReallocUnfencedCall(cfg, s, c.ptr, c.size, c.reply, c.freeStack, c.valid, c.stack);
    }
  }

  lemma MayReallocMayFree(cfg: Config, h: Heap, p: Addr)
    requires Inv(cfg, h) && MayRealloc(h, p)
    ensures MayFree(h, p)
  {
    NullNeverActive(cfg, h);
  }

  lemma CallKeeps(cfg: Config, strict: bool, s: W.Sys, c: W.Call)
    requires SysInv(cfg, strict, s) && W.LegalCall(cfg, s, c) && (strict ==> W.FencedOnly(s, c))
    ensures SysInv(cfg, strict, W.Step(cfg, s, c).0)
  {
    NullNotThere(cfg, s.heap);
    ForgetsNothing(cfg, s.log);
    hide SysInv;
    match c {
      case Malloc(size, reply, stack) => MallocCall(cfg, strict, s, size, reply, stack);
      case Free(ptr, stack, valid) => FreeCall(cfg, strict, s, ptr, stack, valid);
      case Calloc(nmemb, size, reply, stack) => CallocCall(cfg, strict, s, nmemb, size, reply, stack);
      case Realloc(_, _, _, _, _, _) => ReallocCall(cfg, strict, s, c);
    }
  }

  lemma NullNotThere(cfg: Config, h: Heap)
    requires Inv(cfg, h)
    ensures NULL !in h.active
  {
    NullNeverActive(cfg, h);
  }

  lemma {:induction false} CallsKeep(cfg: Config, strict: bool, s: W.Sys, calls: seq<W.Call>)
    requires SysInv(cfg, strict, s) && W.LegalCalls(cfg, s, calls) && (strict ==> W.FencedOnlyCalls(cfg, s, calls))
    ensures SysInv(cfg, strict, W.RunCalls(cfg, s, calls))
    decreases |calls|
  {
    if calls != [] {
      hide SysInv;
      CallKeeps(cfg, strict, s, calls[0]);
      CallsKeep(cfg, strict, W.Step(cfg, s, calls[0]).0, calls[1..]);
    }
  }

  lemma StartAgrees(cfg: Config, strict: bool)
    ensures SysInv(cfg, strict, W.START)
  {
    EmptyIsFine(cfg);
  }

  // ---- the promises over every run ----

  /**
   * In every run of the wrappers each fenced block is tracked with the size the program asked for,
   * each tracked non-null pointer is a block, and with use-after-free on and double-free logging off
   * each quarantined block is on the freed record.
   */
  lemma BlocksTrackedInEveryRun(cfg: Config, calls: seq<W.Call>)
    requires W.LegalCalls(cfg, W.START, calls)
    ensures var s := W.RunCalls(cfg, W.START, calls);
            && (forall p :: p in s.heap.active ==> p in s.log.live && s.log.live[p].size == s.heap.active[p].userSize)
            && (forall p :: p in s.log.live && p != NULL ==> p in s.heap.active || p in s.heap.raw)
            && (cfg.useafterfree && !cfg.logFree ==>
                  forall j :: 0 <= j < |s.heap.quarantine| ==> s.heap.quarantine[j].userPtr in s.log.freed)
  {
    StartAgrees(cfg, false);
    CallsKeep(cfg, false, W.START, calls);
  }

  /**
   * When realloc is only used on null and on fenced blocks the records match both ways: tracked
   * pointers are exactly the fenced blocks, and a freed block is quarantined exactly when its region
   * fits the limit. A larger block leaves the quarantine in its own free, before that free is logged,
   * and so stays on the freed record.
   */
  lemma RecordsExactInEveryRun(cfg: Config, calls: seq<W.Call>)
    requires W.LegalCalls(cfg, W.START, calls) && W.FencedOnlyCalls(cfg, W.START, calls)
    ensures var s := W.RunCalls(cfg, W.START, calls);
            && (forall p :: p != NULL ==> (p in s.log.live <==> p in s.heap.active))
            && (cfg.useafterfree && !cfg.logFree ==> forall p :: p in s.log.freed && p != NULL ==>
                  (IsQuarantined(ViewOf(s.heap), p) <==> IdealSysSize(cfg, s.log.freed[p].size) <= cfg.quarantineMax))
  {
    StartAgrees(cfg, true);
    CallsKeep(cfg, true, W.START, calls);
  }
}
