/** What log_event keeps over every trace: a per-pointer automaton, byte accounting, double frees. */
module LogTheorems {
  import opened Machine
  import opened Layout
  import opened LogModel

  // ---- a pointer's life ----

  datatype PtrState = Unknown | Live(e: Entry) | Freed(e: Entry)

  /** The life of one pointer, ignoring every other one. */
  function Next(cfg: Config, s: PtrState, e: Event): PtrState {
    match e
    case Alloc(ptr, size, stack) =>
      if cfg.minsize <= size then Live(Entry(ptr, size, stack, []))
      else if s.Freed? then Unknown else s
    case Dealloc(_, stack, _) =>
      (match s
       case Live(b) => if cfg.useafterfree || cfg.logFree then Freed(b.(freeCallstack := stack)) else Unknown
       case Freed(b) => if cfg.logFree then Unknown else s
       case Unknown => Unknown)
    case Forget(_) => if s.Freed? && !cfg.logFree then Unknown else s
  }

  function Life(cfg: Config, events: seq<Event>): PtrState
    decreases |events|
  {
    if events == [] then Unknown
    else Next(cfg, Life(cfg, events[..|events| - 1]), events[|events| - 1])
  }

  /** The events that concern p, in order. */
  function Only(events: seq<Event>, p: Addr): seq<Event>
    decreases |events|
  {
    if events == [] then []
    else
      var n := |events| - 1;
      Only(events[..n], p) + if events[n].ptr == p then [events[n]] else []
  }

  function View(l: Log, p: Addr): PtrState {
    if p in l.live then Live(l.live[p]) else if p in l.freed then Freed(l.freed[p]) else Unknown
  }

  /** No pointer is both live and freed, and entries sit under their own pointer. */
  ghost predicate Tidy(cfg: Config, l: Log) {
    && l.live.Keys !! l.freed.Keys
    && (!cfg.useafterfree && !cfg.logFree ==> l.freed == map[])
    && (forall p :: p in l.live ==> l.live[p].ptr == p && cfg.minsize <= l.live[p].size)
    && (forall p :: p in l.freed ==> l.freed[p].ptr == p && cfg.minsize <= l.freed[p].size)
  }

  lemma ApplyKeepsTidy(cfg: Config, l: Log, e: Event)
    requires Tidy(cfg, l)
    ensures Tidy(cfg, Apply(cfg, l, e))
  {
  }

  lemma {:induction false} ReplayTidy(cfg: Config, events: seq<Event>)
    ensures Tidy(cfg, Replay(cfg, events))
    decreases |events|
  {
    if events != [] {
      ReplayTidy(cfg, events[..|events| - 1]);
      ApplyKeepsTidy(cfg, Replay(cfg, events[..|events| - 1]), events[|events| - 1]);
    }
  }

  /** One event moves its own pointer as the automaton says, and no other pointer. */
  lemma ApplyIsNext(cfg: Config, l: Log, e: Event, p: Addr)
    requires Tidy(cfg, l)
    ensures View(Apply(cfg, l, e), p) == if e.ptr == p then Next(cfg, View(l, p), e) else View(l, p)
  {
  }

  /**
   * The end of a tracked block: with either detection on it enters the freed record as it was, with the
   * callstack of the free added; with both off it is forgotten.
   */
  lemma FreeIsRecorded(cfg: Config, events: seq<Event>, p: Addr, stack: Stack, valid: bool)
    requires p in Replay(cfg, events).live
    ensures var l, l' := Replay(cfg, events), Replay(cfg, events + [Dealloc(p, stack, valid)]);
            && p !in l'.live
            && (p in l'.freed <==> cfg.useafterfree || cfg.logFree)
            && (p in l'.freed ==>
                  l'.freed[p].ptr == p && l'.freed[p].size == l.live[p].size
                  && l'.freed[p].callstack == l.live[p].callstack && l'.freed[p].freeCallstack == stack)
  {
    ReplayTidy(cfg, events);
    assert (events + [Dealloc(p, stack, valid)])[..|events|] == events;
  }

  /** The log's knowledge of p is the automaton run on the events of p alone. */
  lemma {:induction false} PointerRefinesAutomaton(cfg: Config, events: seq<Event>, p: Addr)
    ensures View(Replay(cfg, events), p) == Life(cfg, Only(events, p))
    ensures !(p in Replay(cfg, events).live && p in Replay(cfg, events).freed)
    decreases |events|
  {
    ReplayTidy(cfg, events);
    if events != [] {
      var n := |events| - 1;
      var before := events[..n];
      PointerRefinesAutomaton(cfg, before, p);
      ReplayTidy(cfg, before);
      ApplyIsNext(cfg, Replay(cfg, before), events[n], p);
      var own := Only(events, p);
      if events[n].ptr == p {
        assert own == Only(before, p) + [events[n]];
        assert own[..|own| - 1] == Only(before, p);
      } else {
        assert own == Only(before, p);
      }
    }
  }

  /** Traces with the same events on p leave the same knowledge of p. */
  lemma OtherPointersDoNotMatter(cfg: Config, a: seq<Event>, b: seq<Event>, p: Addr)
    requires Only(a, p) == Only(b, p)
    ensures View(Replay(cfg, a), p) == View(Replay(cfg, b), p)
  {
    PointerRefinesAutomaton(cfg, a, p);
    PointerRefinesAutomaton(cfg, b, p);
  }

  // ---- byte accounting ----

  ghost function SizeSum(m: map<Addr, Entry>): nat
    decreases |m|
  {
    if m == map[] then 0
    else
      var p :| p in m;
      m[p].size + SizeSum(m - {p})
  }

  lemma {:induction false} SizeSumRemove(m: map<Addr, Entry>, p: Addr)
    requires p in m
    ensures SizeSum(m) == m[p].size + SizeSum(m - {p})
    decreases |m|
  {
    var q :| q in m && SizeSum(m) == m[q].size + SizeSum(m - {q});
    if q != p {
      SizeSumRemove(m - {q}, p);
      SizeSumRemove(m - {p}, q);
      assert m - {q} - {p} == m - {p} - {q};
    }
  }

  lemma SizeSumAdd(m: map<Addr, Entry>, p: Addr, e: Entry)
    ensures SizeSum(m[p := e]) == e.size + SizeSum(m) - if p in m then m[p].size else 0
  {
    SizeSumRemove(m[p := e], p);
    if p in m {
      SizeSumRemove(m, p);
      assert m[p := e] - {p} == m - {p};
    } else {
      assert m[p := e] - {p} == m;
    }
  }

  /** Bytes the trace asks to track. */
  function Requested(cfg: Config, events: seq<Event>): nat
    decreases |events|
  {
    if events == [] then 0
    else
      var n := |events| - 1;
      Requested(cfg, events[..n]) +
      if events[n].Alloc? && cfg.minsize <= events[n].size then events[n].size else 0
  }

  /** Bytes of entries that an allocation event overwrote while they were still live. */
  function Overwritten(cfg: Config, events: seq<Event>): nat
    decreases |events|
  {
    if events == [] then 0
    else
      var n := |events| - 1;
      var e, s := events[n], Life(cfg, Only(events[..n], events[n].ptr));
      Overwritten(cfg, events[..n]) +
      if e.Alloc? && cfg.minsize <= e.size && s.Live? then s.e.size else 0
  }

  lemma ModAdd(a: int, b: int)
    ensures (a % WORD + b) % WORD == (a + b) % WORD
    ensures (a % WORD - b) % WORD == (a - b) % WORD
  {
  }

  /** current is live plus overwritten, and total is everything requested, modulo 2^64. */
  ghost predicate Accounts(l: Log, overwritten: nat, requested: nat) {
    && l.currentBytes == (SizeSum(l.live) + overwritten) % WORD
    && l.totalBytes == requested % WORD
    && SizeSum(l.live) + overwritten <= requested
  }

  lemma AllocAccounts(cfg: Config, l: Log, ptr: Addr, size: nat, stack: Stack, overwritten: nat, requested: nat)
    requires Accounts(l, overwritten, requested) && cfg.minsize <= size
    ensures Accounts(LogAlloc(cfg, l, ptr, size, stack),
                     overwritten + (if ptr in l.live then l.live[ptr].size else 0), requested + size)
  {
    SizeSumAdd(l.live, ptr, Entry(ptr, size, stack, []));
    ModAdd(SizeSum(l.live) + overwritten, size);
    ModAdd(requested, size);
  }

  lemma DeallocAccounts(cfg: Config, l: Log, ptr: Addr, stack: Stack, valid: bool, overwritten: nat, requested: nat)
    requires Accounts(l, overwritten, requested)
    ensures Accounts(LogDealloc(cfg, l, ptr, stack, valid), overwritten, requested)
  {
    if ptr in l.live {
      SizeSumRemove(l.live, ptr);
      ModAdd(SizeSum(l.live) + overwritten, l.live[ptr].size);
    }
  }

  /**
   * Over every trace, in 64-bit arithmetic: the running counter is the live bytes plus what was
   * overwritten while live, and the total is everything requested.
   */
  lemma {:induction false} ByteAccounting(cfg: Config, events: seq<Event>)
    ensures Accounts(Replay(cfg, events), Overwritten(cfg, events), Requested(cfg, events))
    decreases |events|
  {
    if events != [] {
      var n := |events| - 1;
      var before, e := events[..n], events[n];
      var l := Replay(cfg, before);
      var lost, asked := Overwritten(cfg, before), Requested(cfg, before);
      hide Accounts, LogAlloc, LogDealloc, LogForget, Only;
      ByteAccounting(cfg, before);
      PointerRefinesAutomaton(cfg, before, e.ptr);
      match e {
        case Alloc(ptr, size, stack) =>
          if cfg.minsize <= size {
            AllocAccounts(cfg, l, ptr, size, stack, lost, asked);
          } else {
            SmallAllocAccounts(cfg, l, ptr, size, stack, lost, asked);
          }
        case Dealloc(ptr, stack, valid) => DeallocAccounts(cfg, l, ptr, stack, valid, lost, asked);
        case Forget(ptr) => ForgetAccounts(cfg, l, ptr, lost, asked);
      }
    }
  }

  lemma SmallAllocAccounts(cfg: Config, l: Log, ptr: Addr, size: nat, stack: Stack, overwritten: nat, requested: nat)
    requires Accounts(l, overwritten, requested) && size < cfg.minsize
    ensures Accounts(LogAlloc(cfg, l, ptr, size, stack), overwritten, requested)
  {
  }

  lemma ForgetAccounts(cfg: Config, l: Log, ptr: Addr, overwritten: nat, requested: nat)
    requires Accounts(l, overwritten, requested)
    ensures Accounts(LogForget(cfg, l, ptr), overwritten, requested)
  {
  }

  /** The largest value the running counter takes on any prefix of the trace. */
  function MaxOverPrefixes(cfg: Config, events: seq<Event>): nat
    decreases |events|
  {
    if events == [] then 0
    else
      var before := MaxOverPrefixes(cfg, events[..|events| - 1]);
      var now := Replay(cfg, events).currentBytes;
      if before < now then now else before
  }

  lemma {:induction false} RequestedGrows(cfg: Config, events: seq<Event>, k: nat)
    requires k <= |events|
    ensures Requested(cfg, events[..k]) <= Requested(cfg, events)
    decreases |events|
  {
    if k == |events| {
      assert events[..k] == events;
    } else {
      RequestedGrows(cfg, events[..|events| - 1], k);
      assert events[..|events| - 1][..k] == events[..k];
    }
  }

  /** After every prefix of the trace, what the counter stands for is below 2^64. */
  ghost predicate NeverFull(cfg: Config, events: seq<Event>)
    decreases |events|
  {
    && SizeSum(Replay(cfg, events).live) + Overwritten(cfg, events) < WORD
    && (events != [] ==> NeverFull(cfg, events[..|events| - 1]))
  }

  /** It is enough, but not needed, that less than 2^64 bytes are requested in all. */
  lemma {:induction false} FewRequestsNeverFull(cfg: Config, events: seq<Event>)
    requires Requested(cfg, events) < WORD
    ensures NeverFull(cfg, events)
    decreases |events|
  {
    ByteAccounting(cfg, events);
    if events != [] {
      RequestedGrows(cfg, events, |events| - 1);
      FewRequestsNeverFull(cfg, events[..|events| - 1]);
    }
    hide Replay, SizeSum, Overwritten, Requested;
  }

  /**
   * However much is requested in all: while live plus overwritten bytes stay below 2^64 the counter is
   * their sum, the peak is the exact maximum of the counter over all prefixes, and
   * live <= current <= peak <= everything requested.
   */
  lemma {:induction false} PeakIsExact(cfg: Config, events: seq<Event>)
    requires NeverFull(cfg, events)
    ensures var l := Replay(cfg, events);
            && l.currentBytes == SizeSum(l.live) + Overwritten(cfg, events)
            && l.peakBytes == MaxOverPrefixes(cfg, events)
            && SizeSum(l.live) <= l.currentBytes <= l.peakBytes <= Requested(cfg, events)
            && (Requested(cfg, events) < WORD ==> l.totalBytes == Requested(cfg, events))
    decreases |events|
  {
    CounterIsExact(cfg, events);
    if events != [] {
      var n := |events| - 1;
      CounterIsExact(cfg, events[..n]);
      PeakIsExact(cfg, events[..n]);
      RequestedGrows(cfg, events, n);
      var l, e := Replay(cfg, events[..n]), events[n];
      hide SizeSum, Requested, Overwritten, NeverFull, Apply;
      if e.ptr in l.live {
        SizeSumRemove(l.live, e.ptr);
      }
      PeakStep(cfg, l, e);
    }
  }

  /** One event: the peak becomes the new value of the counter where that is larger. */
  lemma PeakStep(cfg: Config, l: Log, e: Event)
    requires l.currentBytes <= l.peakBytes && l.currentBytes < WORD
    requires e.ptr in l.live ==> l.live[e.ptr].size <= l.currentBytes
    ensures var l' := Apply(cfg, l, e);
            l'.peakBytes == if l.peakBytes < l'.currentBytes then l'.currentBytes else l.peakBytes
  {
    if e.ptr in l.live {
      SmallDifference(l.currentBytes, l.live[e.ptr].size);
    }
    hide Add64, Sub64, InsertIfAbsent, ReportInvalidFree;
  }

  /** At any moment at which live plus overwritten bytes are below 2^64 the counter is exact. */
  lemma CounterIsExact(cfg: Config, events: seq<Event>)
    requires SizeSum(Replay(cfg, events).live) + Overwritten(cfg, events) < WORD
    ensures var l := Replay(cfg, events);
            && l.currentBytes == SizeSum(l.live) + Overwritten(cfg, events) <= Requested(cfg, events)
            && l.totalBytes == Requested(cfg, events) % WORD
            && (Requested(cfg, events) < WORD ==> l.totalBytes == Requested(cfg, events))
  {
    ByteAccounting(cfg, events);
    hide Replay, SizeSum, Overwritten, Requested;
  }

  lemma SmallDifference(a: nat, b: nat)
    requires b <= a < WORD
    ensures Sub64(a, b) == a - b
  {
  }

  /** The subtraction in a free event then never takes away more than is there. */
  lemma FreeNeverUnderflows(cfg: Config, events: seq<Event>, p: Addr)
    requires SizeSum(Replay(cfg, events).live) + Overwritten(cfg, events) < WORD && p in Replay(cfg, events).live
    ensures Replay(cfg, events).live[p].size <= Replay(cfg, events).currentBytes
  {
    CounterIsExact(cfg, events);
    SizeSumRemove(Replay(cfg, events).live, p);
  }

  /** No allocation event of the trace meets a pointer that is live at that moment. */
  predicate NeverOverwrites(cfg: Config, events: seq<Event>)
    decreases |events|
  {
    events == [] ||
    var n := |events| - 1;
    NeverOverwrites(cfg, events[..n]) &&
    !(events[n].Alloc? && cfg.minsize <= events[n].size && Life(cfg, Only(events[..n], events[n].ptr)).Live?)
  }

  lemma {:induction false} NothingOverwritten(cfg: Config, events: seq<Event>)
    requires NeverOverwrites(cfg, events)
    ensures Overwritten(cfg, events) == 0
    decreases |events|
  {
    if events != [] {
      NothingOverwritten(cfg, events[..|events| - 1]);
    }
  }

  /** The counter is exactly the live bytes when no live pointer is handed out again. */
  lemma CurrentIsLiveBytes(cfg: Config, events: seq<Event>)
    requires NeverOverwrites(cfg, events)
    ensures Replay(cfg, events).currentBytes == SizeSum(Replay(cfg, events).live) % WORD
  {
    ByteAccounting(cfg, events);
    NothingOverwritten(cfg, events);
  }

  // ---- the counters of the heap summary ----

  /** The events an allocation or a free counter has to count. */
  function Allocations(cfg: Config, events: seq<Event>): seq<Event> {
    if events == [] then []
    else
      var n := |events| - 1;
      Allocations(cfg, events[..n])
      + if events[n].Alloc? && cfg.minsize <= events[n].size then [events[n]] else []
  }

  function Deallocations(events: seq<Event>): seq<Event> {
    if events == [] then []
    else
      var n := |events| - 1;
      Deallocations(events[..n]) + if events[n].Dealloc? then [events[n]] else []
  }

  /** Allocations are counted from minsize on, frees always, also those that find nothing. */
  lemma {:induction false} CountersCountEvents(cfg: Config, events: seq<Event>)
    ensures Replay(cfg, events).totalAllocs == |Allocations(cfg, events)|
    ensures Replay(cfg, events).totalFrees == |Deallocations(events)|
    ensures |Replay(cfg, events).live| <= Replay(cfg, events).totalAllocs
    decreases |events|
  {
    if events != [] {
      var n := |events| - 1;
      CountersCountEvents(cfg, events[..n]);
      LiveGrowsByAllocs(cfg, Replay(cfg, events[..n]), events[n]);
    }
  }

  lemma LiveGrowsByAllocs(cfg: Config, l: Log, e: Event)
    ensures |Apply(cfg, l, e).live| <= |l.live| + Apply(cfg, l, e).totalAllocs - l.totalAllocs
  {
    var l' := Apply(cfg, l, e);
    EventKeys(cfg, l, e);
    hide Apply;
    var before, after := l.live.Keys, l'.live.Keys;
    assert |l'.live| == |after| && |l.live| == |before|;
    SubsetSize(after, if l'.totalAllocs == l.totalAllocs then before else before + {e.ptr});
  }

  lemma EventKeys(cfg: Config, l: Log, e: Event)
    ensures var l' := Apply(cfg, l, e);
            || (l'.totalAllocs == l.totalAllocs && l'.live.Keys <= l.live.Keys)
            || (l'.totalAllocs == l.totalAllocs + 1 && l'.live.Keys <= l.live.Keys + {e.ptr})
  {
  }

  // ---- double frees ----

  /**
   * The frees that hit a freed block, in order, each with the block it hit; only those with a valid
   * callstack.
   */
  function DoubleFrees(cfg: Config, events: seq<Event>): seq<Report>
    decreases |events|
  {
    if events == [] then []
    else
      var n := |events| - 1;
      var e, s := events[n], Life(cfg, Only(events[..n], events[n].ptr));
      DoubleFrees(cfg, events[..n]) +
      if cfg.logFree && e.Dealloc? && e.valid && s.Freed? then [Report(e.stack, s.e)] else []
  }

  /** key is the callstack at without its first frame. */
  ghost predicate IsTail(key: Stack, at: Stack) {
    if at == [] then key == []
    else |key| + 1 == |at| && forall i :: 0 <= i < |key| ==> key[i] == at[i + 1]
  }

  /** Two callstacks that count as the same: equal but for the first frame, or without any further one. */
  ghost predicate SameTail(a: Stack, b: Stack) {
    if |a| <= 1 || |b| <= 1 then |a| <= 1 && |b| <= 1
    else |a| == |b| && forall i :: 1 <= i < |a| ==> a[i] == b[i]
  }

  lemma TrimIsTail(key: Stack, at: Stack)
    ensures key == Trim(at) <==> IsTail(key, at)
  {
  }

  lemma TrimSameTail(a: Stack, b: Stack)
    ensures Trim(a) == Trim(b) <==> SameTail(a, b)
  {
    if SameTail(a, b) && 1 < |a| {
      forall i | 0 <= i < |a| - 1
        ensures a[1..][i] == b[1..][i]
      {
        assert a[i + 1] == b[i + 1];
      }
    }
    if Trim(a) == Trim(b) && 1 < |a| {
      forall i | 1 <= i < |a|
        ensures a[i] == b[i]
      {
        assert a[1..][i - 1] == b[1..][i - 1];
      }
    }
  }

  /** The trimmed callstacks among the reports. */
  function Keys(found: seq<Report>): set<Stack> { set r | r in found :: Trim(r.at) }

  lemma KeysAreTails(found: seq<Report>)
    ensures forall key :: key in Keys(found) <==> exists r :: r in found && IsTail(key, r.at)
  {
    forall key
      ensures key in Keys(found) <==> exists r :: r in found && IsTail(key, r.at)
    {
      forall r | r in found
        ensures key == Trim(r.at) <==> IsTail(key, r.at)
      {
        TrimIsTail(key, r.at);
      }
    }
  }

  ghost predicate SeenBefore(found: seq<Report>, at: Stack) {
    exists r0 :: r0 in found && SameTail(r0.at, at)
  }

  lemma SeenMeansKey(found: seq<Report>, at: Stack)
    ensures SeenBefore(found, at) <==> Trim(at) in Keys(found)
  {
    forall r0 | r0 in found
      ensures SameTail(r0.at, at) <==> Trim(r0.at) == Trim(at)
    {
      TrimSameTail(r0.at, at);
    }
  }

  /** Of all reports with the same callstack but for the first frame, the first. */
  ghost function Firsts(found: seq<Report>): seq<Report>
    decreases |found|
  {
    if found == [] then []
    else
      var before, r := found[..|found| - 1], found[|found| - 1];
      Firsts(before) + if SeenBefore(before, r.at) then [] else [r]
  }

  lemma KeysSnoc(found: seq<Report>, r: Report)
    ensures Keys(found + [r]) == Keys(found) + {Trim(r.at)}
    ensures Firsts(found + [r]) == Firsts(found) + if Trim(r.at) in Keys(found) then [] else [r]
  {
    assert (found + [r])[..|found|] == found;
    assert forall x :: x in found + [r] <==> x in found || x == r;
    assert r in found + [r];
    SeenMeansKey(found, r.at);
  }

  lemma FirstsStep(before: seq<Report>, r: Report)
    requires |Firsts(before)| == |Keys(before)| && Keys(Firsts(before)) == Keys(before)
    ensures |Firsts(before + [r])| == |Keys(before + [r])| && Keys(Firsts(before + [r])) == Keys(before + [r])
  {
    KeysSnoc(before, r);
    KeysSnoc(Firsts(before), r);
    hide Firsts, Keys;
    if Trim(r.at) in Keys(before) {
      assert Keys(before) + {Trim(r.at)} == Keys(before);
      assert Firsts(before) + [] == Firsts(before);
    }
  }

  /** As many reports are kept as there are distinct callstacks, and with the same callstacks. */
  lemma {:induction false} FirstsCoverKeys(found: seq<Report>)
    ensures |Firsts(found)| == |Keys(found)| && Keys(Firsts(found)) == Keys(found)
    decreases |found|
  {
    if found != [] {
      var before, r := found[..|found| - 1], found[|found| - 1];
      assert found == before + [r];
      FirstsCoverKeys(before);
      hide Firsts, Keys;
      FirstsStep(before, r);
    }
  }

  /** No two of the reports share their callstack but for the first frame. */
  ghost predicate Distinct(kept: seq<Report>) {
    forall i, j :: 0 <= i < j < |kept| ==> !SameTail(kept[i].at, kept[j].at)
  }

  lemma DistinctSnoc(kept: seq<Report>, r: Report)
    requires Distinct(kept) && !SeenBefore(kept, r.at)
    ensures Distinct(kept + [r])
  {
    hide SameTail;
  }

  /** Every report found shares its callstack with one that is kept. */
  ghost predicate Covers(kept: seq<Report>, found: seq<Report>) {
    forall r :: r in found ==> SeenBefore(kept, r.at)
  }

  lemma CoversSnoc(kept: seq<Report>, found: seq<Report>, r: Report)
    requires Covers(kept, found)
    ensures Covers(kept + [r], found + [r])
    ensures SeenBefore(kept, r.at) ==> Covers(kept, found + [r])
  {
    SameAsItself(r.at);
    hide SameTail;
    forall x | x in found + [r]
      ensures SeenBefore(kept + [r], x.at)
    {
      if x in found {
        var r0 :| r0 in kept && SameTail(r0.at, x.at);
        assert r0 in kept + [r];
      } else {
        assert r in kept + [r] && x == r;
      }
    }
  }

  lemma SameAsItself(at: Stack)
    ensures SameTail(at, at)
  {
  }

  /** Each report shares its callstack with one that is kept, and no two that are kept share theirs. */
  lemma {:induction false} FirstsAreDistinct(found: seq<Report>)
    ensures forall r :: r in found ==> exists r0 :: r0 in Firsts(found) && SameTail(r0.at, r.at)
    ensures forall i, j :: 0 <= i < j < |Firsts(found)| ==> !SameTail(Firsts(found)[i].at, Firsts(found)[j].at)
  {
    FirstsAreOnce(found);
    hide SameTail, Firsts;
    forall r | r in found
      ensures exists r0 :: r0 in Firsts(found) && SameTail(r0.at, r.at)
    {
      assert SeenBefore(Firsts(found), r.at);
    }
  }

  lemma {:induction false} FirstsAreOnce(found: seq<Report>)
    ensures Covers(Firsts(found), found) && Distinct(Firsts(found))
    decreases |found|
  {
    if found != [] {
      var before, r := found[..|found| - 1], found[|found| - 1];
      var kept := Firsts(before);
      assert found == before + [r];
      FirstsAreOnce(before);
      FirstsCoverKeys(before);
      SeenMeansKey(kept, r.at);
      SeenMeansKey(before, r.at);
      hide SameTail, Keys, Covers, Distinct, SeenBefore;
      CoversSnoc(kept, before, r);
      if SeenBefore(kept, r.at) {
        assert Firsts(found) == kept + [] == kept;
      } else {
        DistinctSnoc(kept, r);
      }
    }
  }

  ghost predicate Reported(cfg: Config, l: Log, found: seq<Report>) {
    && l.invalidFrees == |found|
    && (forall key :: key in l.reported <==> exists r :: r in found && IsTail(key, r.at))
    && l.reports == (if !cfg.fileOpens then [] else if cfg.repeat then found else Firsts(found))
  }

  lemma ReportedKeys(cfg: Config, l: Log, found: seq<Report>)
    requires l.invalidFrees == |found| && l.reported == Keys(found)
    requires l.reports == (if !cfg.fileOpens then [] else if cfg.repeat then found else Firsts(found))
    ensures Reported(cfg, l, found)
  {
    KeysAreTails(found);
    hide Keys, IsTail;
  }

  lemma ReportedAreKeys(cfg: Config, l: Log, found: seq<Report>)
    requires Reported(cfg, l, found)
    ensures l.reported == Keys(found)
  {
    KeysAreTails(found);
    hide Keys, IsTail;
  }

  /** The event is a free, with a valid callstack, of a pointer the log knows as freed. */
  predicate Hits(cfg: Config, l: Log, e: Event) {
    cfg.logFree && e.Dealloc? && e.valid && e.ptr !in l.live && e.ptr in l.freed
  }

  lemma HitRecorded(cfg: Config, l: Log, e: Event, found: seq<Report>)
    requires Reported(cfg, l, found) && Hits(cfg, l, e)
    ensures Reported(cfg, Apply(cfg, l, e), found + [Report(e.stack, l.freed[e.ptr])])
  {
    var r := Report(e.stack, l.freed[e.ptr]);
    ReportedAreKeys(cfg, l, found);
    KeysSnoc(found, r);
    hide Keys, Firsts, Reported, Trim;
    ReportedMeans(cfg, l, found);
    ReportedKeys(cfg, Apply(cfg, l, e), found + [r]);
  }

  lemma ReportedMeans(cfg: Config, l: Log, found: seq<Report>)
    requires Reported(cfg, l, found)
    ensures l.invalidFrees == |found|
    ensures l.reports == (if !cfg.fileOpens then [] else if cfg.repeat then found else Firsts(found))
  {
  }

  lemma OtherEventsReportNothing(cfg: Config, l: Log, e: Event, found: seq<Report>)
    requires Reported(cfg, l, found) && !Hits(cfg, l, e)
    ensures Reported(cfg, Apply(cfg, l, e), found)
  {
    hide Keys, Firsts;
  }

  /**
   * Exactly the frees of freed blocks are counted; the reported callstacks are the distinct ones
   * among them; and the log file holds each of them when repeating, else the first per callstack.
   */
  lemma {:induction false} DoubleFreesReported(cfg: Config, events: seq<Event>)
    ensures Reported(cfg, Replay(cfg, events), DoubleFrees(cfg, events))
    decreases |events|
  {
    if events != [] {
      var n := |events| - 1;
      var before, e := events[..n], events[n];
      var l, found := Replay(cfg, before), DoubleFrees(cfg, before);
      DoubleFreesReported(cfg, before);
      PointerRefinesAutomaton(cfg, before, e.ptr);
      assert found + [] == found;
      hide Reported, Apply, Life, Only, Firsts, Keys;
      if Hits(cfg, l, e) {
        HitRecorded(cfg, l, e, found);
      } else {
        OtherEventsReportNothing(cfg, l, e, found);
      }
    }
  }

  /** The unique count of the error summary is the number of records a non-repeating log holds. */
  lemma UniqueCountIsRecordCount(cfg: Config, events: seq<Event>)
    requires cfg.fileOpens && !cfg.repeat
    ensures |Replay(cfg, events).reports| == |Replay(cfg, events).reported|
  {
    DoubleFreesReported(cfg, events);
    FirstsCoverKeys(DoubleFrees(cfg, events));
    ReportedAreKeys(cfg, Replay(cfg, events), DoubleFrees(cfg, events));
  }

  /**
   * The next double free of a trace is written exactly when the file opens and either repeating is on
   * or no earlier one of the trace shares its callstack but for the first frame.
   */
  lemma NextDoubleFree(cfg: Config, events: seq<Event>, e: Event)
    requires Hits(cfg, Replay(cfg, events), e)
    ensures var l, l' := Replay(cfg, events), Replay(cfg, events + [e]);
            && l'.invalidFrees == l.invalidFrees + 1
            && l'.reports == l.reports + if cfg.fileOpens
                                            && (cfg.repeat || forall r0 :: r0 in DoubleFrees(cfg, events) ==>
                                                                !SameTail(r0.at, e.stack))
                                         then [Report(e.stack, l.freed[e.ptr])] else []
  {
    var l, found := Replay(cfg, events), DoubleFrees(cfg, events);
    assert (events + [e])[..|events|] == events;
    DoubleFreesReported(cfg, events);
    ReportedAreKeys(cfg, l, found);
    SeenMeansKey(found, e.stack);
    hide Keys, SameTail, Reported;
  }
}
