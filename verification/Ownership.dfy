/**
 * Who owns a pointer by the rules of the C standard, and what the log makes of it: exactly which blocks
 * are tracked, and when a reported double free is one.
 */
module Ownership {
  import opened Machine
  import opened Layout
  import opened HeapModel
  import opened HeapInvariant
  import opened HeapTheorems
  import opened LogModel
  import opened LogTheorems
  import opened CrossInvariant
  import opened RunAccounting
  import W = WrapperModel

  /**
   * What the last call that concerned a pointer did with it: nothing yet, handed it out with a log entry
   * for size bytes, left it with the program without one, or took it back. Unlogged is a request for
   * zero bytes, or a realloc that was refused and so, by section 7.22.3.5 of ISO/IEC 9899:2011, leaves
   * the block to the program. recorded: a block of at least minsize bytes was logged as freed under
   * this pointer, and nothing has been logged under it since.
   */
  datatype Touch = Never | Logged(size: nat) | Unlogged(recorded: bool) | GivenUp(recorded: bool)

  predicate Owned(t: Touch) { t.Logged? || t.Unlogged? }

  predicate Recorded(t: Touch) { (t.Unlogged? || t.GivenUp?) && t.recorded }

  /** A free event records the block that was tracked; a second one takes the record away. */
  predicate Records(cfg: Config, t: Touch) { t.Logged? && cfg.minsize <= t.size }

  /** The call c, which returns q, as seen by the pointer p. */
  function Touched(cfg: Config, t: Touch, c: W.Call, q: Addr, p: Addr): Touch {
    match c
    case Malloc(size, _, _) => if q != p then t else if 0 < size then Logged(size) else Unlogged(Recorded(t))
    case Calloc(nmemb, size, _, _) =>
      if q != p then t
      else if 0 < nmemb && 0 < size then Logged(Mul64(nmemb, size))
      else Unlogged(Recorded(t))
    case Free(ptr, _, _) => if ptr == p then GivenUp(Records(cfg, t)) else t
    case Realloc(ptr, size, _, _, _, _) =>
      if q == p then (if 0 < size then Logged(size) else Unlogged(Recorded(t)))
      else if ptr != p then t
      else if size == 0 || q != NULL then GivenUp(Records(cfg, t))
      else if Owned(t) then Unlogged(Records(cfg, t))
      else if t.Never? then Never
      else GivenUp(false)
  }

  function LastTouch(cfg: Config, s: W.Sys, t: Touch, calls: seq<W.Call>, p: Addr): Touch
    decreases |calls|
  {
    if calls == [] then t
    else
      var (s', q) := W.Step(cfg, s, calls[0]);
      LastTouch(cfg, s', Touched(cfg, t, calls[0], q, p), calls[1..], p)
  }

  /** The log tracks p exactly when its owner got it with a log entry of at least minsize bytes. */
  ghost predicate TrackedAs(cfg: Config, l: Log, t: Touch, p: Addr) {
    && (p in l.live <==> t.Logged? && cfg.minsize <= t.size)
    && (p in l.live ==> l.live[p].size == t.size)
    && (t.Logged? || t.Never? ==> p !in l.freed)
    && (cfg.logFree ==> (p in l.freed <==> Recorded(t)))
  }

  // ---- the steps of a call, as seen by p ----

  lemma FreeLogTracks(cfg: Config, l: Log, t: Touch, p: Addr, ptr: Addr, stack: Stack, valid: bool)
    requires TrackedAs(cfg, l, t, p) && Tidy(cfg, l)
    ensures ptr == p && cfg.logFree ==> (p in LogDealloc(cfg, l, ptr, stack, valid).freed <==> Records(cfg, t))
    ensures ptr != p ==> TrackedAs(cfg, LogDealloc(cfg, l, ptr, stack, valid), t, p)
    ensures ptr == p ==> p !in LogDealloc(cfg, l, ptr, stack, valid).live
    ensures t.Never? ==> p !in LogDealloc(cfg, l, ptr, stack, valid).freed
  {
  }

  lemma AllocLogTracks(cfg: Config, l: Log, t: Touch, p: Addr, q: Addr, n: nat, stack: Stack)
    requires Tidy(cfg, l) && (if q == p then p !in l.live else TrackedAs(cfg, l, t, p))
    ensures TrackedAs(cfg, LogAlloc(cfg, l, q, n, stack), if q == p then Logged(n) else t, p)
  {
  }

  /** After the free event of a call, if it has one; the call has not yet logged what it returns. */
  ghost predicate MidCall(cfg: Config, l: Log, t: Touch, c: W.Call, p: Addr) {
    if W.Freed(c) == p then
      && p !in l.live
      && (t.Never? ==> p !in l.freed)
      && (cfg.logFree ==> (p in l.freed <==> Records(cfg, t)))
    else TrackedAs(cfg, l, t, p)
  }

  lemma MidCallTracks(cfg: Config, s: W.Sys, t: Touch, c: W.Call, p: Addr)
    requires TrackedAs(cfg, s.log, t, p) && p != NULL && Tidy(cfg, s.log)
    ensures var (s1, q) := W.HeapPart(cfg, s, c); MidCall(cfg, W.FreeLogPart(cfg, s1, c).log, t, c, p)
  {
    var (s1, q) := W.HeapPart(cfg, s, c);
    assert TrackedAs(cfg, s1.log, t, p) by { HeapPartTracks(cfg, s, t, c, p); }
    ForgetKeepsTidy(cfg, s.log, EvictedBy(cfg, s.heap, W.Freed(c)));
    assert Tidy(cfg, s1.log);
    hide W.HeapPart, LogDealloc;
    match c {
      case Free(ptr, stack, valid) => FreeLogTracks(cfg, s1.log, t, p, ptr, stack, valid);
      case Realloc(ptr, _, _, stack, valid, _) => FreeLogTracks(cfg, s1.log, t, p, ptr, stack, valid);
      case _ =>
    }
  }

  /** Evictions only remove freed records. */
  lemma HeapPartTracks(cfg: Config, s: W.Sys, t: Touch, c: W.Call, p: Addr)
    requires TrackedAs(cfg, s.log, t, p)
    ensures TrackedAs(cfg, W.HeapPart(cfg, s, c).0.log, t, p)
  {
  }

  lemma MidCallTidy(cfg: Config, s: W.Sys, c: W.Call)
    requires SysInv(cfg, false, s)
    ensures Tidy(cfg, W.FreeLogPart(cfg, W.HeapPart(cfg, s, c).0, c).log)
  {
    var (s1, q) := W.HeapPart(cfg, s, c);
    ForgetKeepsTidy(cfg, s.log, EvictedBy(cfg, s.heap, W.Freed(c)));
    assert Tidy(cfg, s1.log);
    hide SysInv, W.HeapPart, Tidy;
    match c {
      case Free(ptr, stack, valid) => ApplyKeepsTidy(cfg, s1.log, Dealloc(ptr, stack, valid));
      case Realloc(ptr, _, _, stack, valid, _) => ApplyKeepsTidy(cfg, s1.log, Dealloc(ptr, stack, valid));
      case _ =>
    }
  }

  /** An allocation event for another pointer leaves p alone. */
  lemma OtherAlloc(cfg: Config, l: Log, p: Addr, q: Addr, n: nat, stack: Stack)
    requires p != q
    ensures var l' := LogAlloc(cfg, l, q, n, stack);
            && (p in l'.live <==> p in l.live) && (p in l.live ==> l'.live[p] == l.live[p])
            && (p in l'.freed <==> p in l.freed)
  {
  }

  lemma LoggedTracks(cfg: Config, l: Log, t: Touch, c: W.Call, q: Addr, p: Addr)
    requires W.LogsAlloc(c) && MidCall(cfg, l, t, c, p) && Tidy(cfg, l) && p != NULL && (q == p ==> p !in l.live)
    ensures TrackedAs(cfg, LogAlloc(cfg, l, q, W.LoggedSize(c), c.stack), Touched(cfg, t, c, q, p), p)
  {
    hide LogAlloc, Tidy, Mul64;
    if q == p {
      AllocLogTracks(cfg, l, t, p, q, W.LoggedSize(c), c.stack);
    } else {
      OtherAlloc(cfg, l, p, q, W.LoggedSize(c), c.stack);
    }
  }

  lemma UnloggedTracks(cfg: Config, l: Log, t: Touch, c: W.Call, q: Addr, p: Addr)
    requires !W.LogsAlloc(c) && MidCall(cfg, l, t, c, p) && p != NULL && (q == p ==> p !in l.live)
    requires c.Free? || (c.Realloc? && c.ptr != NULL) ==> q == NULL
    ensures TrackedAs(cfg, l, Touched(cfg, t, c, q, p), p)
  {
  }

  lemma NothingReturned(cfg: Config, s: W.Sys, c: W.Call)
    requires !W.LogsAlloc(c) && (c.Free? || (c.Realloc? && c.ptr != NULL))
    ensures W.HeapPart(cfg, s, c).1 == NULL
  {
  }

  lemma CallTracks(cfg: Config, s: W.Sys, t: Touch, c: W.Call, p: Addr)
    requires SysInv(cfg, false, s) && W.LegalCall(cfg, s, c) && TrackedAs(cfg, s.log, t, p) && p != NULL
    ensures var (s', q) := W.Step(cfg, s, c); TrackedAs(cfg, s'.log, Touched(cfg, t, c, q, p), p)
  {
    var (s1, q) := W.HeapPart(cfg, s, c);
    var s2 := W.FreeLogPart(cfg, s1, c);
    hide SysInv, W.LegalCall, W.HeapPart, W.FreeLogPart, LogAlloc, Tidy, Mul64, TrackedAs, MidCall, Touched;
    AgreeTidy(cfg, s);
    MidCallTracks(cfg, s, t, c, p);
    MidCallTidy(cfg, s, c);
    if !c.Free? {
      NewPointerUntracked(cfg, s, c);
    }
    if W.LogsAlloc(c) {
      LoggedTracks(cfg, s2.log, t, c, q, p);
    } else {
      if c.Free? || (c.Realloc? && c.ptr != NULL) {
        NothingReturned(cfg, s, c);
      }
      UnloggedTracks(cfg, s2.log, t, c, q, p);
    }
  }

  lemma AgreeTidy(cfg: Config, s: W.Sys)
    requires SysInv(cfg, false, s)
    ensures Tidy(cfg, s.log)
  {
  }

  lemma {:induction false} CallsTrack(cfg: Config, s: W.Sys, t: Touch, calls: seq<W.Call>, p: Addr)
    requires SysInv(cfg, false, s) && W.LegalCalls(cfg, s, calls) && TrackedAs(cfg, s.log, t, p) && p != NULL
    ensures TrackedAs(cfg, W.RunCalls(cfg, s, calls).log, LastTouch(cfg, s, t, calls, p), p)
    decreases |calls|
  {
    if calls != [] {
      hide SysInv, W.Step, TrackedAs, Touched;
      var (s', q) := W.Step(cfg, s, calls[0]);
      CallTracks(cfg, s, t, calls[0], p);
      CallKeeps(cfg, false, s, calls[0]);
      CallsTrack(cfg, s', Touched(cfg, t, calls[0], q, p), calls[1..], p);
    }
  }

  // ---- what the heap still holds of a pointer that was given up ----

  /** Only hu_user_addrs, which never forgets, can keep a given up unfenced block in the heap. */
  predicate LeftOnlyIfKnown(h: Heap, t: Touch, p: Addr) {
    t.GivenUp? && p in h.raw ==> p in h.userAddrs
  }

  lemma FreeLeavesKnown(cfg: Config, h: Heap, p: Addr)
    requires p != NULL && h.raw <= h.held.Keys
    ensures p in Free(cfg, h, p).raw ==> p in Free(cfg, h, p).userAddrs
  {
  }

  lemma MovedLeavesKnown(cfg: Config, h: Heap, p: Addr, n: nat, reply: Reply)
    requires Inv(cfg, h) && p != NULL && 0 < n && Legal(cfg, h, DoRealloc(p, n, reply))
    ensures var (h', q) := Realloc(cfg, h, p, n, reply);
            q != NULL && q != p && p in h'.raw ==> p in h'.userAddrs
  {
    if p in h.active {
      StepKnows(cfg, h, DoRealloc(p, n, reply));
      NullNeverActive(cfg, h);
    }
    hide Inv, Malloc, Free, Served, Fill;
  }

  lemma CallLeavesKnown(cfg: Config, s: W.Sys, t: Touch, c: W.Call, p: Addr)
    requires SysInv(cfg, false, s) && W.LegalCall(cfg, s, c) && p != NULL && LeftOnlyIfKnown(s.heap, t, p)
    ensures var (s1, q) := W.HeapPart(cfg, s, c); LeftOnlyIfKnown(s1.heap, Touched(cfg, t, c, q, p), p)
  {
    var (s1, q) := W.HeapPart(cfg, s, c);
    CallTraced(cfg, s, c);
    StepKnows(cfg, s.heap, W.OpOf(c));
    RawIsHeld(cfg, s.heap);
    assert s1.heap == HeapModel.Step(cfg, s.heap, W.OpOf(c)).0 by { hide Malloc, Free, Calloc, Realloc; }
    if c.Free? && c.ptr == p {
      FreeLeavesKnown(cfg, s.heap, p);
    } else if c.Realloc? && c.ptr == p && c.size == 0 {
      FreeLeavesKnown(cfg, s.heap, p);
    } else if c.Realloc? && c.ptr == p {
      MovedLeavesKnown(cfg, s.heap, p, c.size, c.reply);
    }
    hide Malloc, Free, Calloc, Realloc, SysInv, Inv, HeapModel.Step, Legal, Mul64;
  }

  lemma {:induction false} CallsLeaveKnown(cfg: Config, s: W.Sys, t: Touch, calls: seq<W.Call>, p: Addr)
    requires SysInv(cfg, false, s) && W.LegalCalls(cfg, s, calls) && p != NULL && LeftOnlyIfKnown(s.heap, t, p)
    ensures LeftOnlyIfKnown(W.RunCalls(cfg, s, calls).heap, LastTouch(cfg, s, t, calls, p), p)
    decreases |calls|
  {
    if calls != [] {
      hide SysInv, W.HeapPart, LeftOnlyIfKnown, Touched, W.LegalCall, W.FreeLogPart, W.AllocLogPart;
      var (s', q) := W.Step(cfg, s, calls[0]);
      CallLeavesKnown(cfg, s, t, calls[0], p);
      LogPartsKeepHeap(cfg, W.HeapPart(cfg, s, calls[0]).0, calls[0], q);
      CallKeeps(cfg, false, s, calls[0]);
      CallsLeaveKnown(cfg, s', Touched(cfg, t, calls[0], q, p), calls[1..], p);
    }
  }

  // ---- the promises over every run ----

  /**
   * In every run a non-null pointer is tracked if and only if the last call that concerned it handed it
   * out for at least minsize bytes, and then with that size. So of the blocks the program owns exactly
   * those escape the leak report that are smaller, empty, or survived a refused realloc. With double-free
   * logging the freed record holds exactly the pointers of tracked blocks that were logged as freed, with
   * nothing logged since, whether or not they are quarantined as well.
   */
  lemma TrackedExactInEveryRun(cfg: Config, calls: seq<W.Call>, p: Addr)
    requires W.LegalCalls(cfg, W.START, calls) && p != NULL
    ensures var l, t := W.RunCalls(cfg, W.START, calls).log, LastTouch(cfg, W.START, Never, calls, p);
            && (p in l.live <==> t.Logged? && cfg.minsize <= t.size)
            && (p in l.live ==> l.live[p].size == t.size)
            && (Owned(t) && p !in l.live <==> t.Unlogged? || (t.Logged? && t.size < cfg.minsize))
            && (cfg.logFree ==> (p in l.freed <==> Recorded(t)))
  {
    hide SysInv, W.LegalCalls, W.RunCalls, LastTouch;
    StartAgrees(cfg, false);
    CallsTrack(cfg, W.START, Never, calls, p);
  }

  /** A free of p would be counted and, with a valid callstack, reported as a double free. */
  predicate CountsAsDouble(cfg: Config, l: Log, p: Addr) { cfg.logFree && p !in l.live && p in l.freed }

  /**
   * In every run a free is counted as a double free exactly when a tracked block was logged as freed
   * under the pointer, and nothing since. Such a free hits no active block. It is a false alarm, because
   * the program still owns the pointer, if and only if the last call that concerned it was a request for
   * zero bytes or a refused realloc. An unfenced block hit by a true alarm can only be one that hu_free
   * left behind because its address was known.
   */
  lemma DoubleFreeInEveryRun(cfg: Config, calls: seq<W.Call>, p: Addr)
    requires W.LegalCalls(cfg, W.START, calls) && p != NULL
    ensures var s, t := W.RunCalls(cfg, W.START, calls), LastTouch(cfg, W.START, Never, calls, p);
            && (CountsAsDouble(cfg, s.log, p) <==> cfg.logFree && Recorded(t))
            && (CountsAsDouble(cfg, s.log, p) ==>
                  && p !in s.heap.active
                  && (Owned(t) <==> t.Unlogged?) && (!Owned(t) <==> t.GivenUp?)
                  && (p in s.heap.raw ==> t.Unlogged? || p in s.heap.userAddrs))
  {
    var s := W.RunCalls(cfg, W.START, calls);
    hide SysInv, W.LegalCalls, W.RunCalls, LastTouch;
    StartAgrees(cfg, false);
    CallsTrack(cfg, W.START, Never, calls, p);
    CallsLeaveKnown(cfg, W.START, Never, calls, p);
    CallsKeep(cfg, false, W.START, calls);
    if p in s.heap.active {
      ActiveIsLive(cfg, s, p);
    }
  }

  lemma ActiveIsLive(cfg: Config, s: W.Sys, p: Addr)
    requires SysInv(cfg, false, s) && p in s.heap.active
    ensures p in s.log.live
  {
  }
}
