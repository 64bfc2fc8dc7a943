/**
 * The wrappers as threads taking steps around one mutex (src/humain.cpp). hu_recursion_guard and
 * hu_lock_guard are steps of their own, so the call counter and the mutex are state that the steps
 * change; that the counter measures the nesting depth is proved, not assumed.
 */
module Threads {
  import opened Machine
  import opened Layout
  import opened CrossInvariant
  import W = WrapperModel

  type Tid = nat

  /**
   * Where a wrapper call stands. A nested call is passed straight to libc. What the system will answer
   * is named when the call gets the mutex; nobody else changes the shared state before it is asked.
   */
  datatype Phase =
    | Entered
    | Nested
    | Waiting
    | Locked(call: W.Call)
    | HeapDone(call: W.Call, p: Addr)
    | FreeLogged(call: W.Call, p: Addr)
    | AllLogged(call: W.Call, p: Addr)
    | Unlocked(p: Addr)

  datatype Frame = Frame(request: W.Request, phase: Phase)

  /** hu_callcount is thread-local; the open wrapper calls are listed outermost first. */
  datatype Thread = Thread(callcount: nat, frames: seq<Frame>)

  datatype Section = Section(tid: Tid, call: W.Call)

  datatype Mutex = Open | HeldBy(t: Tid)

  /** sections: who took the mutex, in that order; results: what the finished ones return. */
  datatype State = State(threads: map<Tid, Thread>, owner: Mutex, shared: W.Sys,
                         sections: seq<Section>, results: seq<Addr>)

  const START: State := State(map[], Open, W.START, [], [])

  function Of(s: State, t: Tid): Thread { if t in s.threads then s.threads[t] else Thread(0, []) }

  datatype Step =
    | Enter(t: Tid, request: W.Request)
    | Decide(t: Tid)
    | Lock(t: Tid, call: W.Call)
    | DoHeap(t: Tid)
    | DoFreeLog(t: Tid)
    | DoAllocLog(t: Tid)
    | Unlock(t: Tid)
    | Leave(t: Tid)

  /** The phase of the innermost open call of t, which is the one that runs. */
  predicate At(s: State, t: Tid, ready: Phase -> bool) {
    Of(s, t).frames != [] && ready(Of(s, t).frames[|Of(s, t).frames| - 1].phase)
  }

  /**
   * A wrapper may be entered at any moment, also from inside another one of the same thread. Locking
   * blocks while anyone, the caller included, owns the mutex: it is not recursive.
   */
  predicate Enabled(s: State, e: Step) {
    match e
    case Enter(_, _) => true
    case Decide(t) => At(s, t, (f: Phase) => f.Entered?)
    case Lock(t, call) =>
      At(s, t, (f: Phase) => f.Waiting?) && s.owner == Open && W.RequestOf(call) == Top(s, t).request
    case DoHeap(t) => At(s, t, (f: Phase) => f.Locked?)
    case DoFreeLog(t) => At(s, t, (f: Phase) => f.HeapDone?)
    case DoAllocLog(t) => At(s, t, (f: Phase) => f.FreeLogged?)
    case Unlock(t) => At(s, t, (f: Phase) => f.AllLogged?)
    case Leave(t) => At(s, t, (f: Phase) => f.Nested? || f.Unlocked?)
  }

  function Top(s: State, t: Tid): Frame
    requires Of(s, t).frames != []
  {
    Of(s, t).frames[|Of(s, t).frames| - 1]
  }

  function MoveTo(s: State, t: Tid, phase: Phase): State
    requires Of(s, t).frames != []
  {
    var th := Of(s, t);
    s.(threads := s.threads[t := th.(frames := th.frames[|th.frames| - 1 := Top(s, t).(phase := phase)])])
  }

  function Do(cfg: Config, s: State, e: Step): State
    requires Enabled(s, e)
  {
    var t := e.t;
    var th := Of(s, t);
    match e
    case Enter(_, request) =>
      s.(threads := s.threads[t := Thread(th.callcount + 1, th.frames + [Frame(request, Entered)])])
    case Decide(_) => MoveTo(s, t, if th.callcount > 1 then Nested else Waiting)
    case Lock(_, call) =>
      MoveTo(s, t, Locked(call)).(owner := HeldBy(t), sections := s.sections + [Section(t, call)])
    case DoHeap(_) =>
      var f := Top(s, t).phase;
      var (shared, p) := W.HeapPart(cfg, s.shared, f.call);
      MoveTo(s, t, HeapDone(f.call, p)).(shared := shared)
    case DoFreeLog(_) =>
      var f := Top(s, t).phase;
      MoveTo(s, t, FreeLogged(f.call, f.p)).(shared := W.FreeLogPart(cfg, s.shared, f.call))
    case DoAllocLog(_) =>
      var f := Top(s, t).phase;
      MoveTo(s, t, AllLogged(f.call, f.p)).(shared := W.AllocLogPart(cfg, s.shared, f.call, f.p))
    case Unlock(_) =>
      MoveTo(s, t, Unlocked(Top(s, t).phase.p)).(owner := Open, results := s.results + [Top(s, t).phase.p])
    case Leave(_) =>
      var callcount := if th.callcount == 0 then 0 else th.callcount - 1;
      s.(threads := s.threads[t := Thread(callcount, th.frames[..|th.frames| - 1])])
  }

  /** What the program and the system are trusted with when a call gets the mutex. */
  ghost predicate Lawful(cfg: Config, s: State, e: Step)
    requires Enabled(s, e)
  {
    e.Lock? ==> W.LegalCall(cfg, s.shared, e.call)
  }

  /** Any interleaving of any number of threads. */
  ghost predicate Possible(cfg: Config, s: State, run: seq<Step>)
    decreases |run|
  {
    run == [] || (Enabled(s, run[0]) && Lawful(cfg, s, run[0]) && Possible(cfg, Do(cfg, s, run[0]), run[1..]))
  }

  ghost function Run(cfg: Config, s: State, run: seq<Step>): State
    requires Possible(cfg, s, run)
    decreases |run|
  {
    if run == [] then s else Run(cfg, Do(cfg, s, run[0]), run[1..])
  }

  // ---- guards and the mutex ----

  predicate Critical(f: Phase) { f.Locked? || f.HeapDone? || f.FreeLogged? || f.AllLogged? }

  /** A thread is inside a critical section when any of its open calls is. */
  predicate InSection(th: Thread) {
    exists i :: 0 <= i < |th.frames| && Critical(th.frames[i].phase)
  }

  predicate Waits(th: Thread) {
    exists i :: 0 <= i < |th.frames| && th.frames[i].phase.Waiting?
  }

  /** The counter counts the open guards, and only the outermost call is ever past the test. */
  predicate Guarded(th: Thread) {
    && th.callcount == |th.frames|
    && (forall i :: 0 < i < |th.frames| ==> th.frames[i].phase.Entered? || th.frames[i].phase.Nested?)
    && (th.frames != [] ==> !th.frames[0].phase.Nested?)
  }

  ghost predicate Exclusive(s: State) {
    && (forall t :: t in s.threads ==> Guarded(s.threads[t]))
    && (forall t :: InSection(Of(s, t)) <==> s.owner == HeldBy(t))
  }

  lemma OnlyOutermost(th: Thread)
    requires Guarded(th)
    ensures InSection(th) <==> th.frames != [] && Critical(th.frames[0].phase)
    ensures Waits(th) <==> th.frames != [] && th.frames[0].phase.Waiting?
  {
  }

  lemma StaysGuarded(cfg: Config, s: State, e: Step)
    requires Exclusive(s) && Enabled(s, e)
    ensures Guarded(Of(Do(cfg, s, e), e.t))
  {
    assert Guarded(Of(s, e.t));
  }

  /** Only Lock and Unlock change whether the moving thread is inside a section. */
  lemma SectionChanges(cfg: Config, s: State, e: Step)
    requires Exclusive(s) && Enabled(s, e)
    ensures InSection(Of(Do(cfg, s, e), e.t)) <==> e.Lock? || (InSection(Of(s, e.t)) && !e.Unlock?)
  {
    StaysGuarded(cfg, s, e);
    OnlyOutermost(Of(s, e.t));
    OnlyOutermost(Of(Do(cfg, s, e), e.t));
    hide InSection;
  }

  lemma OthersStand(cfg: Config, s: State, e: Step, t: Tid)
    requires Enabled(s, e) && t != e.t
    ensures Of(Do(cfg, s, e), t) == Of(s, t)
  {
  }

  lemma DoKeepsExclusive(cfg: Config, s: State, e: Step)
    requires Exclusive(s) && Enabled(s, e)
    ensures Exclusive(Do(cfg, s, e))
  {
    var s' := Do(cfg, s, e);
    StaysGuarded(cfg, s, e);
    SectionChanges(cfg, s, e);
    OwnerAfter(cfg, s, e);
    OnlyMoverAdded(cfg, s, e);
    hide Guarded, InSection, Do, Enabled;
    forall t
      ensures InSection(Of(s', t)) <==> s'.owner == HeldBy(t)
      ensures t in s'.threads ==> Guarded(s'.threads[t])
    {
      if t != e.t {
        OthersStand(cfg, s, e, t);
      }
    }
  }

  lemma OnlyMoverAdded(cfg: Config, s: State, e: Step)
    requires Enabled(s, e)
    ensures Do(cfg, s, e).threads.Keys == s.threads.Keys + {e.t}
  {
  }

  lemma OwnerAfter(cfg: Config, s: State, e: Step)
    requires Exclusive(s) && Enabled(s, e)
    ensures Do(cfg, s, e).owner == (if e.Lock? then HeldBy(e.t) else if e.Unlock? then Open else s.owner)
    ensures e.Lock? ==> s.owner == Open
    ensures e.Unlock? ==> s.owner == HeldBy(e.t)
  {
    if e.Unlock? {
      OnlyOutermost(Of(s, e.t));
      assert Guarded(Of(s, e.t));
      assert InSection(Of(s, e.t));
    }
  }

  // ---- sections in lock order ----

  function Calls(sections: seq<Section>): seq<W.Call> {
    if sections == [] then []
    else Calls(sections[..|sections| - 1]) + [sections[|sections| - 1].call]
  }

  /** What the calls return when they are made one after the other. */
  function Results(cfg: Config, s: W.Sys, calls: seq<W.Call>): seq<Addr>
    decreases |calls|
  {
    if calls == [] then []
    else [W.Step(cfg, s, calls[0]).1] + Results(cfg, W.Step(cfg, s, calls[0]).0, calls[1..])
  }

  lemma {:induction false} OneMoreResult(cfg: Config, s: W.Sys, calls: seq<W.Call>, c: W.Call)
    ensures Results(cfg, s, calls + [c]) == Results(cfg, s, calls) + [W.Step(cfg, W.RunCalls(cfg, s, calls), c).1]
    decreases |calls|
  {
    hide W.Step;
    if calls == [] {
      assert [] + [c] == [c] && [c][1..] == [];
    } else {
      assert (calls + [c])[1..] == calls[1..] + [c];
      OneMoreResult(cfg, W.Step(cfg, s, calls[0]).0, calls[1..], c);
    }
  }

  /** How far the section in the phase f, begun in the state s0, has brought the shared state. */
  predicate Reached(cfg: Config, s0: W.Sys, f: Phase, shared: W.Sys)
    requires Critical(f)
  {
    var (s1, q) := W.HeapPart(cfg, s0, f.call);
    match f
    case Locked(_) => shared == s0
    case HeapDone(_, p) => shared == s1 && p == q
    case FreeLogged(_, p) => shared == W.FreeLogPart(cfg, s1, f.call) && p == q
    case AllLogged(_, p) => (shared, p) == W.Step(cfg, s0, f.call)
  }

  /** The shared state and the results are those of making the calls one after the other. */
  ghost predicate Finished(cfg: Config, shared: W.Sys, results: seq<Addr>, calls: seq<W.Call>) {
    && shared == W.RunCalls(cfg, W.START, calls)
    && results == Results(cfg, W.START, calls)
    && W.LegalCalls(cfg, W.START, calls)
  }

  /** The finished calls, and the section of f on top of them. */
  ghost predicate Running(cfg: Config, shared: W.Sys, results: seq<Addr>, calls: seq<W.Call>, f: Phase)
    requires Critical(f)
  {
    var s0 := W.RunCalls(cfg, W.START, calls);
    Finished(cfg, s0, results, calls) && W.LegalCall(cfg, s0, f.call) && Reached(cfg, s0, f, shared)
  }

  /** All sections but the running one are finished, in the order they took the mutex. */
  ghost predicate Sequential(cfg: Config, s: State) {
    match s.owner
    case Open => Finished(cfg, s.shared, s.results, Calls(s.sections))
    case HeldBy(t) =>
      && Of(s, t).frames != [] && Critical(Of(s, t).frames[0].phase)
      && s.sections != []
      && var n, f := |s.sections| - 1, Of(s, t).frames[0].phase;
         s.sections[n] == Section(t, f.call) && Running(cfg, s.shared, s.results, Calls(s.sections[..n]), f)
  }

  /** Outside Lock and the steps of a section, the running section stands still. */
  lemma BystanderStep(cfg: Config, s: State, e: Step, t: Tid)
    requires Exclusive(s) && Enabled(s, e) && s.owner == HeldBy(t)
    requires e.Enter? || e.Decide? || e.Leave?
    ensures Of(s, t).frames != [] && Of(Do(cfg, s, e), t).frames != []
    ensures Of(Do(cfg, s, e), t).frames[0] == Of(s, t).frames[0]
  {
    OnlyOutermost(Of(s, t));
  }

  /** A step inside a section is one of the owner, who has no other call open. */
  lemma SectionStep(s: State, e: Step)
    requires Exclusive(s) && Enabled(s, e) && (e.DoHeap? || e.DoFreeLog? || e.DoAllocLog? || e.Unlock?)
    ensures s.owner == HeldBy(e.t) && |Of(s, e.t).frames| == 1
  {
    assert Guarded(Of(s, e.t));
    OnlyOutermost(Of(s, e.t));
    assert InSection(Of(s, e.t));
  }

  lemma LockStep(cfg: Config, s: State, e: Step)
    requires Exclusive(s) && Sequential(cfg, s) && Enabled(s, e) && Lawful(cfg, s, e) && e.Lock?
    ensures Sequential(cfg, Do(cfg, s, e))
  {
    hide W.RunCalls, W.LegalCalls, W.LegalCall, Results;
    var s' := Do(cfg, s, e);
    var n := |s.sections|;
    assert s'.sections[..n] == s.sections;
    assert Guarded(Of(s, e.t));
  }

  lemma WorkStep(cfg: Config, s: State, e: Step)
    requires Exclusive(s) && Sequential(cfg, s) && Enabled(s, e) && (e.DoHeap? || e.DoFreeLog? || e.DoAllocLog?)
    ensures Sequential(cfg, Do(cfg, s, e))
  {
    hide W.RunCalls, W.LegalCalls, W.LegalCall, Results, W.HeapPart, W.FreeLogPart, W.AllocLogPart;
    SectionStep(s, e);
  }

  lemma UnlockStep(cfg: Config, s: State, e: Step)
    requires Exclusive(s) && Sequential(cfg, s) && Enabled(s, e) && e.Unlock?
    ensures Sequential(cfg, Do(cfg, s, e))
  {
    hide W.RunCalls, W.LegalCalls, W.LegalCall, Results, W.Step, W.HeapPart;
    SectionStep(s, e);
    var n := |s.sections| - 1;
    OneMoreResult(cfg, W.START, Calls(s.sections[..n]), s.sections[n].call);
    W.OneMoreCall(cfg, W.START, Calls(s.sections[..n]), s.sections[n].call);
  }

  lemma DoKeepsSequential(cfg: Config, s: State, e: Step)
    requires Exclusive(s) && Sequential(cfg, s) && Enabled(s, e) && Lawful(cfg, s, e)
    ensures Sequential(cfg, Do(cfg, s, e))
  {
    hide Exclusive, Running, Finished;
    match e {
      case Lock(_, _) => LockStep(cfg, s, e);
      case Unlock(_) => UnlockStep(cfg, s, e);
      case DoHeap(_) => WorkStep(cfg, s, e);
      case DoFreeLog(_) => WorkStep(cfg, s, e);
      case DoAllocLog(_) => WorkStep(cfg, s, e);
      case _ =>
        if s.owner.HeldBy? {
          BystanderStep(cfg, s, e, s.owner.t);
        }
    }
  }

  lemma {:induction false} RunKeepsOrder(cfg: Config, s: State, run: seq<Step>)
    requires Exclusive(s) && Sequential(cfg, s) && Possible(cfg, s, run)
    ensures Exclusive(Run(cfg, s, run)) && Sequential(cfg, Run(cfg, s, run))
    decreases |run|
  {
    if run != [] {
      hide Exclusive, Sequential, Do, Enabled, Lawful;
      DoKeepsExclusive(cfg, s, run[0]);
      DoKeepsSequential(cfg, s, run[0]);
      RunKeepsOrder(cfg, Do(cfg, s, run[0]), run[1..]);
    }
  }

  lemma StartsInOrder(cfg: Config)
    ensures Exclusive(START) && Sequential(cfg, START)
  {
  }

  // ---- the promises over every interleaving ----

  /**
   * At most one thread is inside a critical section, no thread waits for the mutex while it owns it,
   * and hu_callcount is the number of open guards of its thread.
   */
  lemma MutualExclusionInEveryRun(cfg: Config, run: seq<Step>, t: Tid, u: Tid)
    requires Possible(cfg, START, run)
    ensures var s := Run(cfg, START, run);
            && (InSection(Of(s, t)) && InSection(Of(s, u)) ==> t == u)
            && (Waits(Of(s, t)) ==> s.owner != HeldBy(t))
            && Of(s, t).callcount == |Of(s, t).frames|
  {
    StartsInOrder(cfg);
    RunKeepsOrder(cfg, START, run);
    hide Sequential, Possible, Run;
    var s := Run(cfg, START, run);
    assert Guarded(Of(s, t));
    OnlyOutermost(Of(s, t));
  }

  /**
   * Whenever nobody owns the mutex, the shared state and everything the calls returned are those of
   * one sequential run of the calls in lock order, and the allocator agrees with the log.
   */
  lemma SequentialInEveryRun(cfg: Config, run: seq<Step>)
    requires Possible(cfg, START, run) && Run(cfg, START, run).owner == Open
    ensures var s := Run(cfg, START, run);
            && s.shared == W.RunCalls(cfg, W.START, Calls(s.sections))
            && s.results == Results(cfg, W.START, Calls(s.sections))
            && W.LegalCalls(cfg, W.START, Calls(s.sections))
            && SysInv(cfg, false, s.shared)
  {
    StartsInOrder(cfg);
    RunKeepsOrder(cfg, START, run);
    hide Exclusive, Possible, Run, SysInv;
    StartAgrees(cfg, false);
    CallsKeep(cfg, false, W.START, Calls(Run(cfg, START, run).sections));
  }

  // ---- every thread gets the results of its own calls ----

  /** The call has the kind and the arguments of the request. */
  predicate Answers(r: W.Request, c: W.Call) {
    match r
    case AskMalloc(size) => c.Malloc? && c.size == size
    case AskFree(ptr) => c.Free? && c.ptr == ptr
    case AskCalloc(nmemb, size) => c.Calloc? && c.nmemb == nmemb && c.size == size
    case AskRealloc(ptr, size) => c.Realloc? && c.ptr == ptr && c.size == size
  }

  lemma RequestIsAnswered(c: W.Call)
    ensures Answers(W.RequestOf(c), c)
    ensures forall r :: Answers(r, c) ==> r == W.RequestOf(c)
  {
  }

  /** The sections of t, in order. */
  function SectionsOf(sections: seq<Section>, t: Tid): seq<W.Call> {
    if sections == [] then []
    else
      var n := |sections| - 1;
      SectionsOf(sections[..n], t) + if sections[n].tid == t then [sections[n].call] else []
  }

  /** The results of the finished sections of t, in order. */
  function ResultsOf(sections: seq<Section>, results: seq<Addr>, t: Tid): seq<Addr>
    requires |results| <= |sections|
    decreases |results|
  {
    if results == [] then []
    else
      var n := |results| - 1;
      ResultsOf(sections, results[..n], t) + if sections[n].tid == t then [results[n]] else []
  }

  /** What the program asks for by the step, as thread t: the outermost call, nested ones go to libc. */
  function AskedBy(s: State, e: Step, t: Tid): seq<W.Request> {
    if e.Enter? && e.t == t && Of(s, t).frames == [] then [e.request] else []
  }

  /** What the step gives back to the program of thread t. */
  function ReturnedBy(s: State, e: Step, t: Tid): seq<Addr> {
    if e.Leave? && e.t == t && |Of(s, t).frames| == 1 && Top(s, t).phase.Unlocked? then [Top(s, t).phase.p] else []
  }

  ghost function Asked(cfg: Config, s: State, run: seq<Step>, t: Tid): seq<W.Request>
    requires Possible(cfg, s, run)
    decreases |run|
  {
    if run == [] then [] else AskedBy(s, run[0], t) + Asked(cfg, Do(cfg, s, run[0]), run[1..], t)
  }

  ghost function Returned(cfg: Config, s: State, run: seq<Step>, t: Tid): seq<Addr>
    requires Possible(cfg, s, run)
    decreases |run|
  {
    if run == [] then [] else ReturnedBy(s, run[0], t) + Returned(cfg, Do(cfg, s, run[0]), run[1..], t)
  }

  /** All sections have results but the one that is running. */
  ghost predicate Counted(s: State) {
    match s.owner
    case Open => |s.results| == |s.sections|
    case HeldBy(u) => |s.results| + 1 == |s.sections| && s.sections[|s.results|].tid == u
  }

  lemma DoKeepsCounted(cfg: Config, s: State, e: Step)
    requires Exclusive(s) && Counted(s) && Enabled(s, e)
    ensures Counted(Do(cfg, s, e))
  {
    if e.DoHeap? || e.DoFreeLog? || e.DoAllocLog? || e.Unlock? {
      SectionStep(s, e);
    }
    hide Exclusive;
  }

  /** The outermost open call of t has not reached the mutex. */
  predicate Queued(th: Thread) { th.frames != [] && (th.frames[0].phase.Entered? || th.frames[0].phase.Waiting?) }

  /** What the outermost open call of t carries back. */
  function Carried(th: Thread): seq<Addr> {
    if th.frames != [] && th.frames[0].phase.Unlocked? then [th.frames[0].phase.p] else []
  }

  /** t asked for this, in order, and this was returned to it. */
  ghost predicate Served(s: State, t: Tid, asked: seq<W.Request>, returned: seq<Addr>) {
    && Counted(s)
    && var calls := SectionsOf(s.sections, t);
       && |asked| == |calls| + (if Queued(Of(s, t)) then 1 else 0)
       && (forall i :: 0 <= i < |calls| ==> Answers(asked[i], calls[i]))
       && (Of(s, t).frames != [] ==> asked != [] && asked[|asked| - 1] == Of(s, t).frames[0].request)
       && returned + Carried(Of(s, t)) == ResultsOf(s.sections, s.results, t)
  }

  lemma OneMoreSection(sections: seq<Section>, x: Section, t: Tid)
    ensures SectionsOf(sections + [x], t) == SectionsOf(sections, t) + if x.tid == t then [x.call] else []
  {
    assert (sections + [x])[..|sections|] == sections;
  }

  lemma {:induction false} LaterSectionsDoNotMatter(sections: seq<Section>, x: Section, results: seq<Addr>, t: Tid)
    requires |results| <= |sections|
    ensures ResultsOf(sections + [x], results, t) == ResultsOf(sections, results, t)
    decreases |results|
  {
    if results != [] {
      LaterSectionsDoNotMatter(sections, x, results[..|results| - 1], t);
    }
  }

  lemma OneMoreOwnResult(sections: seq<Section>, results: seq<Addr>, p: Addr, t: Tid)
    requires |results| < |sections|
    ensures ResultsOf(sections, results + [p], t)
            == ResultsOf(sections, results, t) + if sections[|results|].tid == t then [p] else []
  {
    assert (results + [p])[..|results|] == results;
  }

  /** Steps of other threads. */
  lemma OthersServe(cfg: Config, s: State, e: Step, t: Tid, asked: seq<W.Request>, returned: seq<Addr>)
    requires Exclusive(s) && Enabled(s, e) && Served(s, t, asked, returned) && e.t != t
    ensures Served(Do(cfg, s, e), t, asked, returned)
  {
    DoKeepsCounted(cfg, s, e);
    OthersStand(cfg, s, e, t);
    if e.Lock? {
      OneMoreSection(s.sections, Section(e.t, e.call), t);
      LaterSectionsDoNotMatter(s.sections, Section(e.t, e.call), s.results, t);
    } else if e.Unlock? {
      SectionStep(s, e);
      OneMoreOwnResult(s.sections, s.results, Top(s, e.t).phase.p, t);
    }
    hide Exclusive, SectionsOf, ResultsOf, Answers, Queued, Carried, W.HeapPart, W.FreeLogPart, W.AllocLogPart, Counted;
  }

  lemma LockServes(cfg: Config, s: State, e: Step, asked: seq<W.Request>, returned: seq<Addr>)
    requires Exclusive(s) && Enabled(s, e) && Served(s, e.t, asked, returned) && e.Lock?
    ensures Served(Do(cfg, s, e), e.t, asked, returned)
  {
    assert Guarded(Of(s, e.t));
    DoKeepsCounted(cfg, s, e);
    OneMoreSection(s.sections, Section(e.t, e.call), e.t);
    LaterSectionsDoNotMatter(s.sections, Section(e.t, e.call), s.results, e.t);
    RequestIsAnswered(e.call);
    hide Exclusive, SectionsOf, ResultsOf, Answers, Counted;
  }

  lemma UnlockServes(cfg: Config, s: State, e: Step, asked: seq<W.Request>, returned: seq<Addr>)
    requires Exclusive(s) && Enabled(s, e) && Served(s, e.t, asked, returned) && e.Unlock?
    ensures Served(Do(cfg, s, e), e.t, asked, returned)
  {
    SectionStep(s, e);
    DoKeepsCounted(cfg, s, e);
    OneMoreOwnResult(s.sections, s.results, Top(s, e.t).phase.p, e.t);
    hide Exclusive, SectionsOf, ResultsOf, Answers;
  }

  lemma WorkServes(cfg: Config, s: State, e: Step, asked: seq<W.Request>, returned: seq<Addr>)
    requires Exclusive(s) && Enabled(s, e) && Served(s, e.t, asked, returned)
    requires e.DoHeap? || e.DoFreeLog? || e.DoAllocLog?
    ensures Served(Do(cfg, s, e), e.t, asked, returned)
  {
    SectionStep(s, e);
    DoKeepsCounted(cfg, s, e);
    hide Exclusive, SectionsOf, ResultsOf, Answers, Counted, W.HeapPart, W.FreeLogPart, W.AllocLogPart;
  }

  /** Coming, deciding and going. */
  lemma GuardServes(cfg: Config, s: State, e: Step, asked: seq<W.Request>, returned: seq<Addr>)
    requires Exclusive(s) && Enabled(s, e) && Served(s, e.t, asked, returned)
    requires e.Enter? || e.Decide? || e.Leave?
    ensures Served(Do(cfg, s, e), e.t, asked + AskedBy(s, e, e.t), returned + ReturnedBy(s, e, e.t))
  {
    assert Guarded(Of(s, e.t));
    DoKeepsCounted(cfg, s, e);
    hide Exclusive, SectionsOf, ResultsOf, Answers, Counted;
    assert asked + [] == asked && returned + [] == returned;
  }

  lemma DoServes(cfg: Config, s: State, e: Step, t: Tid, asked: seq<W.Request>, returned: seq<Addr>)
    requires Exclusive(s) && Enabled(s, e) && Served(s, t, asked, returned)
    ensures Served(Do(cfg, s, e), t, asked + AskedBy(s, e, t), returned + ReturnedBy(s, e, t))
  {
    hide Exclusive, Served, Do, Enabled;
    assert asked + [] == asked && returned + [] == returned;
    if e.t != t {
      OthersServe(cfg, s, e, t, asked, returned);
    } else {
      match e {
        case Lock(_, _) => LockServes(cfg, s, e, asked, returned);
        case Unlock(_) => UnlockServes(cfg, s, e, asked, returned);
        case DoHeap(_) => WorkServes(cfg, s, e, asked, returned);
        case DoFreeLog(_) => WorkServes(cfg, s, e, asked, returned);
        case DoAllocLog(_) => WorkServes(cfg, s, e, asked, returned);
        case _ => GuardServes(cfg, s, e, asked, returned);
      }
    }
  }

  lemma {:induction false} RunServes(cfg: Config, s: State, run: seq<Step>, t: Tid,
                                     asked: seq<W.Request>, returned: seq<Addr>)
    requires Exclusive(s) && Possible(cfg, s, run) && Served(s, t, asked, returned)
    ensures Served(Run(cfg, s, run), t, asked + Asked(cfg, s, run, t), returned + Returned(cfg, s, run, t))
    decreases |run|
  {
    hide Exclusive, Served, Do, Enabled, Lawful, AskedBy, ReturnedBy;
    if run == [] {
      assert asked + [] == asked && returned + [] == returned;
    } else {
      var e, rest := run[0], run[1..];
      var s' := Do(cfg, s, e);
      DoKeepsExclusive(cfg, s, e);
      DoServes(cfg, s, e, t, asked, returned);
      RunServes(cfg, s', rest, t, asked + AskedBy(s, e, t), returned + ReturnedBy(s, e, t));
      Regroup(asked, AskedBy(s, e, t), Asked(cfg, s', rest, t));
      Regroup(returned, ReturnedBy(s, e, t), Returned(cfg, s', rest, t));
    }
  }

  lemma Regroup<T>(a: seq<T>, b: seq<T>, c: seq<T>)
    ensures (a + b) + c == a + (b + c)
  {
  }

  /** The results are those of the sequential run of the finished sections, also while one is running. */
  lemma ResultsAreSequential(cfg: Config, s: State)
    requires Sequential(cfg, s) && Counted(s)
    ensures s.results == Results(cfg, W.START, Calls(s.sections[..|s.results|]))
  {
    hide W.RunCalls, W.LegalCalls, W.LegalCall, Results, Reached;
    assert s.owner == Open ==> s.sections[..|s.results|] == s.sections;
  }

  /**
   * In every interleaving each thread gets its own: its sections are, in order and argument for
   * argument, the outermost calls it made, but for one that still has no mutex; and what was returned
   * to it, with what its open call carries back, is in order exactly what its sections returned in the
   * sequential run.
   */
  lemma EveryThreadGetsItsResults(cfg: Config, run: seq<Step>, t: Tid)
    requires Possible(cfg, START, run)
    ensures var s := Run(cfg, START, run);
            var asked, calls := Asked(cfg, START, run, t), SectionsOf(s.sections, t);
            && |calls| <= |asked| <= |calls| + 1
            && (forall i :: 0 <= i < |calls| ==> Answers(asked[i], calls[i]))
            && |s.results| <= |s.sections|
            && Returned(cfg, START, run, t) + Carried(Of(s, t)) == ResultsOf(s.sections, s.results, t)
            && s.results == Results(cfg, W.START, Calls(s.sections[..|s.results|]))
  {
    StartsInOrder(cfg);
    RunKeepsOrder(cfg, START, run);
    NothingServed(t);
    RunServes(cfg, START, run, t, [], []);
    var s := Run(cfg, START, run);
    assert [] + Asked(cfg, START, run, t) == Asked(cfg, START, run, t);
    assert [] + Returned(cfg, START, run, t) == Returned(cfg, START, run, t);
    ResultsAreSequential(cfg, s);
    hide Exclusive, Sequential, Possible, Run, Asked, Returned, Results, ResultsOf, SectionsOf, Answers, Carried;
  }

  lemma {:induction false} LastOwnResult(sections: seq<Section>, results: seq<Addr>, t: Tid) returns (k: nat)
    requires |results| <= |sections| && ResultsOf(sections, results, t) != []
    ensures k < |results| && sections[k].tid == t
    ensures forall m :: k < m < |results| ==> sections[m].tid != t
    ensures var own := ResultsOf(sections, results, t); own[|own| - 1] == results[k]
    decreases |results|
  {
    var n := |results| - 1;
    if sections[n].tid == t {
      k := n;
    } else {
      k := LastOwnResult(sections, results[..n], t);
    }
  }

  /** k is the latest section of t, and p is its result. */
  ghost predicate LatestResult(s: State, t: Tid, k: nat, p: Addr) {
    && k < |s.sections| && s.sections[k].tid == t && (forall m :: k < m < |s.sections| ==> s.sections[m].tid != t)
    && k < |s.results| && p == s.results[k]
  }

  /**
   * In every interleaving: a call that has left the mutex carries the result of the latest section of
   * its thread.
   */
  lemma UnlockedCarriesItsResult(cfg: Config, run: seq<Step>, t: Tid, i: nat)
    requires Possible(cfg, START, run)
    requires var frames := Of(Run(cfg, START, run), t).frames; i < |frames| && frames[i].phase.Unlocked?
    ensures var s := Run(cfg, START, run); exists k :: LatestResult(s, t, k, Of(s, t).frames[i].phase.p)
  {
    hide Sequential, Possible, Run, Asked, Returned, Exclusive, Served, LatestResult;
    StartsInOrder(cfg);
    NothingServed(t);
    RunKeepsOrder(cfg, START, run);
    RunServes(cfg, START, run, t, [], []);
    ServedCarries(Run(cfg, START, run), t, i, [] + Asked(cfg, START, run, t), [] + Returned(cfg, START, run, t));
  }

  lemma NothingServed(t: Tid)
    ensures Served(START, t, [], [])
  {
  }

  lemma ServedCarries(s: State, t: Tid, i: nat, asked: seq<W.Request>, returned: seq<Addr>)
    requires Exclusive(s) && Served(s, t, asked, returned)
    requires i < |Of(s, t).frames| && Of(s, t).frames[i].phase.Unlocked?
    ensures exists k :: LatestResult(s, t, k, Of(s, t).frames[i].phase.p)
  {
    OutermostCarries(s, t, i);
    hide Exclusive, SectionsOf, ResultsOf, Answers, LatestResult;
    LatestCarried(s, t, returned);
  }

  lemma OutermostCarries(s: State, t: Tid, i: nat)
    requires Exclusive(s) && i < |Of(s, t).frames| && Of(s, t).frames[i].phase.Unlocked?
    ensures i == 0 && Carried(Of(s, t)) == [Of(s, t).frames[0].phase.p] && s.owner != HeldBy(t)
  {
    assert Guarded(Of(s, t));
    OnlyOutermost(Of(s, t));
    assert !InSection(Of(s, t));
  }

  lemma LatestCarried(s: State, t: Tid, returned: seq<Addr>)
    requires Counted(s) && s.owner != HeldBy(t) && |Carried(Of(s, t))| == 1
    requires returned + Carried(Of(s, t)) == ResultsOf(s.sections, s.results, t)
    ensures exists k :: LatestResult(s, t, k, Carried(Of(s, t))[0])
  {
    var k := LastOwnResult(s.sections, s.results, t);
    assert LatestResult(s, t, k, Carried(Of(s, t))[0]);
  }

  // ---- every call comes back ----

  /** Those who wait for the mutex ask for what the program may ask for in the present state. */
  ghost predicate WaitersMayAsk(cfg: Config, s: State) {
    forall t :: Of(s, t).frames != [] && Of(s, t).frames[0].phase.Waiting? ==>
      W.MayAsk(cfg, s.shared, Of(s, t).frames[0].request)
  }

  /** The step extends a possible run, and is not a new call. */
  ghost predicate GoesOn(cfg: Config, s: State, e: Step) { !e.Enter? && Enabled(s, e) && Lawful(cfg, s, e) }

  /** While any call is open, some open call can go on. */
  lemma NoDeadlock(cfg: Config, run: seq<Step>, t: Tid)
    requires Possible(cfg, START, run) && Of(Run(cfg, START, run), t).frames != []
    requires WaitersMayAsk(cfg, Run(cfg, START, run))
    ensures exists e :: GoesOn(cfg, Run(cfg, START, run), e)
  {
    StartsInOrder(cfg);
    RunKeepsOrder(cfg, START, run);
    hide Sequential, Possible, Run;
    var s := Run(cfg, START, run);
    CanGoOn(cfg, s, if s.owner.HeldBy? then s.owner.t else t);
  }

  /** The owner can always go on; when there is none, so can every thread with an open call. */
  lemma CanGoOn(cfg: Config, s: State, t: Tid)
    requires Exclusive(s) && WaitersMayAsk(cfg, s)
    requires (s.owner == Open ==> Of(s, t).frames != []) && (s.owner.HeldBy? ==> s.owner.t == t)
    ensures exists e :: GoesOn(cfg, s, e)
  {
    OnlyOutermost(Of(s, t));
    assert Guarded(Of(s, t));
    var f := Top(s, t);
    W.RefusalIsLegal(cfg, s.shared, f.request);
    hide W.LegalCall, W.MayAsk;
    var e := match f.phase
      case Entered => Decide(t)
      case Waiting => Lock(t, W.Refusal(f.request))
      case Locked(_) => DoHeap(t)
      case HeapDone(_, _) => DoFreeLog(t)
      case FreeLogged(_, _) => DoAllocLog(t)
      case AllLogged(_, _) => Unlock(t)
      case _ => Leave(t);
    assert GoesOn(cfg, s, e);
  }

  /** The longest way from a phase to the return. */
  function StepsLeft(f: Phase): nat {
    match f
    case Entered => 7
    case Waiting => 6
    case Locked(_) => 5
    case HeapDone(_, _) => 4
    case FreeLogged(_, _) => 3
    case AllLogged(_, _) => 2
    case _ => 1
  }

  function WorkLeft(frames: seq<Frame>): nat {
    if frames == [] then 0 else WorkLeft(frames[..|frames| - 1]) + StepsLeft(frames[|frames| - 1].phase)
  }

  ghost function Pending(threads: map<Tid, Thread>): nat {
    if threads == map[] then 0
    else
      var t :| t in threads;
      Pending(threads - {t}) + WorkLeft(threads[t].frames)
  }

  lemma {:induction false} PendingWithout(threads: map<Tid, Thread>, t: Tid)
    requires t in threads
    ensures Pending(threads) == Pending(threads - {t}) + WorkLeft(threads[t].frames)
    decreases |threads|
  {
    var u :| u in threads && Pending(threads) == Pending(threads - {u}) + WorkLeft(threads[u].frames);
    if u != t {
      PendingWithout(threads - {u}, t);
      PendingWithout(threads - {t}, u);
      assert threads - {u} - {t} == threads - {t} - {u};
    }
  }

  lemma PendingPut(threads: map<Tid, Thread>, t: Tid, th: Thread)
    ensures Pending(threads[t := th])
            == Pending(threads) - (if t in threads then WorkLeft(threads[t].frames) else 0) + WorkLeft(th.frames)
  {
    var put := threads[t := th];
    assert put - {t} == threads - {t};
    PendingWithout(put, t);
    if t in threads {
      PendingWithout(threads, t);
    } else {
      assert threads - {t} == threads;
    }
  }

  lemma WorkShrinks(cfg: Config, s: State, e: Step)
    requires Exclusive(s) && Enabled(s, e) && !e.Enter?
    ensures WorkLeft(Of(Do(cfg, s, e), e.t).frames) < WorkLeft(Of(s, e.t).frames)
  {
    var before, after := Of(s, e.t).frames, Of(Do(cfg, s, e), e.t).frames;
    assert after[..|before| - 1] == before[..|before| - 1];
  }

  lemma StepShrinks(cfg: Config, s: State, e: Step)
    requires Exclusive(s) && Enabled(s, e) && !e.Enter?
    ensures Pending(Do(cfg, s, e).threads) < Pending(s.threads)
  {
    WorkShrinks(cfg, s, e);
    OnlyMoverAdded(cfg, s, e);
    var s' := Do(cfg, s, e);
    assert s'.threads == s.threads[e.t := s'.threads[e.t]];
    PendingPut(s.threads, e.t, s'.threads[e.t]);
  }

  /** However the threads are scheduled, open calls need no more than the pending steps. */
  lemma {:induction false} StepsAreBounded(cfg: Config, s: State, run: seq<Step>)
    requires Exclusive(s) && Possible(cfg, s, run) && forall i :: 0 <= i < |run| ==> !run[i].Enter?
    ensures |run| + Pending(Run(cfg, s, run).threads) <= Pending(s.threads)
    ensures Exclusive(Run(cfg, s, run))
    decreases |run|
  {
    if run != [] {
      hide Exclusive, Do, Enabled, Lawful, Pending;
      DoKeepsExclusive(cfg, s, run[0]);
      StepShrinks(cfg, s, run[0]);
      StepsAreBounded(cfg, Do(cfg, s, run[0]), run[1..]);
    }
  }

  /** Every thread is outside all wrappers, and its counter is back at 0. */
  ghost predicate AllReturned(s: State) {
    forall t :: Of(s, t).frames == [] && Of(s, t).callcount == 0
  }

  lemma StuckMeansReturned(cfg: Config, s: State)
    requires Exclusive(s) && WaitersMayAsk(cfg, s) && forall e :: !GoesOn(cfg, s, e)
    ensures AllReturned(s)
  {
    forall t
      ensures Of(s, t).frames == []
    {
      if s.owner.HeldBy? || Of(s, t).frames != [] {
        CanGoOn(cfg, s, if s.owner.HeldBy? then s.owner.t else t);
      }
    }
    assert forall t :: Guarded(Of(s, t));
  }

  /**
   * From any reachable state, however the open calls are scheduled and answered while no new one is
   * made: only so many steps are possible, and the run cannot go on exactly when every call has
   * returned. A waiting call that the program may not make is the only thing that could hold it up.
   */
  lemma EveryCallReturns(cfg: Config, before: seq<Step>, run: seq<Step>)
    requires Possible(cfg, START, before) && Possible(cfg, Run(cfg, START, before), run)
    requires forall i :: 0 <= i < |run| ==> !run[i].Enter?
    requires WaitersMayAsk(cfg, Run(cfg, Run(cfg, START, before), run))
    ensures var s := Run(cfg, START, before);
            var s' := Run(cfg, s, run);
            && |run| <= Pending(s.threads)
            && ((forall e :: !GoesOn(cfg, s', e)) <==> AllReturned(s'))
  {
    hide Exclusive, Possible, Run, Sequential, Pending, WaitersMayAsk, Lawful;
    StartsInOrder(cfg);
    RunKeepsOrder(cfg, START, before);
    var s := Run(cfg, START, before);
    StepsAreBounded(cfg, s, run);
    var s' := Run(cfg, s, run);
    if forall e :: !GoesOn(cfg, s', e) {
      StuckMeansReturned(cfg, s');
    }
  }
}
