/**
 * The malloc/free/calloc/realloc wrappers (src/humain.cpp): an allocator step followed by log
 * steps, as functions on the combined state.
 */
module WrapperModel {
  import opened Machine
  import opened Layout
  import opened Blocks
  import opened Quarantine
  import opened HeapModel
  import opened LogModel

  datatype Sys = Sys(heap: Heap, log: Log)

  const START: Sys := Sys(EMPTY, EMPTY_LOG)

  /** A wrapper call with the system's answer and the backtraces taken while it runs. */
  datatype Call =
    | Malloc(size: nat, reply: Reply, stack: Stack)
    | Free(ptr: Addr, stack: Stack, valid: bool)
    | Calloc(nmemb: nat, size: nat, reply: Reply, stack: Stack)
    | Realloc(ptr: Addr, size: nat, reply: Reply, freeStack: Stack, valid: bool, stack: Stack)

  function OpOf(c: Call): Op {
    match c
    case Malloc(size, reply, _) => DoMalloc(size, reply)
    case Free(ptr, _, _) => DoFree(ptr)
    case Calloc(nmemb, size, reply, _) => DoCalloc(nmemb, size, reply)
    case Realloc(ptr, size, reply, _, _, _) => DoRealloc(ptr, size, reply)
  }

  /** hu_log_remove_freed_allocation for every evicted block. */
  function ForgetAll(cfg: Config, l: Log, gone: seq<AllocInfo>): Log {
    if cfg.logFree then l else l.(freed := l.freed - UserPtrs(gone))
  }

  function Freed(c: Call): Addr {
    match c
    case Free(ptr, _, _) => ptr
    case Realloc(ptr, _, _, _, _, _) => ptr
    case _ => NULL
  }

  /** hu_malloc, hu_free, hu_calloc or hu_realloc, with the log entries its evictions remove. */
  function HeapPart(cfg: Config, s: Sys, c: Call): (Sys, Addr) {
    var (h, p) :=
      match c
      case Malloc(size, reply, _) => HeapModel.Malloc(cfg, s.heap, size, reply)
      case Free(ptr, _, _) => (HeapModel.Free(cfg, s.heap, ptr), NULL)
      case Calloc(nmemb, size, reply, _) => HeapModel.Calloc(cfg, s.heap, nmemb, size, reply)
      case Realloc(ptr, size, reply, _, _, _) => HeapModel.Realloc(cfg, s.heap, ptr, size, reply);
    (Sys(h, ForgetAll(cfg, s.log, EvictedBy(cfg, s.heap, Freed(c)))), p)
  }

  /** log_event(EVENT_FREE): free logs it always, realloc only for a non-null pointer. */
  function FreeLogPart(cfg: Config, s: Sys, c: Call): Sys {
    match c
    case Free(ptr, stack, valid) => s.(log := LogDealloc(cfg, s.log, ptr, stack, valid))
    case Realloc(ptr, _, _, stack, valid, _) =>
      if ptr == NULL then s else s.(log := LogDealloc(cfg, s.log, ptr, stack, valid))
    case _ => s
  }

  /** The size under which the call logs an allocation; 0 when it logs none. */
  function LoggedSize(c: Call): nat {
    match c
    case Malloc(size, _, _) => size
    case Free(_, _, _) => 0
    case Calloc(nmemb, size, _, _) => if 0 < nmemb && 0 < size then Mul64(nmemb, size) else 0
    case Realloc(_, size, _, _, _, _) => size
  }

  predicate LogsAlloc(c: Call) {
    match c
    case Malloc(size, _, _) => 0 < size
    case Free(_, _, _) => false
    case Calloc(nmemb, size, _, _) => 0 < nmemb && 0 < size
    case Realloc(_, size, _, _, _, _) => size != 0
  }

  /** log_event(EVENT_MALLOC), also when the allocation failed and p is null. */
  function AllocLogPart(cfg: Config, s: Sys, c: Call, p: Addr): Sys {
    if LogsAlloc(c) then s.(log := LogAlloc(cfg, s.log, p, LoggedSize(c), c.stack)) else s
  }

  /** One whole wrapper call. */
  function Step(cfg: Config, s: Sys, c: Call): (Sys, Addr) {
    var (s1, p) := HeapPart(cfg, s, c);
    (AllocLogPart(cfg, FreeLogPart(cfg, s1, c), c, p), p)
  }

  /** Whatever the allocator and the program are trusted with. */
  ghost predicate LegalCall(cfg: Config, s: Sys, c: Call) {
    Legal(cfg, s.heap, OpOf(c))
  }

  /** What the program asks for, without the system's answer. */
  datatype Request =
    | AskMalloc(size: nat)
    | AskFree(ptr: Addr)
    | AskCalloc(nmemb: nat, size: nat)
    | AskRealloc(ptr: Addr, size: nat)

  function RequestOf(c: Call): Request {
    match c
    case Malloc(size, _, _) => AskMalloc(size)
    case Free(ptr, _, _) => AskFree(ptr)
    case Calloc(nmemb, size, _, _) => AskCalloc(nmemb, size)
    case Realloc(ptr, size, _, _, _, _) => AskRealloc(ptr, size)
  }

  /** A size whose computation does not wrap. */
  predicate Askable(cfg: Config, n: nat) { n < WORD && (IsFenced(cfg, n) ==> Fits(cfg, n)) }

  /** The program's share in a legal call. */
  ghost predicate MayAsk(cfg: Config, s: Sys, r: Request) {
    match r
    case AskMalloc(size) => Askable(cfg, size)
    case AskFree(ptr) => MayFree(s.heap, ptr)
    case AskCalloc(nmemb, size) =>
      && nmemb < WORD && size < WORD
      && (nmemb == 0 || Mul64(nmemb, size) / nmemb == size ==> Askable(cfg, Mul64(nmemb, size)))
    case AskRealloc(ptr, size) =>
      && MayRealloc(s.heap, ptr) && size < WORD
      && (ptr == NULL || (size != 0 && ptr in s.heap.active) ==> Askable(cfg, size))
  }

  /** The call with a system that refuses. */
  function Refusal(r: Request): (c: Call)
    ensures RequestOf(c) == r
  {
    match r
    case AskMalloc(size) => Malloc(size, Refused, [])
    case AskFree(ptr) => Free(ptr, [], true)
    case AskCalloc(nmemb, size) => Calloc(nmemb, size, Refused, [])
    case AskRealloc(ptr, size) => Realloc(ptr, size, Refused, [], true, [])
  }

  /** What the program may ask is what some answer makes legal: a refusal always does. */
  lemma RefusalIsLegal(cfg: Config, s: Sys, r: Request)
    ensures LegalCall(cfg, s, Refusal(r)) <==> MayAsk(cfg, s, r)
    ensures forall c :: RequestOf(c) == r && LegalCall(cfg, s, c) ==> MayAsk(cfg, s, r)
  {
    hide Fits, Mul64;
  }

  /** realloc only of null or of fenced blocks. */
  predicate FencedOnly(s: Sys, c: Call) {
    c.Realloc? ==> c.ptr == NULL || c.ptr in s.heap.active
  }

  ghost predicate LegalCalls(cfg: Config, s: Sys, calls: seq<Call>)
    decreases |calls|
  {
    calls == [] || (LegalCall(cfg, s, calls[0]) && LegalCalls(cfg, Step(cfg, s, calls[0]).0, calls[1..]))
  }

  predicate FencedOnlyCalls(cfg: Config, s: Sys, calls: seq<Call>)
    decreases |calls|
  {
    calls == [] || (FencedOnly(s, calls[0]) && FencedOnlyCalls(cfg, Step(cfg, s, calls[0]).0, calls[1..]))
  }

  function RunCalls(cfg: Config, s: Sys, calls: seq<Call>): Sys
    decreases |calls|
  {
    if calls == [] then s else RunCalls(cfg, Step(cfg, s, calls[0]).0, calls[1..])
  }

  lemma {:induction false} OneMoreCall(cfg: Config, s: Sys, calls: seq<Call>, c: Call)
    ensures var before := RunCalls(cfg, s, calls);
            && RunCalls(cfg, s, calls + [c]) == Step(cfg, before, c).0
            && (LegalCalls(cfg, s, calls + [c]) <==> LegalCalls(cfg, s, calls) && LegalCall(cfg, before, c))
            && (FencedOnlyCalls(cfg, s, calls + [c]) <==> FencedOnlyCalls(cfg, s, calls) && FencedOnly(before, c))
    decreases |calls|
  {
    hide Step, LegalCall, FencedOnly;
    if calls == [] {
      assert [] + [c] == [c] && [c][1..] == [];
    } else {
      assert (calls + [c])[1..] == calls[1..] + [c];
      OneMoreCall(cfg, Step(cfg, s, calls[0]).0, calls[1..], c);
    }
  }

  /** The allocator's share of a legal call is the operation it stands for, with its result. */
  lemma HeapPartIsOperation(cfg: Config, s: Sys, c: Call)
    requires LegalCall(cfg, s, c)
    ensures (HeapPart(cfg, s, c).0.heap, HeapPart(cfg, s, c).1) == HeapModel.Step(cfg, s.heap, OpOf(c))
    ensures Step(cfg, s, c).0.heap == HeapPart(cfg, s, c).0.heap && Step(cfg, s, c).1 == HeapPart(cfg, s, c).1
  {
    hide HeapModel.Malloc, HeapModel.Free, HeapModel.Calloc, HeapModel.Realloc, LogAlloc, LogDealloc;
  }
}
