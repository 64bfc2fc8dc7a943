/** The tracking log as a state machine over values (src/hulog.cpp); the class Hulog takes these steps. */
module LogModel {
  import opened Machine
  import opened Layout

  type Stack = seq<Addr>

  /** hu_allocinfo_t: one tracked block. */
  datatype Entry = Entry(ptr: Addr, size: nat, callstack: Stack, freeCallstack: Stack)

  /** One "Invalid deallocation" record of the log file. */
  datatype Report = Report(at: Stack, block: Entry)

  datatype Log = Log(
    live: map<Addr, Entry>,
    freed: map<Addr, Entry>,
    totalAllocs: nat,
    totalFrees: nat,
    totalBytes: nat,
    currentBytes: nat,
    peakBytes: nat,
    invalidFrees: nat,
    reported: set<Stack>,
    reports: seq<Report>)

  const EMPTY_LOG: Log := Log(map[], map[], 0, 0, 0, 0, 0, 0, {}, [])

  /**
   * log_event(EVENT_MALLOC), log_event(EVENT_FREE) and hu_log_remove_freed_allocation, with the
   * backtrace and the verdict of log_is_valid_callstack on it as inputs.
   */
  datatype Event =
    | Alloc(ptr: Addr, size: nat, stack: Stack)
    | Dealloc(ptr: Addr, stack: Stack, valid: bool)
    | Forget(ptr: Addr)

  /** The reported callstack leaves out the innermost frame, which is log_event itself. */
  function Trim(stack: Stack): Stack { if stack == [] then [] else stack[1..] }

  function LogAlloc(cfg: Config, l: Log, ptr: Addr, size: nat, stack: Stack): Log {
    var l1 := if cfg.useafterfree || cfg.logFree then l.(freed := l.freed - {ptr}) else l;
    if size < cfg.minsize then l1
    else
      var current := Add64(l.currentBytes, size);
      l1.(live := l.live[ptr := Entry(ptr, size, stack, [])],
          totalAllocs := l.totalAllocs + 1,
          totalBytes := Add64(l.totalBytes, size),
          currentBytes := current,
          peakBytes := if l.peakBytes < current then current else l.peakBytes)
  }

  function InsertIfAbsent(m: map<Addr, Entry>, p: Addr, e: Entry): map<Addr, Entry> {
    if p in m then m else m[p := e]
  }

  function ReportInvalidFree(cfg: Config, l: Log, block: Entry, stack: Stack): Log {
    var key := Trim(stack);
    l.(invalidFrees := l.invalidFrees + 1,
       reported := l.reported + {key},
       reports := if (key !in l.reported || cfg.repeat) && cfg.fileOpens
                  then l.reports + [Report(stack, block)] else l.reports)
  }

  function LogDealloc(cfg: Config, l: Log, ptr: Addr, stack: Stack, valid: bool): Log {
    var l1 :=
      if ptr in l.live then
        var e := l.live[ptr].(freeCallstack := stack);
        l.(currentBytes := Sub64(l.currentBytes, e.size),
           freed := if cfg.useafterfree || cfg.logFree then InsertIfAbsent(l.freed, ptr, e) else l.freed,
           live := l.live - {ptr})
      else if cfg.logFree && ptr in l.freed then
        var l2 := if valid then ReportInvalidFree(cfg, l, l.freed[ptr], stack) else l;
        l2.(freed := l.freed - {ptr})
      else l;
    l1.(totalFrees := l.totalFrees + 1)
  }

  function LogForget(cfg: Config, l: Log, ptr: Addr): Log {
    if cfg.logFree then l else l.(freed := l.freed - {ptr})
  }

  function Apply(cfg: Config, l: Log, e: Event): Log {
    match e
    case Alloc(ptr, size, stack) => LogAlloc(cfg, l, ptr, size, stack)
    case Dealloc(ptr, stack, valid) => LogDealloc(cfg, l, ptr, stack, valid)
    case Forget(ptr) => LogForget(cfg, l, ptr)
  }

  /** The log after a trace of events. */
  function Replay(cfg: Config, events: seq<Event>): Log
    decreases |events|
  {
    if events == [] then EMPTY_LOG
    else
      var n := |events| - 1;
      Apply(cfg, Replay(cfg, events[..n]), events[n])
  }
}
