/** The interceptors, the chain that runs them, and the instrumented client whose calls interleave. Every
    index they keep agrees with the trace of completed calls after each atomic step. */
module Middleware {
  import opened Bytes
  import opened CallStats

  class MethodStats {
    var callCount: nat
    var errorCount: nat
    var totalMs: real
    var minMs: Option<real>
    var maxMs: real

    function Value(): Stats
      reads this
    {
      Stats(callCount, errorCount, totalMs, minMs, maxMs)
    }

    constructor ()
      ensures Value() == Stats(0, 0, 0.0, None, 0.0)
    {
      callCount, errorCount, totalMs, minMs, maxMs := 0, 0, 0.0, None, 0.0;
    }

    method Record(elapsedMs: real, isError: bool)
      modifies this
      ensures Value() == Add(old(Value()), elapsedMs, isError)
    {
      callCount := callCount + 1;
      if isError {
        errorCount := errorCount + 1;
      }
      totalMs := totalMs + elapsedMs;
      minMs := Some(Least(minMs, elapsedMs));
      if maxMs < elapsedMs {
        maxMs := elapsedMs;
      }
    }
  }

  class TimingInterceptor {
    var stats: map<string, MethodStats>

    /** One statistics object per called method, each holding that method's statistics. */
    ghost predicate Shows(trace: seq<Call>)
      reads this, stats.Values
    {
      && (forall m, m' :: m in stats && m' in stats && m != m' ==> stats[m] != stats[m'])
      && (forall m :: m in stats <==> Called(trace, m))
      && (forall m :: m in stats ==> stats[m].Value() == StatsOf(trace, m))
    }

    constructor ()
      ensures Shows([]) && fresh(stats.Values)
    {
      stats := map[];
    }

    method After(call: Call, ghost trace: seq<Call>)
      requires Shows(trace)
      modifies this, stats.Values
      ensures Shows(trace + [call]) && fresh(stats.Values - old(stats.Values))
    {
      CalledMore(trace, call);
      if call.name !in stats {
        var created := new MethodStats();
        NeverCalled(trace, call.name);
        stats := stats[call.name := created];
      }
      forall m ensures StatsOf(trace + [call], m) ==
                       if call.name == m then Add(StatsOf(trace, m), call.elapsed, call.error.Some?)
                         else StatsOf(trace, m) {
        OneMore(trace, call, m, 0);
      }
      stats[call.name].Record(call.elapsed, call.error.Some?);
    }
  }

  lemma CalledMore(trace: seq<Call>, call: Call)
    ensures forall m :: Called(trace + [call], m) <==> Called(trace, m) || m == call.name
  {
    forall m ensures Called(trace + [call], m) <==> Called(trace, m) || m == call.name {
      assert (trace + [call])[|trace|] == call;
      if Called(trace, m) {
        var i :| 0 <= i < |trace| && trace[i].name == m;
        assert (trace + [call])[i].name == m;
      }
    }
  }

  lemma {:induction false} NeverCalled(trace: seq<Call>, name: string)
    requires !Called(trace, name)
    ensures StatsOf(trace, name) == Stats(0, 0, 0.0, None, 0.0)
  {
    if trace != [] {
      assert trace[|trace| - 1].name != name;
      assert forall i :: 0 <= i < |trace| - 1 ==> trace[..|trace| - 1][i] == trace[i];
      NeverCalled(trace[..|trace| - 1], name);
    }
  }

  class RecordingInterceptor {
    var records: seq<Call>
    const max: int

    /** The records are the first `max` calls of the trace; a negative bound keeps none. */
    ghost predicate Shows(trace: seq<Call>)
      reads this
    {
      records <= trace && |records| == if max < 0 then 0 else if |trace| < max then |trace| else max
    }

    constructor (max: int)
      ensures Shows([]) && this.max == max
    {
      this.max := max;
      records := [];
    }

    method After(call: Call, ghost trace: seq<Call>)
      requires Shows(trace)
      modifies this
      ensures Shows(trace + [call])
    {
      if |records| < max {
        PrefixExtends(records, trace + [call], call);
        records := records + [call];
      }
    }
  }

  /** `counts[key] += 1` on a `defaultdict(int)` */
  function Bump(counts: map<int, nat>, key: int): map<int, nat> {
    counts[key := (if key in counts then counts[key] else 0) + 1]
  }

  /** `counts` holds the non-zero values of `f`. */
  ghost predicate Tabulates(counts: map<int, nat>, f: int -> nat) {
    && (forall c :: c in counts <==> f(c) > 0)
    && (forall c :: c in counts ==> counts[c] == f(c))
  }

  lemma BumpTabulates(counts: map<int, nat>, f: int -> nat, g: int -> nat, key: int)
    requires Tabulates(counts, f) && forall c :: g(c) == f(c) + (if c == key then 1 else 0)
    ensures Tabulates(Bump(counts, key), g)
  {
  }

  /** `byMethod` holds, per method that failed, its code counts. */
  ghost predicate RowsShow(byMethod: map<string, map<int, nat>>, trace: seq<Call>) {
    && (forall m :: m in byMethod ==> Tabulates(byMethod[m], c => MethodCodeCount(trace, m, c)))
    && (forall m, c :: m !in byMethod ==> MethodCodeCount(trace, m, c) == 0)
  }

  ghost predicate CodesShow(byCode: map<int, nat>, trace: seq<Call>) {
    Tabulates(byCode, c => CodeCount(trace, c))
  }

  lemma CodesBump(byCode: map<int, nat>, trace: seq<Call>, call: Call)
    requires CodesShow(byCode, trace)
    ensures CodesShow(if call.error.Some? then Bump(byCode, Code(call.error.value)) else byCode, trace + [call])
  {
    CountsStep(trace, call);
    if call.error.Some? {
      BumpTabulates(byCode, c => CodeCount(trace, c), c => CodeCount(trace + [call], c), Code(call.error.value));
    }
  }

  lemma RowsBump(byMethod: map<string, map<int, nat>>, trace: seq<Call>, call: Call, row: map<int, nat>)
    requires RowsShow(byMethod, trace) && call.error.Some?
    requires row == if call.name in byMethod then byMethod[call.name] else map[]
    ensures RowsShow(byMethod[call.name := Bump(row, Code(call.error.value))], trace + [call])
  {
    CountsStep(trace, call);
    assert Tabulates(row, c => MethodCodeCount(trace, call.name, c));
    BumpTabulates(row, c => MethodCodeCount(trace, call.name, c), c => MethodCodeCount(trace + [call], call.name, c),
      Code(call.error.value));
  }

  lemma RowsKept(byMethod: map<string, map<int, nat>>, trace: seq<Call>, call: Call)
    requires RowsShow(byMethod, trace) && call.error.None?
    ensures RowsShow(byMethod, trace + [call])
  {
    CountsStep(trace, call);
  }

  class ErrorClassifier {
    var byCode: map<int, nat>
    var byMethod: map<string, map<int, nat>>

    ghost predicate Shows(trace: seq<Call>)
      reads this
    {
      CodesShow(byCode, trace) && RowsShow(byMethod, trace)
    }

    constructor ()
      ensures Shows([])
    {
      byCode, byMethod := map[], map[];
    }

    method After(call: Call, ghost trace: seq<Call>)
      requires Shows(trace)
      modifies this
      ensures Shows(trace + [call])
    {
      CodesBump(byCode, trace, call);
      if call.error.Some? {
        var code := Code(call.error.value);
        byCode := Bump(byCode, code);
        var row := if call.name in byMethod then byMethod[call.name] else map[];
        RowsBump(byMethod, trace, call, row);
        byMethod := byMethod[call.name := Bump(row, code)];
      } else {
        RowsKept(byMethod, trace, call);
      }
    }
  }

  lemma CountsStep(trace: seq<Call>, call: Call)
    ensures forall c :: CodeCount(trace + [call], c) == CodeCount(trace, c) + (if HasCode(call, c) then 1 else 0)
    ensures forall m, c :: MethodCodeCount(trace + [call], m, c) ==
                           MethodCodeCount(trace, m, c) + (if call.name == m && HasCode(call, c) then 1 else 0)
  {
    forall m, c
      ensures CodeCount(trace + [call], c) == CodeCount(trace, c) + (if HasCode(call, c) then 1 else 0)
      ensures MethodCodeCount(trace + [call], m, c) == MethodCodeCount(trace, m, c) + (if call.name == m
              && HasCode(call, c) then 1 else 0)
    {
      OneMore(trace, call, m, c);
    }
  }

  /** The default chain: timing, recording, error classification, run in that order. `trace` is the
      sequence of calls it was shown. */
  class MiddlewareChain {
    const timing: TimingInterceptor
    const recording: RecordingInterceptor
    const classifier: ErrorClassifier
    ghost var trace: seq<Call>

    ghost predicate Valid()
      reads this, timing, timing.stats.Values, recording, classifier
    {
      timing.Shows(trace) && recording.Shows(trace) && classifier.Shows(trace)
    }

    constructor (maxRecords: int)
      ensures Valid() && trace == [] && recording.max == maxRecords
      ensures fresh(timing) && fresh(timing.stats.Values) && fresh(recording) && fresh(classifier)
    {
      timing := new TimingInterceptor();
      recording := new RecordingInterceptor(maxRecords);
      classifier := new ErrorClassifier();
      trace := [];
    }

    /** No interceptor suspends, so this is one atomic step. */
    method RunAfter(call: Call)
      requires Valid()
      modifies this, timing, timing.stats.Values, recording, classifier
      ensures Valid() && trace == old(trace) + [call]
      ensures fresh(timing.stats.Values - old(timing.stats.Values))
    {
      timing.After(call, trace);
      recording.After(call, trace);
      classifier.After(call, trace);
      trace := trace + [call];
    }
  }

  function Lookup(counts: map<int, nat>, code: int): nat {
    if code in counts then counts[code] else 0
  }

  /** `by_method[name][code]`, zero where there is none. */
  function Cell(byMethod: map<string, map<int, nat>>, name: string, code: int): nat {
    if name in byMethod then Lookup(byMethod[name], code) else 0
  }

  lemma CellsCount(classifier: ErrorClassifier, trace: seq<Call>)
    requires classifier.Shows(trace)
    ensures forall m, c :: Cell(classifier.byMethod, m, c) == MethodCodeCount(trace, m, c)
    ensures forall c :: Lookup(classifier.byCode, c) == CodeCount(trace, c)
    ensures forall i :: 0 <= i < |trace| && trace[i].error.Some? ==>
              Code(trace[i].error.value) in classifier.byCode && trace[i].name in classifier.byMethod
  {
    forall i | 0 <= i < |trace| && trace[i].error.Some?
      ensures Code(trace[i].error.value) in classifier.byCode && trace[i].name in classifier.byMethod
    {
      Occurs(trace, i);
    }
  }

  /** The independent indexes tell the same story: a method's code counts sum to the error count of its
      timing statistics, and a code's counts over the methods sum to its overall count. */
  lemma IndexesAgree(chain: MiddlewareChain, name: string, code: int)
    requires chain.Valid()
    ensures var byMethod := chain.classifier.byMethod;
            Sum(chain.classifier.byCode.Keys, c => Cell(byMethod, name, c)) ==
            if name in chain.timing.stats then chain.timing.stats[name].errorCount else 0
    ensures var byMethod := chain.classifier.byMethod;
            Sum(byMethod.Keys, m => Cell(byMethod, m, code)) == Lookup(chain.classifier.byCode, code)
  {
    var trace, byMethod, codes := chain.trace, chain.classifier.byMethod, chain.classifier.byCode.Keys;
    CellsCount(chain.classifier, trace);
    CodesSumToErrors(trace, name, codes);
    SumSame(codes, c => MethodCodeCount(trace, name, c), c => Cell(byMethod, name, c));
    MethodsSumToCodes(trace, code, byMethod.Keys);
    SumSame(byMethod.Keys, m => MethodCodeCount(trace, m, code), m => Cell(byMethod, m, code));
    ErrorCountOf(chain.timing, trace, name);
  }

  lemma ErrorCountOf(timing: TimingInterceptor, trace: seq<Call>, name: string)
    requires timing.Shows(trace)
    ensures StatsOf(trace, name).errors == if name in timing.stats then timing.stats[name].errorCount else 0
  {
    if name !in timing.stats {
      NeverCalled(trace, name);
    } else {
      assert timing.stats[name].Value() == StatsOf(trace, name);
    }
  }

  lemma {:induction false} Occurs(trace: seq<Call>, i: nat)
    requires i < |trace| && trace[i].error.Some?
    ensures CodeCount(trace, Code(trace[i].error.value)) > 0
    ensures MethodCodeCount(trace, trace[i].name, Code(trace[i].error.value)) > 0
  {
    if i < |trace| - 1 {
      assert trace[..|trace| - 1][i] == trace[i];
      Occurs(trace[..|trace| - 1], i);
    }
  }

  // ----- Instrumented calls -----

  /** `request(raw=...)`, or `request_raw`. */
  datatype Mode = Request(raw: bool) | RequestRaw

  /** What the wrapped client does: it returns a response, perhaps with an error code, or raises. */
  datatype BaseOutcome = Response(result: string, code: Option<int>) | Exception

  /** What the caller of the instrumented client sees. */
  datatype Visible = Returns(result: string) | Raises

  /** Only `request(raw=False)` unwraps an error response into an exception. */
  function CallerSees(mode: Mode, outcome: BaseOutcome): Visible {
    match outcome
    case Exception => Raises
    case Response(result, code) => if code.Some? && mode == Request(false) then Raises else Returns(result)
  }

  /** The error data handed to the middleware: an exception is recorded with code -1, so an unwrapped
      error response loses its own code. */
  function ErrorData(mode: Mode, outcome: BaseOutcome): Option<Option<int>> {
    match outcome
    case Exception => Some(Some(-1))
    case Response(_, code) =>
      if code.None? then None
      else if mode == Request(false) then Some(Some(-1))
      else Some(code)
  }

  datatype Pending = Pending(name: string, mode: Mode, start: real)

  function Finished(call: Pending, outcome: BaseOutcome, now: real): Call {
    Call(call.name, if CallerSees(call.mode, outcome).Returns? then outcome.result else "", ErrorData(call.mode,
      outcome),
         (now - call.start) * 1000.0)
  }

  /** A step of the event loop: a call starts and suspends, or a suspended call resumes and ends. */
  datatype Event = Begin(id: nat, name: string, mode: Mode, now: real) | End(id: nat, outcome: BaseOutcome, now: real)

  datatype System = System(pending: map<nat, Pending>, trace: seq<Call>)

  function SystemAfter(events: seq<Event>): System {
    if events == [] then System(map[], [])
    else
      var s := SystemAfter(events[..|events| - 1]);
      SystemStep(s, events[|events| - 1])
  }

  function SystemStep(s: System, e: Event): System {
    match e
    case Begin(id, name, mode, now) =>
      if id in s.pending then s else s.(pending := s.pending[id := Pending(name, mode, now)])
    case End(id, outcome, now) =>
      if id !in s.pending then s
      else System(s.pending - {id}, s.trace + [Finished(s.pending[id], outcome, now)])
  }

  // ----- What a trace entry is -----

  /** The entry of a call to `name` in `mode` that ran from `start` to `now`: its time in milliseconds, its
      error and its result. An exception, also one raised by unwrapping an error response, is recorded as -1
      with no result. */
  predicate Records(entry: Call, name: string, mode: Mode, start: real, outcome: BaseOutcome, now: real) {
    && entry.name == name
    && entry.elapsed == 1000.0 * (now - start)
    && match outcome
       case Exception => entry.error == Some(Some(-1)) && entry.result == ""
       case Response(result, None) => entry.error == None && entry.result == result
       case Response(result, Some(code)) =>
         if mode == Request(false) then entry.error == Some(Some(-1)) && entry.result == ""
         else entry.error == Some(Some(code)) && entry.result == result
  }

  /** The caller gets an exception for an exception and for an unwrapped error, else the response. */
  predicate Delivers(visible: Visible, mode: Mode, outcome: BaseOutcome) {
    match outcome
    case Exception => visible == Raises
    case Response(result, code) =>
      if code.Some? && mode == Request(false) then visible == Raises else visible == Returns(result)
  }

  lemma FinishedRecords(call: Pending, outcome: BaseOutcome, now: real)
    ensures Records(Finished(call, outcome, now), call.name, call.mode, call.start, outcome, now)
  {
  }

  /** Event `b` begins a call that is still running before event `n`. */
  ghost predicate Running(events: seq<Event>, b: nat, n: nat) {
    && b < n <= |events| && events[b].Begin?
    && forall m :: b < m < n && events[m].End? ==> events[m].id != events[b].id
  }

  /** `entry` is the entry of the call that event `b` began and event `n` ended. */
  ghost predicate Completes(events: seq<Event>, b: nat, n: nat, entry: Call) {
    && n < |events| && Running(events, b, n) && events[n].End? && events[n].id == events[b].id
    && Records(entry, events[b].name, events[b].mode, events[b].now, events[n].outcome, events[n].now)
  }

  ghost predicate Began(events: seq<Event>, id: nat, call: Pending) {
    exists b: nat :: Running(events, b, |events|) && events[b] == Begin(id, call.name, call.mode, call.start)
  }

  ghost predicate Completed(events: seq<Event>, entry: Call) {
    exists b: nat, n: nat :: Completes(events, b, n, entry)
  }

  lemma BeganLater(events: seq<Event>, e: Event, id: nat, call: Pending)
    requires Began(events, id, call) && !(e.End? && e.id == id)
    ensures Began(events + [e], id, call)
  {
    var b: nat :| Running(events, b, |events|) && events[b] == Begin(id, call.name, call.mode, call.start);
    assert Running(events + [e], b, |events + [e]|);
  }

  lemma CompletedLater(events: seq<Event>, e: Event, entry: Call)
    requires Completed(events, entry)
    ensures Completed(events + [e], entry)
  {
    var b: nat, n: nat :| Completes(events, b, n, entry);
    assert Running(events + [e], b, n);
    assert Completes(events + [e], b, n, entry);
  }

  lemma EndCompletes(events: seq<Event>, id: nat, call: Pending, outcome: BaseOutcome, now: real)
    requires Began(events, id, call)
    ensures Completed(events + [End(id, outcome, now)], Finished(call, outcome, now))
  {
    var e := End(id, outcome, now);
    var b: nat :| Running(events, b, |events|) && events[b] == Begin(id, call.name, call.mode, call.start);
    FinishedRecords(call, outcome, now);
    assert Running(events + [e], b, |events|);
    assert Completes(events + [e], b, |events|, Finished(call, outcome, now));
  }

  lemma NewBegan(events: seq<Event>, id: nat, call: Pending)
    ensures Began(events + [Begin(id, call.name, call.mode, call.start)], id, call)
  {
    var longer := events + [Begin(id, call.name, call.mode, call.start)];
    assert Running(longer, |events|, |longer|);
  }

  /** In every interleaving each trace entry is the entry of one call: it carries the name, the mode and the
      start of the event that began it, and the outcome and the time of the event that ended it. */
  lemma {:induction false} TraceRecordsCalls(events: seq<Event>)
    ensures forall id :: id in SystemAfter(events).pending ==> Began(events, id, SystemAfter(events).pending[id])
    ensures forall k :: 0 <= k < |SystemAfter(events).trace| ==> Completed(events, SystemAfter(events).trace[k])
  {
    if events != [] {
      var before, e := events[..|events| - 1], events[|events| - 1];
      var s, s' := SystemAfter(before), SystemAfter(events);
      TraceRecordsCalls(before);
      assert events == before + [e];
      forall id | id in s'.pending ensures Began(events, id, s'.pending[id]) {
        if id in s.pending {
          BeganLater(before, e, id, s.pending[id]);
        } else {
          NewBegan(before, id, s'.pending[id]);
        }
      }
      forall k | 0 <= k < |s'.trace| ensures Completed(events, s'.trace[k]) {
        if k < |s.trace| {
          CompletedLater(before, e, s.trace[k]);
        } else {
          EndCompletes(before, e.id, s.pending[e.id], e.outcome, e.now);
        }
      }
    }
  }

  /** With a clock that never goes back, no recorded time is negative. */
  lemma TimesAreNotNegative(events: seq<Event>, k: nat)
    requires forall i, j :: 0 <= i < j < |events| ==> events[i].now <= events[j].now
    requires k < |SystemAfter(events).trace|
    ensures SystemAfter(events).trace[k].elapsed >= 0.0
  {
    TraceRecordsCalls(events);
    var entry := SystemAfter(events).trace[k];
    var b: nat, n: nat :| Completes(events, b, n, entry);
    assert events[b].now <= events[n].now;
  }

  lemma NextSystem(events: seq<Event>, n: nat)
    requires n < |events|
    ensures SystemAfter(events[..n + 1]) == SystemStep(SystemAfter(events[..n]), events[n])
  {
    assert events[..n + 1][..n] == events[..n];
  }

  class InstrumentedRpcClient {
    const middleware: MiddlewareChain
    var pending: map<nat, Pending>

    constructor (maxRecords: int)
      ensures middleware.Valid() && middleware.trace == [] && pending == map[]
      ensures middleware.recording.max == maxRecords
      ensures fresh(middleware) && fresh(middleware.timing) && fresh(middleware.timing.stats.Values)
      ensures fresh(middleware.recording) && fresh(middleware.classifier)
    {
      middleware := new MiddlewareChain(maxRecords);
      pending := map[];
    }

    /** The call up to its suspension: `run_before` does nothing and the clock is read. */
    method BeginCall(id: nat, name: string, mode: Mode, now: real)
      requires id !in pending
      modifies this
      ensures pending == old(pending)[id := Pending(name, mode, now)]
    {
      pending := pending[id := Pending(name, mode, now)];
    }

    /** The call from its resumption: try, except, finally. The middleware runs exactly once, whether the
        call returns or raises, and does not change which it does. */
    method EndCall(id: nat, outcome: BaseOutcome, now: real) returns (visible: Visible)
      requires id in pending && middleware.Valid()
      modifies this, middleware, middleware.timing, middleware.timing.stats.Values, middleware.recording,
        middleware.classifier
      ensures middleware.Valid() && fresh(middleware.timing.stats.Values - old(middleware.timing.stats.Values))
      ensures pending == old(pending) - {id}
      ensures middleware.trace == old(middleware.trace) + [Finished(old(pending)[id], outcome, now)]
      ensures var call := old(pending)[id];
              && Records(middleware.trace[|old(middleware.trace)|], call.name, call.mode, call.start, outcome, now)
              && Delivers(visible, call.mode, outcome)
      ensures middleware.trace[|old(middleware.trace)|].error.None? ==> visible.Returns?
    {
      FinishedRecords(pending[id], outcome, now);
      var call := pending[id];
      pending := pending - {id};
      var errorData: Option<Option<int>> := None;
      var result := "";
      match outcome {
        case Response(returned, code) =>
          if code.Some? && call.mode == Request(false) {
            errorData, visible := Some(Some(-1)), Raises;
          } else {
            if code.Some? {
              errorData := Some(code);
            }
            result, visible := returned, Returns(returned);
          }
        case Exception =>
          errorData, visible := Some(Some(-1)), Raises;
      }
      middleware.RunAfter(Call(call.name, result, errorData, (now - call.start) * 1000.0));
    }

    /** One step of the event loop. */
    method Resume(e: Event)
      requires middleware.Valid()
      modifies this, middleware, middleware.timing, middleware.timing.stats.Values, middleware.recording,
        middleware.classifier
      ensures middleware.Valid() && fresh(middleware.timing.stats.Values - old(middleware.timing.stats.Values))
      ensures System(pending, middleware.trace) == SystemStep(old(System(pending, middleware.trace)), e)
    {
      match e {
        case Begin(id, name, mode, now) =>
          if id !in pending {
            BeginCall(id, name, mode, now);
          }
        case End(id, outcome, now) =>
          if id in pending {
            var _ := EndCall(id, outcome, now);
          }
      }
    }

    /** Every interleaving of instrumented calls: after each event all indexes show exactly the calls
        completed so far. */
    method Interleave(events: seq<Event>)
      requires middleware.Valid() && middleware.trace == [] && pending == map[]
      modifies this, middleware, middleware.timing, middleware.timing.stats.Values, middleware.recording,
        middleware.classifier
      ensures middleware.Valid() && System(pending, middleware.trace) == SystemAfter(events)
    {
      for n := 0 to |events|
        invariant middleware.Valid() && System(pending, middleware.trace) == SystemAfter(events[..n])
        invariant fresh(middleware.timing.stats.Values - old(middleware.timing.stats.Values))
      {
        NextSystem(events, n);
        Resume(events[n]);
      }
      assert events[..|events|] == events;
    }
  }

  /** Two interleavings that complete the same calls leave the same statistics and the same counts; only
      the order of the recorded calls can differ. */
  lemma InterleavingIsIrrelevant(events: seq<Event>, events': seq<Event>, name: string, code: int)
    requires multiset(SystemAfter(events).trace) == multiset(SystemAfter(events').trace)
    ensures StatsOf(SystemAfter(events).trace, name) == StatsOf(SystemAfter(events').trace, name)
    ensures CodeCount(SystemAfter(events).trace, code) == CodeCount(SystemAfter(events').trace, code)
    ensures MethodCodeCount(SystemAfter(events).trace, name, code) == MethodCodeCount(SystemAfter(events').trace,
            name, code)
  {
    CompletionOrderIsIrrelevant(SystemAfter(events).trace, SystemAfter(events').trace, name, code);
  }

  /** A call is counted as an error exactly when the wrapped client raised or answered with an error; its
      own code is kept exactly when the call does not unwrap responses, or the code is the -1 that exceptions
      are recorded with. */
  lemma RecordedErrors(call: Pending, outcome: BaseOutcome, now: real)
    ensures Finished(call, outcome, now).error.Some? <==> outcome.Exception? || outcome.code.Some?
    ensures outcome.Response? && outcome.code.Some? ==>
              (HasCode(Finished(call, outcome, now), outcome.code.value) <==>
               call.mode != Request(false) || outcome.code.value == -1)
  {
  }

  lemma OneCall(id: nat, call: Pending, outcome: BaseOutcome, now: real)
    ensures SystemAfter([Begin(id, call.name, call.mode, call.start), End(id, outcome, now)]).trace ==
            [Finished(call, outcome, now)]
  {
    var events := [Begin(id, call.name, call.mode, call.start), End(id, outcome, now)];
    assert events[..0] == [] && events[..2] == events;
    NextSystem(events, 0);
    assert SystemAfter(events[..1]) == System(map[id := call], []);
    NextSystem(events, 1);
  }

  lemma OneCode(call: Call, code: int)
    ensures CodeCount([call], code) == if HasCode(call, code) then 1 else 0
  {
    assert [call][..0] == [];
  }

  /** An unwrapped -32601 is counted as -1. */
  lemma UnwrappedCodeIsLost()
    ensures var events := [Begin(0, "getSlot", Request(false), 0.0), End(0, Response("", Some(-32601)), 1.0)];
            var trace := SystemAfter(events).trace;
            CodeCount(trace, -32601) == 0 && CodeCount(trace, -1) == 1
  {
    var call, outcome := Pending("getSlot", Request(false), 0.0), Response("", Some(-32601));
    OneCall(0, call, outcome, 1.0);
    RecordedErrors(call, outcome, 1.0);
    OneCode(Finished(call, outcome, 1.0), -32601);
    OneCode(Finished(call, outcome, 1.0), -1);
  }
}
