/** What the call statistics mean: functions of the trace of completed calls. */
module CallStats {
  import opened Bytes

  /** A completed call; `error` is the error data, whose code may be absent. */
  datatype Call = Call(name: string, result: string, error: Option<Option<int>>, elapsed: real)

  /** `error.get("code", -1)` */
  function Code(error: Option<int>): int {
    if error.Some? then error.value else -1
  }

  predicate HasCode(call: Call, code: int) {
    call.error.Some? && Code(call.error.value) == code
  }

  // ----- Per-method statistics -----

  /** `min` is infinite before the first call. */
  datatype Stats = Stats(calls: nat, errors: nat, total: real, min: Option<real>, max: real)

  function Least(min: Option<real>, x: real): real {
    if min.Some? && min.value <= x then min.value else x
  }

  /** The statistics after one more call. */
  function Add(s: Stats, elapsed: real, isError: bool): Stats {
    Stats(s.calls + 1, if isError then s.errors + 1 else s.errors, s.total + elapsed,
          Some(Least(s.min, elapsed)), if s.max < elapsed then elapsed else s.max)
  }

  function StatsOf(trace: seq<Call>, name: string): Stats {
    if trace == [] then Stats(0, 0, 0.0, None, 0.0)
    else
      var before, call := StatsOf(trace[..|trace| - 1], name), trace[|trace| - 1];
      if call.name == name then Add(before, call.elapsed, call.error.Some?) else before
  }

  predicate Called(trace: seq<Call>, name: string) {
    exists i :: 0 <= i < |trace| && trace[i].name == name
  }

  /** Number of calls of the trace that `p` selects. */
  function Count(trace: seq<Call>, p: Call -> bool): nat {
    if trace == [] then 0
    else Count(trace[..|trace| - 1], p) + (if p(trace[|trace| - 1]) then 1 else 0)
  }

  function TotalOf(trace: seq<Call>, name: string): real {
    if trace == [] then 0.0
    else TotalOf(trace[..|trace| - 1],
      name) + (if trace[|trace| - 1].name == name then trace[|trace| - 1].elapsed else 0.0)
  }

  /** The incremental statistics are what they are called: counts of the method's calls and failed
      calls, the sum, the least and the greatest of their times. */
  lemma {:induction false} StatsMeaning(trace: seq<Call>, name: string)
    requires forall i :: 0 <= i < |trace| ==> trace[i].elapsed >= 0.0
    ensures var s := StatsOf(trace, name);
            && s.calls == Count(trace, (c: Call) => c.name == name)
            && s.errors == Count(trace, (c: Call) => c.name == name && c.error.Some?)
            && s.total == TotalOf(trace, name)
            && (s.min.Some? <==> Called(trace, name))
            && (s.calls > 0 <==> Called(trace, name))
            && (forall i :: 0 <= i < |trace| && trace[i].name == name ==>
              s.min.Some? && s.min.value <= trace[i].elapsed <= s.max)
            && (s.min.Some? ==>
                  && (exists i :: 0 <= i < |trace| && trace[i].name == name && trace[i].elapsed == s.min.value)
                  && (exists i :: 0 <= i < |trace| && trace[i].name == name && trace[i].elapsed == s.max))
            && (s.min.None? ==> s.max == 0.0)
  {
    if trace != [] {
      var n := |trace| - 1;
      StatsMeaning(trace[..n], name);
      var before, s := StatsOf(trace[..n], name), StatsOf(trace, name);
      assert forall i :: 0 <= i < n ==> trace[..n][i] == trace[i];
      if trace[n].name == name {
        if before.min.Some? {
          var lo :| 0 <= lo < n && trace[..n][lo].name == name && trace[..n][lo].elapsed == before.min.value;
          var hi :| 0 <= hi < n && trace[..n][hi].name == name && trace[..n][hi].elapsed == before.max;
          assert trace[lo].elapsed == s.min.value || trace[n].elapsed == s.min.value;
          assert trace[hi].elapsed == s.max || trace[n].elapsed == s.max;
        } else {
          assert trace[n].elapsed == s.min.value && trace[n].elapsed == s.max;
        }
      } else if before.min.Some? {
        var lo :| 0 <= lo < n && trace[..n][lo].name == name && trace[..n][lo].elapsed == before.min.value;
        var hi :| 0 <= hi < n && trace[..n][hi].name == name && trace[..n][hi].elapsed == before.max;
        assert trace[lo].elapsed == s.min.value && trace[hi].elapsed == s.max;
      }
    }
  }

  // ----- Error codes -----

  function CodeCount(trace: seq<Call>, code: int): nat {
    if trace == [] then 0
    else CodeCount(trace[..|trace| - 1], code) + (if HasCode(trace[|trace| - 1], code) then 1 else 0)
  }

  function MethodCodeCount(trace: seq<Call>, name: string, code: int): nat {
    if trace == [] then 0
    else
      MethodCodeCount(trace[..|trace| - 1], name, code)
      + (if trace[|trace| - 1].name == name && HasCode(trace[|trace| - 1], code) then 1 else 0)
  }

  /** The call failed, and its code is `code`; an error without a code counts as -1. */
  predicate FailedWith(call: Call, code: int) {
    call.error == Some(Some(code)) || (call.error == Some(None) && code == -1)
  }

  /** The counts are numbers of calls. */
  lemma {:induction false} CodesMeaning(trace: seq<Call>, name: string, code: int)
    ensures CodeCount(trace, code) == Count(trace, c => FailedWith(c, code))
    ensures MethodCodeCount(trace, name, code) == Count(trace, (c: Call) => c.name == name && FailedWith(c, code))
  {
    if trace != [] {
      CodesMeaning(trace[..|trace| - 1], name, code);
    }
  }

  /** Sum of `f` over a set of keys. */
  ghost function Sum<T>(keys: set<T>, f: T -> nat): nat {
    if keys == {} then 0
    else
      var k :| k in keys;
      f(k) + Sum(keys - {k}, f)
  }

  lemma {:induction false} SumTakeOut<T>(keys: set<T>, f: T -> nat, k: T)
    requires k in keys
    ensures Sum(keys, f) == f(k) + Sum(keys - {k}, f)
    decreases |keys|
  {
    var first :| first in keys && Sum(keys, f) == f(first) + Sum(keys - {first}, f);
    if first != k {
      SumTakeOut(keys - {first}, f, k);
      SumTakeOut(keys - {k}, f, first);
      assert keys - {first} - {k} == keys - {k} - {first};
    }
  }

  lemma {:induction false} SumSame<T>(keys: set<T>, f: T -> nat, g: T -> nat)
    requires forall k :: k in keys ==> f(k) == g(k)
    ensures Sum(keys, f) == Sum(keys, g)
    decreases |keys|
  {
    if keys != {} {
      var k :| k in keys;
      SumTakeOut(keys, f, k);
      SumTakeOut(keys, g, k);
      SumSame(keys - {k}, f, g);
    }
  }

  lemma {:induction false} SumZero<T>(keys: set<T>, f: T -> nat)
    requires forall k :: k in keys ==> f(k) == 0
    ensures Sum(keys, f) == 0
    decreases |keys|
  {
    if keys != {} {
      var k :| k in keys;
      SumTakeOut(keys, f, k);
      SumZero(keys - {k}, f);
    }
  }

  /** One key counts one more. */
  lemma SumBump<T>(keys: set<T>, f: T -> nat, g: T -> nat, k: T)
    requires k in keys && g(k) == f(k) + 1
    requires forall k' :: k' in keys && k' != k ==> f(k') == g(k')
    ensures Sum(keys, g) == Sum(keys, f) + 1
  {
    SumTakeOut(keys, f, k);
    SumTakeOut(keys, g, k);
    SumSame(keys - {k}, f, g);
  }

  /** Code counts of a method, summed over all codes, are its error count. */
  lemma {:induction false} CodesSumToErrors(trace: seq<Call>, name: string, codes: set<int>)
    requires forall i :: 0 <= i < |trace| && trace[i].error.Some? ==> Code(trace[i].error.value) in codes
    ensures Sum(codes, c => MethodCodeCount(trace, name, c)) == StatsOf(trace, name).errors
  {
    if trace == [] {
      SumZero(codes, c => MethodCodeCount(trace, name, c));
    } else {
      var before, call := trace[..|trace| - 1], trace[|trace| - 1];
      CodesSumToErrors(before, name, codes);
      if call.name == name && call.error.Some? {
        SumBump(codes, c => MethodCodeCount(before, name, c), c => MethodCodeCount(trace, name, c),
          Code(call.error.value));
      } else {
        SumSame(codes, c => MethodCodeCount(before, name, c), c => MethodCodeCount(trace, name, c));
      }
    }
  }

  /** Code counts, summed over all methods, are the overall counts. */
  lemma {:induction false} MethodsSumToCodes(trace: seq<Call>, code: int, names: set<string>)
    requires forall i :: 0 <= i < |trace| && trace[i].error.Some? ==> trace[i].name in names
    ensures Sum(names, m => MethodCodeCount(trace, m, code)) == CodeCount(trace, code)
  {
    if trace == [] {
      SumZero(names, m => MethodCodeCount(trace, m, code));
    } else {
      var before, call := trace[..|trace| - 1], trace[|trace| - 1];
      MethodsSumToCodes(before, code, names);
      if HasCode(call, code) {
        SumBump(names, m => MethodCodeCount(before, m, code), m => MethodCodeCount(trace, m, code), call.name);
      } else {
        SumSame(names, m => MethodCodeCount(before, m, code), m => MethodCodeCount(trace, m, code));
      }
    }
  }

  // ----- Order of completion -----

  /** What one more call adds. */
  lemma OneMore(trace: seq<Call>, x: Call, name: string, code: int)
    ensures StatsOf(trace + [x], name) ==
            if x.name == name then Add(StatsOf(trace, name), x.elapsed, x.error.Some?) else StatsOf(trace, name)
    ensures CodeCount(trace + [x], code) == CodeCount(trace, code) + (if HasCode(x, code) then 1 else 0)
    ensures MethodCodeCount(trace + [x], name, code) ==
            MethodCodeCount(trace, name, code) + (if x.name == name && HasCode(x, code) then 1 else 0)
  {
    assert (trace + [x])[..|trace|] == trace;
  }

  lemma AddCommutes(s: Stats, x: real, xError: bool, y: real, yError: bool)
    ensures Add(Add(s, x, xError), y, yError) == Add(Add(s, y, yError), x, xError)
  {
  }

  lemma {:induction false} MoveToEnd(a: seq<Call>, x: Call, b: seq<Call>, name: string, code: int)
    ensures StatsOf(a + [x] + b, name) == StatsOf(a + b + [x], name)
    ensures CodeCount(a + [x] + b, code) == CodeCount(a + b + [x], code)
    ensures MethodCodeCount(a + [x] + b, name, code) == MethodCodeCount(a + b + [x], name, code)
  {
    if b == [] {
      assert a + [x] + b == a + b + [x];
    } else {
      var b', y := b[..|b| - 1], b[|b| - 1];
      MoveToEnd(a, x, b', name, code);
      assert a + [x] + b == (a + [x] + b') + [y];
      assert a + b == (a + b') + [y];
      OneMore(a + [x] + b', y, name, code);
      OneMore(a + b', x, name, code);
      OneMore(a + b', y, name, code);
      OneMore(a + b, x, name, code);
      AddCommutes(StatsOf(a + b', name), x.elapsed, x.error.Some?, y.elapsed, y.error.Some?);
    }
  }

  lemma FindCall(trace: seq<Call>, rest: seq<Call>, x: Call) returns (a: seq<Call>, b: seq<Call>)
    requires multiset(trace) == multiset(rest + [x])
    ensures trace == a + [x] + b && multiset(a + b) == multiset(rest)
  {
    assert x in multiset(rest + [x]);
    var i :| 0 <= i < |trace| && trace[i] == x;
    a, b := trace[..i], trace[i + 1..];
    assert trace == a + [x] + b;
    calc {
      multiset(a + b);
      multiset(a + [x] + b) - multiset{x};
      multiset(rest + [x]) - multiset{x};
      multiset(rest);
    }
  }

  /** Statistics and counts depend on which calls completed, not on how they interleaved. */
  lemma {:induction false} CompletionOrderIsIrrelevant(trace: seq<Call>, trace': seq<Call>, name: string, code: int)
    requires multiset(trace) == multiset(trace')
    ensures StatsOf(trace, name) == StatsOf(trace', name)
    ensures CodeCount(trace, code) == CodeCount(trace', code)
    ensures MethodCodeCount(trace, name, code) == MethodCodeCount(trace', name, code)
    decreases |trace'|
  {
    if trace' == [] {
      assert |multiset(trace)| == 0;
    } else {
      var rest, x := trace'[..|trace'| - 1], trace'[|trace'| - 1];
      assert trace' == rest + [x];
      var a, b := FindCall(trace, rest, x);
      MoveToEnd(a, x, b, name, code);
      CompletionOrderIsIrrelevant(a + b, rest, name, code);
      OneMore(a + b, x, name, code);
      OneMore(rest, x, name, code);
    }
  }
}
