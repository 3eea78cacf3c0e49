/** Many threads logging at once: the steps of all threads, interleaved in any order. */
module LogMachine {
  import opened LogModel

  type Tid = nat

  datatype Thread =
    | Idle
    | Waiting(rec: Record)                           // at pthread_mutex_lock
    | Critical(rec: Record, env: Env, at: Point)     // between lock and unlock

  datatype Call = Call(rec: Record, env: Env)

  datatype Machine = Machine(
    shared: Shared,
    owner: Option<Tid>,           // who holds the mutex
    threads: map<Tid, Thread>,
    level: nat,                   // g_log_level
    calls: seq<Call>,             // the finished critical sections, in lock order
    doers: seq<Tid>,              // the threads that made them
    written: seq<Record>)         // the records printed to the log, in the order of their messages

  datatype Action =
    | Request(tid: Tid, lev: nat, rec: Record)
    | Acquire(tid: Tid, env: Env)
    | Work(tid: Tid)
    | Release(tid: Tid)

  function State(m: Machine, t: Tid): Thread {
    if t in m.threads then m.threads[t] else Idle
  }

  predicate Enabled(m: Machine, a: Action) {
    match a
    case Request(t, _, _) => State(m, t).Idle?
    case Acquire(t, _) => State(m, t).Waiting? && m.owner.None?
    case Work(t) => State(m, t).Critical? && State(m, t).at != Unlock
    case Release(t) => State(m, t).Critical? && State(m, t).at == Unlock
  }

  function Next(m: Machine, a: Action): Machine
    requires Enabled(m, a)
  {
    match a
    case Request(t, lev, rec) =>
      if lev > m.level then m else m.(threads := m.threads[t := Waiting(rec)])
    case Acquire(t, env) =>
      m.(owner := Some(t), threads := m.threads[t := Critical(State(m, t).rec, env, Entry)])
    case Work(t) =>
      var c := State(m, t);
      var (sh, at) := Step(m.shared, c.rec, c.env, c.at);
      m.(shared := sh, threads := m.threads[t := c.(at := at)],
         written := if c.at == Body && m.shared.stream.Some? then m.written + [c.rec] else m.written)
    case Release(t) =>
      var c := State(m, t);
      m.(owner := None, threads := m.threads[t := Idle], calls := m.calls + [Call(c.rec, c.env)],
         doers := m.doers + [t])
  }

  /** Before any thread logs. */
  predicate Initial(m: Machine) {
    m.owner.None? && m.threads == map[] && m.calls == [] && m.doers == [] && m.written == [] && m.shared.tmp == []
  }

  ghost predicate AllEnabled(m: Machine, acts: seq<Action>)
    decreases |acts|
  {
    acts == [] || (Enabled(m, acts[0]) && AllEnabled(Next(m, acts[0]), acts[1..]))
  }

  ghost function RunAll(m: Machine, acts: seq<Action>): Machine
    requires AllEnabled(m, acts)
    decreases |acts|
  {
    if acts == [] then m else RunAll(Next(m, acts[0]), acts[1..])
  }

  // ---------- one critical section after the other ----------

  ghost function Serial(sh: Shared, calls: seq<Call>): Shared {
    if calls == [] then sh
    else
      var n := |calls| - 1;
      Logged(Serial(sh, calls[..n]), calls[n].rec, calls[n].env)
  }

  /** The records that reach the log: those of the calls that find it open. */
  ghost function WrittenBy(sh: Shared, calls: seq<Call>): seq<Record> {
    if calls == [] then []
    else
      var n := |calls| - 1;
      WrittenBy(sh, calls[..n]) + if Serial(sh, calls[..n]).stream.Some? then [calls[n].rec] else []
  }

  lemma SerialNext(sh: Shared, calls: seq<Call>, i: nat)
    requires i < |calls|
    ensures Serial(sh, calls[..i + 1]) == Logged(Serial(sh, calls[..i]), calls[i].rec, calls[i].env)
  {
    hide Logged;
    assert calls[..i + 1][..i] == calls[..i];
  }

  /** The records of the calls. */
  ghost function Records(calls: seq<Call>): seq<Record> {
    if calls == [] then [] else Records(calls[..|calls| - 1]) + [calls[|calls| - 1].rec]
  }

  /** Whoever is in its critical section will, when left to finish, have done exactly one call
      after all the calls before it. */
  ghost predicate Serialized(m: Machine, sh0: Shared) {
    var before := Serial(sh0, m.calls);
    && before.tmp == []
    && (forall t | t in m.threads && m.threads[t].Critical? :: m.owner == Some(t))
    && match m.owner
       case None => m.shared == before && m.written == WrittenBy(sh0, m.calls)
       case Some(t) =>
         && State(m, t).Critical?
         && var c := State(m, t);
            && Finish(m.shared, c.rec, c.env, c.at) == Logged(before, c.rec, c.env)
            && (c.at == Entry ==> m.shared == before)
            && (c.at == Header || c.at == Body ==> m.shared.stream.Some? && before.stream.Some?)
            && m.written == WrittenBy(sh0, m.calls) + Additional(before, c)
  }

  /** The record of the call in progress, once it is printed. */
  ghost function Additional(before: Shared, c: Thread): seq<Record>
    requires c.Critical?
  {
    if before.stream.None? || c.at in {Entry, Header, Body} then [] else [c.rec]
  }

  lemma LoggedTmp(sh: Shared, rec: Record, env: Env)
    requires sh.tmp == []
    ensures Logged(sh, rec, env).tmp == []
  {
    hide Trimmed;
  }

  lemma StepSerialized(m: Machine, a: Action, sh0: Shared)
    requires Serialized(m, sh0) && Enabled(m, a)
    ensures Serialized(Next(m, a), sh0)
  {
    match a
    case Request(t, lev, rec) => RequestSerialized(m, t, lev, rec, sh0);
    case Acquire(t, env) => AcquireSerialized(m, t, env, sh0);
    case Work(t) => WorkSerialized(m, t, sh0);
    case Release(t) => ReleaseSerialized(m, t, sh0);
  }

  lemma RequestSerialized(m: Machine, t: Tid, lev: nat, rec: Record, sh0: Shared)
    requires Serialized(m, sh0) && Enabled(m, Request(t, lev, rec))
    ensures Serialized(Next(m, Request(t, lev, rec)), sh0)
  {
    hide Logged, Finish, Serial, WrittenBy, Additional;
  }

  lemma AcquireSerialized(m: Machine, t: Tid, env: Env, sh0: Shared)
    requires Serialized(m, sh0) && Enabled(m, Acquire(t, env))
    ensures Serialized(Next(m, Acquire(t, env)), sh0)
  {
    hide Logged, Finish, Serial, WrittenBy;
    FinishIsLogged(m.shared, State(m, t).rec, env);
  }

  lemma ReleaseSerialized(m: Machine, t: Tid, sh0: Shared)
    requires Serialized(m, sh0) && Enabled(m, Release(t))
    ensures Serialized(Next(m, Release(t)), sh0)
  {
    hide Logged, Step;
    var c := State(m, t);
    LoggedTmp(Serial(sh0, m.calls), c.rec, c.env);
    assert Next(m, Release(t)).calls[..|m.calls|] == m.calls;
  }

  /** A step leads to the same end, and how it gets to the points before the message is out. */
  lemma StepFinish(sh: Shared, rec: Record, env: Env, at: Point)
    requires at != Unlock
    ensures var (sh', at') := Step(sh, rec, env, at);
            && Finish(sh', rec, env, at') == Finish(sh, rec, env, at)
            && at' != Entry
            && (at' == Header ==> at == Entry && sh' == sh && sh.stream.Some?)
            && (at' == Body ==> at == Header && sh'.stream.Some?)
  {
    hide Moved, UpperHalf, Limit;
  }

  lemma StepFromEntry(sh: Shared, rec: Record, env: Env, at: Point)
    ensures var (sh', at') := Step(sh, rec, env, at);
            (at == Entry ==> at' == if sh.stream.None? then Unlock else Header)
            && (at == Header && sh.stream.Some? ==> at' == Body)
            && (at == Body && sh.stream.Some? ==> at' == TickTest)
  {
    hide Print;
  }

  lemma WorkSerialized(m: Machine, t: Tid, sh0: Shared)
    requires Serialized(m, sh0) && Enabled(m, Work(t))
    ensures Serialized(Next(m, Work(t)), sh0)
  {
    hide Step, Finish, Logged, Serial, WrittenBy;
    var c := State(m, t);
    StepFinish(m.shared, c.rec, c.env, c.at);
    StepFromEntry(m.shared, c.rec, c.env, c.at);
  }

  /** In every interleaving, the shared state is that of the finished calls one after the other,
      up to the progress of the one call that is in its critical section. */
  lemma {:induction false} Serializable(m: Machine, acts: seq<Action>, sh0: Shared)
    requires Serialized(m, sh0) && AllEnabled(m, acts)
    ensures Serialized(RunAll(m, acts), sh0)
    decreases |acts|
  {
    if acts != [] {
      StepSerialized(m, acts[0], sh0);
      Serializable(Next(m, acts[0]), acts[1..], sh0);
    }
  }

  lemma InitialSerialized(m: Machine)
    requires Initial(m)
    ensures Serialized(m, m.shared)
  {}

  // ---------- every sequence of calls is a run ----------

  lemma {:induction false} RunAppend(m: Machine, a: seq<Action>, b: seq<Action>)
    requires AllEnabled(m, a) && AllEnabled(RunAll(m, a), b)
    ensures AllEnabled(m, a + b) && RunAll(m, a + b) == RunAll(RunAll(m, a), b)
    decreases |a|
  {
    if a == [] {
      assert a + b == b;
    } else {
      assert (a + b)[1..] == a[1..] + b;
      RunAppend(Next(m, a[0]), a[1..], b);
    }
  }

  /** Left to itself, a thread gets to the end of its critical section. */
  lemma {:induction false} WorkToEnd(m: Machine, t: Tid) returns (acts: seq<Action>)
    requires State(m, t).Critical?
    ensures AllEnabled(m, acts)
    ensures var c, m' := State(m, t), RunAll(m, acts);
            && m'.shared == Finish(m.shared, c.rec, c.env, c.at) && m'.threads == m.threads[t := c.(at := Unlock)]
            && m'.owner == m.owner && m'.level == m.level && m'.calls == m.calls
    decreases Left(State(m, t).at)
  {
    hide Step, Left;
    var c := State(m, t);
    if c.at == Unlock {
      acts := [];
    } else {
      StepLowers(m.shared, c.rec, c.env, c.at);
      var rest := WorkToEnd(Next(m, Work(t)), t);
      acts := [Work(t)] + rest;
      assert acts[1..] == rest;
    }
  }

  lemma StepLowers(sh: Shared, rec: Record, env: Env, at: Point)
    requires at != Unlock
    ensures Left(Step(sh, rec, env, at).1) < Left(at)
  {}

  /** One thread makes one call while the others do nothing. */
  lemma CallAlone(m: Machine, t: Tid, call: Call) returns (acts: seq<Action>)
    requires m.owner.None? && State(m, t).Idle? && m.shared.tmp == []
    ensures AllEnabled(m, acts)
    ensures var m' := RunAll(m, acts);
            && m'.shared == Logged(m.shared, call.rec, call.env) && m'.calls == m.calls + [call]
            && m'.owner.None? && State(m', t).Idle?
  {
    hide Step, Finish, Logged;
    var start := [Request(t, 0, call.rec), Acquire(t, call.env)];
    var m1 := Next(m, start[0]);
    var m2 := Next(m1, start[1]);
    assert start[1..] == [start[1]] && start[1..][1..] == [];
    assert AllEnabled(m2, start[1..][1..]) && AllEnabled(m1, start[1..]);
    assert RunAll(m1, start[1..]) == RunAll(m2, start[1..][1..]);
    assert RunAll(m, start) == m2;
    FinishIsLogged(m.shared, call.rec, call.env);
    var work := WorkToEnd(m2, t);
    RunAppend(m, start, work);
    var m3 := RunAll(m2, work);
    var end := [Release(t)];
    assert end[1..] == [];
    assert AllEnabled(Next(m3, end[0]), end[1..]);
    assert AllEnabled(m3, end) && RunAll(m3, end) == Next(m3, end[0]);
    RunAppend(m, start + work, end);
    acts := start + work + end;
  }

  /** Every sequence of calls, with any outcomes, is one that the machine can make. */
  lemma {:induction false} SerialReachable(m: Machine, t: Tid, calls: seq<Call>) returns (acts: seq<Action>)
    requires Initial(m)
    ensures AllEnabled(m, acts)
    ensures var m' := RunAll(m, acts);
            && m'.shared == Serial(m.shared, calls) && m'.calls == calls && m'.written == WrittenBy(m.shared, calls)
            && m'.owner.None? && State(m', t).Idle?
    decreases |calls|
  {
    hide Step, Finish, Logged;
    if calls == [] {
      acts := [];
    } else {
      var n := |calls| - 1;
      var init := SerialReachable(m, t, calls[..n]);
      InitialSerialized(m);
      Serializable(m, init, m.shared);
      var last := CallAlone(RunAll(m, init), t, calls[n]);
      RunAppend(m, init, last);
      acts := init + last;
      Serializable(m, acts, m.shared);
      assert calls[..n] + [calls[n]] == calls;
    }
  }

  // ---------- when the log is closed ----------

  /** The call that closes the log for good: it finds the file too large, and then either it cannot look
      at the file again or it cannot open it again. */
  predicate Closes(sh: Shared, call: Call) {
    CheckDue(sh) && TooLarge(Printed(sh, call.rec, call.env), call.env) && !(call.env.stat2 && call.env.reopen)
  }

  /** With a null stream, calls go to the terminal. */
  lemma {:induction false} StaysClosed(sh: Shared, calls: seq<Call>)
    requires sh.stream.None?
    ensures Serial(sh, calls) == sh && WrittenBy(sh, calls) == []
    decreases |calls|
  {
    if calls != [] {
      StaysClosed(sh, calls[..|calls| - 1]);
    }
  }

  lemma {:induction false} SerialAppend(sh: Shared, a: seq<Call>, b: seq<Call>)
    ensures Serial(sh, a + b) == Serial(Serial(sh, a), b)
    ensures WrittenBy(sh, a + b) == WrittenBy(sh, a) + WrittenBy(Serial(sh, a), b)
    decreases |b|
  {
    hide Logged;
    if b == [] {
      assert a + b == a;
    } else {
      var n := |b| - 1;
      assert (a + b)[..|a| + n] == a + b[..n];
      SerialAppend(sh, a, b[..n]);
    }
  }

  lemma {:induction false} OpenUnlessClosed(sh: Shared, calls: seq<Call>)
    requires sh.stream.Some? && forall i | 0 <= i < |calls| :: !Closes(Serial(sh, calls[..i]), calls[i])
    ensures Serial(sh, calls).stream.Some?
    decreases |calls|
  {
    hide Logged, Closes;
    if calls != [] {
      var n := |calls| - 1;
      forall i | 0 <= i < n ensures !Closes(Serial(sh, calls[..n][..i]), calls[..n][i]) {
        assert calls[..n][..i] == calls[..i];
      }
      OpenUnlessClosed(sh, calls[..n]);
      assert !Closes(Serial(sh, calls[..n]), calls[n]);
      ClosesOrStaysOpen(Serial(sh, calls[..n]), calls[n]);
    }
  }

  lemma ClosesOrStaysOpen(sh: Shared, call: Call)
    requires sh.stream.Some?
    ensures Logged(sh, call.rec, call.env).stream.None? <==> Closes(sh, call)
  {
    hide Logged;
    LoggedExactly(sh, call.rec, call.env);
  }

  /** An open log is closed after a run exactly if one of the calls closed it. */
  lemma ClosedExactly(sh: Shared, calls: seq<Call>)
    requires sh.stream.Some?
    ensures Serial(sh, calls).stream.None? <==>
            exists i | 0 <= i < |calls| :: Closes(Serial(sh, calls[..i]), calls[i])
  {
    hide Closes;
    if i :| 0 <= i < |calls| && Closes(Serial(sh, calls[..i]), calls[i]) {
      ClosedForGood(sh, calls, i);
    } else {
      OpenUnlessClosed(sh, calls);
    }
  }

  /** The calls after such a call change nothing and write nothing to the log. */
  lemma ClosedForGood(sh: Shared, calls: seq<Call>, i: nat)
    requires i < |calls| && Closes(Serial(sh, calls[..i]), calls[i])
    ensures Serial(sh, calls).stream.None?
    ensures Serial(sh, calls) == Serial(sh, calls[..i + 1]) && WrittenBy(sh, calls) == WrittenBy(sh, calls[..i + 1])
  {
    hide Logged, WrittenBy;
    var a, b := calls[..i + 1], calls[i + 1..];
    assert calls == a + b && a[..i] == calls[..i];
    ClosesOrStaysOpen(Serial(sh, calls[..i]), calls[i]);
    StaysClosed(Serial(sh, a), b);
    SerialAppend(sh, a, b);
  }
}
