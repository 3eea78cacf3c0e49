/** Which records reach the log: those that pass the level test, each of them once, and each thread's in its order. */
module LogRequests {
  import opened LogModel
  import opened LogMachine

  /** The record that a thread has not finished logging. */
  function Unfinished(th: Thread): seq<Record> {
    if th.Idle? then [] else [th.rec]
  }

  predicate Passes(a: Action, level: nat) {
    a.Request? && a.lev <= level
  }

  // ---------- one thread ----------

  /** The records that a thread logs and that pass the level test, in its program order. */
  ghost function Requested(t: Tid, level: nat, acts: seq<Action>): seq<Record> {
    if acts == [] then []
    else (if Passes(acts[0], level) && acts[0].tid == t then [acts[0].rec] else []) + Requested(t, level, acts[1..])
  }

  /** The records of the finished calls of a thread, in lock order. */
  ghost function MadeBy(t: Tid, calls: seq<Call>, doers: seq<Tid>): seq<Record>
    requires |calls| == |doers|
  {
    if calls == [] then []
    else
      var n := |calls| - 1;
      MadeBy(t, calls[..n], doers[..n]) + if doers[n] == t then [calls[n].rec] else []
  }

  /** What a thread has logged so far: its finished calls and the one in progress. */
  ghost function Progress(m: Machine, t: Tid): seq<Record>
    requires |m.calls| == |m.doers|
  {
    MadeBy(t, m.calls, m.doers) + Unfinished(State(m, t))
  }

  lemma NextProgress(m: Machine, a: Action, t: Tid)
    requires |m.calls| == |m.doers| && Enabled(m, a)
    ensures var m' := Next(m, a);
            && |m'.calls| == |m'.doers| && m'.level == m.level
            && Progress(m', t) == Progress(m, t) + if Passes(a, m.level) && a.tid == t then [a.rec] else []
  {
    hide Step;
    var m' := Next(m, a);
    if a.Release? {
      assert m'.calls[..|m.calls|] == m.calls && m'.doers[..|m.doers|] == m.doers;
    }
  }

  /** In every interleaving, a thread's calls are those it has asked for at a level that passes,
      in the order in which it did, but for the one it is still making. */
  lemma {:induction false} ProgramOrder(m: Machine, acts: seq<Action>, t: Tid)
    requires |m.calls| == |m.doers| && AllEnabled(m, acts)
    ensures var m' := RunAll(m, acts);
            && |m'.calls| == |m'.doers| && m'.level == m.level
            && Progress(m', t) == Progress(m, t) + Requested(t, m.level, acts)
    decreases |acts|
  {
    hide Progress, Next;
    if acts == [] {
      assert Progress(m, t) + [] == Progress(m, t);
    } else {
      NextProgress(m, acts[0], t);
      ProgramOrder(Next(m, acts[0]), acts[1..], t);
      var first := if Passes(acts[0], m.level) && acts[0].tid == t then [acts[0].rec] else [];
      assert (Progress(m, t) + first) + Requested(t, m.level, acts[1..])
          == Progress(m, t) + (first + Requested(t, m.level, acts[1..]));
    }
  }

  // ---------- all threads ----------

  /** The records that any thread logs and that pass the level test. */
  ghost function AllRequested(level: nat, acts: seq<Action>): multiset<Record> {
    if acts == [] then multiset{}
    else (if Passes(acts[0], level) then multiset{acts[0].rec} else multiset{}) + AllRequested(level, acts[1..])
  }

  ghost function SomeThread(threads: map<Tid, Thread>): (t: Tid)
    requires threads != map[]
    ensures t in threads
  {
    assert threads.Keys != {};
    var t :| t in threads.Keys;
    t
  }

  /** The records that threads have not finished logging. */
  ghost function InFlight(threads: map<Tid, Thread>): multiset<Record>
    decreases |threads|
  {
    if threads == map[] then multiset{}
    else
      var t := SomeThread(threads);
      ShrinksBy(threads, t);
      multiset(Unfinished(threads[t])) + InFlight(threads - {t})
  }

  lemma ShrinksBy(threads: map<Tid, Thread>, t: Tid)
    requires t in threads
    ensures |threads - {t}| < |threads|
  {
    assert (threads - {t}).Keys == threads.Keys - {t};
  }

  lemma {:induction false} InFlightAt(threads: map<Tid, Thread>, t: Tid)
    requires t in threads
    ensures InFlight(threads) == multiset(Unfinished(threads[t])) + InFlight(threads - {t})
    decreases |threads|
  {
    hide Unfinished;
    var u := SomeThread(threads);
    if u != t {
      ShrinksBy(threads, u);
      ShrinksBy(threads, t);
      InFlightAt(threads - {u}, t);
      InFlightAt(threads - {t}, u);
      assert threads - {u} - {t} == threads - {t} - {u};
    }
  }

  /** A thread changes; the others do not. */
  lemma InFlightUpdate(m: Machine, t: Tid, th: Thread)
    ensures InFlight(m.threads) == multiset(Unfinished(State(m, t))) + InFlight(m.threads - {t})
    ensures InFlight(m.threads[t := th]) == multiset(Unfinished(th)) + InFlight(m.threads - {t})
  {
    hide InFlight;
    var threads := m.threads[t := th];
    InFlightAt(threads, t);
    assert threads - {t} == m.threads - {t};
    if t in m.threads {
      InFlightAt(m.threads, t);
    } else {
      assert m.threads - {t} == m.threads;
    }
  }

  ghost function AllProgress(m: Machine): multiset<Record> {
    multiset(Records(m.calls)) + InFlight(m.threads)
  }

  lemma RecordsAppend(calls: seq<Call>, call: Call)
    ensures Records(calls + [call]) == Records(calls) + [call.rec]
  {
    assert (calls + [call])[..|calls|] == calls;
  }

  /** An action changes the state of its own thread, and only a release makes a call. */
  lemma OneThread(m: Machine, a: Action)
    requires Enabled(m, a)
    ensures var m', th := Next(m, a), State(m, a.tid);
            && m'.level == m.level && (m' == m || m'.threads == m.threads[a.tid := State(m', a.tid)])
            && m'.calls == if a.Release? then m.calls + [Call(th.rec, th.env)] else m.calls
    ensures var m', th, th' := Next(m, a), State(m, a.tid), State(Next(m, a), a.tid);
            && (a.Request? ==> if a.lev > m.level then m' == m else th.Idle? && th' == Waiting(a.rec))
            && (a.Acquire? || a.Work? ==> !th.Idle? && !th'.Idle? && th'.rec == th.rec)
            && (a.Release? ==> th.Critical? && th'.Idle?)
  {
    hide Step;
  }

  lemma NextAllProgress(m: Machine, a: Action)
    requires Enabled(m, a)
    ensures var m' := Next(m, a);
            && m'.level == m.level
            && AllProgress(m') == AllProgress(m) + if Passes(a, m.level) then multiset{a.rec} else multiset{}
  {
    hide InFlight, Records, Next, Enabled, Unfinished, State;
    var m', th := Next(m, a), State(m, a.tid);
    OneThread(m, a);
    if m' != m {
      var th' := State(m', a.tid);
      InFlightUpdate(m, a.tid, th');
      Weigh(th, th', a);
      if a.Release? {
        RecordsAppend(m.calls, Call(th.rec, th.env));
      }
    }
  }

  /** The records in flight before and after an action of their thread. */
  lemma Weigh(th: Thread, th': Thread, a: Action)
    requires a.Request? ==> th.Idle? && th' == Waiting(a.rec)
    requires a.Acquire? || a.Work? ==> !th.Idle? && !th'.Idle? && th'.rec == th.rec
    requires a.Release? ==> !th.Idle? && th'.Idle?
    ensures a.Request? ==> multiset(Unfinished(th')) == multiset(Unfinished(th)) + multiset{a.rec}
    ensures a.Acquire? || a.Work? ==> Unfinished(th') == Unfinished(th)
    ensures a.Release? ==> multiset(Unfinished(th)) == multiset(Unfinished(th')) + multiset{th.rec}
  {}

  lemma {:induction false} RunAllProgress(m: Machine, acts: seq<Action>)
    requires AllEnabled(m, acts)
    ensures var m' := RunAll(m, acts);
            m'.level == m.level && AllProgress(m') == AllProgress(m) + AllRequested(m.level, acts)
    decreases |acts|
  {
    hide AllProgress, Next;
    if acts != [] {
      NextAllProgress(m, acts[0]);
      RunAllProgress(Next(m, acts[0]), acts[1..]);
    }
  }

  /** The records of the calls that find the log closed. */
  ghost function RefusedBy(sh: Shared, calls: seq<Call>): seq<Record> {
    if calls == [] then []
    else
      var n := |calls| - 1;
      RefusedBy(sh, calls[..n]) + if Serial(sh, calls[..n]).stream.Some? then [] else [calls[n].rec]
  }

  lemma {:induction false} WrittenOrRefused(sh: Shared, calls: seq<Call>)
    ensures multiset(WrittenBy(sh, calls)) + multiset(RefusedBy(sh, calls)) == multiset(Records(calls))
    decreases |calls|
  {
    hide Serial;
    if calls != [] {
      WrittenOrRefused(sh, calls[..|calls| - 1]);
    }
  }

  lemma {:induction false} NoneInFlight(threads: map<Tid, Thread>)
    requires forall t | t in threads :: threads[t].Idle?
    ensures InFlight(threads) == multiset{}
    decreases |threads|
  {
    if threads != map[] {
      var t := SomeThread(threads);
      ShrinksBy(threads, t);
      NoneInFlight(threads - {t});
    }
  }

  /** No record is lost or logged twice on its way through the lock: at every step of every interleaving,
      the records of the finished calls and those in flight are exactly those that were to pass the level test.
      Once all threads are idle, each of these has been written to the log or has found it closed. */
  lemma NoneLost(m: Machine, acts: seq<Action>)
    requires Initial(m) && AllEnabled(m, acts)
    ensures var m' := RunAll(m, acts);
            multiset(Records(m'.calls)) + InFlight(m'.threads) == AllRequested(m.level, acts)
    ensures var m' := RunAll(m, acts);
            (forall t | t in m'.threads :: m'.threads[t].Idle?) ==>
              && multiset(Records(m'.calls)) == AllRequested(m.level, acts)
              && multiset(m'.written) + multiset(RefusedBy(m.shared, m'.calls)) == AllRequested(m.level, acts)
  {
    hide Serial, WrittenBy, Finish, Logged, Records, RefusedBy, AllRequested;
    var m' := RunAll(m, acts);
    RunAllProgress(m, acts);
    NoneYet(m);
    if forall t | t in m'.threads :: m'.threads[t].Idle? {
      NoneInFlight(m'.threads);
      InitialSerialized(m);
      Serializable(m, acts, m.shared);
      WrittenOrRefused(m.shared, m'.calls);
      assert m'.owner.None?;
    }
  }

  lemma NoneYet(m: Machine)
    requires Initial(m)
    ensures AllProgress(m) == multiset{}
  {}

  /** Nothing else gets in: every record of a thread, of a call and of the log is one that passed the level test. */
  lemma NoneInvented(m: Machine, acts: seq<Action>, rec: Record)
    requires Initial(m) && AllEnabled(m, acts)
    requires var m' := RunAll(m, acts);
             || (exists t | t in m'.threads :: !m'.threads[t].Idle? && m'.threads[t].rec == rec)
             || rec in Records(m'.calls) || rec in m'.written
    ensures exists i | 0 <= i < |acts| :: Passes(acts[i], m.level) && acts[i].rec == rec
  {
    hide Serial, WrittenBy, RefusedBy, Finish, Logged, Records, AllRequested, InFlight;
    var m' := RunAll(m, acts);
    NoneLost(m, acts);
    if t :| t in m'.threads && !m'.threads[t].Idle? && m'.threads[t].rec == rec {
      InFlightAt(m'.threads, t);
    } else if rec in m'.written {
      InitialSerialized(m);
      Serializable(m, acts, m.shared);
      WrittenOrRefused(m.shared, m'.calls);
      if rec in WrittenBy(m.shared, m'.calls) {
        assert rec in multiset(WrittenBy(m.shared, m'.calls));
        assert rec in multiset(Records(m'.calls));
      } else {
        var t := m'.owner.value;
        assert State(m', t).rec == rec;
        InFlightAt(m'.threads, t);
      }
    } else {
      assert rec in multiset(Records(m'.calls));
    }
    assert rec in AllRequested(m.level, acts);
    RequestedSomewhere(m.level, acts, rec);
  }

  lemma {:induction false} RequestedSomewhere(level: nat, acts: seq<Action>, rec: Record)
    requires rec in AllRequested(level, acts)
    ensures exists i | 0 <= i < |acts| :: Passes(acts[i], level) && acts[i].rec == rec
  {
    if Passes(acts[0], level) && acts[0].rec == rec {
    } else {
      RequestedSomewhere(level, acts[1..], rec);
      var i :| 0 <= i < |acts[1..]| && Passes(acts[1..][i], level) && acts[1..][i].rec == rec;
      assert acts[i + 1] == acts[1..][i];
    }
  }
}
