/** The bound on the size of the log that holds, over runs and at every step of every interleaving. */
module LogBound {
  import opened Arith
  import opened LogModel
  import opened LogMachine
  import opened LogSuffix
  import opened LogSize

  // ---------- the bound is kept ----------

  /** After a check the log is within the bound, and between two checks it exceeds it at most by what
      has been written since the last one. */
  ghost predicate Bounded(sh: Shared, r: nat, bound: nat) {
    sh.stream.Some? && sh.tick <= 1025 && Size(sh) <= bound + (sh.tick - 1) * r
  }

  lemma LoggedBounded(sh: Shared, call: Call, r: nat, u: nat, bound: nat)
    requires Ordinary(sh, call, r, u) && Bounded(sh, r, bound) && bound >= Max(Limit(sh) + u, 1025 * r)
    ensures var sh' := Logged(sh, call.rec, call.env);
            Limit(sh') == Limit(sh) && Bounded(sh', r, bound)
  {
    hide Logged, Ordinary, Limit;
    LoggedSize(sh, call, r, u);
    if !CheckDue(sh) {
      assert (sh.tick - 1) * r + r == sh.tick * r;
    } else {
      assert (sh.tick - 1) * r == 1024 * r;
    }
  }

  /** Once the log is at most max(limit + u, 1025 * r) after a check, it is so after every later check,
      and in between it never exceeds that by more than the records written since. */
  lemma {:induction false} StaysBounded(sh: Shared, calls: seq<Call>, r: nat, u: nat, bound: nat)
    requires AllOrdinary(sh, calls, r, u) && Bounded(sh, r, bound) && bound >= Max(Limit(sh) + u, 1025 * r)
    ensures var sh' := Serial(sh, calls);
            Limit(sh') == Limit(sh) && Bounded(sh', r, bound)
    decreases |calls|
  {
    hide Logged, Ordinary, Bounded, Limit, Max;
    if calls != [] {
      var n := |calls| - 1;
      OrdinaryPrefix(sh, calls, n, r, u);
      StaysBounded(sh, calls[..n], r, u, bound);
      assert Ordinary(Serial(sh, calls[..n]), calls[n], r, u);
      LoggedBounded(Serial(sh, calls[..n]), calls[n], r, u, bound);
    }
  }

  // ---------- from any start the bound is reached ----------

  lemma {:induction false} GrowsBetweenChecks(sh: Shared, calls: seq<Call>, r: nat, u: nat)
    requires AllOrdinary(sh, calls, r, u) && sh.stream.Some? && sh.tick == 1 && |calls| <= 1024
    ensures var sh' := Serial(sh, calls);
            && sh'.stream.Some? && sh'.tick == 1 + |calls| && Limit(sh') == Limit(sh)
            && Size(sh') <= Size(sh) + |calls| * r
    decreases |calls|
  {
    hide Logged, Ordinary, Limit, Size;
    if calls != [] {
      var n := |calls| - 1;
      OrdinaryPrefix(sh, calls, n, r, u);
      GrowsBetweenChecks(sh, calls[..n], r, u);
      assert Ordinary(Serial(sh, calls[..n]), calls[n], r, u);
      LoggedSize(Serial(sh, calls[..n]), calls[n], r, u);
      assert n * r + r == (n + 1) * r;
    }
  }

  /** From one check to the next: the log is then below the limit, but for what the stream holds,
      or its excess over 1025 * r has been halved, rounded up. */
  lemma ExcessHalves(sh: Shared, calls: seq<Call>, r: nat, u: nat)
    requires AllOrdinary(sh, calls, r, u) && sh.stream.Some? && sh.tick == 1 && |calls| == 1025
    ensures var sh' := Serial(sh, calls);
            && sh'.stream.Some? && sh'.tick == 1
            && (Size(sh') < Limit(sh) + u || 2 * (Size(sh') - 1025 * r) <= (Size(sh) - 1025 * r) + 1)
  {
    hide Logged, Ordinary, Limit;
    OrdinaryPrefix(sh, calls, 1024, r, u);
    GrowsBetweenChecks(sh, calls[..1024], r, u);
    LoggedSize(Serial(sh, calls[..1024]), calls[1024], r, u);
  }

  /** The bound that the log approaches, exceeded by d. */
  function Cap(limit: nat, r: nat, u: nat, d: nat): nat {
    Max(limit + u, 1025 * r + 1 + d)
  }

  /** How many of the first n calls check the size. */
  function Checks(n: nat): nat {
    if n == 0 then 0 else (n - 1) / 1025
  }

  lemma LoggedApproaches(sh: Shared, call: Call, r: nat, u: nat, d: nat)
    requires Ordinary(sh, call, r, u) && Bounded(sh, r, Cap(Limit(sh), r, u, d))
    ensures var sh' := Logged(sh, call.rec, call.env);
            && Limit(sh') == Limit(sh) && sh'.tick == (if CheckDue(sh) then 1 else sh.tick + 1)
            && Bounded(sh', r, Cap(Limit(sh), r, u, if CheckDue(sh) then d / 2 else d))
  {
    hide Logged, Ordinary, Limit;
    LoggedSize(sh, call, r, u);
    if !CheckDue(sh) {
      assert (sh.tick - 1) * r + r == sh.tick * r;
    } else {
      assert (sh.tick - 1) * r == 1024 * r;
    }
  }

  lemma NextChecks(n: nat)
    ensures Checks(n + 1) == Checks(n) + if TickAfter(n) > PERIOD then 1 else 0
  {
    NextTick(n);
  }

  /** Every check halves what the log is above the bound. */
  lemma {:induction false} Approaches(sh: Shared, calls: seq<Call>, r: nat, u: nat, d: nat)
    requires AllOrdinary(sh, calls, r, u) && Bounded(sh, r, Cap(Limit(sh), r, u, d))
    ensures var sh', n := Serial(sh, calls), sh.tick + |calls|;
            && Limit(sh') == Limit(sh) && sh'.tick == TickAfter(n)
            && Bounded(sh', r, Cap(Limit(sh), r, u, Halved(d, Checks(n))))
    decreases |calls|
  {
    hide Logged, Ordinary, Bounded, Limit, Cap, TickAfter, Checks;
    if calls == [] {
      StartingTick(sh, r, Cap(Limit(sh), r, u, d));
      assert Halved(d, 0) == d;
    } else {
      var n := |calls| - 1;
      var before, k := Serial(sh, calls[..n]), Checks(sh.tick + n);
      OrdinaryPrefix(sh, calls, n, r, u);
      Approaches(sh, calls[..n], r, u, d);
      assert Ordinary(before, calls[n], r, u);
      LoggedApproaches(before, calls[n], r, u, Halved(d, k));
      IsOpen(before, r, Cap(Limit(sh), r, u, Halved(d, k)));
      NextTick(sh.tick + n);
      NextChecks(sh.tick + n);
      HalfAgain(d, k);
    }
  }

  lemma StartingTick(sh: Shared, r: nat, bound: nat)
    requires Bounded(sh, r, bound)
    ensures sh.tick == TickAfter(sh.tick) && Checks(sh.tick) == 0
  {}

  lemma IsOpen(sh: Shared, r: nat, bound: nat)
    requires Bounded(sh, r, bound)
    ensures sh.stream.Some?
  {}

  /** From any start: after n calls, what the log is above the bound is at most
      its first size and a record, halved by every check. */
  lemma FromAnyStart(sh: Shared, calls: seq<Call>, r: nat, u: nat)
    requires sh.stream.Some? && sh.tick <= 1025 && AllOrdinary(sh, calls, r, u)
    ensures var sh', d := Serial(sh, calls), Halved(Size(sh) + r, Checks(sh.tick + |calls|));
            Limit(sh') == Limit(sh) && Bounded(sh', r, Cap(Limit(sh), r, u, d))
    ensures Size(sh) + r < Pow2(Checks(sh.tick + |calls|)) ==>
            Bounded(Serial(sh, calls), r, Max(Limit(sh) + u, 1025 * r + 1))
  {
    hide AllOrdinary, Serial, Limit, Halved;
    assert (sh.tick - 1) * r + r >= 0;
    Approaches(sh, calls, r, u, Size(sh) + r);
    HalvedAway(Size(sh) + r, Checks(sh.tick + |calls|));
  }

  /** One more than 1025 * r cannot be improved: a log of that size after a check can have it after the next one. */
  lemma BoundReached(sh: Shared, calls: seq<Call>, r: nat)
    requires sh.stream.Some? && sh.tick == 1 && |calls| == 1025 && Size(sh) == 1025 * r + 1
    requires forall i | 0 <= i < 1025 :: Smooth(calls[i].env) && |Whole(calls[i].rec)| == r
    requires var before := Serial(sh, calls[..1024]);
             before.stream.Some? ==> |Printed(before, calls[1024].rec, calls[1024].env).file| >= Limit(sh)
    ensures var sh' := Serial(sh, calls); sh'.stream.Some? && sh'.tick == 1 && Size(sh') == 1025 * r + 1
  {
    hide Logged, Printed, Flat, Contents;
    BetweenChecks(sh, calls[..1024]);
    FlatSize(calls[..1024], r);
    var before := Serial(sh, calls[..1024]);
    PrintedKeeps(before, calls[1024].rec, calls[1024].env);
    LoggedExactly(before, calls[1024].rec, calls[1024].env);
  }

  lemma {:induction false} FlatSize(calls: seq<Call>, r: nat)
    requires forall i | 0 <= i < |calls| :: |Whole(calls[i].rec)| == r
    ensures |Flat(Records(calls))| == |calls| * r
  {
    hide Flat, Whole;
    if calls == [] {
      FlatEmpty();
    } else {
      var n := |calls| - 1;
      FlatSize(calls[..n], r);
      FlatAppend(Records(calls[..n]), calls[n].rec);
      assert n * r + r == |calls| * r;
    }
  }

  // ---------- at every step of every interleaving ----------

  /** In a critical section, for a record that found n bytes. */
  ghost predicate HeldAt(sh: Shared, at: Point, rec: Record, n: nat) {
    && Size(sh) <= n + (if at in {Entry, Header} then 0 else if at == Body then |rec.header| else |Whole(rec)|)
    && (at in {Header, Body, TickTest, Stat1, Close} ==> sh.stream.Some?)
    && (at in {Stat2, Open, MkTemp, SendOut, Truncate, SendBack, Reopen} ==> sh.stream.None?)
    && (at == SendOut ==> sh.tmp == [])
    && (at in {Truncate, SendBack} ==> |sh.tmp| <= n + |Whole(rec)|)
    && (at == SendBack ==> sh.file == [])
  }

  lemma StepHeld(sh: Shared, rec: Record, env: Env, at: Point, n: nat)
    requires HeldAt(sh, at, rec, n)
    ensures var (sh', at') := Step(sh, rec, env, at); HeldAt(sh', at', rec, n)
  {
    hide Print, Limit;
    if at in {Header, Body} {
      PrintKeeps(sh, rec.header, env.flush1);
      PrintKeeps(sh, rec.body, env.flush2);
    }
  }

  ghost predicate Held(m: Machine, sh0: Shared) {
    && Serialized(m, sh0)
    && (m.owner.Some? ==>
          var c := State(m, m.owner.value);
          c.Critical? && HeldAt(m.shared, c.at, c.rec, Size(Serial(sh0, m.calls))))
  }

  lemma NextHeld(m: Machine, a: Action, sh0: Shared)
    requires Held(m, sh0) && Enabled(m, a)
    ensures Held(Next(m, a), sh0)
  {
    hide Step, Serial, WrittenBy, Finish, Logged, Size, Additional;
    StepSerialized(m, a, sh0);
    if a.Work? {
      var c := State(m, a.tid);
      StepHeld(m.shared, c.rec, c.env, c.at, Size(Serial(sh0, m.calls)));
    }
  }

  lemma {:induction false} RunHeld(m: Machine, acts: seq<Action>, sh0: Shared)
    requires Held(m, sh0) && AllEnabled(m, acts)
    ensures Held(RunAll(m, acts), sh0)
    decreases |acts|
  {
    if acts != [] {
      NextHeld(m, acts[0], sh0);
      RunHeld(Next(m, acts[0]), acts[1..], sh0);
    }
  }

  /** The record of the call in progress. */
  function InProgress(m: Machine): Bytes {
    if m.owner.None? then []
    else
      var c := State(m, m.owner.value);
      if c.Critical? then Whole(c.rec) else []
  }

  /** At every step of every interleaving, whatever the outcomes of all calls, the log is at most as large
      as the finished calls have left it, with the record in progress. */
  lemma EveryStep(m: Machine, acts: seq<Action>)
    requires Initial(m) && AllEnabled(m, acts)
    ensures var m' := RunAll(m, acts);
            && Size(m'.shared) <= Size(Serial(m.shared, m'.calls)) + |InProgress(m')|
            && (m'.owner.None? ==> m'.shared == Serial(m.shared, m'.calls))
  {
    hide Serial, Size;
    InitialSerialized(m);
    RunHeld(m, acts, m.shared);
  }

  lemma BoundedSize(sh: Shared, r: nat, bound: nat)
    requires Bounded(sh, r, bound)
    ensures Size(sh) <= bound + 1024 * r
  {
    hide Size;
    TimesMonotone(sh.tick - 1, 1024, r);
  }

  /** The bound at every step of every interleaving, after the first k calls have brought the log within it. */
  lemma InterleavedBounded(m: Machine, acts: seq<Action>, k: nat, r: nat, u: nat)
    requires Initial(m) && AllEnabled(m, acts)
    requires var m' := RunAll(m, acts);
             && |InProgress(m')| <= r && k <= |m'.calls|
             && var sh := Serial(m.shared, m'.calls[..k]);
                AllOrdinary(sh, m'.calls[k..], r, u) && Bounded(sh, r, Max(Limit(sh) + u, 1025 * r))
    ensures var m' := RunAll(m, acts);
            var bound := Max(Limit(Serial(m.shared, m'.calls[..k])) + u, 1025 * r);
            && Size(m'.shared) <= bound + 1025 * r
            && (m'.owner.None? ==> Bounded(m'.shared, r, bound))
  {
    hide Bounded, AllOrdinary, Limit, Max, Serial, Size;
    var m' := RunAll(m, acts);
    var sh := Serial(m.shared, m'.calls[..k]);
    var bound := Max(Limit(sh) + u, 1025 * r);
    EveryStep(m, acts);
    assert m'.calls == m'.calls[..k] + m'.calls[k..];
    SerialAppend(m.shared, m'.calls[..k], m'.calls[k..]);
    StaysBounded(sh, m'.calls[k..], r, u, bound);
    BoundedSize(Serial(m.shared, m'.calls), r, bound);
  }

  /** From any start, every interleaving brings the log below the bound and keeps it there:
      what it is above the bound is halved by every check. */
  lemma InterleavedApproaches(m: Machine, acts: seq<Action>, r: nat, u: nat)
    requires Initial(m) && m.shared.stream.Some? && m.shared.tick <= 1025 && AllEnabled(m, acts)
    requires var m' := RunAll(m, acts); |InProgress(m')| <= r && AllOrdinary(m.shared, m'.calls, r, u)
    ensures var m' := RunAll(m, acts);
            var d := Halved(Size(m.shared) + r, Checks(m.shared.tick + |m'.calls|));
            var bound := Cap(Limit(m.shared), r, u, d);
            && Size(m'.shared) <= bound + 1025 * r
            && (m'.owner.None? ==> Bounded(m'.shared, r, bound))
  {
    hide Bounded, AllOrdinary, Limit, Cap, Serial, Size;
    var m' := RunAll(m, acts);
    EveryStep(m, acts);
    FromAnyStart(m.shared, m'.calls, r, u);
    BoundedSize(Serial(m.shared, m'.calls), r,
                Cap(Limit(m.shared), r, u, Halved(Size(m.shared) + r, Checks(m.shared.tick + |m'.calls|))));
  }
}
