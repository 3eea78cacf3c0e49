/** When the log is checked, and how large it can become. */
module LogSize {
  import opened Arith
  import opened LogModel
  import opened LogMachine
  import opened LogSuffix

  function Size(sh: Shared): nat {
    |Contents(sh)|
  }

  // ---------- when a call checks the size ----------

  /** The stream is open again after the call. */
  predicate StaysOpen(env: Env) {
    env.stat2 && env.reopen
  }

  ghost predicate AllStayOpen(calls: seq<Call>) {
    forall i | 0 <= i < |calls| :: StaysOpen(calls[i].env)
  }

  lemma LoggedTick(sh: Shared, rec: Record, env: Env)
    requires sh.stream.Some? && StaysOpen(env)
    ensures var sh' := Logged(sh, rec, env);
            sh'.stream.Some? && sh'.tick == if CheckDue(sh) then 1 else sh.tick + 1
  {
    hide Logged;
    LoggedExactly(sh, rec, env);
  }

  /** check_tick after n calls, from the start of the program. */
  function TickAfter(n: nat): nat {
    if n <= 1025 then n else (n - 1026) % 1025 + 1
  }

  lemma {:induction false} SerialTick(sh: Shared, calls: seq<Call>)
    requires sh.stream.Some? && sh.tick == 0 && AllStayOpen(calls)
    ensures Serial(sh, calls).stream.Some? && Serial(sh, calls).tick == TickAfter(|calls|)
    decreases |calls|
  {
    hide Logged;
    if calls != [] {
      var n := |calls| - 1;
      SerialTick(sh, calls[..n]);
      LoggedTick(Serial(sh, calls[..n]), calls[n].rec, calls[n].env);
      NextTick(n);
    }
  }

  lemma NextTick(n: nat)
    ensures TickAfter(n + 1) == if TickAfter(n) > PERIOD then 1 else TickAfter(n) + 1
    ensures TickAfter(n) > PERIOD <==> n >= 1025 && (n - 1025) % 1025 == 0
  {}

  /** The first check comes with the 1026th write, later ones with every 1025th write after it. */
  lemma CheckSchedule(sh: Shared, calls: seq<Call>, n: nat)
    requires sh.stream.Some? && sh.tick == 0 && AllStayOpen(calls)
    requires 1 <= n <= |calls|
    ensures CheckDue(Serial(sh, calls[..n - 1])) <==> n >= 1026 && (n - 1026) % 1025 == 0
  {
    hide Serial;
    SerialTick(sh, calls[..n - 1]);
    NextTick(n - 1);
  }

  // ---------- how large the log becomes ----------

  /** Every call on the way to the disk succeeds. */
  predicate Smooth(env: Env) {
    && env.stat1 && env.stat2 && env.open && env.mkstemp
    && env.sendOut.Full? && env.truncate && env.sendBack.Full? && env.reopen
  }

  /** A record of at most r bytes, no failures, and at most u bytes that the stream has not written out. */
  predicate Ordinary(sh: Shared, call: Call, r: nat, u: nat) {
    && |Whole(call.rec)| <= r && Smooth(call.env)
    && (sh.stream.Some? ==> |Buffered(Printed(sh, call.rec, call.env))| <= u)
  }

  ghost predicate AllOrdinary(sh: Shared, calls: seq<Call>, r: nat, u: nat) {
    forall i | 0 <= i < |calls| :: Ordinary(Serial(sh, calls[..i]), calls[i], r, u)
  }

  lemma OrdinaryPrefix(sh: Shared, calls: seq<Call>, n: nat, r: nat, u: nat)
    requires AllOrdinary(sh, calls, r, u) && n <= |calls|
    ensures AllOrdinary(sh, calls[..n], r, u)
  {
    hide Ordinary, Serial;
    forall i | 0 <= i < n ensures Ordinary(Serial(sh, calls[..n][..i]), calls[..n][i], r, u) {
      assert calls[..n][..i] == calls[..i] && calls[..n][i] == calls[i];
    }
  }

  /** One call: without a check the log grows by at most r; a check leaves it below the limit
      (but for what the stream holds) or cuts it to half, rounded up. */
  lemma LoggedSize(sh: Shared, call: Call, r: nat, u: nat)
    requires sh.stream.Some? && Ordinary(sh, call, r, u)
    ensures var sh' := Logged(sh, call.rec, call.env);
            && sh'.stream.Some? && Limit(sh') == Limit(sh)
            && (if CheckDue(sh)
                then sh'.tick == 1 && (Size(sh') < Limit(sh) + u || 2 * Size(sh') <= Size(sh) + r + 1)
                else sh'.tick == sh.tick + 1 && Size(sh') <= Size(sh) + r)
  {
    hide Logged, Printed;
    LoggedExactly(sh, call.rec, call.env);
    PrintedKeeps(sh, call.rec, call.env);
  }

  // ---------- the maximum size is exceeded ----------

  /** As long as no check is due, every record is appended. */
  lemma {:induction false} BetweenChecks(sh: Shared, calls: seq<Call>)
    requires sh.stream.Some? && sh.tick + |calls| <= 1025
    ensures var sh' := Serial(sh, calls);
            && Contents(sh') == Contents(sh) + Flat(Records(calls)) && WrittenBy(sh, calls) == Records(calls)
            && sh'.stream.Some? && sh'.tick == sh.tick + |calls| && sh'.limit == sh.limit && sh'.maxMb == sh.maxMb
    decreases |calls|
  {
    hide Logged, Contents, Flat, Printed, Trimmed, Whole;
    if calls == [] {
      FlatEmpty();
      assert Contents(sh) + [] == Contents(sh);
    } else {
      var n := |calls| - 1;
      BetweenChecks(sh, calls[..n]);
      LoggedExactly(Serial(sh, calls[..n]), calls[n].rec, calls[n].env);
      FlatAppend(Records(calls[..n]), calls[n].rec);
      assert (Contents(sh) + Flat(Records(calls[..n]))) + Whole(calls[n].rec) == Contents(sh) + Flat(Records(calls));
    }
  }

  /** After the call the log is larger than the maximum: because no check is due, because the check
      does not see what the stream holds, or because half of the log is still too much. */
  predicate Overflows(sh: Shared, call: Call)
    requires sh.stream.Some?
  {
    var n := Size(sh) + |Whole(call.rec)|;
    if CheckDue(sh) && |Printed(sh, call.rec, call.env).file| >= Limit(sh) then n - n / 2 > Limit(sh) else n > Limit(sh)
  }

  /** The same for what is in the file. */
  predicate FileOverflows(sh: Shared, call: Call)
    requires sh.stream.Some?
  {
    var n, size := Size(sh) + |Whole(call.rec)|, |Printed(sh, call.rec, call.env).file|;
    if CheckDue(sh) && size >= Limit(sh) then n - n / 2 > Limit(sh) else size > Limit(sh)
  }

  lemma OverflowsExactly(sh: Shared, call: Call)
    requires sh.stream.Some? && Smooth(call.env)
    ensures var sh' := Logged(sh, call.rec, call.env);
            && sh'.stream.Some? && Limit(sh') == Limit(sh)
            && (Size(sh') > Limit(sh) <==> Overflows(sh, call))
            && (|sh'.file| > Limit(sh) <==> FileOverflows(sh, call))
  {
    hide Logged, Printed, Contents;
    PrintedKeeps(sh, call.rec, call.env);
    LoggedExactly(sh, call.rec, call.env);
  }

  ghost predicate WithinAt(sh: Shared, calls: seq<Call>, i: nat)
    requires i <= |calls|
  {
    |Serial(sh, calls[..i]).file| <= Limit(sh)
  }

  ghost predicate FitsAt(sh: Shared, calls: seq<Call>, i: nat)
    requires i < |calls|
  {
    Serial(sh, calls[..i]).stream.Some? && !FileOverflows(Serial(sh, calls[..i]), calls[i])
  }

  /** A run without failures keeps the file within the maximum exactly if no call makes it overflow. */
  lemma WithinLimit(sh: Shared, calls: seq<Call>)
    requires sh.stream.Some? && |sh.file| <= Limit(sh)
    requires forall i | 0 <= i < |calls| :: Smooth(calls[i].env)
    ensures (forall i | 0 <= i <= |calls| :: WithinAt(sh, calls, i)) <==>
            (forall i | 0 <= i < |calls| :: FitsAt(sh, calls, i))
  {
    hide Logged, Overflows, FileOverflows, Limit, Size, Smooth, Serial, WithinAt, FitsAt;
    WithinAtStart(sh, calls);
    forall i | 0 <= i < |calls| ensures WithinAt(sh, calls, i + 1) <==> FitsAt(sh, calls, i) {
      WithinNext(sh, calls, i);
    }
    forall i | 0 < i <= |calls| ensures WithinAt(sh, calls, i) <==> FitsAt(sh, calls, i - 1) {
      assert i - 1 + 1 == i;
    }
  }

  lemma WithinAtStart(sh: Shared, calls: seq<Call>)
    requires |sh.file| <= Limit(sh)
    ensures WithinAt(sh, calls, 0)
  {}

  lemma WithinNext(sh: Shared, calls: seq<Call>, i: nat)
    requires i < |calls| && sh.stream.Some? && forall j | 0 <= j < |calls| :: Smooth(calls[j].env)
    ensures WithinAt(sh, calls, i + 1) <==> FitsAt(sh, calls, i)
  {
    hide Logged, Overflows, FileOverflows, Limit, Size, Smooth, Serial;
    SmoothRun(sh, calls, i);
    SerialNext(sh, calls, i);
    OverflowsExactly(Serial(sh, calls[..i]), calls[i]);
  }

  lemma {:induction false} SmoothRun(sh: Shared, calls: seq<Call>, i: nat)
    requires i <= |calls| && sh.stream.Some? && forall j | 0 <= j < |calls| :: Smooth(calls[j].env)
    ensures Serial(sh, calls[..i]).stream.Some? && Limit(Serial(sh, calls[..i])) == Limit(sh)
  {
    hide Logged, Overflows, FileOverflows, Limit, Smooth;
    if i > 0 {
      SmoothRun(sh, calls, i - 1);
      SerialNext(sh, calls, i - 1);
      OverflowsExactly(Serial(sh, calls[..i - 1]), calls[i - 1]);
    }
  }

  /** What the program starts with, once log_init has opened an empty file. */
  function Beginning(mb: nat): Machine {
    Machine(Shared([], Some([]), [], 0, None, mb), None, map[], 1, [], [], [])
  }

  ghost function Repeated(call: Call, n: nat): seq<Call> {
    seq(n, i => call)
  }

  lemma {:induction false} RepeatedSize(call: Call, n: nat)
    ensures |Flat(Records(Repeated(call, n)))| == n * |Whole(call.rec)|
  {
    hide Flat;
    if n == 0 {
      FlatEmpty();
    } else {
      assert Repeated(call, n)[..n - 1] == Repeated(call, n - 1);
      RepeatedSize(call, n - 1);
      FlatAppend(Records(Repeated(call, n - 1)), call.rec);
    }
  }

  /** Whatever the maximum, 1025 calls of a little more than a 1025th of it make the file exceed it,
      without any failure. */
  lemma LimitExceeded(mb: nat, t: Tid) returns (m: Machine, acts: seq<Action>)
    ensures Initial(m) && m.shared.maxMb == mb && AllEnabled(m, acts)
    ensures var m' := RunAll(m, acts);
            && m'.owner.None? && |m'.shared.file| > Limit(m'.shared) == 1024 * 1024 * mb
            && |m'.calls| == 1025 && forall i | 0 <= i < 1025 ::
                 Smooth(m'.calls[i].env) && |Whole(m'.calls[i].rec)| == 1024 * 1024 * mb / 1025 + 1
  {
    hide Logged, Flat;
    var size := 1024 * 1024 * mb / 1025 + 1;
    var env := Env(0, 1025 * size, true, true, true, true, Full, true, Full, true);
    var call := Call(Record([], seq(size, i => 0)), env);
    var calls := Repeated(call, 1025);
    m := Beginning(mb);
    BetweenChecks(m.shared, calls[..1024]);
    assert calls[..1024] == Repeated(call, 1024);
    RepeatedSize(call, 1024);
    var before := Serial(m.shared, calls[..1024]);
    PrintedOut(before, call.rec, env);
    LoggedExactly(before, call.rec, env);
    acts := SerialReachable(m, t, calls);
  }

  /** If the stream writes all it holds, the file has the whole log. */
  lemma PrintedOut(sh: Shared, rec: Record, env: Env)
    requires sh.stream.Some? && env.flush2 >= Size(sh) + |Whole(rec)|
    ensures Printed(sh, rec, env).file == Contents(sh) + Whole(rec)
  {
    PrintedKeeps(sh, rec, env);
    var p := Printed(sh, rec, env);
    assert p.stream.value == [];
  }
}
