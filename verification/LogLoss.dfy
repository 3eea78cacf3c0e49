/** What a trim can lose, and under which outcomes of its calls it does. */
module LogLoss {
  import opened LogModel
  import opened LogMachine
  import opened LogSuffix
  import opened LogSize

  /** x is the end of b, and at least half of it, rounded up. */
  ghost predicate Retains(x: Bytes, b: Bytes) {
    IsSuffix(x, b) && |b| <= 2 * |x|
  }

  /** The transfer moves the whole of `len` bytes. */
  predicate Covers(t: Transfer, len: nat) {
    t.Full? || (t.Short? && t.k >= len)
  }

  /** The trim gets as far as emptying the file. */
  predicate Empties(env: Env) {
    env.open && env.mkstemp && !env.sendOut.Failed? && env.truncate
  }

  /** The trim of a log of n bytes leaves it alone, or brings the whole upper half back. */
  predicate TrimSafe(n: nat, env: Env) {
    n == 0 || !Empties(env) || (Covers(env.sendOut, n - n / 2) && Covers(env.sendBack, n - n / 2))
  }

  predicate NothingBack(env: Env) {
    env.sendOut == Short(0) || env.sendBack == Short(0) || env.sendBack.Failed?
  }

  // ---------- one trim ----------

  /** A trim keeps the end of the log, at least half of it, exactly if it is safe. */
  lemma TrimRetains(all: Bytes, env: Env)
    ensures Retains(Trimmed(all, env), all) <==> TrimSafe(|all|, env)
  {
    var x := Trimmed(all, env);
    if !Empties(env) {
      assert all == all[|all| - |x|..];
    } else if TrimSafe(|all|, env) && all != [] {
      assert x == UpperHalf(all) == all[|all| - |x|..];
    }
  }

  /** It loses everything exactly if it empties the file and brings nothing back. */
  lemma TrimLosesAll(all: Bytes, env: Env)
    ensures Trimmed(all, env) == [] <==> all == [] || (Empties(env) && NothingBack(env))
  {
    if Empties(env) && !env.sendBack.Failed? {
      var out := Moved(env.sendOut, UpperHalf(all));
      assert out == [] <==> all == [] || env.sendOut == Short(0);
      assert Moved(env.sendBack, out) == [] <==> out == [] || env.sendBack == Short(0);
    }
  }

  /** If it brings back only a part, a log that ends with a byte of its own has lost that byte. */
  lemma TrimLosesEnd(all: Bytes, env: Env)
    requires !TrimSafe(|all|, env) && !NothingBack(env)
    requires forall i | 0 <= i < |all| - 1 :: all[i] != all[|all| - 1]
    ensures !IsSuffix(Trimmed(all, env), all)
  {
    var x := Trimmed(all, env);
    TrimLosesAll(all, env);
    assert x[|x| - 1] == all[|all| / 2 + |x| - 1];
  }

  /** What is left is an end of the log, whatever the log holds, exactly if the trim is safe or brings nothing back. */
  lemma TrimSuffix(n: nat, env: Env)
    ensures (forall all: Bytes | |all| == n :: IsSuffix(Trimmed(all, env), all)) <==>
            TrimSafe(n, env) || NothingBack(env)
  {
    hide Trimmed, TrimSafe, IsSuffix;
    if TrimSafe(n, env) || NothingBack(env) {
      forall all: Bytes | |all| == n ensures IsSuffix(Trimmed(all, env), all) {
        TrimRetains(all, env);
        TrimLosesAll(all, env);
        SuffixEmpty(all);
        NotEmptied(all, env);
        SuffixSelf(all);
      }
    } else {
      var all: Bytes := seq(n, i => if i == n - 1 then 1 else 0);
      TrimLosesEnd(all, env);
    }
  }

  lemma NotEmptied(all: Bytes, env: Env)
    ensures !Empties(env) ==> Trimmed(all, env) == all
  {}

  lemma SuffixSelf(b: Bytes)
    ensures IsSuffix(b, b)
  {}

  // ---------- one call ----------

  /** The log with the record of a call, if that goes to the log. */
  function Grown(sh: Shared, rec: Record): Bytes {
    if sh.stream.None? then Contents(sh) else Contents(sh) + Whole(rec)
  }

  /** The call trims the log. */
  predicate CallTrims(sh: Shared, call: Call) {
    CheckDue(sh) && TooLarge(Printed(sh, call.rec, call.env), call.env) && call.env.stat2
  }

  predicate CallSafe(sh: Shared, call: Call) {
    CallTrims(sh, call) ==> TrimSafe(|Grown(sh, call.rec)|, call.env)
  }

  lemma LoggedGrown(sh: Shared, call: Call)
    ensures var all := Grown(sh, call.rec);
            Contents(Logged(sh, call.rec, call.env)) == if CallTrims(sh, call) then Trimmed(all, call.env) else all
  {
    hide Logged, Trimmed, Printed;
    if sh.stream.Some? {
      LoggedExactly(sh, call.rec, call.env);
    } else {
      assert Logged(sh, call.rec, call.env) == sh by {
        Closed(sh, call);
      }
    }
  }

  lemma Closed(sh: Shared, call: Call)
    requires sh.stream.None?
    ensures Logged(sh, call.rec, call.env) == sh
  {}

  /** A call keeps the end of the log with its record, at least half of it, exactly if it is safe. */
  lemma CallRetains(sh: Shared, call: Call)
    ensures Retains(Contents(Logged(sh, call.rec, call.env)), Grown(sh, call.rec)) <==> CallSafe(sh, call)
  {
    hide Logged, Trimmed, Contents, Grown, IsSuffix, TrimSafe;
    LoggedGrown(sh, call);
    TrimRetains(Grown(sh, call.rec), call.env);
    SuffixSelf(Grown(sh, call.rec));
  }

  /** A call loses everything exactly if it trims, empties the file and brings nothing back. */
  lemma CallLosesAll(sh: Shared, call: Call)
    ensures Contents(Logged(sh, call.rec, call.env)) == [] <==>
            Grown(sh, call.rec) == [] || (CallTrims(sh, call) && Empties(call.env) && NothingBack(call.env))
  {
    hide Logged, Trimmed, Contents, Grown, Empties, NothingBack;
    LoggedGrown(sh, call);
    TrimLosesAll(Grown(sh, call.rec), call.env);
  }

  lemma CallLosesEnd(sh: Shared, call: Call)
    requires !CallSafe(sh, call) && !NothingBack(call.env)
    requires var all := Grown(sh, call.rec); forall i | 0 <= i < |all| - 1 :: all[i] != all[|all| - 1]
    ensures !IsSuffix(Contents(Logged(sh, call.rec, call.env)), Grown(sh, call.rec))
  {
    hide Logged, Trimmed, Contents, Grown, IsSuffix, TrimSafe, NothingBack;
    LoggedGrown(sh, call);
    TrimLosesEnd(Grown(sh, call.rec), call.env);
  }

  // ---------- runs ----------

  ghost predicate SafeAt(sh: Shared, calls: seq<Call>, i: nat)
    requires i < |calls|
  {
    CallSafe(Serial(sh, calls[..i]), calls[i])
  }

  ghost predicate RetainsAt(sh: Shared, calls: seq<Call>, i: nat)
    requires i < |calls|
  {
    Retains(Contents(Serial(sh, calls[..i + 1])), Grown(Serial(sh, calls[..i]), calls[i].rec))
  }

  ghost predicate AllSafe(sh: Shared, calls: seq<Call>) {
    forall i | 0 <= i < |calls| :: SafeAt(sh, calls, i)
  }

  ghost predicate AllRetain(sh: Shared, calls: seq<Call>) {
    forall i | 0 <= i < |calls| :: RetainsAt(sh, calls, i)
  }

  /** Every call of a run keeps the end of the log, at least half of it, exactly if every call is safe. */
  lemma RunRetains(sh: Shared, calls: seq<Call>)
    ensures AllRetain(sh, calls) <==> AllSafe(sh, calls)
  {
    hide Logged, CallSafe, Retains, Grown, Serial, Contents;
    forall i | 0 <= i < |calls| ensures RetainsAt(sh, calls, i) <==> SafeAt(sh, calls, i) {
      SerialNext(sh, calls, i);
      CallRetains(Serial(sh, calls[..i]), calls[i]);
    }
  }

  lemma {:induction false} SafeRunSuffix(sh: Shared, calls: seq<Call>)
    requires AllSafe(sh, calls)
    ensures IsSuffix(Contents(Serial(sh, calls)), Contents(sh) + Flat(WrittenBy(sh, calls)))
    decreases |calls|
  {
    hide Logged, CallSafe, Contents, IsSuffix, Flat;
    if calls == [] {
      NothingWritten(Contents(sh));
    } else {
      var n := |calls| - 1;
      var before := Serial(sh, calls[..n]);
      forall i | 0 <= i < n ensures SafeAt(sh, calls[..n], i) {
        assert calls[..n][..i] == calls[..i] && SafeAt(sh, calls, i);
      }
      assert SafeAt(sh, calls, n);
      SafeRunSuffix(sh, calls[..n]);
      CallRetains(before, calls[n]);
      var h := Contents(sh) + Flat(WrittenBy(sh, calls[..n]));
      if before.stream.Some? {
        SuffixAppend(Contents(before), h, Whole(calls[n].rec));
        FlatAppend(WrittenBy(sh, calls[..n]), calls[n].rec);
        assert h + Whole(calls[n].rec) == Contents(sh) + Flat(WrittenBy(sh, calls));
      } else {
        assert WrittenBy(sh, calls) == WrittenBy(sh, calls[..n]);
      }
      SuffixTransitive(Contents(Serial(sh, calls)), Grown(before, calls[n].rec),
                       Contents(sh) + Flat(WrittenBy(sh, calls)));
    }
  }

  lemma NothingWritten(b: Bytes)
    ensures IsSuffix(b, b + Flat([]))
  {}

  lemma SuffixTransitive(x: Bytes, y: Bytes, z: Bytes)
    requires IsSuffix(x, y) && IsSuffix(y, z)
    ensures IsSuffix(x, z)
  {}

  /** Under every interleaving in which every trim is safe, whatever else fails: whenever no call is in progress,
      the log is an end of what was written, and every call has kept at least half of what it found. */
  lemma InterleavedRetains(m: Machine, acts: seq<Action>)
    requires Initial(m) && AllEnabled(m, acts)
    requires var m' := RunAll(m, acts); m'.owner.None? && AllSafe(m.shared, m'.calls)
    ensures var m' := RunAll(m, acts);
            && IsSuffix(Contents(m'.shared), Contents(m.shared) + Flat(m'.written))
            && m'.shared == Serial(m.shared, m'.calls) && AllRetain(m.shared, m'.calls)
  {
    hide AllSafe, AllRetain, IsSuffix, Flat;
    InitialSerialized(m);
    Serializable(m, acts, m.shared);
    var m' := RunAll(m, acts);
    SafeRunSuffix(m.shared, m'.calls);
    RunRetains(m.shared, m'.calls);
  }

  // ---------- runs of the program that lose the log ----------

  /** The 1026th call writes everything out, and then its trim fails to copy back. */
  lemma TotalLoss(mb: nat, t: Tid) returns (m: Machine, acts: seq<Action>)
    ensures Initial(m) && m.shared.maxMb == mb && AllEnabled(m, acts)
    ensures var m' := RunAll(m, acts);
            && m'.owner.None? && m'.shared.stream.Some?
            && |m'.calls| == 1026 && forall i | 0 <= i < 1026 :: AllOrNone(m'.calls[i].env)
    ensures var m' := RunAll(m, acts); Flat(m'.written) != [] && Contents(m'.shared) == []
  {
    hide Logged, Flat;
    var limit := 1024 * 1024 * mb;
    var rec := Record([1], seq(limit, i => 0));
    var env := Env(0, 0, true, true, true, true, Full, true, Full, true);
    var calls := Repeated(Call(rec, env), 1025);
    m := Beginning(mb);
    BetweenChecks(m.shared, calls);
    var before := Serial(m.shared, calls);
    var last := Call(rec, env.(sendBack := Failed, flush2 := Size(before) + |Whole(rec)|));
    PrintedOut(before, rec, last.env);
    LoggedExactly(before, rec, last.env);
    assert CallTrims(before, last);
    CallLosesAll(before, last);
    acts := SerialReachable(m, t, calls + [last]);
    assert (calls + [last])[..1025] == calls;
    FlatAppend(WrittenBy(m.shared, calls), rec);
  }
}
