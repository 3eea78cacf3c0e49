/** What the log holds, under every interleaving: the end of everything written to it. */
module LogSuffix {
  import opened LogModel
  import opened LogMachine

  ghost predicate IsSuffix(x: Bytes, h: Bytes) {
    |x| <= |h| && x == h[|h| - |x|..]
  }

  function Flat(recs: seq<Record>): Bytes {
    if recs == [] then [] else Flat(recs[..|recs| - 1]) + Whole(recs[|recs| - 1])
  }

  lemma SuffixAppend(x: Bytes, h: Bytes, y: Bytes)
    requires IsSuffix(x, h)
    ensures IsSuffix(x + y, h + y)
  {}

  lemma SuffixHalf(x: Bytes, h: Bytes)
    requires IsSuffix(x, h)
    ensures IsSuffix(UpperHalf(x), h)
  {}

  lemma SuffixEmpty(h: Bytes)
    ensures IsSuffix([], h)
  {
    assert h[|h|..] == [];
  }

  lemma FlatAppend(recs: seq<Record>, rec: Record)
    ensures Flat(recs + [rec]) == Flat(recs) + Whole(rec)
    ensures Flat(recs) + Whole(rec) == Flat(recs) + rec.header + rec.body
  {
    assert (recs + [rec])[..|recs|] == recs;
  }

  lemma FlatEmpty()
    ensures Flat([]) == []
  {}

  // ---------- the invariant ----------

  /** sendfile moves all bytes or none. */
  predicate AllOrNone(env: Env) {
    !env.sendOut.Short? && !env.sendBack.Short?
  }

  ghost predicate Orderly(acts: seq<Action>) {
    forall i | 0 <= i < |acts| && acts[i].Acquire? :: AllOrNone(acts[i].env)
  }

  /** The header of a record whose message is still to come. */
  function Pending(m: Machine): Bytes {
    if m.owner.None? then []
    else
      var c := State(m, m.owner.value);
      if c.Critical? && c.at == Body then c.rec.header else []
  }

  /** Everything written to the log so far. */
  function History(m: Machine, init: Bytes): Bytes {
    init + Flat(m.written) + Pending(m)
  }

  /** At each point of a critical section, h being everything written so far. */
  ghost predicate Sound(sh: Shared, at: Point, h: Bytes) {
    && IsSuffix(Contents(sh), h)
    && (at in {Header, Body, TickTest, Stat1, Close} ==> sh.stream.Some?)
    && (at in {Stat2, Open, MkTemp, SendOut, Truncate, SendBack, Reopen} ==> sh.stream.None?)
    && (at == SendOut ==> sh.tmp == [])
    && (at in {Truncate, SendBack} ==> IsSuffix(sh.tmp, h))
    && (at == SendBack ==> sh.file == [])
  }

  ghost predicate Invariant(m: Machine, init: Bytes) {
    && (forall t | t in m.threads && m.threads[t].Critical? :: m.owner == Some(t))
    && IsSuffix(Contents(m.shared), History(m, init))
    && (m.owner.Some? ==>
          var c := State(m, m.owner.value);
          c.Critical? && AllOrNone(c.env) && Sound(m.shared, c.at, History(m, init)))
  }

  /** The steps that do not print leave the history alone. */
  lemma StepSound(sh: Shared, rec: Record, env: Env, at: Point, h: Bytes)
    requires Sound(sh, at, h) && AllOrNone(env) && at !in {Header, Body}
    ensures var (sh', at') := Step(sh, rec, env, at); Sound(sh', at', h) && at' != Body
  {
    hide IsSuffix, Limit;
    SuffixEmpty(h);
    var none: Bytes := [];
    assert none + none == none;
    match at
    case Truncate =>
      assert env.truncate ==> Contents(Step(sh, rec, env, at).0) == none + none;
    case Reopen =>
      assert Contents(Step(sh, rec, env, at).0) == sh.file + none == Contents(sh);
    case Close =>
      assert Contents(sh) + [] == Contents(sh);
    case SendOut =>
      assert Contents(sh) == sh.file;
      SuffixHalf(sh.file, h);
      assert [] + UpperHalf(sh.file) == UpperHalf(sh.file);
    case SendBack =>
      assert ([] + sh.tmp) + [] == sh.tmp;
    case _ =>
  }

  lemma StepPrints(sh: Shared, rec: Record, env: Env, at: Point, h: Bytes)
    requires Sound(sh, at, h) && at in {Header, Body}
    ensures var (sh', at') := Step(sh, rec, env, at);
            && at' == (if at == Header then Body else TickTest)
            && Sound(sh', at', h + if at == Header then rec.header else rec.body)
  {
    hide IsSuffix, Print, Contents;
    PrintKeeps(sh, rec.header, env.flush1);
    PrintKeeps(sh, rec.body, env.flush2);
    SuffixAppend(Contents(sh), h, rec.header);
    SuffixAppend(Contents(sh), h, rec.body);
  }

  lemma NextInvariant(m: Machine, a: Action, init: Bytes)
    requires Invariant(m, init) && Enabled(m, a) && (a.Acquire? ==> AllOrNone(a.env))
    ensures Invariant(Next(m, a), init)
  {
    hide IsSuffix, Step, Flat, Contents;
    match a
    case Request(t, lev, rec) =>
    case Acquire(t, env) =>
    case Release(t) =>
    case Work(t) =>
      WorkInvariant(m, t, init);
  }

  lemma WorkInvariant(m: Machine, t: Tid, init: Bytes)
    requires Invariant(m, init) && Enabled(m, Work(t))
    ensures Invariant(Next(m, Work(t)), init)
  {
    hide IsSuffix, Step, Flat, Contents, History;
    var c, h := State(m, t), History(m, init);
    var m' := Next(m, Work(t));
    if c.at in {Header, Body} {
      StepPrints(m.shared, c.rec, c.env, c.at, h);
      HistoryPrints(m, t, init);
    } else {
      StepSound(m.shared, c.rec, c.env, c.at, h);
      HistoryStays(m, t, init);
    }
    assert State(m', t).Critical?;
  }

  lemma HistoryPrints(m: Machine, t: Tid, init: Bytes)
    requires Invariant(m, init) && Enabled(m, Work(t)) && State(m, t).at in {Header, Body}
    ensures var c := State(m, t);
            History(Next(m, Work(t)), init) == History(m, init) + if c.at == Header then c.rec.header else c.rec.body
  {
    hide IsSuffix, Flat, Contents, Print;
    var rec := State(m, t).rec;
    FlatAppend(m.written, rec);
  }

  lemma HistoryStays(m: Machine, t: Tid, init: Bytes)
    requires Invariant(m, init) && Enabled(m, Work(t)) && State(m, t).at !in {Header, Body}
    ensures History(Next(m, Work(t)), init) == History(m, init)
  {
    hide IsSuffix, Flat, Contents;
    var c := State(m, t);
    StepSound(m.shared, c.rec, c.env, c.at, History(m, init));
  }

  lemma {:induction false} RunInvariant(m: Machine, acts: seq<Action>, init: Bytes)
    requires Invariant(m, init) && AllEnabled(m, acts) && Orderly(acts)
    ensures Invariant(RunAll(m, acts), init)
    decreases |acts|
  {
    if acts != [] {
      NextInvariant(m, acts[0], init);
      RunInvariant(Next(m, acts[0]), acts[1..], init);
    }
  }

  /** Under every interleaving and all outcomes of the calls in which sendfile moves all bytes or none,
      the log is at every moment a suffix of its initial contents, the records written so far in
      lock order, and possibly the header of the record being printed. */
  lemma LogIsSuffix(m: Machine, acts: seq<Action>)
    requires Initial(m) && AllEnabled(m, acts) && Orderly(acts)
    ensures var m' := RunAll(m, acts);
            && IsSuffix(Contents(m'.shared), Contents(m.shared) + Flat(m'.written) + Pending(m'))
            && (m'.owner.None? ==> m'.written == WrittenBy(m.shared, m'.calls))
  {
    var init := Contents(m.shared);
    assert History(m, init) == init;
    RunInvariant(m, acts, init);
    InitialSerialized(m);
    Serializable(m, acts, m.shared);
  }

  // ---------- what a suffix of the history looks like ----------

  /** x ends with the whole records from index i on; y, what is before them,
      is the end of the record before or of the initial contents. */
  ghost predicate CutAt(x: Bytes, init: Bytes, recs: seq<Record>, i: nat, y: Bytes)
    requires i <= |recs|
  {
    x == y + Flat(recs[i..]) && IsSuffix(y, if i == 0 then init else Whole(recs[i - 1]))
  }

  lemma CutAppend(x: Bytes, init: Bytes, recs: seq<Record>, i: nat, y: Bytes, rec: Record)
    requires i <= |recs| && CutAt(x, init, recs, i, y)
    ensures CutAt(x + Whole(rec), init, recs + [rec], i, y)
  {
    hide IsSuffix, Whole, Flat;
    assert (recs + [rec])[i..] == recs[i..] + [rec];
    FlatAppend(recs[i..], rec);
    assert (y + Flat(recs[i..])) + Whole(rec) == y + (Flat(recs[i..]) + Whole(rec));
    assert i > 0 ==> (recs + [rec])[i - 1] == recs[i - 1];
  }

  /** Only the first surviving record can be cut. */
  lemma {:induction false} OnlyFirstCut(x: Bytes, init: Bytes, recs: seq<Record>) returns (i: nat, y: Bytes)
    requires IsSuffix(x, init + Flat(recs))
    ensures i <= |recs| && CutAt(x, init, recs, i, y)
    decreases |recs|
  {
    var n := |recs|;
    if n == 0 {
      assert init + Flat(recs) == init && recs[0..] == [];
      i, y := 0, x;
    } else {
      var last := Whole(recs[n - 1]);
      var h := init + Flat(recs[..n - 1]);
      assert init + Flat(recs) == h + last;
      if |x| <= |last| {
        i, y := n, x;
        assert recs[n..] == [];
      } else {
        var x' := x[..|x| - |last|];
        assert x == x' + last;
        i, y := OnlyFirstCut(x', init, recs[..n - 1]);
        CutAppend(x', init, recs[..n - 1], i, y, recs[n - 1]);
        assert recs == recs[..n - 1] + [recs[n - 1]];
      }
    }
  }
}
