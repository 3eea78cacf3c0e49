/** The whole state of the logger with the disk, and what programs of logging and setting up do to it. */
module LogStatus {
  import opened LogModel
  import opened LogMachine
  import opened LogSuffix
  import opened LogLoss
  import opened LogRequests

  datatype Status = Status(
    disk: map<string, Bytes>,
    name: string,
    stream: Option<Bytes>,
    level: nat,
    maxMb: nat,
    tick: nat,
    limit: Option<nat>)

  datatype Command =
    | Write(lev: nat, rec: Record, env: Env)
    | Setup(level: nat, file: Option<string>, mb: nat, opens: bool)

  function FileOf(st: Status, name: string): Bytes {
    if name in st.disk then st.disk[name] else []
  }

  /** What the threads share when the log is the current file. */
  function SharedOf(st: Status): Shared {
    Shared(FileOf(st, st.name), st.stream, [], st.tick, st.limit, st.maxMb)
  }

  function WithShared(st: Status, sh: Shared): Status {
    st.(disk := if st.name in st.disk then st.disk[st.name := sh.file] else st.disk,
        stream := sh.stream, tick := sh.tick, limit := sh.limit)
  }

  predicate HasFile(st: Status) {
    st.stream.Some? ==> st.name in st.disk
  }

  /** The disk once the current stream is closed, as log_init does if there is a file name. */
  function ClosedDisk(st: Status): map<string, Bytes> {
    if st.name == "" || st.stream.None? then st.disk else st.disk[st.name := Contents(SharedOf(st))]
  }

  function Then(st: Status, c: Command): Status {
    match c
    case Write(lev, rec, env) =>
      if lev > st.level || st.stream.None? then st else WithShared(st, Logged(SharedOf(st), rec, env))
    case Setup(level, file, mb, opens) =>
      if file.None? then st.(level := level, maxMb := mb)
      else
        var disk := ClosedDisk(st);
        if !opens then st.(disk := disk, name := file.value, stream := None)
        else st.(disk := if file.value in disk then disk else disk[file.value := []],
                 name := file.value, stream := Some([]), level := level, maxMb := mb)
  }

  ghost function After(st: Status, cmds: seq<Command>): Status {
    if cmds == [] then st else Then(After(st, cmds[..|cmds| - 1]), cmds[|cmds| - 1])
  }

  /** Where a record goes that passes the level test: to a file or to the terminal. */
  datatype Route = Route(to: Option<string>, rec: Record)

  ghost function Routes(st: Status, cmds: seq<Command>): seq<Route> {
    if cmds == [] then []
    else
      var n := |cmds| - 1;
      var before, c := After(st, cmds[..n]), cmds[n];
      Routes(st, cmds[..n]) +
      if c.Write? && c.lev <= before.level
      then [RouteOf(before, c.rec)] else []
  }

  /** Where a record goes when it passes. */
  function RouteOf(st: Status, rec: Record): Route {
    Route(if st.stream.Some? then Some(st.name) else None, rec)
  }

  lemma LastRoute(st: Status, cmds: seq<Command>)
    requires cmds != []
    ensures var before, c := After(st, cmds[..|cmds| - 1]), cmds[|cmds| - 1];
            var routes := Routes(st, cmds[..|cmds| - 1]);
            Routes(st, cmds) ==
            if c.Write? && c.lev <= before.level then routes + [RouteOf(before, c.rec)] else routes
  {
    var routes := Routes(st, cmds[..|cmds| - 1]);
    assert routes + [] == routes;
  }

  ghost function RecordsTo(to: Option<string>, routes: seq<Route>): seq<Record> {
    if routes == [] then []
    else
      var n := |routes| - 1;
      RecordsTo(to, routes[..n]) + if routes[n].to == to then [routes[n].rec] else []
  }

  lemma RecordsToAppend(to: Option<string>, routes: seq<Route>, r: Route)
    ensures RecordsTo(to, routes + [r]) == RecordsTo(to, routes) + if r.to == to then [r.rec] else []
  {
    assert (routes + [r])[..|routes|] == routes;
  }

  // ---------- what is in force ----------

  predicate Succeeds(c: Command) {
    c.Setup? && (c.file.None? || c.opens)
  }

  /** The maximum set by the last successful log_init. */
  function InForce(mb: nat, cmds: seq<Command>): nat {
    if cmds == [] then mb
    else
      var c := cmds[|cmds| - 1];
      if Succeeds(c) then c.mb else InForce(mb, cmds[..|cmds| - 1])
  }

  /** The level set by the last successful log_init. */
  function LevelInForce(level: nat, cmds: seq<Command>): nat {
    if cmds == [] then level
    else
      var c := cmds[|cmds| - 1];
      if Succeeds(c) then c.level else LevelInForce(level, cmds[..|cmds| - 1])
  }

  /** The records that pass the level in force when they are logged, in order. */
  ghost function Passed(level: nat, cmds: seq<Command>): seq<Record> {
    if cmds == [] then []
    else
      var n := |cmds| - 1;
      Passed(level, cmds[..n]) +
      if cmds[n].Write? && cmds[n].lev <= LevelInForce(level, cmds[..n]) then [cmds[n].rec] else []
  }

  ghost function RoutedRecords(routes: seq<Route>): seq<Record> {
    if routes == [] then [] else RoutedRecords(routes[..|routes| - 1]) + [routes[|routes| - 1].rec]
  }

  lemma RoutedAppend(routes: seq<Route>, r: Route)
    ensures RoutedRecords(routes + [r]) == RoutedRecords(routes) + [r.rec]
  {
    assert (routes + [r])[..|routes|] == routes;
  }

  /** Every record that passes the level in force goes to one place, in order, and no other goes anywhere. */
  lemma {:induction false} RoutedExactly(st: Status, cmds: seq<Command>)
    ensures After(st, cmds).level == LevelInForce(st.level, cmds) && After(st, cmds).maxMb == InForce(st.maxMb, cmds)
    ensures RoutedRecords(Routes(st, cmds)) == Passed(st.level, cmds)
    decreases |cmds|
  {
    hide Logged, ClosedDisk, RoutedRecords;
    if cmds == [] {
      NoneRouted();
    } else {
      var n := |cmds| - 1;
      var before, c := After(st, cmds[..n]), cmds[n];
      RoutedExactly(st, cmds[..n]);
      LastRoute(st, cmds);
      assert Passed(st.level, cmds[..n]) + [] == Passed(st.level, cmds[..n]);
      if c.Write? && c.lev <= before.level {
        RoutedAppend(Routes(st, cmds[..n]), RouteOf(before, c.rec));
      }
    }
  }

  lemma NoneRouted()
    ensures RoutedRecords([]) == []
  {}

  // ---------- without log_init: the runs of the shared state ----------

  ghost predicate OnlyWrites(cmds: seq<Command>) {
    forall i | 0 <= i < |cmds| :: cmds[i].Write?
  }

  /** The calls whose records pass the level. */
  ghost function Calls(level: nat, cmds: seq<Command>): seq<Call> {
    if cmds == [] then []
    else
      var n := |cmds| - 1;
      Calls(level, cmds[..n]) +
      if cmds[n].Write? && cmds[n].lev <= level then [Call(cmds[n].rec, cmds[n].env)] else []
  }

  lemma LastCalls(level: nat, cmds: seq<Command>)
    requires cmds != []
    ensures var c, calls := cmds[|cmds| - 1], Calls(level, cmds[..|cmds| - 1]);
            Calls(level, cmds) == if c.Write? && c.lev <= level then calls + [Call(c.rec, c.env)] else calls
  {
    assert Calls(level, cmds[..|cmds| - 1]) + [] == Calls(level, cmds[..|cmds| - 1]);
  }

  lemma SerialAppendOne(sh: Shared, calls: seq<Call>, c: Call)
    ensures Serial(sh, calls + [c]) == Logged(Serial(sh, calls), c.rec, c.env)
    ensures WrittenBy(sh, calls + [c]) == WrittenBy(sh, calls) + if Serial(sh, calls).stream.Some? then [c.rec] else []
    ensures RefusedBy(sh, calls + [c]) == RefusedBy(sh, calls) + if Serial(sh, calls).stream.Some? then [] else [c.rec]
  {
    hide Logged;
    assert (calls + [c])[..|calls|] == calls;
  }

  lemma LoggedRest(sh: Shared, rec: Record, env: Env)
    ensures var sh' := Logged(sh, rec, env); sh'.maxMb == sh.maxMb && (sh.tmp == [] ==> sh'.tmp == [])
    ensures sh.stream.None? ==> Logged(sh, rec, env) == sh
  {
    hide Trimmed, Print;
    if sh.stream.Some? {
      LoggedExactly(sh, rec, env);
    }
    if sh.tmp == [] {
      LoggedTmp(sh, rec, env);
    }
  }

  /** st with the shared state sh. */
  ghost predicate Mirrors(st: Status, sh: Shared) {
    SharedOf(WithShared(st, sh)) == sh && (st.stream.None? ==> sh == SharedOf(st))
  }

  lemma MirrorsAtFirst(st: Status)
    ensures WithShared(st, SharedOf(st)) == st && Mirrors(st, SharedOf(st))
  {}

  lemma WriteMirrors(st: Status, sh: Shared, c: Command)
    requires HasFile(st) && c.Write? && Mirrors(st, sh)
    ensures var sh' := if c.lev <= st.level then Logged(sh, c.rec, c.env) else sh;
            Then(WithShared(st, sh), c) == WithShared(st, sh') && Mirrors(st, sh')
  {
    hide Logged;
    LoggedRest(sh, c.rec, c.env);
  }

  /** Between two calls of log_init the program is a sequence of calls on the shared state,
      which touches no other file. */
  lemma {:induction false} OnlyCalls(st: Status, cmds: seq<Command>)
    requires HasFile(st) && OnlyWrites(cmds)
    ensures var sh, sh' := SharedOf(st), Serial(SharedOf(st), Calls(st.level, cmds));
            && After(st, cmds) == WithShared(st, sh') && SharedOf(After(st, cmds)) == sh'
            && Mirrors(st, sh')
    decreases |cmds|
  {
    hide Logged, Then, Mirrors, SharedOf, WithShared;
    if cmds == [] {
      MirrorsAtFirst(st);
    } else {
      var n := |cmds| - 1;
      var sh := Serial(SharedOf(st), Calls(st.level, cmds[..n]));
      OnlyCalls(st, cmds[..n]);
      LastCalls(st.level, cmds);
      WriteMirrors(st, sh, cmds[n]);
      SerialAppendOne(SharedOf(st), Calls(st.level, cmds[..n]), Call(cmds[n].rec, cmds[n].env));
      assert Mirrors(st, Serial(SharedOf(st), Calls(st.level, cmds)));
    }
    MirrorsShared(st, Serial(SharedOf(st), Calls(st.level, cmds)));
  }

  lemma MirrorsShared(st: Status, sh: Shared)
    requires Mirrors(st, sh)
    ensures SharedOf(WithShared(st, sh)) == sh
  {}

  /** The records of these calls that find the log open go to the current file, the others to the terminal. */
  lemma {:induction false} OnlyCallsRouted(st: Status, cmds: seq<Command>)
    requires HasFile(st) && OnlyWrites(cmds)
    ensures var sh, calls := SharedOf(st), Calls(st.level, cmds);
            && RecordsTo(Some(st.name), Routes(st, cmds)) == WrittenBy(sh, calls)
            && RecordsTo(None, Routes(st, cmds)) == RefusedBy(sh, calls)
    decreases |cmds|
  {
    hide Logged, Serial, RecordsTo;
    if cmds == [] {
      NoneTo(Some(st.name));
      NoneTo(None);
    } else {
      var n := |cmds| - 1;
      var before, c := After(st, cmds[..n]), cmds[n];
      OnlyCalls(st, cmds[..n]);
      OnlyCallsRouted(st, cmds[..n]);
      LastCalls(st.level, cmds);
      LastRoute(st, cmds);
      if c.lev <= st.level {
        SerialAppendOne(SharedOf(st), Calls(st.level, cmds[..n]), Call(c.rec, c.env));
        var r := RouteOf(before, c.rec);
        RecordsToAppend(Some(st.name), Routes(st, cmds[..n]), r);
        RecordsToAppend(None, Routes(st, cmds[..n]), r);
      }
    }
  }

  lemma NoneTo(to: Option<string>)
    ensures RecordsTo(to, []) == []
  {}

  /** A program is its parts one after the other. */
  lemma {:induction false} AfterAppend(st: Status, a: seq<Command>, b: seq<Command>)
    ensures After(st, a + b) == After(After(st, a), b)
    ensures Routes(st, a + b) == Routes(st, a) + Routes(After(st, a), b)
    decreases |b|
  {
    hide Then;
    if b == [] {
      assert a + b == a;
    } else {
      var n := |b| - 1;
      assert (a + b)[..|a| + n] == a + b[..n];
      AfterAppend(st, a, b[..n]);
    }
  }

  lemma {:induction false} HasFileAfter(st: Status, cmds: seq<Command>)
    requires HasFile(st)
    ensures HasFile(After(st, cmds))
    decreases |cmds|
  {
    hide Logged, ClosedDisk;
    if cmds != [] {
      var before, c := After(st, cmds[..|cmds| - 1]), cmds[|cmds| - 1];
      HasFileAfter(st, cmds[..|cmds| - 1]);
      if c.Write? {
        LoggedRest(SharedOf(before), c.rec, c.env);
      }
    }
  }

  // ---------- every file, over programs that change the file ----------

  /** What a file holds, with what the stream still holds for it. */
  function OnDisk(st: Status, name: string): Bytes {
    FileOf(st, name) + if name == st.name then Buffered(SharedOf(st)) else []
  }

  /** sendfile moves all bytes or none, and fopen does not open a file without name. */
  predicate Regular(c: Command) {
    match c
    case Write(_, _, env) => AllOrNone(env)
    case Setup(_, file, _, opens) => file == Some("") ==> !opens
  }

  ghost predicate AllRegular(cmds: seq<Command>) {
    forall i | 0 <= i < |cmds| :: Regular(cmds[i])
  }

  predicate Named(st: Status) {
    HasFile(st) && (st.stream.Some? ==> st.name != "")
  }

  lemma LoggedSuffix(sh: Shared, rec: Record, env: Env)
    requires AllOrNone(env)
    ensures IsSuffix(Contents(Logged(sh, rec, env)), Grown(sh, rec))
  {
    hide Logged, Trimmed, Contents, Grown, IsSuffix, CallTrims;
    LoggedGrown(sh, Call(rec, env));
    SuffixSelf(Grown(sh, rec));
    TrimSuffix(|Grown(sh, rec)|, env);
  }

  /** The end of the file stays, with the record that goes to it. */
  lemma WriteKeeps(st: Status, c: Command, name: string)
    requires Named(st) && c.Write? && AllOrNone(c.env)
    ensures Named(Then(st, c))
    ensures IsSuffix(OnDisk(Then(st, c), name),
                     OnDisk(st, name) + if c.lev <= st.level && st.stream.Some? && name == st.name
                                        then Whole(c.rec) else [])
  {
    hide Logged, IsSuffix;
    var b := OnDisk(st, name);
    assert b + [] == b;
    SuffixSelf(b);
    if c.lev <= st.level && st.stream.Some? {
      LoggedSuffix(SharedOf(st), c.rec, c.env);
    }
  }

  /** log_init loses nothing of any file. */
  lemma SetupKeeps(st: Status, c: Command, name: string)
    requires Named(st) && c.Setup? && Regular(c)
    ensures Named(Then(st, c)) && OnDisk(Then(st, c), name) == OnDisk(st, name)
  {
    var closed := if name == st.name then Contents(SharedOf(st)) else FileOf(st, name);
    assert closed + [] == closed;
    if c.file.Some? {
      assert (if name in ClosedDisk(st) then ClosedDisk(st)[name] else []) == closed == OnDisk(st, name);
    }
  }

  /** Over every program, whatever fails: every file, with what the stream holds for it, is a suffix of its
      initial contents and the records that went to it. */
  lemma {:induction false} EveryFileIsSuffix(st: Status, cmds: seq<Command>, name: string)
    requires Named(st) && AllRegular(cmds)
    ensures Named(After(st, cmds))
    ensures IsSuffix(OnDisk(After(st, cmds), name), OnDisk(st, name) + Flat(RecordsTo(Some(name), Routes(st, cmds))))
    decreases |cmds|
  {
    hide Then, IsSuffix, Flat, RecordsTo, Named, OnDisk;
    if cmds == [] {
      NoneTo(Some(name));
      NothingWritten(OnDisk(st, name));
    } else {
      var n := |cmds| - 1;
      var before, c := After(st, cmds[..n]), cmds[n];
      EveryFileIsSuffix(st, cmds[..n], name);
      var h := OnDisk(st, name) + Flat(RecordsTo(Some(name), Routes(st, cmds[..n])));
      if c.Setup? {
        SetupKeeps(before, c, name);
        LastRoute(st, cmds);
      } else {
        var goes := c.lev <= before.level && before.stream.Some? && name == before.name;
        WriteKeeps(before, c, name);
        RoutedToFile(st, cmds, name);
        var more := if goes then Whole(c.rec) else [];
        SuffixAppend(OnDisk(before, name), h, more);
        SuffixTransitive(OnDisk(After(st, cmds), name), OnDisk(before, name) + more, h + more);
      }
    }
  }

  lemma RoutedToFile(st: Status, cmds: seq<Command>, name: string)
    requires cmds != [] && cmds[|cmds| - 1].Write?
    ensures var n := |cmds| - 1;
            var before, c, b := After(st, cmds[..n]), cmds[n], OnDisk(st, name);
            b + Flat(RecordsTo(Some(name), Routes(st, cmds))) ==
            b + Flat(RecordsTo(Some(name), Routes(st, cmds[..n]))) +
            if c.lev <= before.level && before.stream.Some? && name == before.name then Whole(c.rec) else []
  {
    hide Then, Flat, RecordsTo, OnDisk, Whole, After, Routes;
    var n := |cmds| - 1;
    var before, c, routes := After(st, cmds[..n]), cmds[n], Routes(st, cmds[..n]);
    LastRoute(st, cmds);
    RecordsToAppend(Some(name), routes, RouteOf(before, c.rec));
    FlatMore(OnDisk(st, name), RecordsTo(Some(name), routes), c.rec);
  }

  lemma FlatMore(b: Bytes, recs: seq<Record>, rec: Record)
    ensures b + Flat(recs + [rec]) == b + Flat(recs) + Whole(rec)
    ensures b + Flat(recs + []) == b + Flat(recs) + []
  {
    hide Flat, Whole;
    FlatAppend(recs, rec);
    assert recs + [] == recs;
    assert b + Flat(recs) + [] == b + Flat(recs);
    assert b + (Flat(recs) + Whole(rec)) == b + Flat(recs) + Whole(rec);
  }
}
