/** The logger itself: its variables, and its functions as they assign them. */
module Logger {
  import opened Arith
  import opened LogModel
  import opened LogMachine
  import opened LogSuffix
  import opened LogRequests
  import opened LogStatus

  class Logger {
    var disk: map<string, Bytes>    // the files by name
    var name: string                // g_log_file
    var stream: Option<Bytes>       // g_log_fd
    var level: nat                  // g_log_level
    var maxMb: nat                  // g_max_mb
    var tick: nat                   // check_tick
    var limit: Option<nat>          // max_size

    ghost predicate Valid()
      reads this
    {
      stream.Some? ==> name in disk
    }

    function File(): Bytes
      reads this
    {
      if name in disk then disk[name] else []
    }

    ghost function State(): Shared
      reads this
    {
      SharedOf(Value())
    }

    /** All variables together. */
    ghost function Value(): Status
      reads this
    {
      Status(disk, name, stream, level, maxMb, tick, limit)
    }

    /** What the program starts with: messages go to the terminal. */
    constructor (disk: map<string, Bytes>)
      ensures Valid() && this.disk == disk && stream.None? && level == 1 && maxMb == 10 && tick == 0 && limit.None?
    {
      this.disk, name, stream, level, maxMb, tick, limit := disk, "", None, 1, 10, 0, None;
    }

    /** log_init: `opens` says whether fopen succeeds. */
    method LogInit(logLevel: nat, logFile: Option<string>, mb: nat, opens: bool) returns (ret: int)
      requires Valid()
      modifies this
      ensures Valid() && tick == old(tick) && limit == old(limit)
      ensures ret == if logFile.None? || opens then 0 else -1
      ensures if ret == 0 then level == logLevel && maxMb == mb else level == old(level) && maxMb == old(maxMb)
      ensures logFile.None? ==> disk == old(disk) && name == old(name) && stream == old(stream)
      ensures logFile.Some? ==> name == logFile.value && stream == if opens then Some([]) else None
      // what the old stream still held is in the old file, and no file loses anything
      ensures logFile.Some? ==>
        var closed := if old(name) == "" || old(stream).None? then old(disk)
                      else old(disk)[old(name) := Contents(old(State()))];
        disk == if opens && logFile.value !in closed then closed[logFile.value := []] else closed
      ensures Value() == Then(old(Value()), Setup(logLevel, logFile, mb, opens))
    {
      if logFile.Some? {
        if |name| != 0 && stream.Some? {
          disk := disk[name := disk[name] + stream.value];
        }
        name := logFile.value;
        stream := None;
        if opens {
          if name !in disk {
            disk := disk[name := []];
          }
          stream := Some([]);
        } else {
          return -1;
        }
      }
      level := logLevel;
      maxMb := mb;
      return 0;
    }

    /** The part of check_file_size that rewrites the file, through a temporary one. */
    method KeepUpperHalf(env: Env) returns (ret: int)
      requires name in disk
      modifies this`disk
      ensures disk == old(disk)[name := Trimmed(old(disk)[name], env)]
      ensures ret == if env.open && env.mkstemp && !env.sendOut.Failed? && env.truncate && !env.sendBack.Failed?
                     then 0 else -1
    {
      ret := -1;
      var halfPoint := |disk[name]| / 2;
      var tmp: Bytes := [];
      label ending: {
        if !env.open {
          break ending;
        }
        if !env.mkstemp {
          break ending;
        }
        if env.sendOut.Failed? {
          break ending;
        }
        tmp := tmp + Moved(env.sendOut, disk[name][halfPoint..]);
        assert tmp == Moved(env.sendOut, UpperHalf(old(disk)[name]));
        if !env.truncate {
          break ending;
        }
        disk := disk[name := []];
        if env.sendBack.Failed? {
          break ending;
        }
        disk := disk[name := disk[name] + Moved(env.sendBack, tmp)];
        assert disk[name] == Moved(env.sendBack, tmp);
        ret := 0;
      }
    }

    /** check_file_size */
    method CheckFileSize(env: Env) returns (ret: int)
      requires Valid() && stream.Some?
      modifies this
      ensures Valid() && name == old(name) && level == old(level)
      ensures State() == Checked(old(State()), env)
      // the temporary file is gone again, and no other file is touched
      ensures disk == old(disk)[name := Checked(old(State()), env).file]
      ensures ret == if env.stat1 && (|old(File())| < Limit(old(State())) ||
                       (env.stat2 && env.open && env.mkstemp && !env.sendOut.Failed? && env.truncate
                        && !env.sendBack.Failed? && env.reopen))
                     then 0 else -1
    {
      hide Trimmed;
      if limit.None? {
        limit := Some(1024 * 1024 * maxMb);
      }
      if !env.stat1 {
        return -1;
      }
      if |disk[name]| < limit.value {
        return 0;
      }
      disk := disk[name := disk[name] + stream.value];
      stream := None;
      if !env.stat2 {
        return -1;
      }
      ret := KeepUpperHalf(env);
      var reopened := LogInit(level, Some(name), maxMb, env.reopen);
      if reopened == -1 {
        return -1;
      }
    }

    /** fprintf to the open stream, which writes out `flush` of its bytes. */
    method Fprint(bytes: Bytes, flush: nat)
      requires Valid() && stream.Some?
      modifies this`disk, this`stream
      ensures Valid() && stream.Some? && tick == old(tick)
      ensures Value() == WithShared(old(Value()), Print(old(State()), bytes, flush))
      ensures State() == Print(old(State()), bytes, flush)
      ensures disk == old(disk)[name := Print(old(State()), bytes, flush).file]
    {
      var buf := stream.value + bytes;
      var n := Min(flush, |buf|);
      disk := disk[name := disk[name] + buf[..n]];
      stream := Some(buf[n..]);
    }

    /** __log: what goes to the terminal is returned. */
    method Log(lev: nat, rec: Record, env: Env) returns (terminal: Bytes)
      requires Valid()
      modifies this
      ensures Valid() && name == old(name) && level == old(level)
      ensures State() == if lev > level then old(State()) else Logged(old(State()), rec, env)
      ensures terminal == if lev <= level && old(stream).None? then rec.header + rec.body else []
      ensures Value() == Then(old(Value()), Write(lev, rec, env))
      ensures disk == if name in old(disk) then old(disk)[name := State().file] else old(disk)
    {
      hide Print, Checked, Contents;
      LoggedRest(State(), rec, env);
      if lev > level {
        return [];
      }
      if stream.Some? {
        Fprint(rec.header, env.flush1);
        Fprint(rec.body, env.flush2);
        if tick > PERIOD {
          var _ := CheckFileSize(env);
          tick := 0;
        }
        tick := tick + 1;
        return [];
      } else {
        return rec.header + rec.body;
      }
    }
  }

  // ---------- programs that log and set the log up anew ----------

  /** Any sequence of calls of __log and log_init. */
  method Execute(logger: Logger, cmds: seq<Command>) returns (terminal: Bytes, ghost first: nat)
    requires logger.Valid()
    modifies logger
    ensures logger.Valid() && logger.Value() == After(old(logger.Value()), cmds)
    ensures terminal == Flat(RecordsTo(None, Routes(old(logger.Value()), cmds)))
    ensures logger.maxMb == InForce(old(logger.maxMb), cmds) && logger.level == LevelInForce(old(logger.level), cmds)
    // without log_init, it is the sequence of calls whose records pass the level
    ensures OnlyWrites(cmds) ==>
              var sh, calls := old(logger.State()), Calls(old(logger.level), cmds);
              && logger.State() == Serial(sh, calls)
              && logger.disk == (if old(logger.name) in old(logger.disk)
                                 then old(logger.disk)[old(logger.name) := Serial(sh, calls).file]
                                 else old(logger.disk))
              && terminal == Flat(RefusedBy(sh, calls))
    // the limit once set never changes; it is set by a call of __log, to the maximum then in force
    ensures old(logger.limit).Some? ==> logger.limit == old(logger.limit)
    ensures old(logger.limit).None? && logger.limit.Some? ==>
            && first < |cmds| && cmds[first].Write?
            && logger.limit == Some(1024 * 1024 * InForce(old(logger.maxMb), cmds[..first]))
  {
    hide Logged, Then, Flat, RecordsTo, Routes, SharedOf, Serial, Calls;
    terminal, first := [], 0;
    ghost var st := logger.Value();
    Outset(st);
    var i := 0;
    while i < |cmds|
      invariant 0 <= i <= |cmds| && logger.Valid() && logger.Value() == After(st, cmds[..i])
      invariant terminal == Flat(RecordsTo(None, Routes(st, cmds[..i])))
      invariant logger.maxMb == InForce(st.maxMb, cmds[..i])
      invariant st.limit.Some? ==> logger.limit == st.limit
      invariant st.limit.None? && logger.limit.Some? ==>
                && first < i && cmds[first].Write?
                && logger.limit == Some(1024 * 1024 * InForce(st.maxMb, cmds[..first]))
    {
      ghost var before := logger.Value();
      NextCommand(st, cmds, i);
      match cmds[i] {
        case Write(lev, rec, env) =>
          WriteLimit(before, cmds[i]);
          var out := logger.Log(lev, rec, env);
          terminal := terminal + out;
          if before.limit.None? && logger.limit.Some? {
            first := i;
          }
        case Setup(level, file, mb, opens) =>
          var _ := logger.LogInit(level, file, mb, opens);
      }
      i := i + 1;
    }
    assert cmds[..i] == cmds;
    RoutedExactly(st, cmds);
    if OnlyWrites(cmds) {
      OnlyCalls(st, cmds);
      OnlyCallsRouted(st, cmds);
    }
  }

  lemma Outset(st: Status)
    ensures After(st, []) == st && Flat(RecordsTo(None, Routes(st, []))) == [] && InForce(st.maxMb, []) == st.maxMb
  {}

  /** What one more command adds to the effects of a program. */
  lemma NextCommand(st: Status, cmds: seq<Command>, i: nat)
    requires i < |cmds|
    ensures var before, c := After(st, cmds[..i]), cmds[i];
            && After(st, cmds[..i + 1]) == Then(before, c)
            && Flat(RecordsTo(None, Routes(st, cmds[..i + 1]))) ==
               Flat(RecordsTo(None, Routes(st, cmds[..i]))) +
               (if c.Write? && c.lev <= before.level && before.stream.None? then c.rec.header + c.rec.body else [])
            && InForce(st.maxMb, cmds[..i + 1]) == if Succeeds(c) then c.mb else InForce(st.maxMb, cmds[..i])
  {
    hide Then, Flat, RecordsTo, Routes;
    var before, c, routes := After(st, cmds[..i]), cmds[i], Routes(st, cmds[..i]);
    assert cmds[..i + 1][..i] == cmds[..i];
    LastRoute(st, cmds[..i + 1]);
    if c.Write? {
      RecordsToAppend(None, routes, RouteOf(before, c.rec));
      FlatAppend(RecordsTo(None, routes), c.rec);
    }
    assert RecordsTo(None, routes) + [] == RecordsTo(None, routes);
    assert Flat(RecordsTo(None, routes)) + [] == Flat(RecordsTo(None, routes));
  }

  lemma WriteLimit(st: Status, c: Command)
    requires c.Write?
    ensures var st' := Then(st, c);
            && st'.maxMb == st.maxMb
            && (st'.limit == st.limit || (st.limit.None? && st'.limit == Some(1024 * 1024 * st.maxMb)))
  {
    hide Logged;
    if st.stream.Some? {
      LoggedExactly(SharedOf(st), c.rec, c.env);
    }
  }
}
