/** The size-capped log: what one call of the logger does, step by step and as a whole. */
module LogModel {
  import opened Arith

  type Bytes = seq<bv8>

  datatype Option<T> = None | Some(value: T)

  /** A record goes out in two parts: the time stamp with the level, and the message. */
  datatype Record = Record(header: Bytes, body: Bytes)

  /** What a call of sendfile does: fail, move all it was asked to, or stop short after k bytes. */
  datatype Transfer = Failed | Full | Short(k: nat)

  /** How the library and system calls of one critical section turn out. */
  datatype Env = Env(
    flush1: nat,        // bytes the stream writes out by itself while the header is printed
    flush2: nat,        // ... and while the message is printed
    stat1: bool, stat2: bool, open: bool, mkstemp: bool,
    sendOut: Transfer, truncate: bool, sendBack: Transfer,
    reopen: bool)

  /** What the threads share, and the disk. */
  datatype Shared = Shared(
    file: Bytes,              // the log file
    stream: Option<Bytes>,    // g_log_fd: null, or open with these bytes not yet written out
    tmp: Bytes,               // the temporary file
    tick: nat,                // check_tick
    limit: Option<nat>,       // the static max_size, unset until the first check
    maxMb: nat)               // g_max_mb

  const PERIOD: nat := 1024

  function Moved(t: Transfer, src: Bytes): Bytes
    requires !t.Failed?
  {
    if t.Full? then src else src[..Min(t.k, |src|)]
  }

  function Buffered(sh: Shared): Bytes {
    if sh.stream.None? then [] else sh.stream.value
  }

  /** The log: the file and what the stream still holds. */
  function Contents(sh: Shared): Bytes {
    sh.file + Buffered(sh)
  }

  function Whole(rec: Record): Bytes {
    rec.header + rec.body
  }

  function UpperHalf(b: Bytes): Bytes {
    b[|b| / 2..]
  }

  function Limit(sh: Shared): nat {
    if sh.limit.None? then 1024 * 1024 * sh.maxMb else sh.limit.value
  }

  /** Printing to the stream, which may write out some of its bytes. */
  function Print(sh: Shared, bytes: Bytes, flush: nat): Shared
    requires sh.stream.Some?
  {
    var buf := sh.stream.value + bytes;
    var n := Min(flush, |buf|);
    sh.(file := sh.file + buf[..n], stream := Some(buf[n..]))
  }

  // ---------- the critical section, one library or system call at a time ----------

  datatype Point =
    | Entry | Header | Body | TickTest
    | Stat1 | Close | Stat2 | Open | MkTemp | SendOut | Truncate | SendBack | Reopen
    | TickReset | TickInc | Unlock

  /** What the call at a point does, and where the thread is afterwards.
      (At Header and Body the stream is never null; the function is total all the same.) */
  function Step(sh: Shared, rec: Record, env: Env, at: Point): (Shared, Point) {
    match at
    case Entry => (sh, if sh.stream.None? then Unlock else Header)
    case Header => if sh.stream.None? then (sh, Unlock) else (Print(sh, rec.header, env.flush1), Body)
    case Body => if sh.stream.None? then (sh, Unlock) else (Print(sh, rec.body, env.flush2), TickTest)
    case TickTest => (sh, if sh.tick > PERIOD then Stat1 else TickInc)
    case Stat1 =>
      var sh := sh.(limit := Some(Limit(sh)));
      (sh, if !env.stat1 || |sh.file| < sh.limit.value then TickReset else Close)
    case Close => (sh.(file := Contents(sh), stream := None), Stat2)
    case Stat2 => (sh, if env.stat2 then Open else TickReset)
    case Open => (sh, if env.open then MkTemp else Reopen)
    case MkTemp => if env.mkstemp then (sh.(tmp := []), SendOut) else (sh, Reopen)
    case SendOut =>
      if env.sendOut.Failed? then (sh, Reopen)
      else (sh.(tmp := sh.tmp + Moved(env.sendOut, UpperHalf(sh.file))), Truncate)
    case Truncate => if env.truncate then (sh.(file := []), SendBack) else (sh, Reopen)
    case SendBack =>
      if env.sendBack.Failed? then (sh, Reopen)
      else (sh.(file := sh.file + Moved(env.sendBack, sh.tmp)), Reopen)
    case Reopen => (sh.(tmp := [], stream := if env.reopen then Some([]) else None), TickReset)
    case TickReset => (sh.(tick := 0), TickInc)
    case TickInc => (sh.(tick := sh.tick + 1), Unlock)
    case Unlock => (sh, Unlock)
  }

  /** How many steps are left at most. */
  function Left(at: Point): nat {
    match at
    case Entry => 15
    case Header => 14
    case Body => 13
    case TickTest => 12
    case Stat1 => 11
    case Close => 10
    case Stat2 => 9
    case Open => 8
    case MkTemp => 7
    case SendOut => 6
    case Truncate => 5
    case SendBack => 4
    case Reopen => 3
    case TickReset => 2
    case TickInc => 1
    case Unlock => 0
  }

  /** The shared state when the rest of the critical section is through. */
  function Finish(sh: Shared, rec: Record, env: Env, at: Point): Shared
    decreases Left(at)
  {
    if at == Unlock then sh
    else
      var (sh', at') := Step(sh, rec, env, at);
      Finish(sh', rec, env, at')
  }

  // ---------- the critical section as a whole ----------

  /** The file after a trim, when the file had the bytes `all`. */
  function Trimmed(all: Bytes, env: Env): Bytes {
    if !env.open || !env.mkstemp || env.sendOut.Failed? || !env.truncate then all
    else if env.sendBack.Failed? then []
    else Moved(env.sendBack, Moved(env.sendOut, UpperHalf(all)))
  }

  /** check_file_size */
  function Checked(sh: Shared, env: Env): Shared {
    var sh := sh.(limit := Some(Limit(sh)));
    if !env.stat1 || |sh.file| < sh.limit.value then sh
    else if !env.stat2 then sh.(file := Contents(sh), stream := None)
    else sh.(file := Trimmed(Contents(sh), env), stream := if env.reopen then Some([]) else None)
  }

  /** Both parts of the record are printed. */
  function Printed(sh: Shared, rec: Record, env: Env): Shared
    requires sh.stream.Some?
  {
    Print(Print(sh, rec.header, env.flush1), rec.body, env.flush2)
  }

  /** __log, for a record that passes the level test. */
  function Logged(sh: Shared, rec: Record, env: Env): Shared {
    if sh.stream.None? then sh
    else
      var sh := Printed(sh, rec, env);
      var sh := if sh.tick > PERIOD then Checked(sh, env).(tick := 0) else sh;
      sh.(tick := sh.tick + 1)
  }

  lemma FinishReopen(sh: Shared, rec: Record, env: Env)
    ensures Finish(sh, rec, env, Reopen) == sh.(tmp := [], stream := if env.reopen then Some([]) else None, tick := 1)
  {}

  function AfterTruncate(sh: Shared, env: Env): Bytes {
    if !env.truncate then sh.file else if env.sendBack.Failed? then [] else Moved(env.sendBack, sh.tmp)
  }

  lemma FinishTruncate(sh: Shared, rec: Record, env: Env)
    ensures Finish(sh, rec, env, Truncate) ==
            sh.(tmp := [], file := AfterTruncate(sh, env), stream := if env.reopen then Some([]) else None, tick := 1)
  {
    hide Moved;
    if !env.truncate {
      FinishReopen(sh, rec, env);
    } else {
      var sh' := sh.(file := []);
      assert Finish(sh, rec, env, Truncate) == Finish(sh', rec, env, SendBack);
      var sh'' := sh.(file := AfterTruncate(sh, env));
      assert Finish(sh', rec, env, SendBack) == Finish(sh'', rec, env, Reopen);
      FinishReopen(sh'', rec, env);
    }
  }

  lemma FinishSendOut(sh: Shared, rec: Record, env: Env)
    requires sh.tmp == [] && env.open && env.mkstemp
    ensures Finish(sh, rec, env, SendOut) ==
            sh.(file := Trimmed(sh.file, env), stream := if env.reopen then Some([]) else None, tick := 1)
  {
    hide Moved, UpperHalf;
    if env.sendOut.Failed? {
      FinishReopen(sh, rec, env);
    } else {
      var out := Moved(env.sendOut, UpperHalf(sh.file));
      assert sh.tmp + out == out;
      var sh' := sh.(tmp := out);
      assert Finish(sh, rec, env, SendOut) == Finish(sh', rec, env, Truncate);
      FinishTruncate(sh', rec, env);
    }
  }

  lemma FinishTrim(sh: Shared, rec: Record, env: Env)
    requires sh.stream.None? && sh.tmp == []
    ensures Finish(sh, rec, env, Open) ==
            sh.(file := Trimmed(sh.file, env), stream := if env.reopen then Some([]) else None, tick := 1)
  {
    hide Trimmed;
    if !env.open || !env.mkstemp {
      NoTemporary(sh.file, env);
      FinishReopen(sh, rec, env);
    } else {
      FinishSendOut(sh.(tmp := []), rec, env);
    }
  }

  lemma NoTemporary(all: Bytes, env: Env)
    requires !env.open || !env.mkstemp
    ensures Trimmed(all, env) == all
  {}

  lemma FinishCheck(sh: Shared, rec: Record, env: Env)
    requires sh.stream.Some? && sh.tmp == []
    ensures Finish(sh, rec, env, Stat1) == Checked(sh, env).(tick := 1)
  {
    hide Trimmed;
    var sh1 := sh.(limit := Some(Limit(sh)));
    if env.stat1 && |sh1.file| >= sh1.limit.value {
      var sh2 := sh1.(file := Contents(sh1), stream := None);
      assert Finish(sh, rec, env, Stat1) == Finish(sh2, rec, env, Stat2);
      if env.stat2 {
        FinishTrim(sh2, rec, env);
      }
    }
  }

  /** The small steps add up to the whole. */
  lemma FinishIsLogged(sh: Shared, rec: Record, env: Env)
    requires sh.tmp == []
    ensures Finish(sh, rec, env, Entry) == Logged(sh, rec, env)
  {
    hide Checked, Trimmed, Print;
    if sh.stream.Some? {
      var sh1 := Print(sh, rec.header, env.flush1);
      PrintKeeps(sh, rec.header, env.flush1);
      var sh2 := Print(sh1, rec.body, env.flush2);
      PrintKeeps(sh1, rec.body, env.flush2);
      assert Finish(sh, rec, env, Entry) == Finish(sh1, rec, env, Body);
      assert Finish(sh1, rec, env, Body) == Finish(sh2, rec, env, TickTest);
      if sh2.tick > PERIOD {
        FinishCheck(sh2, rec, env);
      }
    }
  }

  /** Printing appends to the log, however much the stream writes out, and leaves the rest alone;
      the file gets what the stream writes out and no more. */
  lemma PrintKeeps(sh: Shared, bytes: Bytes, flush: nat)
    requires sh.stream.Some?
    ensures var sh' := Print(sh, bytes, flush);
            && Contents(sh') == Contents(sh) + bytes
            && sh'.stream.Some? && sh'.tmp == sh.tmp && sh'.tick == sh.tick
            && sh'.limit == sh.limit && sh'.maxMb == sh.maxMb
            && |sh'.file| == |sh.file| + Min(flush, |sh.stream.value| + |bytes|)
  {
    var buf := sh.stream.value + bytes;
    var n := Min(flush, |buf|);
    assert buf[..n] + buf[n..] == buf;
    assert (sh.file + buf[..n]) + buf[n..] == sh.file + buf == (sh.file + sh.stream.value) + bytes;
  }

  // ---------- the effect of a call on the log ----------

  /** The next call that prints will check the size of the log. */
  predicate CheckDue(sh: Shared) {
    sh.stream.Some? && sh.tick > PERIOD
  }

  /** A check finds the file too large and closes the stream. */
  predicate TooLarge(sh: Shared, env: Env) {
    env.stat1 && |sh.file| >= Limit(sh)
  }

  lemma PrintedKeeps(sh: Shared, rec: Record, env: Env)
    requires sh.stream.Some?
    ensures var p := Printed(sh, rec, env);
            && Contents(p) == Contents(sh) + Whole(rec)
            && p.stream.Some? && p.tmp == sh.tmp && p.tick == sh.tick
            && p.limit == sh.limit && p.maxMb == sh.maxMb
  {
    hide Print, Contents;
    var p := Print(sh, rec.header, env.flush1);
    PrintKeeps(sh, rec.header, env.flush1);
    PrintKeeps(p, rec.body, env.flush2);
    assert (Contents(sh) + rec.header) + rec.body == Contents(sh) + (rec.header + rec.body);
  }

  /** How much of the stream and of the record is in the file when a check looks at it. */
  function WrittenOut(sh: Shared, rec: Record, env: Env): nat
    requires sh.stream.Some?
  {
    var n := |sh.stream.value| + |rec.header|;
    var first := Min(env.flush1, n);
    first + Min(env.flush2, n - first + |rec.body|)
  }

  lemma CheckSees(sh: Shared, rec: Record, env: Env)
    requires sh.stream.Some?
    ensures |Printed(sh, rec, env).file| == |sh.file| + WrittenOut(sh, rec, env)
    ensures TooLarge(Printed(sh, rec, env), env) <==>
            env.stat1 && |sh.file| + WrittenOut(sh, rec, env) >= Limit(sh)
  {
    hide Print, Contents;
    PrintKeeps(sh, rec.header, env.flush1);
    PrintKeeps(Print(sh, rec.header, env.flush1), rec.body, env.flush2);
    PrintedKeeps(sh, rec, env);
    BufferSize(sh, rec.header, env.flush1);
  }

  lemma BufferSize(sh: Shared, bytes: Bytes, flush: nat)
    requires sh.stream.Some?
    ensures Print(sh, bytes, flush).stream.Some?
    ensures var n := |sh.stream.value| + |bytes|; |Print(sh, bytes, flush).stream.value| == n - Min(flush, n)
  {}

  /** What is still in the stream is not seen by a check: without flushes, a file below the limit is left alone. */
  lemma BufferedUnseen(sh: Shared, rec: Record, env: Env)
    requires sh.stream.Some? && env.flush1 == env.flush2 == 0 && |sh.file| < Limit(sh)
    ensures Logged(sh, rec, env).stream.Some? && Contents(Logged(sh, rec, env)) == Contents(sh) + Whole(rec)
    ensures Logged(sh, rec, env).file == sh.file
  {
    hide Logged, Printed, Contents;
    CheckSees(sh, rec, env);
    LoggedExactly(sh, rec, env);
    NothingWrittenOut(sh, rec, env);
  }

  lemma NothingWrittenOut(sh: Shared, rec: Record, env: Env)
    requires sh.stream.Some? && env.flush1 == env.flush2 == 0
    ensures Printed(sh, rec, env).file == sh.file
  {
    assert sh.file + [] == sh.file;
  }

  /** How many of n bytes a transfer moves. */
  function Amount(t: Transfer, n: nat): nat
    requires !t.Failed?
  {
    if t.Full? then n else Min(t.k, n)
  }

  /** The bytes that a trim which empties the file and copies back leaves: from the middle on,
      as many as both transfers move. */
  lemma TrimmedBytes(all: Bytes, env: Env)
    requires env.open && env.mkstemp && !env.sendOut.Failed? && env.truncate && !env.sendBack.Failed?
    ensures var h := |all| / 2;
            var n := Min(Amount(env.sendOut, |all| - h), Amount(env.sendBack, |all| - h));
            Trimmed(all, env) == all[h..h + n]
  {
    var half := UpperHalf(all);
    var out := Moved(env.sendOut, half);
    assert out == half[..Amount(env.sendOut, |half|)];
    assert Moved(env.sendBack, out) == out[..Amount(env.sendBack, |out|)];
  }

  /** What a call leaves of the log, and when it closes the stream, sets the limit and starts the count again. */
  lemma LoggedExactly(sh: Shared, rec: Record, env: Env)
    requires sh.stream.Some?
    ensures var p, sh' := Printed(sh, rec, env), Logged(sh, rec, env);
            var all := Contents(sh) + Whole(rec);
            && Contents(sh') == (if CheckDue(sh) && TooLarge(p, env) && env.stat2 then Trimmed(all, env) else all)
            && sh'.file == (if CheckDue(sh) && TooLarge(p, env)
                            then if env.stat2 then Trimmed(all, env) else all
                            else p.file)
            && (sh'.stream.None? <==> CheckDue(sh) && TooLarge(p, env) && !(env.stat2 && env.reopen))
            && sh'.limit == (if CheckDue(sh) then Some(Limit(sh)) else sh.limit)
            && sh'.tick == (if CheckDue(sh) then 1 else sh.tick + 1)
            && sh'.maxMb == sh.maxMb
  {
    hide Printed, Trimmed;
    var p := Printed(sh, rec, env);
    PrintedKeeps(sh, rec, env);
    assert Contents(p) + [] == Contents(p);
    assert Trimmed(Contents(p), env) + [] == Trimmed(Contents(p), env);
  }
}
