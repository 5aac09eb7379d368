/** The connection mutex and the read gate, shared by any number of threads. */
module LockProtocol {
  import opened Wrappers
  import opened Sums

  /** What a thread does to the locks, in program order. `Exclusive` is VACUUM or a truncating checkpoint. */
  datatype Action =
    | LockConn | UnlockConn | GateWrite | ReleaseWrite | GateRead | ReleaseRead
    | OpenRead | CloseRead | Work | Exclusive

  // ---------------------------------------------------------- the operations

  /** The database's operations, with the outcomes that change which locks they take. */
  datatype Operation =
    | Write(oversizedWal: bool)        // inserts, prunes and the start-up check, which may truncate the WAL
    | Vacuum(done: nat)                // how much exclusive work it does before it ends or fails
    | ClearThenVacuum(done: nat)       // clear_query_logs and clear_statistics
    | VacuumIfBloated(bloated: bool, done: nat)
    | CompactPending(pending: bool, done: nat, vacuumed: bool)
    | ReadMain                         // reads of an in-memory database, on the main connection
    | ReadPage(opens: bool)           // one read-only connection, if it opens
    | ReadStats(connections: nat)           // log_stats: up to four read-only connections

  const WRITE: seq<Action> := [LockConn, Work, UnlockConn]

  function Repeat(a: Action, n: nat): (s: seq<Action>)
    ensures |s| == n && forall i :: 0 <= i < n ==> s[i] == a
  {
    if n == 0 then [] else [a] + Repeat(a, n - 1)
  }

  function Vacuuming(done: nat): seq<Action> {
    [LockConn, GateWrite] + Repeat(Exclusive, done) + [ReleaseWrite, UnlockConn]
  }

  function Program(op: Operation): seq<Action> {
    match op
    case Write(oversized) =>
      if oversized then [LockConn, Work, GateWrite, Exclusive, ReleaseWrite, UnlockConn] else WRITE
    case Vacuum(done) => Vacuuming(done)
    case ClearThenVacuum(done) => WRITE + Vacuuming(done)
    case VacuumIfBloated(bloated, done) => WRITE + if bloated then Vacuuming(done) else []
    case CompactPending(pending, done, vacuumed) =>
      WRITE + if !pending then [] else Vacuuming(done) + if vacuumed then WRITE else []
    case ReadMain => WRITE
    case ReadPage(opens) => [GateRead] + (if opens then [OpenRead, Work, CloseRead] else []) + [ReleaseRead]
    case ReadStats(n) => [GateRead] + Repeat(OpenRead, n) + [Work] + Repeat(CloseRead, n) + [ReleaseRead]
  }

  // -------------------------------------------------------- the lock discipline

  /** What a thread holds: the mutex, the gate either way, and its open read connections. */
  datatype Held = Held(conn: bool, write: bool, read: bool, open: nat)

  const NOTHING := Held(false, false, false, 0)

  /** The mutex comes first, the write gate only under it, the read gate only with empty hands; connections are open
      only under the read gate; no lock is taken twice. */
  function Take(h: Held, a: Action): Option<Held> {
    match a
    case LockConn => if h == NOTHING then Some(h.(conn := true)) else None
    case UnlockConn => if h.conn && !h.write then Some(h.(conn := false)) else None
    case GateWrite => if h.conn && !h.write && !h.read then Some(h.(write := true)) else None
    case ReleaseWrite => if h.write then Some(h.(write := false)) else None
    case GateRead => if h == NOTHING then Some(h.(read := true)) else None
    case OpenRead => if h.read then Some(h.(open := h.open + 1)) else None
    case CloseRead => if h.read && h.open > 0 then Some(h.(open := h.open - 1)) else None
    case ReleaseRead => if h.read && h.open == 0 then Some(h.(read := false)) else None
    case Work => Some(h)
    case Exclusive => if h.conn && h.write then Some(h) else None
  }

  predicate Disciplined(h: Held, program: seq<Action>)
    decreases |program|
  {
    if program == [] then h == NOTHING
    else Take(h, program[0]).Some? && Disciplined(Take(h, program[0]).value, program[1..])
  }

  lemma {:induction false} DisciplinedAppend(h: Held, a: seq<Action>, b: seq<Action>)
    requires Disciplined(h, a) && Disciplined(NOTHING, b)
    ensures Disciplined(h, a + b)
    decreases |a|
  {
    if a == [] {
      assert a + b == b;
    } else {
      assert (a + b)[1..] == a[1..] + b;
      DisciplinedAppend(Take(h, a[0]).value, a[1..], b);
    }
  }

  lemma {:induction false} OpensDisciplined(h: Held, n: nat, rest: seq<Action>)
    requires h.read && Disciplined(h.(open := h.open + n), rest)
    ensures Disciplined(h, Repeat(OpenRead, n) + rest)
    decreases n
  {
    if n == 0 {
      assert Repeat(OpenRead, n) + rest == rest && h.(open := h.open + n) == h;
    } else {
      OpensDisciplined(h.(open := h.open + 1), n - 1, rest);
      assert (Repeat(OpenRead, n) + rest)[1..] == Repeat(OpenRead, n - 1) + rest;
    }
  }

  lemma {:induction false} ClosesDisciplined(h: Held, rest: seq<Action>)
    requires h.read && Disciplined(h.(open := 0), rest)
    ensures Disciplined(h, Repeat(CloseRead, h.open) + rest)
    decreases h.open
  {
    if h.open == 0 {
      assert Repeat(CloseRead, h.open) + rest == rest;
    } else {
      ClosesDisciplined(h.(open := h.open - 1), rest);
      assert (Repeat(CloseRead, h.open) + rest)[1..] == Repeat(CloseRead, h.open - 1) + rest;
    }
  }

  lemma WriteDisciplined()
    ensures Disciplined(NOTHING, WRITE)
  {
    assert WRITE[1..] == [Work, UnlockConn] && WRITE[1..][1..] == [UnlockConn];
    assert Disciplined(Held(true, false, false, 0), [UnlockConn]);
  }

  lemma {:induction false} ExclusiveDisciplined(h: Held, n: nat, rest: seq<Action>)
    requires h.conn && h.write && Disciplined(h, rest)
    ensures Disciplined(h, Repeat(Exclusive, n) + rest)
  {
    if n == 0 {
      assert Repeat(Exclusive, n) + rest == rest;
    } else {
      ExclusiveDisciplined(h, n - 1, rest);
      assert (Repeat(Exclusive, n) + rest)[1..] == Repeat(Exclusive, n - 1) + rest;
    }
  }

  lemma VacuumDisciplined(done: nat)
    ensures Disciplined(NOTHING, Vacuuming(done))
  {
    var conn, both := Held(true, false, false, 0), Held(true, true, false, 0);
    var rest := Repeat(Exclusive, done) + [ReleaseWrite, UnlockConn];
    assert Disciplined(conn, [UnlockConn]);
    assert [ReleaseWrite, UnlockConn][1..] == [UnlockConn];
    ExclusiveDisciplined(both, done, [ReleaseWrite, UnlockConn]);
    assert Vacuuming(done)[1..] == [GateWrite] + rest && ([GateWrite] + rest)[1..] == rest;
    assert Disciplined(conn, [GateWrite] + rest);
  }

  lemma WalDisciplined()
    ensures Disciplined(NOTHING, [LockConn, Work, GateWrite, Exclusive, ReleaseWrite, UnlockConn])
  {
    var conn, both := Held(true, false, false, 0), Held(true, true, false, 0);
    var program := [LockConn, Work, GateWrite, Exclusive, ReleaseWrite, UnlockConn];
    assert Disciplined(conn, [UnlockConn]);
    assert [ReleaseWrite, UnlockConn][1..] == [UnlockConn];
    assert [Exclusive, ReleaseWrite, UnlockConn][1..] == [ReleaseWrite, UnlockConn];
    assert Disciplined(both, [Exclusive, ReleaseWrite, UnlockConn]);
    assert program[1..][1..][1..] == [Exclusive, ReleaseWrite, UnlockConn];
    assert Disciplined(conn, program[1..][1..]);
  }

  lemma PageDisciplined(opens: bool)
    ensures Disciplined(NOTHING, Program(ReadPage(opens)))
  {
    var read := Held(false, false, true, 0);
    assert Disciplined(read, [ReleaseRead]);
    if opens {
      assert [CloseRead, ReleaseRead][1..] == [ReleaseRead];
      assert Disciplined(read.(open := 1), [CloseRead, ReleaseRead]);
      assert [Work, CloseRead, ReleaseRead][1..] == [CloseRead, ReleaseRead];
      assert [OpenRead, Work, CloseRead, ReleaseRead][1..] == [Work, CloseRead, ReleaseRead];
      assert Program(ReadPage(true))[1..] == [OpenRead, Work, CloseRead, ReleaseRead];
    } else {
      assert Program(ReadPage(false))[1..] == [ReleaseRead];
    }
  }

  lemma StatsDisciplined(n: nat)
    ensures Disciplined(NOTHING, Program(ReadStats(n)))
  {
    var read := Held(false, false, true, 0);
    var closing := Repeat(CloseRead, n) + [ReleaseRead];
    assert Disciplined(read, [ReleaseRead]);
    ClosesDisciplined(read.(open := n), [ReleaseRead]);
    assert ([Work] + closing)[1..] == closing;
    OpensDisciplined(read, n, [Work] + closing);
    assert Program(ReadStats(n))[1..] == Repeat(OpenRead, n) + ([Work] + closing);
  }

  /** Every operation keeps the discipline, whichever way it goes. */
  lemma OperationsDisciplined(op: Operation)
    ensures Disciplined(NOTHING, Program(op))
  {
    WriteDisciplined();
    match op
    case Write(_) => WalDisciplined();
    case Vacuum(done) => VacuumDisciplined(done);
    case ClearThenVacuum(done) =>
      VacuumDisciplined(done);
      DisciplinedAppend(NOTHING, WRITE, Vacuuming(done));
    case VacuumIfBloated(bloated, done) =>
      VacuumDisciplined(done);
      DisciplinedAppend(NOTHING, WRITE, if bloated then Vacuuming(done) else []);
    case CompactPending(pending, done, vacuumed) =>
      VacuumDisciplined(done);
      DisciplinedAppend(NOTHING, Vacuuming(done), if vacuumed then WRITE else []);
      DisciplinedAppend(NOTHING, WRITE, if !pending then [] else Vacuuming(done) + if vacuumed then WRITE else []);
    case ReadPage(opens) => PageDisciplined(opens);
    case ReadStats(n) => StatsDisciplined(n);
    case _ =>
  }

  // ------------------------------------------------------------------ the protocol

  type Tid = int

  /** The locks themselves, the open read connections, and what each thread still has to do. */
  datatype Protocol = Protocol(mutex: Option<Tid>, writer: Option<Tid>, readers: set<Tid>, open: map<Tid, nat>,
                               programs: map<Tid, seq<Action>>)

  const IDLE := Protocol(None, None, {}, map[], map[])

  function OpenBy(p: Protocol, t: Tid): nat {
    if t in p.open then p.open[t] else 0
  }

  function HeldBy(p: Protocol, t: Tid): Held {
    Held(p.mutex == Some(t), p.writer == Some(t), t in p.readers, OpenBy(p, t))
  }

  function Rest(p: Protocol, t: Tid): seq<Action> {
    if t in p.programs then p.programs[t] else []
  }

  predicate Busy(p: Protocol, t: Tid) {
    Rest(p, t) != []
  }

  ghost predicate WriterWaits(p: Protocol) {
    exists t :: Busy(p, t) && Rest(p, t)[0] == GateWrite
  }

  /** Whether a busy thread can go on. With `writersFirst` a waiting writer also keeps new readers out. */
  ghost predicate CanAct(p: Protocol, t: Tid, writersFirst: bool)
    requires Busy(p, t)
  {
    match Rest(p, t)[0]
    case LockConn => p.mutex.None?
    case GateWrite => p.writer.None? && p.readers == {}
    case GateRead => p.writer.None? && (writersFirst ==> !WriterWaits(p))
    case _ => true
  }

  function Act(p: Protocol, t: Tid): Protocol
    requires Busy(p, t)
  {
    var next := p.(programs := p.programs[t := Rest(p, t)[1..]]);
    match Rest(p, t)[0]
    case LockConn => next.(mutex := Some(t))
    case UnlockConn => next.(mutex := None)
    case GateWrite => next.(writer := Some(t))
    case ReleaseWrite => next.(writer := None)
    case GateRead => next.(readers := p.readers + {t})
    case ReleaseRead => next.(readers := p.readers - {t})
    case OpenRead => next.(open := p.open[t := OpenBy(p, t) + 1])
    case CloseRead => next.(open := p.open[t := if OpenBy(p, t) > 0 then OpenBy(p, t) - 1 else 0])
    case _ => next
  }

  function Start(p: Protocol, t: Tid, op: Operation): Protocol {
    p.(programs := p.programs[t := Program(op)])
  }

  datatype Step = Begin(thread: Tid, op: Operation) | Advance(thread: Tid)

  ghost predicate Legal(p: Protocol, step: Step, writersFirst: bool) {
    match step
    case Begin(t, _) => !Busy(p, t)
    case Advance(t) => Busy(p, t) && CanAct(p, t, writersFirst)
  }

  ghost predicate LegalRun(p: Protocol, steps: seq<Step>, writersFirst: bool)
    decreases |steps|
  {
    steps == [] || (Legal(p, steps[0], writersFirst) && LegalRun(Taken(p, steps[0]), steps[1..], writersFirst))
  }

  function Taken(p: Protocol, step: Step): Protocol {
    match step
    case Begin(t, op) => Start(p, t, op)
    case Advance(t) => if Busy(p, t) then Act(p, t) else p
  }

  function RunOf(p: Protocol, steps: seq<Step>): Protocol
    decreases |steps|
  {
    if steps == [] then p else RunOf(Taken(p, steps[0]), steps[1..])
  }

  /** The locks and the threads' positions agree, and the locks exclude one another. */
  ghost predicate Inv(p: Protocol) {
    && (forall t :: Disciplined(HeldBy(p, t), Rest(p, t)))
    && (p.writer.Some? ==> p.mutex == p.writer && p.readers == {})
    && (forall t :: OpenBy(p, t) > 0 ==> t in p.readers)
  }

  lemma ActKeepsOthers(p: Protocol, t: Tid, u: Tid)
    requires Inv(p) && Busy(p, t) && CanAct(p, t, false) && u != t
    ensures HeldBy(Act(p, t), u) == HeldBy(p, u) && Rest(Act(p, t), u) == Rest(p, u)
  {
    assert Disciplined(HeldBy(p, t), Rest(p, t));
  }

  lemma ActTakes(p: Protocol, t: Tid)
    requires Inv(p) && Busy(p, t) && CanAct(p, t, false)
    ensures Take(HeldBy(p, t), Rest(p, t)[0]) == Some(HeldBy(Act(p, t), t))
    ensures Rest(Act(p, t), t) == Rest(p, t)[1..]
  {
    assert Disciplined(HeldBy(p, t), Rest(p, t));
  }

  lemma StepKeepsInv(p: Protocol, step: Step, writersFirst: bool)
    requires Inv(p) && Legal(p, step, writersFirst)
    ensures Inv(Taken(p, step))
  {
    var next := Taken(p, step);
    match step {
      case Begin(t, op) =>
        OperationsDisciplined(op);
        assert Disciplined(HeldBy(p, t), Rest(p, t));
        forall u ensures Disciplined(HeldBy(next, u), Rest(next, u)) {
          assert Disciplined(HeldBy(p, u), Rest(p, u)) && HeldBy(next, u) == HeldBy(p, u);
        }
        assert forall u :: OpenBy(next, u) == OpenBy(p, u);
      case Advance(t) =>
        ActTakes(p, t);
        assert Disciplined(HeldBy(p, t), Rest(p, t));
        forall u
          ensures Disciplined(HeldBy(next, u), Rest(next, u))
          ensures OpenBy(next, u) > 0 ==> u in next.readers
        {
          if u != t {
            ActKeepsOthers(p, t, u);
            assert Disciplined(HeldBy(p, u), Rest(p, u));
            assert OpenBy(next, u) == HeldBy(next, u).open && (u in next.readers) == HeldBy(next, u).read;
          }
        }
    }
  }

  lemma {:induction false} RunKeepsInv(p: Protocol, steps: seq<Step>, writersFirst: bool)
    requires Inv(p) && LegalRun(p, steps, writersFirst)
    ensures Inv(RunOf(p, steps))
    decreases |steps|
  {
    if steps != [] {
      StepKeepsInv(p, steps[0], writersFirst);
      RunKeepsInv(Taken(p, steps[0]), steps[1..], writersFirst);
    }
  }

  lemma IdleInv()
    ensures Inv(IDLE)
  {
  }

  // ---------------------------------------------------------------- the theorems

  /** A busy thread that holds the mutex, or one that holds the read gate, finds what it needs. */
  lemma SomeoneCanAct(p: Protocol, t: Tid, writersFirst: bool) returns (u: Tid)
    requires Inv(p) && Busy(p, t)
    ensures Busy(p, u) && CanAct(p, u, writersFirst)
  {
    if exists x :: x in p.readers {
      u :| u in p.readers;
      assert Disciplined(HeldBy(p, u), Rest(p, u));
    } else if p.mutex.Some? {
      u := p.mutex.value;
      assert Disciplined(HeldBy(p, u), Rest(p, u));
    } else {
      assert Disciplined(HeldBy(p, t), Rest(p, t));
      forall w | Busy(p, w) ensures Rest(p, w)[0] != GateWrite {
        assert Disciplined(HeldBy(p, w), Rest(p, w));
      }
      u := t;
    }
  }

  ghost predicate SomeThreadCanAct(p: Protocol, writersFirst: bool) {
    exists u :: Busy(p, u) && CanAct(p, u, writersFirst)
  }

  /** No reachable state is deadlocked: as long as some operation is unfinished, some thread can go on, also when
      waiting writers keep new readers out. */
  lemma NeverDeadlocked(steps: seq<Step>, writersFirst: bool, t: Tid)
    requires LegalRun(IDLE, steps, writersFirst) && Busy(RunOf(IDLE, steps), t)
    ensures SomeThreadCanAct(RunOf(IDLE, steps), writersFirst)
  {
    IdleInv();
    RunKeepsInv(IDLE, steps, writersFirst);
    var p := RunOf(IDLE, steps);
    var u := SomeoneCanAct(p, t, writersFirst);
    assert Busy(p, u) && CanAct(p, u, writersFirst);
  }

  /** While VACUUM or a truncating checkpoint runs, no read connection is open and no other thread holds a lock. */
  lemma ExclusiveWorkIsAlone(steps: seq<Step>, writersFirst: bool, t: Tid)
    requires LegalRun(IDLE, steps, writersFirst) && Busy(RunOf(IDLE, steps), t)
    requires Rest(RunOf(IDLE, steps), t)[0] == Exclusive
    ensures var p := RunOf(IDLE, steps);
            p.mutex == Some(t) && p.writer == Some(t) && p.readers == {} && forall u :: OpenBy(p, u) == 0
  {
    IdleInv();
    RunKeepsInv(IDLE, steps, writersFirst);
    var p := RunOf(IDLE, steps);
    assert Disciplined(HeldBy(p, t), Rest(p, t));
  }

  /** Actions left over all threads. */
  ghost function Remaining(p: Protocol): nat {
    Sum(p.programs.Keys, (t: Tid) => |Rest(p, t)|)
  }

  lemma ActShortens(p: Protocol, t: Tid)
    requires Busy(p, t)
    ensures Remaining(Act(p, t)) == Remaining(p) - 1
  {
    var q := Act(p, t);
    var f, g := (u: Tid) => |Rest(p, u)|, (u: Tid) => |Rest(q, u)|;
    var keys := p.programs.Keys;
    assert q.programs == p.programs[t := Rest(p, t)[1..]];
    assert q.programs.Keys == keys && t in keys;
    SumPick(keys, f, t);
    SumPick(keys, g, t);
    SumCongruent(keys - {t}, f, g);
  }

  predicate OnlyAdvances(steps: seq<Step>) {
    forall i :: 0 <= i < |steps| ==> steps[i].Advance?
  }

  /** Once no new operation starts, every schedule is bounded by the actions left. */
  lemma {:induction false} SchedulesEnd(p: Protocol, steps: seq<Step>, writersFirst: bool)
    requires Inv(p) && LegalRun(p, steps, writersFirst) && OnlyAdvances(steps)
    ensures |steps| <= Remaining(p) && Remaining(RunOf(p, steps)) == Remaining(p) - |steps|
    decreases |steps|
  {
    if steps != [] {
      ActShortens(p, steps[0].thread);
      StepKeepsInv(p, steps[0], writersFirst);
      SchedulesEnd(Taken(p, steps[0]), steps[1..], writersFirst);
    }
  }

  /** And one that cannot be extended has finished every operation and released every lock. */
  lemma StuckMeansDone(p: Protocol, writersFirst: bool)
    requires Inv(p) && !SomeThreadCanAct(p, writersFirst)
    ensures p.mutex.None? && p.writer.None? && p.readers == {} && forall t :: !Busy(p, t) && OpenBy(p, t) == 0
  {
    forall t ensures !Busy(p, t) && HeldBy(p, t) == NOTHING {
      if Busy(p, t) {
        var u := SomeoneCanAct(p, t, writersFirst);
      }
      assert Disciplined(HeldBy(p, t), Rest(p, t));
    }
    forall t ensures OpenBy(p, t) == 0 {
      assert HeldBy(p, t) == NOTHING;
    }
    NoMembers(p.readers) by {
      forall t ensures t !in p.readers {
        assert HeldBy(p, t) == NOTHING;
      }
    }
    var owner := if p.mutex.Some? then p.mutex.value else 0;
    assert HeldBy(p, owner) == NOTHING;
  }
}
