/** What the threads' calls of the lock functions come to: a call goes on as what it was,
    waits and wakeups included, until it returns. */
module LockCalls {
  import opened Common
  import opened LockTables

  /** Between the call of readLock and the end of readUnlock, or waiting in readLock. */
  predicate ReadSide(pc: Pc) {
    match pc
    case RdLockW => true
    case RdScan => true
    case RdLockR => true
    case RdInsert => true
    case Reading => true
    case RuLockR => true
    case RuErase => true
    case WaitLock(rd) => rd
    case Sleep(rd) => rd
    case Waiting(rd) => rd
    case Woken(rd) => rd
    case Unwait(rd) => rd
    case _ => false
  }

  /** Between the call of writeLock and the end of writeUnlock, or waiting in writeLock. */
  predicate WriteSide(pc: Pc) {
    match pc
    case WrLockW => true
    case WrLockR => true
    case WrScan => true
    case WrDrop => true
    case WrPush => true
    case Writing => true
    case WuLockW => true
    case WuErase => true
    case WuLockC => true
    case WuNotify => true
    case WaitLock(rd) => !rd
    case Sleep(rd) => !rd
    case Waiting(rd) => !rd
    case Woken(rd) => !rd
    case Unwait(rd) => !rd
    case _ => false
  }

  /** The call that the thread is in. */
  predicate InCall(th: Thread, call: Choice) {
    match call
    case BeginRead(name) => ReadSide(th.pc) && th.name == name
    case BeginWrite(name) => WriteSide(th.pc) && th.name == name
    case _ => false
  }

  /** A step moves a thread along its call, ends the call, or begins one. */
  lemma ActCall(keep: bool, s: Tables, t: nat, th: Thread, ch: Choice, call: Choice)
    requires Act(keep, s, t, th, ch).Some?
    ensures var th' := Act(keep, s, t, th, ch).value.0;
      && (th.pc.Idle? ==> InCall(th', ch))
      && (InCall(th, call) && !th'.pc.Idle? ==> InCall(th', call))
  {
  }

  lemma StepCall(keep: bool, s: State, t: nat, ch: Choice, s': State, u: nat, call: Choice)
    requires Step(keep, s, t, ch) == Some(s') && u < |s.threads|
    requires InCall(s.threads[u], call)
    ensures u < |s'.threads| && (s'.threads[u].pc.Idle? || InCall(s'.threads[u], call))
  {
    StepOthers(keep, s, t, ch, s');
    if u == t {
      ActCall(keep, s.tables, t, s.threads[t], ch, call);
    }
  }

  /** The last call that thread u has begun in the run. */
  function LastCall(keep: bool, s0: State, steps: seq<(nat, Choice)>, u: nat): Option<Choice> {
    if steps == [] then None
    else
      var n := |steps| - 1;
      var r := Run(keep, s0, steps[..n]);
      if r.Some? && steps[n].0 == u && u < |r.value.threads| && r.value.threads[u].pc.Idle? then Some(steps[n].1)
      else LastCall(keep, s0, steps[..n], u)
  }

  /** In every run, of both variants, each thread is outside or still in the last call it has
      begun: who reads a file has called readLock for it, who writes one writeLock, however
      often it has waited in between. */
  lemma {:induction false} CallsGoOn(keep: bool, s0: State, steps: seq<(nat, Choice)>, s: State, u: nat)
    requires Init(s0) && Run(keep, s0, steps) == Some(s) && u < |s.threads| && !s.threads[u].pc.Idle?
    ensures LastCall(keep, s0, steps, u).Some? && InCall(s.threads[u], LastCall(keep, s0, steps, u).value)
  {
    if steps != [] {
      var n := |steps| - 1;
      var r := Run(keep, s0, steps[..n]).value;
      var (t, ch) := steps[n];
      StepOthers(keep, r, t, ch, s);
      if r.threads[u].pc.Idle? {
        ActCall(keep, r.tables, t, r.threads[t], ch, ch);
      } else {
        CallsGoOn(keep, s0, steps[..n], r, u);
        StepCall(keep, r, t, ch, s, u, LastCall(keep, s0, steps[..n], u).value);
      }
    }
  }

  /** No thread is on both sides, and only one outside is on neither. */
  lemma OneSide(pc: Pc)
    ensures !(ReadSide(pc) && WriteSide(pc))
    ensures pc.Idle? <==> !ReadSide(pc) && !WriteSide(pc)
  {
  }

  // ---------- how calls end ----------

  /** readLock returns true exactly if a reader has the file open already or it can be opened,
      and then the file is in the table; if it returns false, the table is as it was. */
  lemma ReadLockReturns(keep: bool, s: State, t: nat, ch: Choice, s': State)
    requires Step(keep, s, t, ch) == Some(s') && s.threads[t].pc.RdInsert?
    ensures var name := s.threads[t].name;
      && (s'.threads[t].pc.Reading? <==> name in s.tables.readers || !ch.OpenFails?)
      && (s'.threads[t].pc.Reading? ==> name in s'.tables.readers)
      && (!s'.threads[t].pc.Reading? ==> s'.threads[t].pc.Idle? && s'.tables.readers == s.tables.readers)
  {
    ActTables(keep, s.tables, t, s.threads[t], ch);
  }

  // ---------- waiting and going on ----------

  /** A writer notifies: everyone who waits is woken. */
  lemma WakeTrace(s0: State, steps: seq<(nat, Choice)>, s: State, t: nat)
    returns (steps': seq<(nat, Choice)>, s': State)
    requires Run(true, s0, steps) == Some(s)
    requires t < |s.threads| && s.threads[t].pc.WuLockC? && s.tables.c.None?
    ensures Run(true, s0, steps') == Some(s')
    ensures s' == State(Notified(s.threads)[t := Thread(Idle, s.threads[t].name)], s.tables)
  {
    var name := s.threads[t].name;
    steps', s' := ThenTo(true, s0, steps, s, s.threads, t, Go, Thread(WuNotify, name), s.tables.(c := Some(t)));
    var notifying := s';
    steps', s' := Then(true, s0, steps', s', t, Go);
    assert s'.threads == Notified(notifying.threads)[t := Thread(Idle, name)];
    assert s'.threads == Notified(s.threads)[t := Thread(Idle, name)];
  }

  /** A woken thread begins its loop anew: a reader that of readLock, a writer that of
      writeLock. */
  lemma RestartTrace(s0: State, steps: seq<(nat, Choice)>, s: State, t: nat)
    returns (steps': seq<(nat, Choice)>, s': State)
    requires Run(true, s0, steps) == Some(s)
    requires t < |s.threads| && s.threads[t].pc.Woken? && s.tables.c.None?
    ensures Run(true, s0, steps') == Some(s')
    ensures var th := s.threads[t];
      s' == State(s.threads[t := Thread(if th.pc.forRead then RdLockW else WrLockW, th.name)], s.tables)
  {
    var rd, name := s.threads[t].pc.forRead, s.threads[t].name;
    steps', s' := ThenTo(true, s0, steps, s, s.threads, t, Go, Thread(Unwait(rd), name), s.tables.(c := Some(t)));
    var again := if rd then RdLockW else WrLockW;
    steps', s' := ThenTo(true, s0, steps', s', s.threads, t, Go, Thread(again, name), s.tables);
  }

  /** A writer has the file, a reader comes and waits, the writer unlocks and notifies, and the
      reader reads. */
  lemma ReaderGoesOnTrace(name: bytes) returns (s0: State, steps: seq<(nat, Choice)>, s: State)
    ensures Init(s0) && Run(true, s0, steps) == Some(s)
    ensures s == State([Thread(Idle, name), Thread(Reading, name)], Tables([name], [], None, None, None, []))
  {
    s0 := Start(2);
    steps, s := WriteTrace(true, s0, [], s0, 0, name);
    assert s.tables.writers == [name];
    steps, s := ReadDropTrace(s0, steps, s, 1, name);
    steps, s := SleepTrace(s0, steps, s, 1);
    steps, s := EraseTrace(s0, steps, s, 0);
    assert RemoveFirst([name], name) == [];
    assert s.threads == [Thread(WuLockC, name), Thread(Waiting(true), name)];
    steps, s := WakeTrace(s0, steps, s, 0);
    assert s.threads == [Thread(Idle, name), Thread(Woken(true), name)];
    steps, s := RestartTrace(s0, steps, s, 1);
    steps, s := ReadOn(s0, steps, s, 1);
    assert s.threads == [Thread(Idle, name), Thread(Reading, name)];
    assert s.tables.readers == [name];
  }

  /** A writer of another file has its lock, and a writer of this file waits for a reader that
      has unlocked since. */
  lemma WriterWaitsTrace(name: bytes, other: bytes) returns (s0: State, steps: seq<(nat, Choice)>, s: State)
    requires other != name
    ensures Init(s0) && Run(true, s0, steps) == Some(s)
    ensures s == State([Thread(Idle, name), Thread(Waiting(false), name), Thread(Writing, other)],
                       Tables([], [other], None, None, None, []))
  {
    s0 := Start(3);
    steps, s := WriteTrace(true, s0, [], s0, 2, other);
    assert s.tables.writers == [other];
    steps, s := ReadTrace(s0, steps, s, 0, name);
    assert s.tables.readers == [name];
    steps, s := DropTrace(s0, steps, s, 1, name);
    steps, s := SleepTrace(s0, steps, s, 1);
    steps, s := UnlockTrace(s0, steps, s, 0);
    assert Without([name], name) == [];
    assert s.threads == [Thread(Idle, name), Thread(Waiting(false), name), Thread(Writing, other)];
  }

  /** A reader has the file, a writer comes and waits, the reader unlocks, a writer of another
      file notifies, and the first writer writes. */
  lemma WriterGoesOnTrace(name: bytes, other: bytes) returns (s0: State, steps: seq<(nat, Choice)>, s: State)
    requires other != name
    ensures Init(s0) && Run(true, s0, steps) == Some(s)
    ensures s == State([Thread(Idle, name), Thread(Writing, name), Thread(Idle, other)],
                       Tables([], [name], None, None, None, []))
  {
    s0, steps, s := WriterWaitsTrace(name, other);
    steps, s := EraseTrace(s0, steps, s, 2);
    assert RemoveFirst([other], other) == [];
    assert s.threads == [Thread(Idle, name), Thread(Waiting(false), name), Thread(WuLockC, other)];
    steps, s := WakeTrace(s0, steps, s, 2);
    assert s.threads == [Thread(Idle, name), Thread(Woken(false), name), Thread(Idle, other)];
    steps, s := RestartTrace(s0, steps, s, 1);
    steps, s := WriteOn(true, s0, steps, s, 1);
    assert s.threads == [Thread(Idle, name), Thread(Writing, name), Thread(Idle, other)];
    assert s.tables.writers == [name];
  }
}
