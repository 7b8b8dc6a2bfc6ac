/** The lock tables of the file manager as a thread model: two mutexes over the two
    tables, a condition variable with its own mutex, and any number of threads that lock
    and unlock files. Each mutex operation is a step of its own.

    `keep` tells two variants apart. As the code is written, readLock lets go of
    writeLockMutex before it takes readLockMutex (keep = false). With keep = true it holds
    writeLockMutex until its entry is in the table. */
module LockTables {
  import opened Common

  datatype Pc =
    | Idle
    | RdLockW        // readLock: about to lock writeLockMutex
    | RdScan         // looks the name up in writeLockedFiles
    | RdLockR        // about to lock readLockMutex
    | RdInsert       // looks the name up in readLockedFiles and inserts it
    | Reading        // readLock has returned true
    | RuLockR        // readUnlock
    | RuErase
    | WrLockW        // writeLock
    | WrLockR
    | WrScan         // looks the name up in readLockedFiles
    | WrDrop         // found it: about to unlock writeLockMutex and wait
    | WrPush         // did not find it: about to push the name and unlock
    | Writing        // writeLock has returned
    | WuLockW        // writeUnlock
    | WuErase
    | WuLockC
    | WuNotify
    | WaitLock(forRead: bool)    // about to lock condVariableMutex
    | Sleep(forRead: bool)       // holds it, about to wait
    | Waiting(forRead: bool)     // inside wait
    | Woken(forRead: bool)       // about to lock condVariableMutex again
    | Unwait(forRead: bool)      // holds it, about to unlock it

  datatype Thread = Thread(pc: Pc, name: bytes)

  datatype Tables = Tables(
    readers: seq<bytes>,         // readLockedFiles
    writers: seq<bytes>,         // writeLockedFiles
    w: Option<nat>,              // who holds writeLockMutex
    r: Option<nat>,              // who holds readLockMutex
    c: Option<nat>,              // who holds condVariableMutex
    left: seq<bytes>)            // entries of writers whose file did not open; no step reads this

  datatype State = State(threads: seq<Thread>, tables: Tables)

  datatype Choice = BeginRead(name: bytes) | BeginWrite(name: bytes) | Go | OpenFails

  function Without(names: seq<bytes>, name: bytes): (r: seq<bytes>)
    ensures forall n :: n in r <==> n in names && n != name
    ensures NoDuplicates(names) ==> NoDuplicates(r)
  {
    if names == [] then []
    else
      var m := |names| - 1;
      var rest := Without(names[..m], name);
      assert names == names[..m] + [names[m]];
      assert NoDuplicates(names) ==> names[m] !in names[..m];
      if names[m] == name then rest else rest + [names[m]]
  }

  function RemoveFirst(names: seq<bytes>, name: bytes): (r: seq<bytes>)
    ensures multiset(r) == multiset(names) - multiset{name}
    ensures forall n :: n in r ==> n in names
  {
    if names == [] then []
    else
      assert names == [names[0]] + names[1..];
      if names[0] == name then names[1..] else [names[0]] + RemoveFirst(names[1..], name)
  }

  predicate NoDuplicates(names: seq<bytes>) {
    forall i: nat, j: nat | i < |names| && j < |names| && names[i] == names[j] :: i == j
  }

  function Notified(threads: seq<Thread>): (r: seq<Thread>)
    ensures |r| == |threads|
    ensures forall t: nat | t < |threads| ::
      r[t] == if threads[t].pc.Waiting? then threads[t].(pc := Woken(threads[t].pc.forRead)) else threads[t]
  {
    seq(|threads|, t requires 0 <= t < |threads| =>
      if threads[t].pc.Waiting? then threads[t].(pc := Woken(threads[t].pc.forRead)) else threads[t])
  }

  /** What thread t does next to itself and to the tables; None when it waits for a mutex
      that is taken. A step of a thread inside wait is a spurious wakeup. */
  function Act(keep: bool, s: Tables, t: nat, th: Thread, ch: Choice): Option<(Thread, Tables)> {
    var name := th.name;
    match th.pc
    case Idle =>
      (match ch
       case BeginRead(f) => Some((Thread(RdLockW, f), s))
       case BeginWrite(f) => Some((Thread(WrLockW, f), s))
       case _ => None)
    case RdLockW => if s.w.Some? then None else Some((Thread(RdScan, name), s.(w := Some(t))))
    case RdScan =>
      if name in s.writers then Some((Thread(WaitLock(true), name), s.(w := None)))
      else Some((Thread(RdLockR, name), if keep then s else s.(w := None)))
    case RdLockR => if s.r.Some? then None else Some((Thread(RdInsert, name), s.(r := Some(t))))
    case RdInsert =>
      var unlocked := s.(r := None, w := if keep then None else s.w);
      if name in s.readers then Some((Thread(Reading, name), unlocked))
      else if ch.OpenFails? then Some((Thread(Idle, name), unlocked))
      else Some((Thread(Reading, name), unlocked.(readers := s.readers + [name])))
    case Reading => Some((Thread(RuLockR, name), s))
    case RuLockR => if s.r.Some? then None else Some((Thread(RuErase, name), s.(r := Some(t))))
    case RuErase => Some((Thread(Idle, name), s.(readers := Without(s.readers, name), r := None)))
    case WrLockW => if s.w.Some? then None else Some((Thread(WrLockR, name), s.(w := Some(t))))
    case WrLockR => if s.r.Some? then None else Some((Thread(WrScan, name), s.(r := Some(t))))
    case WrScan => Some((Thread(if name in s.readers then WrDrop else WrPush, name), s.(r := None)))
    case WrDrop => Some((Thread(WaitLock(false), name), s.(w := None)))
    case WrPush => Some((Thread(Writing, name), s.(writers := s.writers + [name], w := None)))
    case Writing =>
      if ch.OpenFails? then Some((Thread(Idle, name), s.(left := s.left + [name])))
      else Some((Thread(WuLockW, name), s))
    case WuLockW => if s.w.Some? then None else Some((Thread(WuErase, name), s.(w := Some(t))))
    case WuErase =>
      if name in s.writers then
        Some((Thread(WuLockC, name), s.(writers := RemoveFirst(s.writers, name), w := None)))
      else Some((Thread(Idle, name), s.(w := None)))
    case WuLockC => if s.c.Some? then None else Some((Thread(WuNotify, name), s.(c := Some(t))))
    case WuNotify => Some((Thread(Idle, name), s.(c := None)))
    case WaitLock(rd) => if s.c.Some? then None else Some((Thread(Sleep(rd), name), s.(c := Some(t))))
    case Sleep(rd) => Some((Thread(Waiting(rd), name), s.(c := None)))
    case Waiting(rd) => Some((Thread(Woken(rd), name), s))
    case Woken(rd) => if s.c.Some? then None else Some((Thread(Unwait(rd), name), s.(c := Some(t))))
    case Unwait(rd) => Some((Thread(if rd then RdLockW else WrLockW, name), s.(c := None)))
  }

  function Step(keep: bool, s: State, t: nat, ch: Choice): Option<State> {
    if t >= |s.threads| then None
    else
      var r := Act(keep, s.tables, t, s.threads[t], ch);
      if r.None? then None
      else
        var threads := if s.threads[t].pc.WuNotify? then Notified(s.threads) else s.threads;
        Some(State(threads[t := r.value.0], r.value.1))
  }

  function Run(keep: bool, s: State, steps: seq<(nat, Choice)>): Option<State> {
    if steps == [] then Some(s)
    else
      var n := |steps| - 1;
      var r := Run(keep, s, steps[..n]);
      if r.None? then None else Step(keep, r.value, steps[n].0, steps[n].1)
  }

  predicate Init(s: State) {
    && s.tables.readers == [] && s.tables.writers == []
    && s.tables.w == None && s.tables.r == None && s.tables.c == None && s.tables.left == []
    && forall t: nat | t < |s.threads| :: s.threads[t].pc.Idle?
  }

  // ---------- the invariant ----------

  predicate HasW(keep: bool, pc: Pc) {
    pc.RdScan? || (keep && (pc.RdLockR? || pc.RdInsert?))
    || pc.WrLockR? || pc.WrScan? || pc.WrDrop? || pc.WrPush? || pc.WuErase?
  }

  predicate HasR(pc: Pc) {
    pc.RdInsert? || pc.RuErase? || pc.WrScan?
  }

  predicate HasC(pc: Pc) {
    pc.Sleep? || pc.Unwait? || pc.WuNotify?
  }

  /** Between the return of writeLock and the erasure in writeUnlock. */
  predicate HasWriteLock(pc: Pc) {
    pc.Writing? || pc.WuLockW? || pc.WuErase?
  }

  function Writes(th: Thread, name: bytes): nat {
    if HasWriteLock(th.pc) && th.name == name then 1 else 0
  }

  function CountWriters(threads: seq<Thread>, name: bytes): nat {
    if threads == [] then 0
    else CountWriters(threads[..|threads| - 1], name) + Writes(threads[|threads| - 1], name)
  }

  ghost predicate MutexesOk(keep: bool, s: State) {
    && (s.tables.w.Some? ==> s.tables.w.value < |s.threads|)
    && (s.tables.r.Some? ==> s.tables.r.value < |s.threads|)
    && (s.tables.c.Some? ==> s.tables.c.value < |s.threads|)
    && forall t: nat | t < |s.threads| ::
         && (s.tables.w == Some(t) <==> HasW(keep, s.threads[t].pc))
         && (s.tables.r == Some(t) <==> HasR(s.threads[t].pc))
         && (s.tables.c == Some(t) <==> HasC(s.threads[t].pc))
  }

  ghost predicate WritersCounted(s: State) {
    forall name ::
      multiset(s.tables.writers)[name] == CountWriters(s.threads, name) + multiset(s.tables.left)[name]
  }

  ghost predicate Exclusive(s: State) {
    forall name :: !(name in s.tables.readers && name in s.tables.writers)
  }

  /** What a thread that has looked a name up may rely on until it inserts it. */
  ghost predicate LookupsHold(s: State) {
    forall t: nat | t < |s.threads| ::
      && (s.threads[t].pc.RdLockR? || s.threads[t].pc.RdInsert? ==> s.threads[t].name !in s.tables.writers)
      && (s.threads[t].pc.WrPush? ==> s.threads[t].name !in s.tables.readers)
  }

  ghost predicate Inv(keep: bool, s: State) {
    MutexesOk(keep, s) && WritersCounted(s) && NoDuplicates(s.tables.readers)
    && (keep ==> Exclusive(s) && LookupsHold(s))
  }

  lemma {:induction false} CountUpdate(threads: seq<Thread>, t: nat, th: Thread, name: bytes)
    requires t < |threads|
    ensures CountWriters(threads[t := th], name) + Writes(threads[t], name)
         == CountWriters(threads, name) + Writes(th, name)
  {
    var m := |threads| - 1;
    if t == m {
      assert threads[t := th][..m] == threads[..m];
    } else {
      assert threads[t := th][..m] == threads[..m][t := th];
      CountUpdate(threads[..m], t, th, name);
    }
  }

  lemma {:induction false} CountNotified(threads: seq<Thread>, name: bytes)
    ensures CountWriters(Notified(threads), name) == CountWriters(threads, name)
  {
    if threads != [] {
      var m := |threads| - 1;
      assert Notified(threads)[..m] == Notified(threads[..m]);
      CountNotified(threads[..m], name);
    }
  }

  lemma {:induction false} CountNone(threads: seq<Thread>, name: bytes)
    requires forall t: nat | t < |threads| :: !HasWriteLock(threads[t].pc)
    ensures CountWriters(threads, name) == 0
  {
    if threads != [] {
      CountNone(threads[..|threads| - 1], name);
    }
  }

  lemma InitInv(keep: bool, s: State)
    requires Init(s)
    ensures Inv(keep, s)
  {
    forall name
      ensures CountWriters(s.threads, name) == 0
    {
      CountNone(s.threads, name);
    }
  }

  // ---------- every step keeps the invariant ----------

  /** What a step of thread t may do to a mutex: nothing, take it free, or release it. */
  predicate Moves(t: nat, m: Option<nat>, held: bool, m': Option<nat>, held': bool) {
    || (m' == m && held' == held)
    || (m == None && m' == Some(t) && !held && held')
    || (m' == None && held && !held')
  }

  predicate Reads(pc: Pc) {
    pc.RdLockW? || pc.RdScan? || pc.RdLockR? || pc.RdInsert? || pc.Reading? || pc.RuLockR? || pc.RuErase?
  }

  lemma ActMutexes(keep: bool, s: Tables, t: nat, th: Thread, ch: Choice)
    requires Act(keep, s, t, th, ch).Some?
    ensures var (th', s') := Act(keep, s, t, th, ch).value;
      && Moves(t, s.w, HasW(keep, th.pc), s'.w, HasW(keep, th'.pc))
      && Moves(t, s.r, HasR(th.pc), s'.r, HasR(th'.pc))
      && Moves(t, s.c, HasC(th.pc), s'.c, HasC(th'.pc))
  {
    if Reads(th.pc) {
      ActReadMutexes(keep, s, t, th, ch);
    } else {
      ActOtherMutexes(keep, s, t, th, ch);
    }
  }

  lemma ActReadMutexes(keep: bool, s: Tables, t: nat, th: Thread, ch: Choice)
    requires Reads(th.pc) && Act(keep, s, t, th, ch).Some?
    ensures var (th', s') := Act(keep, s, t, th, ch).value;
      && Moves(t, s.w, HasW(keep, th.pc), s'.w, HasW(keep, th'.pc))
      && Moves(t, s.r, HasR(th.pc), s'.r, HasR(th'.pc))
      && Moves(t, s.c, HasC(th.pc), s'.c, HasC(th'.pc))
  {
  }

  lemma ActOtherMutexes(keep: bool, s: Tables, t: nat, th: Thread, ch: Choice)
    requires !Reads(th.pc) && Act(keep, s, t, th, ch).Some?
    ensures var (th', s') := Act(keep, s, t, th, ch).value;
      && Moves(t, s.w, HasW(keep, th.pc), s'.w, HasW(keep, th'.pc))
      && Moves(t, s.r, HasR(th.pc), s'.r, HasR(th'.pc))
      && Moves(t, s.c, HasC(th.pc), s'.c, HasC(th'.pc))
  {
  }

  lemma ActName(keep: bool, s: Tables, t: nat, th: Thread, ch: Choice)
    requires Act(keep, s, t, th, ch).Some? && !th.pc.Idle?
    ensures Act(keep, s, t, th, ch).value.0.name == th.name
  {
  }

  /** The other threads: only a notification moves them, and only from wait to wakeup. */
  lemma StepOthers(keep: bool, s: State, t: nat, ch: Choice, s': State)
    requires Step(keep, s, t, ch) == Some(s')
    ensures |s'.threads| == |s.threads|
    ensures forall u: nat | u < |s.threads| && u != t ::
      && s'.threads[u].name == s.threads[u].name
      && (s'.threads[u].pc == s.threads[u].pc || (s.threads[u].pc.Waiting? && s'.threads[u].pc.Woken?))
  {
  }

  lemma StepMutexes(keep: bool, s: State, t: nat, ch: Choice, s': State)
    requires MutexesOk(keep, s) && Step(keep, s, t, ch) == Some(s')
    ensures MutexesOk(keep, s')
  {
    ActMutexes(keep, s.tables, t, s.threads[t], ch);
    StepOthers(keep, s, t, ch, s');
  }

  /** What a step does to the two tables. */
  lemma ActTables(keep: bool, s: Tables, t: nat, th: Thread, ch: Choice)
    requires Act(keep, s, t, th, ch).Some?
    ensures var s' := Act(keep, s, t, th, ch).value.1;
      && s'.readers == (if th.pc.RdInsert? && !ch.OpenFails? && th.name !in s.readers then s.readers + [th.name]
                        else if th.pc.RuErase? then Without(s.readers, th.name)
                        else s.readers)
      && s'.writers == (if th.pc.WrPush? then s.writers + [th.name]
                        else if th.pc.WuErase? && th.name in s.writers then RemoveFirst(s.writers, th.name)
                        else s.writers)
      && s'.left == if th.pc.Writing? && ch.OpenFails? then s.left + [th.name] else s.left
  {
    if Reads(th.pc) {
      ActReadTables(keep, s, t, th, ch);
    }
  }

  /** Before and after reading, only the readers' table changes. */
  lemma ActReadTables(keep: bool, s: Tables, t: nat, th: Thread, ch: Choice)
    requires Reads(th.pc) && Act(keep, s, t, th, ch).Some?
    ensures var s' := Act(keep, s, t, th, ch).value.1;
      && s'.readers == (if th.pc.RdInsert? && !ch.OpenFails? && th.name !in s.readers then s.readers + [th.name]
                        else if th.pc.RuErase? then Without(s.readers, th.name)
                        else s.readers)
      && s'.writers == s.writers && s'.left == s.left
  {
  }

  /** A write lock begins with the push and ends with the erasure, or when the file does not open. */
  lemma ActWriteLock(keep: bool, s: Tables, t: nat, th: Thread, ch: Choice)
    requires Act(keep, s, t, th, ch).Some?
    ensures HasWriteLock(Act(keep, s, t, th, ch).value.0.pc) <==>
      th.pc.WrPush? || (HasWriteLock(th.pc) && !th.pc.WuErase? && !(th.pc.Writing? && ch.OpenFails?))
  {
  }

  lemma StepCounts(keep: bool, s: State, t: nat, ch: Choice, s': State)
    requires WritersCounted(s) && Step(keep, s, t, ch) == Some(s')
    ensures WritersCounted(s')
  {
    forall name
      ensures multiset(s'.tables.writers)[name] == CountWriters(s'.threads, name) + multiset(s'.tables.left)[name]
    {
      CountStep(keep, s, t, ch, s', name);
      EntriesStep(keep, s, t, ch, s', name);
    }
  }

  /** The entries of a name change as the holders of its write lock do. */
  lemma EntriesStep(keep: bool, s: State, t: nat, ch: Choice, s': State, name: bytes)
    requires WritersCounted(s) && Step(keep, s, t, ch) == Some(s')
    ensures multiset(s'.tables.writers)[name] + Writes(s.threads[t], name) + multiset(s.tables.left)[name]
         == multiset(s.tables.writers)[name] + Writes(s'.threads[t], name) + multiset(s'.tables.left)[name]
  {
    var th := s.threads[t];
    if HasWriteLock(th.pc) {
      HolderListed(s, t);
    }
    if !th.pc.Idle? {
      ActName(keep, s.tables, t, th, ch);
    }
    ActTables(keep, s.tables, t, th, ch);
    ActWriteLock(keep, s.tables, t, th, ch);
  }

  lemma CountStep(keep: bool, s: State, t: nat, ch: Choice, s': State, name: bytes)
    requires Step(keep, s, t, ch) == Some(s')
    ensures CountWriters(s'.threads, name) + Writes(s.threads[t], name)
         == CountWriters(s.threads, name) + Writes(s'.threads[t], name)
  {
    if s.threads[t].pc.WuNotify? {
      CountNotified(s.threads, name);
      CountUpdate(Notified(s.threads), t, s'.threads[t], name);
    } else {
      CountUpdate(s.threads, t, s'.threads[t], name);
    }
  }

  /** A thread that has a write lock finds its name in the table when it unlocks. */
  lemma HolderListed(s: State, t: nat)
    requires WritersCounted(s) && t < |s.threads| && HasWriteLock(s.threads[t].pc)
    ensures s.threads[t].name in s.tables.writers
  {
    CountUpdate(s.threads, t, s.threads[t].(pc := Idle), s.threads[t].name);
  }

  lemma StepReaders(keep: bool, s: State, t: nat, ch: Choice, s': State)
    requires NoDuplicates(s.tables.readers) && Step(keep, s, t, ch) == Some(s')
    ensures NoDuplicates(s'.tables.readers)
  {
  }

  /** How a thread comes to the stages that rely on a lookup. */
  lemma ActLookup(keep: bool, s: Tables, t: nat, th: Thread, ch: Choice)
    requires Act(keep, s, t, th, ch).Some?
    ensures var th' := Act(keep, s, t, th, ch).value.0;
      && (th'.pc.RdLockR? ==> th.pc.RdScan? && th.name !in s.writers && th'.name == th.name)
      && (th'.pc.RdInsert? ==> th.pc.RdLockR? && th'.name == th.name)
      && (th'.pc.WrPush? ==> th.pc.WrScan? && th.name !in s.readers && th'.name == th.name)
  {
  }

  /** With the repair, a name that is being locked cannot enter the other table. */
  lemma StepLookups(s: State, t: nat, ch: Choice, s': State)
    requires MutexesOk(true, s) && LookupsHold(s)
    requires Step(true, s, t, ch) == Some(s')
    ensures LookupsHold(s')
  {
    StepOthers(true, s, t, ch, s');
    var th := s.threads[t];
    ActTables(true, s.tables, t, th, ch);
    ActLookup(true, s.tables, t, th, ch);
    forall u: nat | u < |s.threads|
      ensures s'.threads[u].pc.RdLockR? || s'.threads[u].pc.RdInsert? ==> s'.threads[u].name !in s'.tables.writers
      ensures s'.threads[u].pc.WrPush? ==> s'.threads[u].name !in s'.tables.readers
    {
      if u != t && (th.pc.WrPush? || th.pc.RdInsert?) {
        assert HasW(true, th.pc) && !HasW(true, s.threads[u].pc);
      }
    }
  }

  lemma StepExclusive(s: State, t: nat, ch: Choice, s': State)
    requires Exclusive(s) && LookupsHold(s)
    requires Step(true, s, t, ch) == Some(s')
    ensures Exclusive(s')
  {
    ActTables(true, s.tables, t, s.threads[t], ch);
  }

  lemma StepInv(keep: bool, s: State, t: nat, ch: Choice, s': State)
    requires Inv(keep, s) && Step(keep, s, t, ch) == Some(s')
    ensures Inv(keep, s')
  {
    StepMutexes(keep, s, t, ch, s');
    StepCounts(keep, s, t, ch, s');
    StepReaders(keep, s, t, ch, s');
    if keep {
      StepLookups(s, t, ch, s');
      StepExclusive(s, t, ch, s');
    }
  }

  lemma {:induction false} RunInv(keep: bool, s0: State, steps: seq<(nat, Choice)>, s: State)
    requires Init(s0) && Run(keep, s0, steps) == Some(s)
    ensures Inv(keep, s)
  {
    if steps == [] {
      InitInv(keep, s0);
    } else {
      var n := |steps| - 1;
      var r := Run(keep, s0, steps[..n]).value;
      RunInv(keep, s0, steps[..n], r);
      StepInv(keep, r, steps[n].0, steps[n].1, s);
    }
  }

  // ---------- lock discipline ----------

  /** In every reachable state of both variants: each name stands in writeLockedFiles as
      often as threads hold that write lock, with one more entry for each time that its file
      did not open; readLockedFiles holds no name twice, and an unlocking writer finds its
      entry. */
  lemma TablesMatchHolders(keep: bool, s0: State, steps: seq<(nat, Choice)>, s: State)
    requires Init(s0) && Run(keep, s0, steps) == Some(s)
    ensures forall name ::
      multiset(s.tables.writers)[name] == CountWriters(s.threads, name) + multiset(s.tables.left)[name]
    ensures NoDuplicates(s.tables.readers)
    ensures forall t: nat | t < |s.threads| && s.threads[t].pc.WuErase? :: s.threads[t].name in s.tables.writers
  {
    RunInv(keep, s0, steps, s);
    forall t: nat | t < |s.threads| && s.threads[t].pc.WuErase?
      ensures s.threads[t].name in s.tables.writers
    {
      HolderListed(s, t);
    }
  }

  /** The mutex that a thread's next step must lock, if any. */
  datatype MutexName = W | R | C

  function Wants(pc: Pc): Option<MutexName> {
    if pc.RdLockW? || pc.WrLockW? || pc.WuLockW? then Some(W)
    else if pc.RdLockR? || pc.WrLockR? || pc.RuLockR? then Some(R)
    else if pc.WuLockC? || pc.WaitLock? || pc.Woken? then Some(C)
    else None
  }

  function Owner(s: State, m: MutexName): Option<nat> {
    match m case W => s.tables.w case R => s.tables.r case C => s.tables.c
  }

  predicate Blocked(s: State, t: nat) {
    t < |s.threads| && Wants(s.threads[t].pc).Some? && Owner(s, Wants(s.threads[t].pc).value).Some?
  }

  /** Only a blocked thread cannot step. */
  lemma BlockedExactlyWhenStuck(keep: bool, s: State, t: nat)
    requires t < |s.threads|
    ensures Blocked(s, t) <==> forall ch :: Step(keep, s, t, ch) == None
  {
    assert Step(keep, s, t, BeginRead([])).None? ==> !s.threads[t].pc.Idle?;
    assert Step(keep, s, t, Go).None? ==> s.threads[t].pc.Idle? || Blocked(s, t);
  }

  /** Waiting on the condition holds no mutex, and a thread that waits for one mutex
      while it holds another holds writeLockMutex and waits for readLockMutex. */
  lemma HoldAndWaitOnlyWR(keep: bool, s0: State, steps: seq<(nat, Choice)>, s: State, t: nat)
    requires Init(s0) && Run(keep, s0, steps) == Some(s) && t < |s.threads|
    ensures s.threads[t].pc.Waiting? ==> s.tables.w != Some(t) && s.tables.r != Some(t) && s.tables.c != Some(t)
    ensures Wants(s.threads[t].pc).Some? && Some(t) in {s.tables.w, s.tables.r, s.tables.c} ==>
      s.tables.w == Some(t) && Wants(s.threads[t].pc) == Some(R) && s.tables.r != Some(t) && s.tables.c != Some(t)
  {
    RunInv(keep, s0, steps, s);
  }

  /** Progress: whenever some thread is blocked on a mutex, another thread can step. */
  lemma SomeoneCanStep(keep: bool, s0: State, steps: seq<(nat, Choice)>, s: State, t: nat)
    returns (u: nat)
    requires Init(s0) && Run(keep, s0, steps) == Some(s) && Blocked(s, t)
    ensures u != t && u < |s.threads| && Step(keep, s, u, Go).Some?
  {
    RunInv(keep, s0, steps, s);
    u := Owner(s, Wants(s.threads[t].pc).value).value;
    if Blocked(s, u) {
      u := s.tables.r.value;
    }
    OwnersGo(keep, s, u);
  }

  /** Who holds a mutex is neither outside nor inside wait, and goes on if it is not blocked. */
  lemma OwnersGo(keep: bool, s: State, u: nat)
    requires u < |s.threads| && !s.threads[u].pc.Idle? && !Blocked(s, u)
    ensures Step(keep, s, u, Go).Some?
  {
  }

  // ---------- exclusion ----------

  /** With the repair no name is ever in both tables. */
  lemma TablesExclusive(s0: State, steps: seq<(nat, Choice)>, s: State)
    requires Init(s0) && Run(true, s0, steps) == Some(s)
    ensures forall name :: !(name in s.tables.readers && name in s.tables.writers)
  {
    RunInv(true, s0, steps, s);
  }

  /** Which steps, of either variant, put a name into both tables: exactly an insertion
      of a reader whose name is in the writers' table by now, or the reverse. */
  lemma ExclusionBreaksExactly(keep: bool, s: State, t: nat, ch: Choice, s': State)
    requires Exclusive(s) && Step(keep, s, t, ch) == Some(s')
    ensures var th := s.threads[t];
      Exclusive(s') <==>
      && !(th.pc.RdInsert? && !ch.OpenFails? && th.name in s.tables.writers)
      && !(th.pc.WrPush? && th.name in s.tables.readers)
  {
    var th := s.threads[t];
    if th.pc.RdInsert? && !ch.OpenFails? && th.name in s.tables.writers {
      assert s'.tables.readers[|s.tables.readers|] == th.name;
    }
    if th.pc.WrPush? && th.name in s.tables.readers {
      assert s'.tables.writers[|s.tables.writers|] == th.name;
    }
    ActTables(keep, s.tables, t, th, ch);
  }

  lemma Then(keep: bool, s0: State, steps: seq<(nat, Choice)>, s: State, t: nat, ch: Choice)
    returns (steps': seq<(nat, Choice)>, s': State)
    requires Run(keep, s0, steps) == Some(s) && Step(keep, s, t, ch).Some?
    ensures steps' == steps + [(t, ch)]
    ensures Some(s') == Step(keep, s, t, ch) && Run(keep, s0, steps') == Some(s')
  {
    steps', s' := steps + [(t, ch)], Step(keep, s, t, ch).value;
    assert steps'[..|steps|] == steps;
  }

  /** One step of thread t to a known outcome, while the others stay as they are in `base`. */
  lemma ThenTo(keep: bool, s0: State, steps: seq<(nat, Choice)>, s: State, base: seq<Thread>, t: nat, ch: Choice,
               th: Thread, tables: Tables)
    returns (steps': seq<(nat, Choice)>, s': State)
    requires Run(keep, s0, steps) == Some(s) && t < |s.threads| == |base| && !s.threads[t].pc.WuNotify?
    requires s.threads == base[t := s.threads[t]]
    requires Act(keep, s.tables, t, s.threads[t], ch) == Some((th, tables))
    ensures Run(keep, s0, steps') == Some(s')
    ensures s' == State(base[t := th], tables)
  {
    steps', s' := Then(keep, s0, steps, s, t, ch);
    assert s'.threads == base[t := th];
  }

  /** A thread that is about to lock writeLockMutex in writeLock locks both mutexes. */
  lemma WriteToScan(keep: bool, s0: State, steps: seq<(nat, Choice)>, s: State, t: nat)
    returns (steps': seq<(nat, Choice)>, s': State)
    requires Run(keep, s0, steps) == Some(s)
    requires t < |s.threads| && s.threads[t].pc.WrLockW? && s.tables.w.None? && s.tables.r.None?
    ensures Run(keep, s0, steps') == Some(s')
    ensures var name := s.threads[t].name;
      s' == State(s.threads[t := Thread(WrScan, name)], s.tables.(w := Some(t), r := Some(t)))
  {
    var name, locked := s.threads[t].name, s.tables.(w := Some(t));
    steps', s' := ThenTo(keep, s0, steps, s, s.threads, t, Go, Thread(WrLockR, name), locked);
    steps', s' := ThenTo(keep, s0, steps', s', s.threads, t, Go, Thread(WrScan, name), locked.(r := Some(t)));
  }

  /** It then locks the file, if no reader is in the table. */
  lemma WriteOn(keep: bool, s0: State, steps: seq<(nat, Choice)>, s: State, t: nat)
    returns (steps': seq<(nat, Choice)>, s': State)
    requires Run(keep, s0, steps) == Some(s)
    requires t < |s.threads| && s.threads[t].pc.WrLockW?
    requires s.tables.w.None? && s.tables.r.None? && s.threads[t].name !in s.tables.readers
    ensures Run(keep, s0, steps') == Some(s')
    ensures var name := s.threads[t].name;
      s' == State(s.threads[t := Thread(Writing, name)], s.tables.(writers := s.tables.writers + [name]))
  {
    var name, locked := s.threads[t].name, s.tables.(w := Some(t));
    steps', s' := WriteToScan(keep, s0, steps, s, t);
    steps', s' := ThenTo(keep, s0, steps', s', s.threads, t, Go, Thread(WrPush, name), locked);
    steps', s' := ThenTo(keep, s0, steps', s', s.threads, t, Go, Thread(Writing, name),
                         s.tables.(writers := s.tables.writers + [name]));
  }

  /** A thread calls writeLock. */
  lemma CallWrite(keep: bool, s0: State, steps: seq<(nat, Choice)>, s: State, t: nat, name: bytes)
    returns (steps': seq<(nat, Choice)>, s': State)
    requires Run(keep, s0, steps) == Some(s) && t < |s.threads| && s.threads[t].pc.Idle?
    ensures Run(keep, s0, steps') == Some(s')
    ensures s' == State(s.threads[t := Thread(WrLockW, name)], s.tables)
  {
    steps', s' := ThenTo(keep, s0, steps, s, s.threads, t, BeginWrite(name), Thread(WrLockW, name), s.tables);
  }

  /** A writer locks a file while no mutex is taken and no reader is in the table. */
  lemma WriteTrace(keep: bool, s0: State, steps: seq<(nat, Choice)>, s: State, t: nat, name: bytes)
    returns (steps': seq<(nat, Choice)>, s': State)
    requires Run(keep, s0, steps) == Some(s)
    requires t < |s.threads| && s.threads[t].pc.Idle?
    requires s.tables.w.None? && s.tables.r.None? && name !in s.tables.readers
    ensures Run(keep, s0, steps') == Some(s')
    ensures s' == State(s.threads[t := Thread(Writing, name)], s.tables.(writers := s.tables.writers + [name]))
  {
    var threads := s.threads;
    steps', s' := CallWrite(keep, s0, steps, s, t, name);
    steps', s' := WriteOn(keep, s0, steps', s', t);
    assert s'.threads == threads[t := Thread(Writing, name)];
  }

  /** A reader, as written, comes to the gap, having let go of writeLockMutex. */
  lemma ReadToGap(s0: State, steps: seq<(nat, Choice)>, s: State, t: nat, name: bytes)
    returns (steps': seq<(nat, Choice)>, s': State)
    requires Run(false, s0, steps) == Some(s)
    requires t < |s.threads| && s.threads[t].pc.Idle?
    requires s.tables.w.None? && name !in s.tables.writers
    ensures Run(false, s0, steps') == Some(s')
    ensures s' == State(s.threads[t := Thread(RdLockR, name)], s.tables)
  {
    var locked := s.tables.(w := Some(t));
    steps', s' := ThenTo(false, s0, steps, s, s.threads, t, BeginRead(name), Thread(RdLockW, name), s.tables);
    steps', s' := ThenTo(false, s0, steps', s', s.threads, t, Go, Thread(RdScan, name), locked);
    steps', s' := ThenTo(false, s0, steps', s', s.threads, t, Go, Thread(RdLockR, name), s.tables);
  }

  /** And then goes on to insert its entry. */
  lemma GapToReading(s0: State, steps: seq<(nat, Choice)>, s: State, t: nat)
    returns (steps': seq<(nat, Choice)>, s': State)
    requires Run(false, s0, steps) == Some(s)
    requires t < |s.threads| && s.threads[t].pc.RdLockR?
    requires s.tables.r.None? && s.threads[t].name !in s.tables.readers
    ensures Run(false, s0, steps') == Some(s')
    ensures var name := s.threads[t].name;
      s' == State(s.threads[t := Thread(Reading, name)], s.tables.(readers := s.tables.readers + [name]))
  {
    var name := s.threads[t].name;
    steps', s' := ThenTo(false, s0, steps, s, s.threads, t, Go, Thread(RdInsert, name), s.tables.(r := Some(t)));
    steps', s' := ThenTo(false, s0, steps', s', s.threads, t, Go, Thread(Reading, name),
                         s.tables.(readers := s.tables.readers + [name]));
  }

  /** Threads that have done nothing yet. */
  function Start(threads: nat): (s: State)
    ensures Init(s) && |s.threads| == threads && s.tables == Tables([], [], None, None, None, [])
  {
    State(seq(threads, _ => Thread(Idle, [])), Tables([], [], None, None, None, []))
  }

  /** As written, a writer can come in between: the trace ends with the name in both
      tables, one thread reading and one writing. */
  lemma GapTrace(name: bytes) returns (s0: State, steps: seq<(nat, Choice)>, s: State)
    ensures Init(s0) && Run(false, s0, steps) == Some(s)
    ensures name in s.tables.readers && name in s.tables.writers
    ensures s.threads == [Thread(Reading, name), Thread(Writing, name)]
  {
    s0 := Start(2);
    steps, s := ReadToGap(s0, [], s0, 0, name);
    steps, s := WriteTrace(false, s0, steps, s, 1, name);
    steps, s := GapToReading(s0, steps, s, 0);
  }

  /** Every thread that reads has its name in the table, so no writer is let in. */
  ghost predicate ReadersProtected(s: State) {
    forall t: nat | t < |s.threads| && s.threads[t].pc.Reading? :: s.threads[t].name in s.tables.readers
  }

  /** All readers of a file share one entry, and the first to unlock erases it. Those are
      exactly the steps that leave a reader without protection. */
  lemma ProtectionEndsExactly(keep: bool, s: State, t: nat, ch: Choice, s': State)
    requires ReadersProtected(s) && Step(keep, s, t, ch) == Some(s')
    ensures ReadersProtected(s') <==>
      !(s.threads[t].pc.RuErase? &&
        exists u: nat :: u < |s.threads| && s.threads[u].pc.Reading? && s.threads[u].name == s.threads[t].name)
  {
    StepOthers(keep, s, t, ch, s');
    if s.threads[t].pc.RuErase? {
      assert s'.tables.readers == Without(s.tables.readers, s.threads[t].name);
      if u: nat :| u < |s.threads| && s.threads[u].pc.Reading? && s.threads[u].name == s.threads[t].name {
        assert s'.threads[u] == s.threads[u];
      }
    }
  }

  /** As long as readers are protected, no file is read and written at the same time. */
  lemma NoReadWhileWriting(s0: State, steps: seq<(nat, Choice)>, s: State, t: nat, u: nat)
    requires Init(s0) && Run(true, s0, steps) == Some(s) && ReadersProtected(s)
    requires t < |s.threads| && s.threads[t].pc.Reading?
    requires u < |s.threads| && HasWriteLock(s.threads[u].pc)
    ensures s.threads[t].name != s.threads[u].name
  {
    RunInv(true, s0, steps, s);
    HolderListed(s, u);
  }

  /** A thread that is about to lock writeLockMutex in readLock locks the file, while no
      mutex is taken and no writer is in the table. */
  lemma ReadOn(s0: State, steps: seq<(nat, Choice)>, s: State, t: nat)
    returns (steps': seq<(nat, Choice)>, s': State)
    requires Run(true, s0, steps) == Some(s)
    requires t < |s.threads| && s.threads[t].pc.RdLockW?
    requires s.tables.w.None? && s.tables.r.None? && s.threads[t].name !in s.tables.writers
    ensures Run(true, s0, steps') == Some(s')
    ensures var name := s.threads[t].name;
      s' == State(s.threads[t := Thread(Reading, name)], s.tables.(readers := WithReader(s.tables.readers, name)))
  {
    var name, locked := s.threads[t].name, s.tables.(w := Some(t));
    steps', s' := ThenTo(true, s0, steps, s, s.threads, t, Go, Thread(RdScan, name), locked);
    steps', s' := ThenTo(true, s0, steps', s', s.threads, t, Go, Thread(RdLockR, name), locked);
    steps', s' := ThenTo(true, s0, steps', s', s.threads, t, Go, Thread(RdInsert, name), locked.(r := Some(t)));
    steps', s' := ThenTo(true, s0, steps', s', s.threads, t, Go, Thread(Reading, name),
                         s.tables.(readers := WithReader(s.tables.readers, name)));
  }

  /** A reader locks a file while no mutex is taken and no writer is in the table. */
  lemma ReadTrace(s0: State, steps: seq<(nat, Choice)>, s: State, t: nat, name: bytes)
    returns (steps': seq<(nat, Choice)>, s': State)
    requires Run(true, s0, steps) == Some(s)
    requires t < |s.threads| && s.threads[t].pc.Idle?
    requires s.tables.w.None? && s.tables.r.None? && name !in s.tables.writers
    ensures Run(true, s0, steps') == Some(s')
    ensures s' == State(s.threads[t := Thread(Reading, name)], s.tables.(readers := WithReader(s.tables.readers, name)))
  {
    var threads := s.threads;
    steps', s' := ThenTo(true, s0, steps, s, s.threads, t, BeginRead(name), Thread(RdLockW, name), s.tables);
    steps', s' := ReadOn(s0, steps', s', t);
    assert s'.threads == threads[t := Thread(Reading, name)];
  }

  function WithReader(readers: seq<bytes>, name: bytes): seq<bytes> {
    if name in readers then readers else readers + [name]
  }

  /** A reader unlocks while no mutex is taken. */
  lemma UnlockTrace(s0: State, steps: seq<(nat, Choice)>, s: State, t: nat)
    returns (steps': seq<(nat, Choice)>, s': State)
    requires Run(true, s0, steps) == Some(s)
    requires t < |s.threads| && s.threads[t].pc.Reading? && s.tables.r.None?
    ensures Run(true, s0, steps') == Some(s')
    ensures var name := s.threads[t].name;
      s' == State(s.threads[t := Thread(Idle, name)], s.tables.(readers := Without(s.tables.readers, name)))
  {
    var name := s.threads[t].name;
    steps', s' := ThenTo(true, s0, steps, s, s.threads, t, Go, Thread(RuLockR, name), s.tables);
    steps', s' := ThenTo(true, s0, steps', s', s.threads, t, Go, Thread(RuErase, name), s.tables.(r := Some(t)));
    steps', s' := ThenTo(true, s0, steps', s', s.threads, t, Go, Thread(Idle, name),
                         s.tables.(readers := Without(s.tables.readers, name)));
  }

  /** Without it they can be, the repair notwithstanding: two readers, one unlocks, and
      a writer comes in while the other still reads. */
  lemma SharedEntryTrace(name: bytes) returns (s0: State, steps: seq<(nat, Choice)>, s: State)
    ensures Init(s0) && Run(true, s0, steps) == Some(s)
    ensures s.threads == [Thread(Idle, name), Thread(Reading, name), Thread(Writing, name)]
  {
    s0 := Start(3);
    steps, s := ReadTrace(s0, [], s0, 0, name);
    steps, s := ReadTrace(s0, steps, s, 1, name);
    steps, s := UnlockTrace(s0, steps, s, 0);
    steps, s := WriteTrace(true, s0, steps, s, 2, name);
  }

  // ---------- wakeups ----------

  /** What a thread waits for is still to come: a reader waits for a writer that will erase
      its entry, which one that was left behind never is, and a writer for the entry of a
      reader to go. */
  predicate Awaits(s: Tables, forRead: bool, name: bytes) {
    if forRead then multiset(s.writers)[name] > multiset(s.left)[name] else name in s.readers
  }

  /** An unlocking writer is about to notify. */
  ghost predicate NotifyPending(s: State) {
    exists t: nat :: t < |s.threads| && (s.threads[t].pc.WuLockC? || s.threads[t].pc.WuNotify?)
  }

  predicate Stranded(s: Tables, th: Thread) {
    th.pc.Waiting? && !Awaits(s, th.pc.forRead, th.name)
  }

  /** Everyone who waits does so for a reason, or a notification is coming. */
  ghost predicate NobodyStranded(s: State) {
    NotifyPending(s) || forall t: nat | t < |s.threads| :: !Stranded(s.tables, s.threads[t])
  }

  /** Some writer waits for a reader of this file. */
  ghost predicate WriterWaits(s: State, name: bytes) {
    exists u: nat :: u < |s.threads| && s.threads[u].pc == Waiting(false) && s.threads[u].name == name
  }

  ghost predicate ReaderWaits(s: State, name: bytes) {
    exists u: nat :: u < |s.threads| && s.threads[u].pc == Waiting(true) && s.threads[u].name == name
  }

  /** No other writer of the file is there that will notify. */
  predicate LastWriter(s: Tables, name: bytes) {
    multiset(s.writers)[name] <= multiset(s.left)[name] + 1
  }

  /** The three steps that leave somebody behind, if no notification is coming: a reader unlocks
      a file that a writer waits for, which notifies nobody; the last writer of a file that a
      reader waits for cannot open it and returns without unlocking; and a thread goes to
      wait when there is nothing to wait for: the entry that it has found is gone, and the
      notification with it, or the entry was left behind. */
  ghost predicate Strands(s: State, t: nat, ch: Choice) {
    && t < |s.threads|
    && !NotifyPending(s)
    && var th := s.threads[t];
    || (th.pc.RuErase? && WriterWaits(s, th.name))
    || (th.pc.Writing? && ch.OpenFails? && LastWriter(s.tables, th.name) && ReaderWaits(s, th.name))
    || (th.pc.Sleep? && !Awaits(s.tables, th.pc.forRead, th.name))
  }

  /** Those are exactly the steps after which somebody waits for nothing and will not be woken. */
  lemma StrandedExactly(keep: bool, s: State, t: nat, ch: Choice, s': State)
    requires NobodyStranded(s) && Step(keep, s, t, ch) == Some(s')
    ensures NobodyStranded(s') <==> !Strands(s, t, ch)
  {
    if NotifyPending(s) {
      PendingStays(keep, s, t, ch, s');
    } else {
      ActTables(keep, s.tables, t, s.threads[t], ch);
      StrandedStep(keep, s, t, ch, s');
    }
  }

  /** A pending notification stays pending, or reaches everyone who waits. */
  lemma PendingStays(keep: bool, s: State, t: nat, ch: Choice, s': State)
    requires NotifyPending(s) && Step(keep, s, t, ch) == Some(s')
    ensures NobodyStranded(s')
  {
    if !s.threads[t].pc.WuNotify? {
      var u: nat :| u < |s.threads| && (s.threads[u].pc.WuLockC? || s.threads[u].pc.WuNotify?);
      assert s'.threads[u].pc.WuLockC? || s'.threads[u].pc.WuNotify?;
    }
  }

  lemma StrandedStep(keep: bool, s: State, t: nat, ch: Choice, s': State)
    requires NobodyStranded(s) && !NotifyPending(s) && Step(keep, s, t, ch) == Some(s')
    ensures NobodyStranded(s') <==> !Strands(s, t, ch)
  {
    var th := s.threads[t];
    assert !th.pc.WuLockC? && !th.pc.WuNotify?;
    if th.pc.WuErase? && th.name in s.tables.writers {
      assert s'.threads[t].pc.WuLockC?;
    } else {
      NotPendingYet(keep, s, t, ch, s');
      if th.pc.RuErase? && WriterWaits(s, th.name) {
        var u: nat :| u < |s.threads| && s.threads[u].pc == Waiting(false) && s.threads[u].name == th.name;
        assert Stranded(s'.tables, s'.threads[u]);
      }
      if th.pc.Writing? && ch.OpenFails? && LastWriter(s.tables, th.name) && ReaderWaits(s, th.name) {
        var u: nat :| u < |s.threads| && s.threads[u].pc == Waiting(true) && s.threads[u].name == th.name;
        assert Stranded(s'.tables, s'.threads[u]);
      }
      if th.pc.Sleep? && !Awaits(s.tables, th.pc.forRead, th.name) {
        assert Stranded(s'.tables, s'.threads[t]);
      }
      if !Strands(s, t, ch) {
        NoneStranded(keep, s, t, ch, s');
      }
    }
  }

  lemma NotPendingYet(keep: bool, s: State, t: nat, ch: Choice, s': State)
    requires !NotifyPending(s) && Step(keep, s, t, ch) == Some(s')
    requires !(s.threads[t].pc.WuErase? && s.threads[t].name in s.tables.writers)
    ensures !NotifyPending(s')
  {
    assert !s.threads[t].pc.WuLockC? && !s.threads[t].pc.WuNotify?;
    StepOthers(keep, s, t, ch, s');
    assert !s'.threads[t].pc.WuLockC? && !s'.threads[t].pc.WuNotify?;
  }

  /** A thread is inside wait only after it has gone there, or still. */
  lemma ActWaiting(keep: bool, s: Tables, t: nat, th: Thread, ch: Choice)
    requires Act(keep, s, t, th, ch).Some? && Act(keep, s, t, th, ch).value.0.pc.Waiting?
    ensures th.pc.Sleep? && Act(keep, s, t, th, ch).value == (Thread(Waiting(th.pc.forRead), th.name), s.(c := None))
  {
  }

  /** What is awaited stays, but for the steps that strand somebody. */
  lemma StillAwaited(keep: bool, s: State, t: nat, ch: Choice, s': State, u: nat)
    requires !NotifyPending(s) && Step(keep, s, t, ch) == Some(s')
    requires !(s.threads[t].pc.WuErase? && s.threads[t].name in s.tables.writers) && !Strands(s, t, ch)
    requires u < |s.threads| && s.threads[u].pc.Waiting?
    requires Awaits(s.tables, s.threads[u].pc.forRead, s.threads[u].name)
    ensures Awaits(s'.tables, s.threads[u].pc.forRead, s.threads[u].name)
  {
    var th, waiter := s.threads[t], s.threads[u];
    ActTables(keep, s.tables, t, th, ch);
    if th.name == waiter.name && th.pc.RuErase? && !waiter.pc.forRead {
      assert WriterWaits(s, th.name);
    }
    if th.name == waiter.name && th.pc.Writing? && waiter.pc.forRead {
      assert ReaderWaits(s, th.name);
    }
  }

  lemma NoneStranded(keep: bool, s: State, t: nat, ch: Choice, s': State)
    requires NobodyStranded(s) && !NotifyPending(s) && Step(keep, s, t, ch) == Some(s')
    requires !(s.threads[t].pc.WuErase? && s.threads[t].name in s.tables.writers) && !Strands(s, t, ch)
    ensures forall u: nat | u < |s'.threads| :: !Stranded(s'.tables, s'.threads[u])
  {
    assert !s.threads[t].pc.WuNotify?;
    forall u: nat | u < |s'.threads| && s'.threads[u].pc.Waiting?
      ensures !Stranded(s'.tables, s'.threads[u])
    {
      if u == t {
        ActWaiting(keep, s.tables, t, s.threads[t], ch);
      } else {
        assert s'.threads[u] == s.threads[u] && !Stranded(s.tables, s.threads[u]);
        StillAwaited(keep, s, t, ch, s', u);
      }
    }
  }

  /** None of the steps leaves anybody behind. */
  ghost predicate StrandsNever(keep: bool, s0: State, steps: seq<(nat, Choice)>) {
    steps == [] ||
    var n := |steps| - 1;
    && StrandsNever(keep, s0, steps[..n])
    && (Run(keep, s0, steps[..n]).Some? ==> !Strands(Run(keep, s0, steps[..n]).value, steps[n].0, steps[n].1))
  }

  lemma {:induction false} RunStrandsNobody(keep: bool, s0: State, steps: seq<(nat, Choice)>, s: State)
    requires Init(s0) && Run(keep, s0, steps) == Some(s) && StrandsNever(keep, s0, steps)
    ensures NobodyStranded(s)
  {
    if steps != [] {
      var n := |steps| - 1;
      var r := Run(keep, s0, steps[..n]).value;
      RunStrandsNobody(keep, s0, steps[..n], r);
      StrandedExactly(keep, r, steps[n].0, steps[n].1, s);
    }
  }

  /** Thread `th` has an entry of its name to remove, or shares it. */
  predicate Keeps(th: Thread, name: bytes) {
    (th.pc.Reading? || th.pc.RuLockR? || th.pc.RuErase?) && th.name == name
  }

  /** Every entry of a reader has a thread that will remove it. */
  ghost predicate ReadersKept(s: State) {
    forall name | name in s.tables.readers :: exists t: nat :: t < |s.threads| && Keeps(s.threads[t], name)
  }

  lemma StepReadersKept(keep: bool, s: State, t: nat, ch: Choice, s': State)
    requires ReadersKept(s) && Step(keep, s, t, ch) == Some(s')
    ensures ReadersKept(s')
  {
    var th := s.threads[t];
    StepOthers(keep, s, t, ch, s');
    ActTables(keep, s.tables, t, th, ch);
    forall name | name in s'.tables.readers
      ensures exists u: nat :: u < |s'.threads| && Keeps(s'.threads[u], name)
    {
      if name in s.tables.readers {
        var u: nat :| u < |s.threads| && Keeps(s.threads[u], name);
        assert Keeps(s'.threads[u], name);
      } else {
        assert Keeps(s'.threads[t], name);
      }
    }
  }

  lemma {:induction false} RunReadersKept(keep: bool, s0: State, steps: seq<(nat, Choice)>, s: State)
    requires Init(s0) && Run(keep, s0, steps) == Some(s)
    ensures ReadersKept(s)
  {
    if steps != [] {
      var n := |steps| - 1;
      var r := Run(keep, s0, steps[..n]).value;
      RunReadersKept(keep, s0, steps[..n], r);
      StepReadersKept(keep, r, steps[n].0, steps[n].1, s);
    }
  }

  /** Every thread is outside or waits, so that nothing more happens by itself. */
  predicate AtRest(s: State) {
    forall t: nat | t < |s.threads| :: s.threads[t].pc.Idle? || s.threads[t].pc.Waiting?
  }

  /** When a run has come to rest, no reader has an entry and only the writers' entries that
      were left behind remain. All threads have come through exactly if nobody is stranded;
      so they have if no step of the run stranded anybody. */
  lemma RestExactly(keep: bool, s0: State, steps: seq<(nat, Choice)>, s: State)
    requires Init(s0) && Run(keep, s0, steps) == Some(s) && AtRest(s)
    ensures s.tables.readers == [] && multiset(s.tables.writers) == multiset(s.tables.left)
    ensures (forall t: nat | t < |s.threads| :: s.threads[t].pc.Idle?) <==> NobodyStranded(s)
    ensures StrandsNever(keep, s0, steps) ==> NobodyStranded(s)
  {
    RunInv(keep, s0, steps, s);
    RunReadersKept(keep, s0, steps, s);
    if StrandsNever(keep, s0, steps) {
      RunStrandsNobody(keep, s0, steps, s);
    }
    forall name
      ensures name !in s.tables.readers
      ensures multiset(s.tables.writers)[name] == multiset(s.tables.left)[name]
    {
      CountNone(s.threads, name);
    }
    if s.tables.readers != [] {
      HasEntry(s.tables.readers);
    }
  }

  lemma HasEntry(names: seq<bytes>)
    requires names != []
    ensures exists name :: name in names
  {
    assert names[0] in names;
  }

  /** A writer finds a reader in the table and lets go of the mutexes. */
  lemma DropTrace(s0: State, steps: seq<(nat, Choice)>, s: State, t: nat, name: bytes)
    returns (steps': seq<(nat, Choice)>, s': State)
    requires Run(true, s0, steps) == Some(s)
    requires t < |s.threads| && s.threads[t].pc.Idle? && name in s.tables.readers
    requires s.tables.w.None? && s.tables.r.None?
    ensures Run(true, s0, steps') == Some(s')
    ensures s' == State(s.threads[t := Thread(WaitLock(false), name)], s.tables)
  {
    steps', s' := CallWrite(true, s0, steps, s, t, name);
    steps', s' := WriteToScan(true, s0, steps', s', t);
    steps', s' := ThenTo(true, s0, steps', s', s.threads, t, Go, Thread(WrDrop, name), s.tables.(w := Some(t)));
    steps', s' := ThenTo(true, s0, steps', s', s.threads, t, Go, Thread(WaitLock(false), name), s.tables);
  }

  /** A reader finds a writer in the table and lets go of the mutex. */
  lemma ReadDropTrace(s0: State, steps: seq<(nat, Choice)>, s: State, t: nat, name: bytes)
    returns (steps': seq<(nat, Choice)>, s': State)
    requires Run(true, s0, steps) == Some(s)
    requires t < |s.threads| && s.threads[t].pc.Idle? && name in s.tables.writers && s.tables.w.None?
    ensures Run(true, s0, steps') == Some(s')
    ensures s' == State(s.threads[t := Thread(WaitLock(true), name)], s.tables)
  {
    steps', s' := ThenTo(true, s0, steps, s, s.threads, t, BeginRead(name), Thread(RdLockW, name), s.tables);
    steps', s' := ThenTo(true, s0, steps', s', s.threads, t, Go, Thread(RdScan, name), s.tables.(w := Some(t)));
    steps', s' := ThenTo(true, s0, steps', s', s.threads, t, Go, Thread(WaitLock(true), name), s.tables);
  }

  /** It then goes to wait on the condition. */
  lemma SleepTrace(s0: State, steps: seq<(nat, Choice)>, s: State, t: nat)
    returns (steps': seq<(nat, Choice)>, s': State)
    requires Run(true, s0, steps) == Some(s)
    requires t < |s.threads| && s.threads[t].pc.WaitLock? && s.tables.c.None?
    ensures Run(true, s0, steps') == Some(s')
    ensures var th := s.threads[t];
      s' == State(s.threads[t := Thread(Waiting(th.pc.forRead), th.name)], s.tables)
  {
    var rd, name := s.threads[t].pc.forRead, s.threads[t].name;
    steps', s' := ThenTo(true, s0, steps, s, s.threads, t, Go, Thread(Sleep(rd), name), s.tables.(c := Some(t)));
    steps', s' := ThenTo(true, s0, steps', s', s.threads, t, Go, Thread(Waiting(rd), name), s.tables);
  }

  /** A writer erases its entry. */
  lemma EraseTrace(s0: State, steps: seq<(nat, Choice)>, s: State, t: nat)
    returns (steps': seq<(nat, Choice)>, s': State)
    requires Run(true, s0, steps) == Some(s)
    requires t < |s.threads| && s.threads[t].pc.Writing?
    requires s.tables.w.None? && s.threads[t].name in s.tables.writers
    ensures Run(true, s0, steps') == Some(s')
    ensures var name := s.threads[t].name;
      s' == State(s.threads[t := Thread(WuLockC, name)], s.tables.(writers := RemoveFirst(s.tables.writers, name)))
  {
    var name := s.threads[t].name;
    steps', s' := ThenTo(true, s0, steps, s, s.threads, t, Go, Thread(WuLockW, name), s.tables);
    steps', s' := ThenTo(true, s0, steps', s', s.threads, t, Go, Thread(WuErase, name), s.tables.(w := Some(t)));
    steps', s' := ThenTo(true, s0, steps', s', s.threads, t, Go, Thread(WuLockC, name),
                         s.tables.(writers := RemoveFirst(s.tables.writers, name)));
  }

  /** It then notifies, and nobody waits yet. */
  lemma NotifyTrace(s0: State, steps: seq<(nat, Choice)>, s: State, t: nat)
    returns (steps': seq<(nat, Choice)>, s': State)
    requires Run(true, s0, steps) == Some(s)
    requires t < |s.threads| && s.threads[t].pc.WuLockC? && s.tables.c.None?
    requires forall u: nat | u < |s.threads| :: !s.threads[u].pc.Waiting?
    ensures Run(true, s0, steps') == Some(s')
    ensures s' == State(s.threads[t := Thread(Idle, s.threads[t].name)], s.tables)
  {
    var name := s.threads[t].name;
    steps', s' := ThenTo(true, s0, steps, s, s.threads, t, Go, Thread(WuNotify, name), s.tables.(c := Some(t)));
    assert Notified(s'.threads) == s'.threads;
    var threads := s'.threads;
    steps', s' := Then(true, s0, steps', s', t, Go);
    assert s'.threads == threads[t := Thread(Idle, name)] == s.threads[t := Thread(Idle, name)];
  }

  /** The first way to be left behind: a writer waits for a reader, and the reader unlocks.
      Nobody holds anything, and the writer waits. */
  lemma LeftWaitingTrace(name: bytes) returns (s0: State, steps: seq<(nat, Choice)>, s: State)
    ensures Init(s0) && Run(true, s0, steps) == Some(s)
    ensures s == State([Thread(Idle, name), Thread(Waiting(false), name)], Tables([], [], None, None, None, []))
  {
    s0 := Start(2);
    steps, s := ReadTrace(s0, [], s0, 0, name);
    assert s.tables.readers == [name];
    steps, s := DropTrace(s0, steps, s, 1, name);
    steps, s := SleepTrace(s0, steps, s, 1);
    steps, s := UnlockTrace(s0, steps, s, 0);
    assert Without([name], name) == [];
    assert s.threads == [Thread(Idle, name), Thread(Waiting(false), name)];
  }

  /** The second way: a reader finds a writer, the writer unlocks and notifies, and only
      then does the reader go to wait. */
  lemma LostWakeupTrace(name: bytes) returns (s0: State, steps: seq<(nat, Choice)>, s: State)
    ensures Init(s0) && Run(true, s0, steps) == Some(s)
    ensures s == State([Thread(Idle, name), Thread(Waiting(true), name)], Tables([], [], None, None, None, []))
  {
    s0 := Start(2);
    steps, s := WriteTrace(true, s0, [], s0, 0, name);
    assert s.tables.writers == [name];
    steps, s := ReadDropTrace(s0, steps, s, 1, name);
    steps, s := EraseTrace(s0, steps, s, 0);
    steps, s := NotifyTrace(s0, steps, s, 0);
    steps, s := SleepTrace(s0, steps, s, 1);
    assert RemoveFirst([name], name) == [];
    assert s.threads == [Thread(Idle, name), Thread(Waiting(true), name)];
  }

  /** The third way: a writer cannot open its file and leaves its entry, and a reader that
      comes afterwards waits for it. */
  lemma LeftEntryTrace(name: bytes) returns (s0: State, steps: seq<(nat, Choice)>, s: State)
    ensures Init(s0) && Run(true, s0, steps) == Some(s)
    ensures s == State([Thread(Idle, name), Thread(Waiting(true), name)], Tables([], [name], None, None, None, [name]))
  {
    s0 := Start(2);
    steps, s := WriteTrace(true, s0, [], s0, 0, name);
    assert s.tables.writers == [name];
    steps, s := ThenTo(true, s0, steps, s, s.threads, 0, OpenFails, Thread(Idle, name), s.tables.(left := [name]));
    steps, s := ReadDropTrace(s0, steps, s, 1, name);
    steps, s := SleepTrace(s0, steps, s, 1);
    assert s.threads == [Thread(Idle, name), Thread(Waiting(true), name)];
  }
}
