/** What is on the disks after a run of the swarm, failing stores included. The workers' byte
    writes are a schedule of stores, so the disk is the one that the stores give when they
    run one after the other. */
module SwarmDisk {
  import opened Common
  import opened Blocks
  import opened SegmentTable
  import opened Swarm
  import opened SwarmSafety
  import opened SwarmOutcome
  import opened Interleaving

  /** What has been stored at a node, segment by segment. */
  function StoresAt(n: Node): (r: seq<Store>)
    ensures |r| == |n.file.states|
    ensures forall f: nat | f < |r| :: r[f] == Store(f, n.Stored(f))
  {
    seq(|n.file.states|, (f: nat) => Store(f, n.Stored(f)))
  }

  lemma StoresAtOk(source: bytes, n: Node)
    requires NodeOk(source, n)
    ensures StoresOk(StoresAt(n))
  {
    forall f: nat | f < |n.file.states|
      ensures |n.Stored(f)| <= SEGMENT_SIZE
    {
      assert SegmentOk(source, n, f);
    }
  }

  // ---------- the writes of a run are a schedule ----------

  /** The disk of node `a` is what the schedule makes of its first contents. */
  ghost predicate Follows(s0: Swarm, s: Swarm, a: nat, schedule: seq<nat>) {
    && a < |s0.nodes|
    && a < |s.nodes|
    && Makes(s0.nodes[a].disk, StoresAt(s.nodes[a]), schedule, s.nodes[a].disk)
  }

  /** The step writes a byte at node `a`. */
  predicate Writes(s: Swarm, l: Label, a: nat) {
    && l.Work?
    && l.i < |s.workers|
    && s.workers[l.i].owner == a
    && s.workers[l.i].pc.Storing?
    && s.workers[l.i].pc.written < |s.workers[l.i].pc.data|
    && l.env.Works?
  }

  lemma NoWrite(size: nat, s: Swarm, l: Label, s': Swarm, a: nat)
    requires Step(size, s, l) == Some(s') && a < |s.nodes| && !Writes(s, l, a)
    ensures a < |s'.nodes| && |s'.nodes[a].file.states| == |s.nodes[a].file.states|
    ensures s'.nodes[a].disk == s.nodes[a].disk && s'.nodes[a].stored == s.nodes[a].stored
  {
  }

  /** A byte is written where the store of its segment has come to. */
  lemma WrittenByte(source: bytes, s: Swarm, l: Label, s': Swarm, a: nat) returns (f: nat, b: byte)
    requires Inv(source, s) && Step(|source|, s, l) == Some(s') && a < |s.nodes| && Writes(s, l, a)
    ensures f < |s.nodes[a].file.states| && s'.nodes[a].file == s.nodes[a].file
    ensures s'.nodes[a].stored == s.nodes[a].stored[f := s.nodes[a].Stored(f) + [b]]
    ensures s'.nodes[a].disk == WriteByte(s.nodes[a].disk, Offset(f) + |s.nodes[a].Stored(f)|, b)
  {
    var w := s.workers[l.i];
    f, b := w.list[w.pc.k], w.pc.data[w.pc.written];
    assert WorkerOk(source, s.nodes, w) && ClaimOk(s.nodes, w);
  }

  lemma WriteStep(source: bytes, s0: Swarm, s: Swarm, l: Label, s': Swarm, a: nat, schedule: seq<nat>)
    returns (schedule': seq<nat>)
    requires Inv(source, s) && Step(|source|, s, l) == Some(s')
    requires Follows(s0, s, a, schedule) && Writes(s, l, a)
    ensures Follows(s0, s', a, schedule')
  {
    var f, b := WrittenByte(source, s, l, s', a);
    schedule' := schedule + [f];
    FollowsNext(s0, s, s', a, schedule, f, b);
  }

  lemma StoresAtNext(n: Node, m: Node, f: nat, b: byte)
    requires f < |n.file.states| && m.file == n.file && m.stored == n.stored[f := n.Stored(f) + [b]]
    ensures StoresAt(m) == Longer(StoresAt(n), f, [b])
  {
    forall g: nat | g < |n.file.states|
      ensures StoresAt(m)[g] == Longer(StoresAt(n), f, [b])[g]
    {
      assert m.Stored(g) == if g == f then n.Stored(f) + [b] else n.Stored(g);
    }
  }

  lemma FollowsNext(s0: Swarm, s: Swarm, s': Swarm, a: nat, schedule: seq<nat>, f: nat, b: byte)
    requires Follows(s0, s, a, schedule) && a < |s'.nodes| && f < |s.nodes[a].file.states|
    requires s'.nodes[a].file == s.nodes[a].file
    requires s'.nodes[a].stored == s.nodes[a].stored[f := s.nodes[a].Stored(f) + [b]]
    requires s'.nodes[a].disk == WriteByte(s.nodes[a].disk, Offset(f) + |s.nodes[a].Stored(f)|, b)
    ensures Follows(s0, s', a, schedule + [f])
  {
    var stores := StoresAt(s.nodes[a]);
    StoresAtNext(s.nodes[a], s'.nodes[a], f, b);
    GrowOne(s0.nodes[a].disk, stores, schedule, s.nodes[a].disk, f, b);
  }

  /** In every run the disk of a node is what some schedule of the byte writes of its stores
      makes of its first contents. */
  lemma {:induction false} DiskFollowsSchedule(source: bytes, s0: Swarm, labels: seq<Label>, s: Swarm, a: nat)
    returns (schedule: seq<nat>)
    requires Reached(source, s0, labels, s) && a < |s.nodes|
    ensures Follows(s0, s, a, schedule)
  {
    if labels == [] {
      schedule := [];
      assert AllOf(StoresAt(s.nodes[a])) == seq(|StoresAt(s.nodes[a])|, _ => 0);
    } else {
      var m := |labels| - 1;
      var r := Run(|source|, s0, labels[..m]).value;
      ReachedInv(source, s0, labels[..m], r);
      StepMonotone(source, r, labels[m], s);
      schedule := DiskFollowsSchedule(source, s0, labels[..m], r, a);
      if Writes(r, labels[m], a) {
        schedule := WriteStep(source, s0, r, labels[m], s, a, schedule);
      } else {
        NoWrite(|source|, r, labels[m], s, a);
        assert StoresAt(s.nodes[a]) == StoresAt(r.nodes[a]);
      }
    }
  }

  lemma DiskPartial(source: bytes, s0: Swarm, labels: seq<Label>, s: Swarm, a: nat)
    requires Reached(source, s0, labels, s) && a < |s.nodes|
    ensures a < |s0.nodes| && StoresOk(StoresAt(s.nodes[a]))
    ensures var stores := StoresAt(s.nodes[a]);
      Partial(s0.nodes[a].disk, stores, AllOf(stores), s.nodes[a].disk)
  {
    ReachedInv(source, s0, labels, s);
    StoresAtOk(source, s.nodes[a]);
    var schedule := DiskFollowsSchedule(source, s0, labels, s, a);
    SchedulePartial(s0.nodes[a].disk, StoresAt(s.nodes[a]), schedule);
  }

  /** Concurrent stores are serialisable: in every reached state, whatever interleaving of
      byte writes led to it and whichever stores failed or still go on, the disk of a node is
      the one that storing what has been stored of each segment gives, one after the other,
      in any order. */
  lemma ConcurrentStoresSerialise(source: bytes, s0: Swarm, labels: seq<Label>, s: Swarm, a: nat, order: seq<nat>)
    requires Reached(source, s0, labels, s) && a < |s.nodes| && IsOrder(StoresAt(s.nodes[a]), order)
    ensures a < |s0.nodes|
    ensures s.nodes[a].disk == RunInOrder(s0.nodes[a].disk, StoresAt(s.nodes[a]), order)
  {
    ReachedInv(source, s0, labels, s);
    StoresAtOk(source, s.nodes[a]);
    var schedule := DiskFollowsSchedule(source, s0, labels, s, a);
    StoresSerialise(s0.nodes[a].disk, StoresAt(s.nodes[a]), schedule, order);
  }

  // ---------- byte by byte ----------

  /** In every reached state each byte of a disk is the source's as far as its segment came
      through, and 0 from there on; a segment of which nothing was stored is as it was at
      first; and the file has grown by what the last segment's store wrote past its end. */
  lemma DiskExactly(source: bytes, s0: Swarm, labels: seq<Label>, s: Swarm, a: nat)
    requires Reached(source, s0, labels, s) && a < |s.nodes|
    ensures a < |s0.nodes|
    ensures forall p: nat ::
      ByteAt(s.nodes[a].disk, p) ==
      if p < Offset(p / SEGMENT_SIZE) + s.nodes[a].Through(p / SEGMENT_SIZE) then ByteAt(source, p) else 0
    ensures forall p: nat | s.nodes[a].Stored(p / SEGMENT_SIZE) == [] ::
      ByteAt(s.nodes[a].disk, p) == ByteAt(s0.nodes[a].disk, p)
    ensures var n := SegmentCount(|source|);
      var end := if n == 0 || s.nodes[a].Stored(n - 1) == [] then 0 else Offset(n - 1) + |s.nodes[a].Stored(n - 1)|;
      |s.nodes[a].disk| == if end > |source| then end else |source|
  {
    ReachedInv(source, s0, labels, s);
    var n := s.nodes[a];
    assert NodeOk(source, n);
    DiskPartial(source, s0, labels, s, a);
    forall p: nat
      ensures ByteAt(n.disk, p) ==
        if p < Offset(p / SEGMENT_SIZE) + n.Through(p / SEGMENT_SIZE) then ByteAt(source, p) else 0
    {
      ByteThrough(source, n, p);
    }
    forall p: nat | n.Stored(p / SEGMENT_SIZE) == []
      ensures ByteAt(n.disk, p) == ByteAt(s0.nodes[a].disk, p)
    {
      NotCovered(n, p);
    }
    PartialLength(source, s0.nodes[a].disk, n);
  }

  lemma ByteThrough(source: bytes, n: Node, p: nat)
    requires NodeOk(source, n)
    ensures ByteAt(n.disk, p) ==
      if p < Offset(p / SEGMENT_SIZE) + n.Through(p / SEGMENT_SIZE) then ByteAt(source, p) else 0
  {
    var f := p / SEGMENT_SIZE;
    assert InSegment(f, p);
    if f < |n.file.states| {
      assert SegmentOk(source, n, f);
    } else {
      assert p >= |n.disk| >= |source|;
    }
  }

  lemma NotCovered(n: Node, p: nat)
    requires StoresOk(StoresAt(n)) && n.Stored(p / SEGMENT_SIZE) == []
    ensures !Covered(StoresAt(n), AllOf(StoresAt(n)), p)
  {
    var stores := StoresAt(n);
    forall t: nat | t < |stores|
      ensures !(Pos(stores[t], 0) <= p < Pos(stores[t], AllOf(stores)[t]))
    {
      assert |stores[t].data| <= SEGMENT_SIZE;
    }
  }

  lemma PartialLength(source: bytes, d: bytes, n: Node)
    requires NodeOk(source, n) && |d| == |source| && StoresOk(StoresAt(n))
    requires Partial(d, StoresAt(n), AllOf(StoresAt(n)), n.disk)
    ensures var last := SegmentCount(|source|) - 1;
      var end := if last < 0 || n.Stored(last) == [] then 0 else Offset(last) + |n.Stored(last)|;
      |n.disk| == if end > |source| then end else |source|
  {
    var stores, last := StoresAt(n), SegmentCount(|source|) - 1;
    CountIsCeiling(|source|, last + 1);
    if last >= 0 && n.Stored(last) != [] {
      assert Pos(stores[last], |n.Stored(last)| - 1) < |n.disk|;
    }
    if |n.disk| > |d| {
      var t: nat :| t < |stores| && Pos(stores[t], 0) <= |n.disk| - 1 < Pos(stores[t], AllOf(stores)[t]);
      assert |stores[t].data| <= SEGMENT_SIZE;
      assert t == last;
    }
  }

  // ---------- whole blocks ----------

  /** No store goes on at node `a`. */
  predicate Quiet(s: Swarm, a: nat) {
    forall i: nat | i < |s.workers| && s.workers[i].owner == a :: !s.workers[i].pc.Storing?
  }

  /** Segment f of node a was downloaded. */
  ghost predicate Gained(s0: Swarm, s: Swarm, a: nat, f: nat) {
    CompleteAt(s, a, f) && !CompleteAt(s0, a, f)
  }

  /** Of a segment that was COMPLETE at first nothing is stored, of a downloaded one everything,
      unless its store has failed. */
  ghost predicate StoredOk(s0: Swarm, s: Swarm, a: nat) {
    forall f: nat | CompleteAt(s, a, f) ::
      && (CompleteAt(s0, a, f) ==> s.nodes[a].Stored(f) == [])
      && (!CompleteAt(s0, a, f) && f !in s.nodes[a].unstored ==> |s.nodes[a].Stored(f)| == SEGMENT_SIZE)
  }

  lemma StoredStays(source: bytes, s: Swarm, l: Label, s': Swarm, a: nat, f: nat)
    requires Inv(source, s) && Step(|source|, s, l) == Some(s') && CompleteAt(s, a, f)
    ensures a < |s'.nodes| && s'.nodes[a].Stored(f) == s.nodes[a].Stored(f)
    ensures s.nodes[a].unstored <= s'.nodes[a].unstored
  {
    if l.Work? {
      assert ClaimOk(s.nodes, s.workers[l.i]);
    }
  }

  lemma MarkedStored(source: bytes, s: Swarm, l: Label, s': Swarm, a: nat, f: nat)
    requires Inv(source, s) && Step(|source|, s, l) == Some(s')
    requires a < |s.nodes| && f < |s.nodes[a].file.states| && s.nodes[a].file.states[f] != COMPLETE
    requires a < |s'.nodes| && f < |s'.nodes[a].file.states| && s'.nodes[a].file.states[f] == COMPLETE
    ensures f !in s'.nodes[a].unstored ==> |s'.nodes[a].Stored(f)| == SEGMENT_SIZE
  {
    MarkStep(source, s, l, s', a, f);
    assert WorkerOk(source, s.nodes, s.workers[l.i]);
  }

  lemma {:induction false} RunStored(source: bytes, s0: Swarm, labels: seq<Label>, s: Swarm, a: nat)
    requires Reached(source, s0, labels, s)
    ensures StoredOk(s0, s, a)
  {
    if labels != [] {
      var m := |labels| - 1;
      var r := Run(|source|, s0, labels[..m]).value;
      ReachedInv(source, s0, labels[..m], r);
      StepMonotone(source, r, labels[m], s);
      RunStored(source, s0, labels[..m], r, a);
      InitInv(source, s0);
      forall f: nat | CompleteAt(s, a, f)
        ensures CompleteAt(s0, a, f) ==> s.nodes[a].Stored(f) == []
        ensures !CompleteAt(s0, a, f) && f !in s.nodes[a].unstored ==> |s.nodes[a].Stored(f)| == SEGMENT_SIZE
      {
        if CompleteAt(r, a, f) {
          StoredStays(source, r, labels[m], s, a, f);
        } else {
          if CompleteAt(s0, a, f) {
            CompleteStays(source, s0, labels[..m], r, a, f);
          }
          SameCount(source, s0, labels[..m], r, labels[m], s, a);
          MarkedStored(source, r, labels[m], s, a, f);
        }
      }
    }
  }

  lemma SameCount(source: bytes, s0: Swarm, labels: seq<Label>, r: Swarm, l: Label, s: Swarm, a: nat)
    requires Reached(source, s0, labels, r) && Step(|source|, r, l) == Some(s) && a < |s.nodes|
    ensures a < |r.nodes| && |r.nodes[a].file.states| == |s.nodes[a].file.states|
  {
    ReachedInv(source, s0, labels, r);
    StepInv(source, r, l, s);
    StepMonotone(source, r, l, s);
    assert NodeOk(source, r.nodes[a]) && NodeOk(source, s.nodes[a]);
  }

  /** `order` names the downloaded segments, and none twice. */
  ghost predicate ListsGained(s0: Swarm, s: Swarm, a: nat, order: seq<nat>) {
    && (forall f: nat :: f in order <==> Gained(s0, s, a, f))
    && NoRepeats(order)
  }

  lemma QuietStored(source: bytes, s0: Swarm, labels: seq<Label>, s: Swarm, a: nat, f: nat)
    requires Reached(source, s0, labels, s) && a < |s.nodes| && f < |s.nodes[a].file.states| && Quiet(s, a)
    ensures !Gained(s0, s, a, f) ==> s.nodes[a].Stored(f) == []
    ensures Gained(s0, s, a, f) && f !in Spoiled(s.nodes) ==> s.nodes[a].Stored(f) == Block(source, f)
  {
    ReachedInv(source, s0, labels, s);
    RunStored(source, s0, labels, s, a);
    assert NodeOk(source, s.nodes[a]) && SegmentOk(source, s.nodes[a], f);
    if s.nodes[a].file.states[f] == DOWNLOADING {
      assert SomeHolder(s, a, f);
      var i: nat :| i < |s.workers| && Holds(s.workers[i], a, f);
      assert WorkerOk(source, s.nodes, s.workers[i]);
    }
    if Gained(s0, s, a, f) && f !in Spoiled(s.nodes) {
      assert f in s.nodes[a].unstored ==> f in Spoiled(s.nodes);
      ContentIntegrity(source, s0, labels, s);
      DiskPartial(source, s0, labels, s, a);
      StoredIsOnDisk(s0.nodes[a].disk, source, s.nodes[a], f);
    }
  }

  lemma StoredIsOnDisk(d: bytes, source: bytes, n: Node, f: nat)
    requires Partial(d, StoresAt(n), AllOf(StoresAt(n)), n.disk) && f < |n.file.states|
    requires |n.Stored(f)| == SEGMENT_SIZE && HoldsSegment(n.disk, source, f)
    ensures n.Stored(f) == Block(source, f)
  {
    var stores := StoresAt(n);
    forall j: nat | j < SEGMENT_SIZE
      ensures n.Stored(f)[j] == Block(source, f)[j]
    {
      assert n.disk[Pos(stores[f], j)] == stores[f].data[j];
      assert InSegment(f, Offset(f) + j);
      assert ByteAt(n.disk, Offset(f) + j) == ByteAt(source, Offset(f) + j);
    }
  }

  lemma {:induction false} OrderIsBlocks(d: bytes, source: bytes, stores: seq<Store>, order: seq<nat>)
    requires forall i: nat | i < |order| ::
      order[i] < |stores| && stores[order[i]] == Store(order[i], Block(source, order[i]))
    ensures RunInOrder(d, stores, order) == StoreBlocks(d, source, order)
  {
    if order != [] {
      var n := |order| - 1;
      OrderIsBlocks(d, source, stores, order[..n]);
      RunInOrderLast(d, stores, order);
    }
  }

  lemma RunInOrderLast(d: bytes, stores: seq<Store>, order: seq<nat>)
    requires order != [] && order[|order| - 1] < |stores|
    ensures var n := |order| - 1;
      var st := stores[order[n]];
      RunInOrder(d, stores, order) == WriteAt(RunInOrder(d, stores, order[..n]), Offset(st.id), st.data)
  {
  }

  /** Whenever no store goes on at a node, and no store of a segment that it has downloaded has
      failed, its disk is the one that storing the source's blocks of these segments gives,
      one after the other, in any order. */
  lemma DownloadedBlocks(source: bytes, s0: Swarm, labels: seq<Label>, s: Swarm, a: nat, order: seq<nat>)
    requires Reached(source, s0, labels, s) && a < |s.nodes| && Quiet(s, a) && ListsGained(s0, s, a, order)
    requires forall i: nat | i < |order| :: order[i] !in Spoiled(s.nodes)
    ensures a < |s0.nodes|
    ensures s.nodes[a].disk == StoreBlocks(s0.nodes[a].disk, source, order)
  {
    var n, stores := s.nodes[a], StoresAt(s.nodes[a]);
    DiskPartial(source, s0, labels, s, a);
    forall i: nat | i < |order|
      ensures order[i] < |stores| && stores[order[i]] == Store(order[i], Block(source, order[i]))
    {
      assert order[i] in order && Gained(s0, s, a, order[i]);
      QuietStored(source, s0, labels, s, a, order[i]);
    }
    forall t: nat | t < |stores|
      ensures t !in order ==> stores[t].data == []
    {
      QuietStored(source, s0, labels, s, a, t);
    }
    OrderPartial(s0.nodes[a].disk, stores, order);
    assert OrderProgress(stores, order) == AllOf(stores);
    PartialUnique(s0.nodes[a].disk, stores, AllOf(stores), n.disk, RunInOrder(s0.nodes[a].disk, stores, order));
    OrderIsBlocks(s0.nodes[a].disk, source, stores, order);
  }

  // ---------- failing stores ----------

  /** A store that fails after `written` bytes, and the mark that follows it. */
  lemma FailThenMark(source: bytes, s: Swarm, i: nat) returns (s1: Swarm, s2: Swarm)
    requires Inv(source, s) && i < |s.workers| && s.workers[i].pc.Storing?
    requires s.workers[i].pc.written < SEGMENT_SIZE
    ensures var w := s.workers[i];
      && w.pc.k < |w.list| && w.owner < |s.nodes| && w.peer < |s.nodes| && |s2.nodes| == |s.nodes|
      && Step(|source|, s, Work(i, Fails)) == Some(s1)
      && Step(|source|, s1, Work(i, Works([]))) == Some(s2)
      && var f := w.list[w.pc.k];
      && CompleteAt(s2, w.owner, f)
      && s2.nodes[w.owner].disk == s.nodes[w.owner].disk
      && f in s2.nodes[w.owner].unstored
      && s2.nodes[w.owner].file == s.nodes[w.owner].file.Set(f, COMPLETE)
      && s2.nodes[w.owner].Through(f) == Min(w.pc.written, s.nodes[w.peer].Through(f))
  {
    var w := s.workers[i];
    assert WorkerOk(source, s.nodes, w) && ClaimOk(s.nodes, w);
    s1 := Step(|source|, s, Work(i, Fails)).value;
    s2 := Step(|source|, s1, Work(i, Works([]))).value;
  }

  /** A store that fails marks its segment COMPLETE all the same, in every reached state. The
      segment then has its block on disk exactly if the source has only zeros after the bytes
      that were written, or after those that the peer has, whichever are fewer. */
  lemma FailedStoreHarmlessExactly(source: bytes, s0: Swarm, labels: seq<Label>, s: Swarm, i: nat)
    returns (s1: Swarm, s2: Swarm)
    requires Reached(source, s0, labels, s)
    requires i < |s.workers| && s.workers[i].pc.Storing? && s.workers[i].pc.written < SEGMENT_SIZE
    ensures Reached(source, s0, labels + [Work(i, Fails), Work(i, Works([]))], s2)
    ensures var w := s.workers[i];
      && w.pc.k < |w.list| && w.owner < |s2.nodes| && w.peer < |s.nodes|
      && var f := w.list[w.pc.k];
      && CompleteAt(s2, w.owner, f)
      && f in Spoiled(s2.nodes)
      && (HoldsSegment(s2.nodes[w.owner].disk, source, f) <==>
          ZeroFrom(source, f, Min(w.pc.written, s.nodes[w.peer].Through(f))))
  {
    ReachedInv(source, s0, labels, s);
    s1, s2 := FailThenMark(source, s, i);
    var ls := labels + [Work(i, Fails)];
    assert ls[..|labels|] == labels;
    assert labels + [Work(i, Fails), Work(i, Works([]))] == ls + [Work(i, Works([]))];
    assert (ls + [Work(i, Works([]))])[..|ls|] == ls;
    ContentExactly(source, s0, ls + [Work(i, Works([]))], s2);
  }

  // ---------- a run with a failing store ----------

  /** What follows when worker i takes one more step that the environment lets succeed. */
  lemma Then(size: nat, s0: Swarm, labels: seq<Label>, s: Swarm, i: nat, s': Swarm)
    returns (labels': seq<Label>)
    requires Run(size, s0, labels) == Some(s) && Step(size, s, Work(i, Works([]))) == Some(s')
    ensures Run(size, s0, labels') == Some(s')
  {
    labels' := labels + [Work(i, Works([]))];
    assert labels'[..|labels|] == labels;
  }

  /** One worker of node 1 that asks node 0 for the only segment. */
  function OneWorker(source: bytes, state: SegmentState, pc: Pc): Swarm {
    Swarm([Node(Table([COMPLETE], false), source, {}, {}, map[], map[0 := SEGMENT_SIZE]),
           Node(Table([state], false), Zeros(|source|), {}, {}, map[], map[])],
          [Worker(1, 0, if pc.Connecting? || pc == Listing(0) then [] else [0], pc)])
  }

  lemma Spawned(source: bytes) returns (s0: Swarm, labels: seq<Label>)
    requires 0 < |source| <= SEGMENT_SIZE
    ensures Init(source, s0) && |s0.nodes| == 2 && Leecher(source, s0.nodes[1])
    ensures Run(|source|, s0, labels) == Some(OneWorker(source, FREE, Connecting))
  {
    s0 := OneWorker(source, FREE, Connecting).(workers := []);
    labels := [Spawn(1, 0)];
    assert labels[..0] == [];
    assert Run(|source|, s0, []) == Some(s0);
    assert s0.workers + [Worker(1, 0, [], Connecting)] == OneWorker(source, FREE, Connecting).workers;
  }

  predicate Goes(source: bytes, state: SegmentState, pc: Pc, state': SegmentState, pc': Pc) {
    var s, s' := OneWorker(source, state, pc), OneWorker(source, state', pc');
    WorkerStep(|source|, s.nodes[1], s.nodes[0], s.workers[0], Works([])) == Some((s'.nodes[1], s'.workers[0]))
  }

  lemma ThenPc(source: bytes, s0: Swarm, labels: seq<Label>, state: SegmentState, pc: Pc, state': SegmentState, pc': Pc)
    returns (labels': seq<Label>)
    requires Run(|source|, s0, labels) == Some(OneWorker(source, state, pc))
    requires Goes(source, state, pc, state', pc')
    ensures Run(|source|, s0, labels') == Some(OneWorker(source, state', pc'))
  {
    var s, s' := OneWorker(source, state, pc), OneWorker(source, state', pc');
    assert s.nodes[1 := s'.nodes[1]] == s'.nodes && s.workers[0 := s'.workers[0]] == s'.workers;
    labels' := Then(|source|, s0, labels, s, 0, s');
  }

  /** The steps from connecting to the claim. */
  lemma FirstSteps(source: bytes)
    requires 0 < |source| <= SEGMENT_SIZE
    ensures Goes(source, FREE, Connecting, FREE, Listing(0))
    ensures Goes(source, FREE, Listing(0), FREE, Listing(1))
    ensures Goes(source, FREE, Listing(1), FREE, AtFragment(0))
    ensures Goes(source, FREE, AtFragment(0), DOWNLOADING, Claimed(0))
  {
    var none: seq<nat> := [];
    assert none + [0] == [0];
    assert [FREE][0 := DOWNLOADING] == [DOWNLOADING];
  }

  lemma ToClaimed(source: bytes) returns (s0: Swarm, labels: seq<Label>)
    requires 0 < |source| <= SEGMENT_SIZE
    ensures Init(source, s0) && |s0.nodes| == 2 && Leecher(source, s0.nodes[1])
    ensures Run(|source|, s0, labels) == Some(OneWorker(source, DOWNLOADING, Claimed(0)))
  {
    FirstSteps(source);
    s0, labels := Spawned(source);
    labels := ThenPc(source, s0, labels, FREE, Connecting, FREE, Listing(0));
    labels := ThenPc(source, s0, labels, FREE, Listing(0), FREE, Listing(1));
    labels := ThenPc(source, s0, labels, FREE, Listing(1), FREE, AtFragment(0));
    labels := ThenPc(source, s0, labels, FREE, AtFragment(0), DOWNLOADING, Claimed(0));
  }

  lemma OneByte(source: bytes, n: nat)
    requires 0 < |source| <= SEGMENT_SIZE && n < SEGMENT_SIZE
    ensures var b := Block(source, 0);
      Goes(source, DOWNLOADING, Replying(0, b[..n]), DOWNLOADING, Replying(0, b[..n + 1]))
  {
    var b := Block(source, 0);
    assert b[..n + 1] == b[..n] + [b[n]];
    assert b[n] == if n < |source| then source[n] else 0;
  }

  lemma {:induction false} ToReplying(source: bytes, n: nat) returns (s0: Swarm, labels: seq<Label>)
    requires 0 < |source| <= SEGMENT_SIZE && n <= SEGMENT_SIZE
    ensures Init(source, s0) && |s0.nodes| == 2 && Leecher(source, s0.nodes[1])
    ensures Run(|source|, s0, labels) == Some(OneWorker(source, DOWNLOADING, Replying(0, Block(source, 0)[..n])))
  {
    var b := Block(source, 0);
    if n == 0 {
      s0, labels := ToClaimed(source);
      assert b[..0] == [];
      labels := ThenPc(source, s0, labels, DOWNLOADING, Claimed(0), DOWNLOADING, Replying(0, []));
    } else {
      s0, labels := ToReplying(source, n - 1);
      OneByte(source, n - 1);
      labels := ThenPc(source, s0, labels, DOWNLOADING, Replying(0, b[..n - 1]), DOWNLOADING, Replying(0, b[..n]));
    }
  }

  /** As the code is, a node can report a file complete of which it has stored nothing: the
      only segment of a file of at most 8000 bytes is requested and received, the local
      file does not open, and the segment is marked COMPLETE. */
  lemma FailedStoreTrace(source: bytes) returns (s0: Swarm, labels: seq<Label>, s: Swarm)
    requires 0 < |source| <= SEGMENT_SIZE
    ensures Reached(source, s0, labels, s)
    ensures |s.nodes| == 2 && s.nodes[1].file.Poll().isCompleted
    ensures s.nodes[1].disk == Zeros(|source|)
  {
    s0, labels := ToReplying(source, SEGMENT_SIZE);
    var b := Block(source, 0);
    assert b[..SEGMENT_SIZE] == b;
    labels := ThenPc(source, s0, labels, DOWNLOADING, Replying(0, b), DOWNLOADING, Storing(0, b, 0));
    var r := OneWorker(source, DOWNLOADING, Storing(0, b, 0));
    ReachedInv(source, s0, labels, r);
    var s1, s2 := FailThenMark(source, r, 0);
    var ls := labels + [Work(0, Fails)];
    assert ls[..|labels|] == labels;
    labels := Then(|source|, s0, ls, s1, 0, s2);
    s := s2;
    assert s.nodes[1].file.states == [COMPLETE];
  }
}
