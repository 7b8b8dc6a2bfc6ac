/** How runs of the swarm end: every worker comes to an end, and what a node then has
    is determined by the lists its workers received and by the errors. */
module SwarmOutcome {
  import opened Common
  import opened Blocks
  import opened SegmentTable
  import opened Swarm
  import opened SwarmSafety

  /** Steps one list entry can take: claim, request, 8000 bytes read, delivery, 8000
      bytes stored, mark. */
  const ENTRY_STEPS: nat := 16004

  /** An upper bound on the steps that worker `w` still takes, with n segments. */
  function Left(n: nat, w: Worker): int {
    match w.pc
    case Connecting => n * ENTRY_STEPS + n + 3
    case Listing(next) => (|w.list| + n - next) * ENTRY_STEPS + (n - next) + 2
    case AtFragment(k) => (|w.list| - k) * ENTRY_STEPS + 1
    case Claimed(k) => (|w.list| - k) * ENTRY_STEPS
    case Replying(k, buffer) => (|w.list| - k) * ENTRY_STEPS - 1 - |buffer|
    case Storing(k, data, written) => (|w.list| - k - 1) * ENTRY_STEPS + 2 + |data| - written
    case Failed(k) => (|w.list| - k - 1) * ENTRY_STEPS + 2
    case Done => 0
  }

  function TotalLeft(n: nat, ws: seq<Worker>): int {
    if ws == [] then 0 else TotalLeft(n, ws[..|ws| - 1]) + Left(n, ws[|ws| - 1])
  }

  lemma {:induction false} TotalUpdate(n: nat, ws: seq<Worker>, i: nat, w: Worker)
    requires i < |ws|
    ensures TotalLeft(n, ws[i := w]) == TotalLeft(n, ws) - Left(n, ws[i]) + Left(n, w)
  {
    var m := |ws| - 1;
    if i == m {
      assert ws[i := w][..m] == ws[..m];
    } else {
      TotalUpdate(n, ws[..m], i, w);
      assert ws[i := w][..m] == ws[..m][i := w];
    }
  }

  lemma {:induction false} TotalNonNegative(source: bytes, s: Swarm, m: nat)
    requires Inv(source, s) && m <= |s.workers|
    ensures TotalLeft(SegmentCount(|source|), s.workers[..m]) >= 0
  {
    if m > 0 {
      TotalNonNegative(source, s, m - 1);
      assert s.workers[..m][..m - 1] == s.workers[..m - 1];
      assert WorkerOk(source, s.nodes, s.workers[m - 1]);
    }
  }

  lemma LeftDecreases(size: nat, n: nat, o: Node, p: Node, w: Worker, env: Env)
    requires |p.file.states| == n && |w.list| <= n
    requires w.pc.Connecting? ==> w.list == []
    requires w.pc.Listing? ==> w.pc.next <= n
    requires w.pc.AtFragment? ==> w.pc.k <= |w.list|
    requires w.pc.Storing? ==> w.pc.written <= |w.pc.data|
    requires w.pc.Replying? ==> |w.pc.buffer| <= SEGMENT_SIZE
    requires WorkerStep(size, o, p, w, env).Some?
    ensures Left(n, WorkerStep(size, o, p, w, env).value.1) + 1 <= Left(n, w)
  {
  }

  /** Every worker step uses up at least one unit of its bound. */
  lemma WorkUsesUp(source: bytes, s: Swarm, i: nat, env: Env, s': Swarm)
    requires Inv(source, s) && Step(|source|, s, Work(i, env)) == Some(s')
    ensures var n := SegmentCount(|source|);
      TotalLeft(n, s'.workers) + 1 <= TotalLeft(n, s.workers)
  {
    var n := SegmentCount(|source|);
    var w := s.workers[i];
    assert WorkerOk(source, s.nodes, w);
    assert NodeOk(source, s.nodes[w.peer]);
    LeftDecreases(|source|, n, s.nodes[w.owner], s.nodes[w.peer], w, env);
    TotalUpdate(n, s.workers, i, s'.workers[i]);
  }

  function CountWork(labels: seq<Label>): nat {
    if labels == [] then 0
    else CountWork(labels[..|labels| - 1]) + if labels[|labels| - 1].Work? then 1 else 0
  }

  function CountSpawn(labels: seq<Label>): nat {
    if labels == [] then 0
    else CountSpawn(labels[..|labels| - 1]) + if labels[|labels| - 1].Spawn? then 1 else 0
  }

  /** Left of a worker that has not begun. */
  function Fresh(n: nat): nat {
    n * (ENTRY_STEPS + 1) + 3
  }

  lemma TotalAppend(n: nat, ws: seq<Worker>, w: Worker)
    requires w.pc.Connecting?
    ensures TotalLeft(n, ws + [w]) == TotalLeft(n, ws) + Fresh(n)
  {
    assert (ws + [w])[..|ws|] == ws;
  }

  lemma OneMore(c: nat, b: nat)
    ensures (c + 1) * b == c * b + b
  {
  }

  lemma SpawnBudget(labels: seq<Label>, b: nat)
    requires labels != []
    ensures var m := |labels| - 1;
      CountSpawn(labels) * b == CountSpawn(labels[..m]) * b + if labels[m].Spawn? then b else 0
  {
    var before := CountSpawn(labels[..|labels| - 1]);
    if labels[|labels| - 1].Spawn? {
      assert CountSpawn(labels) == before + 1;
      OneMore(before, b);
    } else {
      assert CountSpawn(labels) == before;
    }
  }

  /** Termination of every schedule: whatever the interleaving and the network do, the
      workers of a run from an initial state take at most n * 16005 + 3 steps each. */
  lemma {:induction false} EveryScheduleEnds(source: bytes, s0: Swarm, labels: seq<Label>, s: Swarm)
    requires Reached(source, s0, labels, s)
    ensures var n := SegmentCount(|source|);
      CountWork(labels) + TotalLeft(n, s.workers) <= CountSpawn(labels) * Fresh(n)
    ensures TotalLeft(SegmentCount(|source|), s.workers) >= 0
  {
    var n := SegmentCount(|source|);
    ReachedTotal(source, s0, labels, s);
    if labels != [] {
      var m := |labels| - 1;
      var r := Run(|source|, s0, labels[..m]).value;
      EveryScheduleEnds(source, s0, labels[..m], r);
      ReachedInv(source, s0, labels[..m], r);
      BoundStep(source, r, labels[m], s);
      SpawnBudget(labels, Fresh(n));
    }
  }

  lemma ReachedTotal(source: bytes, s0: Swarm, labels: seq<Label>, s: Swarm)
    requires Reached(source, s0, labels, s)
    ensures TotalLeft(SegmentCount(|source|), s.workers) >= 0
  {
    ReachedInv(source, s0, labels, s);
    assert s.workers[..|s.workers|] == s.workers;
    TotalNonNegative(source, s, |s.workers|);
  }

  lemma BoundStep(source: bytes, r: Swarm, l: Label, s: Swarm)
    requires Inv(source, r) && Step(|source|, r, l) == Some(s)
    ensures var n := SegmentCount(|source|);
      TotalLeft(n, s.workers) + (if l.Work? then 1 else 0) <=
      TotalLeft(n, r.workers) + if l.Spawn? then Fresh(n) else 0
  {
    match l
    case Work(i, env) => WorkUsesUp(source, r, i, env, s);
    case Poll(_) =>
    case Spawn(owner, peer) =>
      TotalAppend(SegmentCount(|source|), r.workers, Worker(owner, peer, [], Connecting));
  }

  // ---------- the outcome ----------

  predicate AllDone(s: Swarm) {
    forall i: nat | i < |s.workers| :: s.workers[i].pc.Done?
  }

  /** Worker `w` of node `a` has received a list that names segment f. */
  predicate Names(w: Worker, a: nat, f: nat) {
    w.owner == a && f in w.list && !w.pc.Connecting? && !w.pc.Listing?
  }

  ghost predicate Named(s: Swarm, a: nat, f: nat) {
    exists i: nat :: i < |s.workers| && Names(s.workers[i], a, f)
  }

  ghost predicate CompleteAt(s: Swarm, a: nat, f: nat) {
    a < |s.nodes| && f < |s.nodes[a].file.states| && s.nodes[a].file.states[f] == COMPLETE
  }

  /** A worker changes its list only while it is listing, and makes a segment COMPLETE only
      where it stores. */
  lemma WorkerStepShape(size: nat, o: Node, p: Node, w: Worker, env: Env)
    requires WorkerStep(size, o, p, w, env).Some?
    ensures var (m, v) := WorkerStep(size, o, p, w, env).value;
      && v.owner == w.owner
      && (!w.pc.Connecting? && !w.pc.Listing? ==> v.list == w.list && !v.pc.Connecting? && !v.pc.Listing?)
      && |m.file.states| == |o.file.states|
      && forall f: nat | f < |o.file.states| && m.file.states[f] == COMPLETE ::
           o.file.states[f] == COMPLETE || (w.pc.Storing? && f in w.list)
  {
  }

  lemma StepExplained(source: bytes, s: Swarm, l: Label, s': Swarm, a: nat, f: nat)
    requires Inv(source, s) && Step(|source|, s, l) == Some(s')
    ensures Named(s, a, f) ==> Named(s', a, f)
    ensures CompleteAt(s', a, f) ==> CompleteAt(s, a, f) || Named(s', a, f)
  {
    if l.Work? {
      var w := s.workers[l.i];
      WorkerStepShape(|source|, s.nodes[w.owner], s.nodes[w.peer], w, l.env);
    }
    if Named(s, a, f) {
      var j: nat :| j < |s.workers| && Names(s.workers[j], a, f);
      assert Names(s'.workers[j], a, f);
    }
    if CompleteAt(s', a, f) && !CompleteAt(s, a, f) && l.Work? {
      assert Names(s'.workers[l.i], a, f);
    }
  }

  /** A segment that became COMPLETE was named by a list of one of the node's workers. */
  lemma {:induction false} CompleteExplained(source: bytes, s0: Swarm, labels: seq<Label>, s: Swarm, a: nat, f: nat)
    requires Reached(source, s0, labels, s)
    ensures CompleteAt(s, a, f) ==> CompleteAt(s0, a, f) || Named(s, a, f)
  {
    if labels != [] {
      var m := |labels| - 1;
      var r := Run(|source|, s0, labels[..m]).value;
      CompleteExplained(source, s0, labels[..m], r, a, f);
      ReachedInv(source, s0, labels[..m], r);
      StepExplained(source, r, labels[m], s, a, f);
    }
  }

  /** The exact outcome when all workers are done: nothing is DOWNLOADING; a segment that
      a list named is COMPLETE unless a download of it failed; and where a node saw no
      error, its COMPLETE segments are the initial ones and the named ones, no others. */
  lemma Outcome(source: bytes, s0: Swarm, labels: seq<Label>, s: Swarm, a: nat, f: nat)
    requires Reached(source, s0, labels, s) && AllDone(s)
    requires a < |s.nodes| && f < |s.nodes[a].file.states|
    ensures s.nodes[a].file.states[f] != DOWNLOADING
    ensures Named(s, a, f) ==> CompleteAt(s, a, f) || f in s.nodes[a].errors
    ensures f !in s.nodes[a].errors ==> (CompleteAt(s, a, f) <==> CompleteAt(s0, a, f) || Named(s, a, f))
  {
    ReachedInv(source, s0, labels, s);
    CompleteExplained(source, s0, labels, s, a, f);
    assert s.nodes[a].file.states[f] == DOWNLOADING ==> SomeHolder(s, a, f);
    if Named(s, a, f) {
      var i: nat :| i < |s.workers| && Names(s.workers[i], a, f);
      var j: nat :| j < |s.workers[i].list| && s.workers[i].list[j] == f;
      assert Settled(s.nodes[a], s.workers[i]);
    }
    if CompleteAt(s0, a, f) {
      InitInv(source, s0);
      CompleteStays(source, s0, labels, s, a, f);
    }
  }

  /** So when the lists cover the file and no download of the node failed, its file is
      complete. It is the source exactly if what did not come through is zeros, and so it
      is when no store failed. */
  lemma CoveredMeansDownloaded(source: bytes, s0: Swarm, labels: seq<Label>, s: Swarm, a: nat)
    requires Reached(source, s0, labels, s) && AllDone(s) && a < |s.nodes|
    requires s.nodes[a].errors == {}
    requires forall f: nat | f < SegmentCount(|source|) :: CompleteAt(s0, a, f) || Named(s, a, f)
    ensures s.nodes[a].file.AllComplete()
    ensures |s.nodes[a].disk| >= |source|
    ensures s.nodes[a].disk[..|source|] == source <==>
      forall f: nat | f < SegmentCount(|source|) :: ZeroFrom(source, f, s.nodes[a].Through(f))
    ensures Spoiled(s.nodes) == {} ==> s.nodes[a].disk[..|source|] == source
  {
    ReachedInv(source, s0, labels, s);
    forall f: nat | f < |s.nodes[a].file.states|
      ensures s.nodes[a].file.states[f] == COMPLETE
    {
      assert CompleteAt(s0, a, f) || Named(s, a, f);
      Outcome(source, s0, labels, s, a, f);
    }
    LatchAgrees(source, s0, labels, s, a);
  }

  // ---------- every run can be finished ----------

  /** From a reached state the running workers can be scheduled to their end, in at most
      as many steps as their bound says; a network that delivers and a disk that can be
      written add no error. */
  lemma {:induction false} CanFinish(source: bytes, s0: Swarm, labels: seq<Label>, s: Swarm)
    returns (more: seq<Label>, s': Swarm)
    requires Reached(source, s0, labels, s)
    ensures labels <= more && Reached(source, s0, more, s') && AllDone(s')
    ensures |more| - |labels| <= TotalLeft(SegmentCount(|source|), s.workers)
    ensures |s'.nodes| == |s.nodes|
    ensures forall a: nat | a < |s.nodes| :: s'.nodes[a].errors == s.nodes[a].errors
    ensures Spoiled(s'.nodes) == Spoiled(s.nodes)
    ensures forall a: nat, f: nat | CompleteAt(s, a, f) :: CompleteAt(s', a, f)
    decreases TotalLeft(SegmentCount(|source|), s.workers)
  {
    ReachedTotal(source, s0, labels, s);
    if AllDone(s) {
      return labels, s;
    }
    var i: nat :| i < |s.workers| && !s.workers[i].pc.Done?;
    var r := OneMoreStep(source, s0, labels, s, i);
    more, s' := CanFinish(source, s0, labels + [Work(i, Works([]))], r);
  }

  /** A worker that is not done takes a step and gets its message. */
  lemma OneMoreStep(source: bytes, s0: Swarm, labels: seq<Label>, s: Swarm, i: nat) returns (r: Swarm)
    requires Reached(source, s0, labels, s) && i < |s.workers| && !s.workers[i].pc.Done?
    ensures Step(|source|, s, Work(i, Works([]))) == Some(r)
    ensures Reached(source, s0, labels + [Work(i, Works([]))], r)
    ensures var n := SegmentCount(|source|); 0 <= TotalLeft(n, r.workers) < TotalLeft(n, s.workers)
    ensures |r.nodes| == |s.nodes|
    ensures forall a: nat | a < |s.nodes| :: r.nodes[a].errors == s.nodes[a].errors
    ensures Spoiled(r.nodes) == Spoiled(s.nodes)
    ensures forall a: nat, f: nat | CompleteAt(s, a, f) :: CompleteAt(r, a, f)
  {
    var l := Work(i, Works([]));
    ReachedInv(source, s0, labels, s);
    NeverStuck(source, s, i, Works([]));
    r := Step(|source|, s, l).value;
    assert (labels + [l])[..|labels|] == labels;
    WorkUsesUp(source, s, i, Works([]), r);
    ReachedTotal(source, s0, labels + [l], r);
    StepMonotone(source, s, l, r);
    NoNewErrors(|source|, s, i, r);
    SpoiledSame(|source|, s, i, [], r);
  }

  lemma NoNewErrors(size: nat, s: Swarm, i: nat, r: Swarm)
    requires Step(size, s, Work(i, Works([]))) == Some(r)
    ensures |r.nodes| == |s.nodes|
    ensures forall a: nat | a < |s.nodes| :: r.nodes[a].errors == s.nodes[a].errors
  {
  }

  /** Worker i runs alone, with a complete peer, and has brought home everything so far. */
  ghost predicate Solo(source: bytes, s: Swarm, i: nat) {
    && i < |s.workers|
    && (forall j: nat | j < |s.workers| && j != i :: s.workers[j].pc.Done?)
    && var w := s.workers[i];
    && w.owner < |s.nodes|
    && w.peer < |s.nodes|
    && s.nodes[w.peer].file.AllComplete()
    && !w.pc.Failed?
    && (w.pc.Listing? ==> forall f: nat | f < w.pc.next :: f in w.list)
    && (!w.pc.Connecting? && !w.pc.Listing? ==> forall f: nat | f < SegmentCount(|source|) :: f in w.list)
    && (forall j: nat | j < Behind(w) && j < |w.list| :: CompleteAt(s, w.owner, w.list[j]))
  }

  lemma SoloStep(source: bytes, s: Swarm, i: nat, s': Swarm)
    requires Inv(source, s) && Solo(source, s, i)
    requires Step(|source|, s, Work(i, Works([]))) == Some(s')
    ensures Solo(source, s', i)
    ensures s'.workers[i].owner == s.workers[i].owner
  {
    var w := s.workers[i];
    assert WorkerOk(source, s.nodes, w);
    assert NodeOk(source, s.nodes[w.peer]);
    if w.pc.Connecting? || w.pc.Listing? {
      SoloList(source, s.nodes[w.owner], s.nodes[w.peer], w);
    } else {
      SoloEntry(source, s, i, s');
    }
    SoloPeer(source, s, i, s');
    SoloBehind(source, s, i, s');
  }

  lemma SoloPeer(source: bytes, s: Swarm, i: nat, s': Swarm)
    requires Inv(source, s) && Solo(source, s, i)
    requires Step(|source|, s, Work(i, Works([]))) == Some(s')
    ensures |s'.nodes| == |s.nodes| && s'.nodes[s.workers[i].peer].file.AllComplete()
  {
    StepMonotone(source, s, Work(i, Works([])), s');
    var p := s.workers[i].peer;
    assert |s'.nodes[p].file.states| == |s.nodes[p].file.states|;
  }

  lemma SoloBehind(source: bytes, s: Swarm, i: nat, s': Swarm)
    requires Inv(source, s) && Solo(source, s, i)
    requires Step(|source|, s, Work(i, Works([]))) == Some(s')
    ensures var w := s'.workers[i];
      forall j: nat | j < Behind(w) && j < |w.list| :: CompleteAt(s', w.owner, w.list[j])
  {
    var w, v := s.workers[i], s'.workers[i];
    assert WorkerOk(source, s.nodes, w);
    if w.pc.Connecting? || w.pc.Listing? {
      assert NodeOk(source, s.nodes[w.peer]);
      SoloList(source, s.nodes[w.owner], s.nodes[w.peer], w);
      assert Behind(v) == 0;
    } else {
      SoloEntry(source, s, i, s');
      assert forall j: nat | j < Behind(w) && j < |w.list| :: CompleteAt(s', w.owner, w.list[j]) by {
        StillComplete(source, s, i, s');
      }
    }
  }

  lemma StillComplete(source: bytes, s: Swarm, i: nat, s': Swarm)
    requires Inv(source, s) && Solo(source, s, i)
    requires Step(|source|, s, Work(i, Works([]))) == Some(s')
    ensures var w := s.workers[i];
      forall j: nat | j < Behind(w) && j < |w.list| :: CompleteAt(s', w.owner, w.list[j])
  {
    var w := s.workers[i];
    StepMonotone(source, s, Work(i, Works([])), s');
    forall j: nat | j < Behind(w) && j < |w.list|
      ensures CompleteAt(s', w.owner, w.list[j])
    {
      assert CompleteAt(s, w.owner, w.list[j]);
    }
  }

  lemma SoloList(source: bytes, o: Node, p: Node, w: Worker)
    requires |p.file.states| == SegmentCount(|source|) && p.file.AllComplete()
    requires w.pc.Connecting? || w.pc.Listing?
    requires w.pc.Listing? ==> w.pc.next <= |p.file.states| && forall f: nat | f < w.pc.next :: f in w.list
    ensures var (m, v) := WorkerStep(|source|, o, p, w, Works([])).value;
      && m == o && v.owner == w.owner && v.peer == w.peer
      && (v.pc == AtFragment(0) || v.pc.Listing?)
      && forall f: nat | f < (if v.pc.Listing? then v.pc.next else SegmentCount(|source|)) :: f in v.list
  {
    if w.pc.Listing? && w.pc.next < |p.file.states| {
      assert p.file.states[w.pc.next] == COMPLETE;
    }
  }

  /** An entry that is left behind is COMPLETE: it was before, or the worker stored it. */
  lemma SoloEntry(source: bytes, s: Swarm, i: nat, s': Swarm)
    requires Inv(source, s) && Solo(source, s, i) && !s.workers[i].pc.Connecting? && !s.workers[i].pc.Listing?
    requires Step(|source|, s, Work(i, Works([]))) == Some(s')
    ensures var w, v := s.workers[i], s'.workers[i];
      && v.owner == w.owner && v.peer == w.peer && v.list == w.list
      && !v.pc.Failed? && !v.pc.Connecting? && !v.pc.Listing?
      && (Behind(v) == Behind(w)
          || (Behind(v) == Behind(w) + 1 && Behind(w) < |w.list| && CompleteAt(s', w.owner, w.list[Behind(w)])))
  {
    var w := s.workers[i];
    assert WorkerOk(source, s.nodes, w) && NodeOk(source, s.nodes[w.owner]);
    if w.pc.AtFragment? && w.pc.k < |w.list| {
      var f := w.list[w.pc.k];
      assert s.nodes[w.owner].file.states[f] == DOWNLOADING ==> SomeHolder(s, w.owner, f);
    }
  }

  lemma {:induction false} SoloFinishes(source: bytes, s0: Swarm, labels: seq<Label>, s: Swarm, i: nat)
    returns (more: seq<Label>, s': Swarm)
    requires Reached(source, s0, labels, s) && Solo(source, s, i)
    ensures labels <= more && Reached(source, s0, more, s')
    ensures Solo(source, s', i) && s'.workers[i].pc.Done? && s'.workers[i].owner == s.workers[i].owner
    ensures Spoiled(s'.nodes) == Spoiled(s.nodes)
    decreases TotalLeft(SegmentCount(|source|), s.workers)
  {
    ReachedTotal(source, s0, labels, s);
    ReachedInv(source, s0, labels, s);
    if s.workers[i].pc.Done? {
      return labels, s;
    }
    var r := OneMoreStep(source, s0, labels, s, i);
    SoloStep(source, s, i, r);
    more, s' := SoloFinishes(source, s0, labels + [Work(i, Works([]))], r, i);
  }

  /** A download can always still succeed: whatever happened before, download errors
      included, a worker started against a peer that has the whole file can bring it home.
      Only what a failed store has spoiled is not repaired. */
  lemma RetryCompletes(source: bytes, s0: Swarm, labels: seq<Label>, s: Swarm, a: nat, b: nat)
    returns (more: seq<Label>, s': Swarm)
    requires Reached(source, s0, labels, s) && a < |s.nodes| && b < |s.nodes|
    requires s.nodes[b].file.AllComplete()
    ensures labels <= more && Reached(source, s0, more, s')
    ensures a < |s'.nodes| && s'.nodes[a].file.AllComplete()
    ensures Spoiled(s'.nodes) == Spoiled(s.nodes)
    ensures Spoiled(s.nodes) == {} ==> |s'.nodes[a].disk| >= |source| && s'.nodes[a].disk[..|source|] == source
  {
    var ls, r := CanFinish(source, s0, labels, s);
    ReachedInv(source, s0, labels, s);
    ReachedInv(source, s0, ls, r);
    assert NodeOk(source, s.nodes[b]) && NodeOk(source, r.nodes[b]);
    forall f: nat | f < |r.nodes[b].file.states|
      ensures r.nodes[b].file.states[f] == COMPLETE
    {
      assert CompleteAt(s, b, f);
    }
    var l := Spawn(a, b);
    var t := Step(|source|, r, l).value;
    assert (ls + [l])[..|ls|] == ls;
    more, s' := SoloFinishes(source, s0, ls + [l], t, |r.workers|);
    ReachedInv(source, s0, more, s');
    forall f: nat | f < |s'.nodes[a].file.states|
      ensures s'.nodes[a].file.states[f] == COMPLETE
    {
      assert f in s'.workers[|r.workers|].list;
    }
    LatchAgrees(source, s0, more, s', a);
  }
}
