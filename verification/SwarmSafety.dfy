/** What holds in every reachable state of the swarm, under every interleaving. */
module SwarmSafety {
  import opened Common
  import opened Blocks
  import opened SegmentTable
  import opened Swarm

  /** `s` is reached from an initial state by `labels`. */
  ghost predicate Reached(source: bytes, s0: Swarm, labels: seq<Label>, s: Swarm) {
    Init(source, s0) && Run(|source|, s0, labels) == Some(s)
  }

  lemma ReachedInv(source: bytes, s0: Swarm, labels: seq<Label>, s: Swarm)
    requires Reached(source, s0, labels, s)
    ensures Inv(source, s)
  {
    InitInv(source, s0);
    RunInv(source, s0, labels, s);
  }

  // ---------- content ----------

  /** Content, exactly: in every reachable state, failing stores included, a segment has the
      source's padded block on a node's disk if and only if the source has only zeros after
      what came through to that disk. Replies in flight carry what came through to the
      peer's disk. */
  lemma ContentExactly(source: bytes, s0: Swarm, labels: seq<Label>, s: Swarm)
    requires Reached(source, s0, labels, s)
    ensures forall a: nat, f: nat | a < |s.nodes| && f < |s.nodes[a].file.states| ::
      && HoldsUpTo(s.nodes[a].disk, source, f, s.nodes[a].Through(f))
      && (HoldsSegment(s.nodes[a].disk, source, f) <==> ZeroFrom(source, f, s.nodes[a].Through(f)))
    ensures forall i: nat | i < |s.workers| && Holding(s.workers[i]) ::
      var w := s.workers[i];
      w.peer < |s.nodes| &&
      var c := Cut(source, w.list[w.pc.k], s.nodes[w.peer].Through(w.list[w.pc.k]));
      && (w.pc.Replying? ==> w.pc.buffer <= c)
      && (w.pc.Storing? ==> w.pc.data == c)
  {
    ReachedInv(source, s0, labels, s);
    forall a: nat, f: nat | a < |s.nodes| && f < |s.nodes[a].file.states|
      ensures HoldsUpTo(s.nodes[a].disk, source, f, s.nodes[a].Through(f))
      ensures HoldsSegment(s.nodes[a].disk, source, f) <==> ZeroFrom(source, f, s.nodes[a].Through(f))
    {
      assert SegmentOk(source, s.nodes[a], f);
      HoldsExactly(s.nodes[a].disk, source, f, s.nodes[a].Through(f));
    }
    assert forall i: nat | i < |s.workers| && Holding(s.workers[i]) :: WorkerOk(source, s.nodes, s.workers[i]);
  }

  /** So no byte is ever wrong other than by being 0: on every disk, in every reply and in
      every block that is being stored. */
  lemma SourceOrZero(source: bytes, s0: Swarm, labels: seq<Label>, s: Swarm)
    requires Reached(source, s0, labels, s)
    ensures forall a: nat, p: nat | a < |s.nodes| :: ByteAt(s.nodes[a].disk, p) in {ByteAt(source, p), 0}
    ensures forall i: nat, j: nat | i < |s.workers| && Holding(s.workers[i]) ::
      var w := s.workers[i];
      var b := ByteAt(source, Offset(w.list[w.pc.k]) + j);
      && (w.pc.Replying? && j < |w.pc.buffer| ==> w.pc.buffer[j] in {b, 0})
      && (w.pc.Storing? && j < |w.pc.data| ==> w.pc.data[j] in {b, 0})
  {
    ReachedInv(source, s0, labels, s);
    ContentExactly(source, s0, labels, s);
    forall a: nat, p: nat | a < |s.nodes|
      ensures ByteAt(s.nodes[a].disk, p) in {ByteAt(source, p), 0}
    {
      var n, f := s.nodes[a], p / SEGMENT_SIZE;
      assert NodeOk(source, n) && InSegment(f, p);
      if f < |n.file.states| {
        assert HoldsUpTo(n.disk, source, f, n.Through(f));
      } else {
        assert p >= |n.disk|;
      }
    }
  }

  lemma ThroughStays(source: bytes, s: Swarm, l: Label, s': Swarm, a: nat, f: nat)
    requires Inv(source, s) && Step(|source|, s, l) == Some(s')
    requires a < |s.nodes| && f < |s.nodes[a].file.states| && s.nodes[a].file.states[f] == COMPLETE
    ensures s'.nodes[a].Through(f) == s.nodes[a].Through(f)
  {
    if l.Work? {
      assert ClaimOk(s.nodes, s.workers[l.i]);
    }
  }

  /** Every COMPLETE segment came through whole, except where a store of it failed somewhere. */
  ghost predicate CameThrough(s: Swarm) {
    forall a: nat, f: nat |
      && a < |s.nodes| && f < |s.nodes[a].file.states|
      && s.nodes[a].file.states[f] == COMPLETE && f !in Spoiled(s.nodes) ::
      s.nodes[a].Through(f) == SEGMENT_SIZE
  }

  /** A segment becomes COMPLETE when a store is over: then as much has come through as was
      stored, but no more than the peer has; all of that if the store has not failed. */
  lemma MarkedThrough(source: bytes, s: Swarm, i: nat)
    requires Inv(source, s) && i < |s.workers| && s.workers[i].pc.Storing?
    requires s.workers[i].pc.written == SEGMENT_SIZE
    ensures var w := s.workers[i];
      && w.pc.k < |w.list| && w.owner < |s.nodes| && w.peer < |s.nodes|
      && var f := w.list[w.pc.k];
      && f < |s.nodes[w.peer].file.states| && s.nodes[w.peer].file.states[f] == COMPLETE
      && s.nodes[w.owner].Through(f) == Min(|s.nodes[w.owner].Stored(f)|, s.nodes[w.peer].Through(f))
      && (f !in s.nodes[w.owner].unstored ==> s.nodes[w.owner].Through(f) == s.nodes[w.peer].Through(f))
  {
    var w := s.workers[i];
    assert WorkerOk(source, s.nodes, w);
    assert NodeOk(source, s.nodes[w.peer]);
    assert SegmentOk(source, s.nodes[w.peer], w.list[w.pc.k]);
  }

  lemma StepThrough(source: bytes, s: Swarm, l: Label, s': Swarm)
    requires Inv(source, s) && CameThrough(s) && Step(|source|, s, l) == Some(s')
    ensures CameThrough(s')
  {
    SpoiledGrows(|source|, s, l, s');
    forall a: nat, f: nat | a < |s'.nodes| && f < |s'.nodes[a].file.states|
      && s'.nodes[a].file.states[f] == COMPLETE && f !in Spoiled(s'.nodes)
      ensures s'.nodes[a].Through(f) == SEGMENT_SIZE
    {
      if s.nodes[a].file.states[f] == COMPLETE {
        ThroughStays(source, s, l, s', a, f);
      } else {
        MarkStep(source, s, l, s', a, f);
        MarkedThrough(source, s, l.i);
        assert f in s.nodes[a].unstored ==> f in Spoiled(s.nodes);
      }
    }
  }

  /** Only the mark that ends a store makes a segment COMPLETE. */
  lemma MarkStep(source: bytes, s: Swarm, l: Label, s': Swarm, a: nat, f: nat)
    requires Inv(source, s) && Step(|source|, s, l) == Some(s')
    requires a < |s.nodes| && f < |s.nodes[a].file.states| && s.nodes[a].file.states[f] != COMPLETE
    requires s'.nodes[a].file.states[f] == COMPLETE
    ensures l.Work? && l.i < |s.workers|
    ensures var w := s.workers[l.i];
      && w.owner == a && w.pc.Storing? && w.pc.written == SEGMENT_SIZE
      && w.pc.k < |w.list| && w.list[w.pc.k] == f
      && s'.nodes[a].Through(f) == s.nodes[a].Through(f)
  {
    if l.Work? {
      assert WorkerOk(source, s.nodes, s.workers[l.i]);
    }
  }

  lemma {:induction false} RunThrough(source: bytes, s0: Swarm, labels: seq<Label>, s: Swarm)
    requires Reached(source, s0, labels, s)
    ensures CameThrough(s)
  {
    if labels != [] {
      var n := |labels| - 1;
      var r := Run(|source|, s0, labels[..n]).value;
      RunThrough(source, s0, labels[..n], r);
      ReachedInv(source, s0, labels[..n], r);
      StepThrough(source, r, labels[n], s);
    }
  }

  /** Content integrity: unless a store of it failed somewhere, a segment marked COMPLETE on
      any node has the source's padded block on that node's disk, and a reply in flight
      carries its segment's block. */
  lemma ContentIntegrity(source: bytes, s0: Swarm, labels: seq<Label>, s: Swarm)
    requires Reached(source, s0, labels, s)
    ensures forall a: nat, f: nat |
      && a < |s.nodes| && f < |s.nodes[a].file.states|
      && s.nodes[a].file.states[f] == COMPLETE && f !in Spoiled(s.nodes) ::
      HoldsSegment(s.nodes[a].disk, source, f)
    ensures forall i: nat | i < |s.workers| && Holding(s.workers[i]) ::
      var w := s.workers[i]; w.list[w.pc.k] !in Spoiled(s.nodes) ==>
        && (w.pc.Replying? ==> w.pc.buffer <= Block(source, w.list[w.pc.k]))
        && (w.pc.Storing? ==> w.pc.data == Block(source, w.list[w.pc.k]))
  {
    ContentExactly(source, s0, labels, s);
    RunThrough(source, s0, labels, s);
    forall i: nat | i < |s.workers| && Holding(s.workers[i])
      ensures var w := s.workers[i]; w.list[w.pc.k] !in Spoiled(s.nodes) ==>
        && (w.pc.Replying? ==> w.pc.buffer <= Block(source, w.list[w.pc.k]))
        && (w.pc.Storing? ==> w.pc.data == Block(source, w.list[w.pc.k]))
    {
      var w := s.workers[i];
      ReachedInv(source, s0, labels, s);
      assert WorkerOk(source, s.nodes, w);
      CutExactly(source, w.list[w.pc.k], SEGMENT_SIZE);
    }
  }

  /** A copy is as good as its original: when a store is over, the segment is whole on the own
      disk exactly if the source has only zeros after what was stored and what the peer
      has; so without a failure, exactly if it is whole on the peer's disk. */
  lemma CopyAsGoodAsOriginal(source: bytes, s0: Swarm, labels: seq<Label>, s: Swarm, i: nat)
    requires Reached(source, s0, labels, s) && i < |s.workers| && s.workers[i].pc.Storing?
    requires s.workers[i].pc.written == SEGMENT_SIZE
    ensures var w := s.workers[i];
      && w.pc.k < |w.list| && w.owner < |s.nodes| && w.peer < |s.nodes|
      && var f, o, p := w.list[w.pc.k], s.nodes[w.owner], s.nodes[w.peer];
      && (HoldsSegment(o.disk, source, f) <==> ZeroFrom(source, f, Min(|o.Stored(f)|, p.Through(f))))
      && (f !in o.unstored ==> (HoldsSegment(o.disk, source, f) <==> HoldsSegment(p.disk, source, f)))
  {
    ReachedInv(source, s0, labels, s);
    ContentExactly(source, s0, labels, s);
    MarkedThrough(source, s, i);
    assert ClaimOk(s.nodes, s.workers[i]);
  }

  /** Exclusive claims: a segment is DOWNLOADING exactly when some worker holds it, and
      no two workers hold the same segment of the same node. So setSegmentState, which a
      worker calls only while it holds a claim, acts on its own DOWNLOADING segment. */
  lemma ExclusiveClaims(source: bytes, s0: Swarm, labels: seq<Label>, s: Swarm, a: nat, f: nat)
    requires Reached(source, s0, labels, s)
    requires a < |s.nodes| && f < |s.nodes[a].file.states|
    ensures s.nodes[a].file.states[f] == DOWNLOADING <==>
      exists i: nat :: i < |s.workers| && Holds(s.workers[i], a, f)
    ensures forall i: nat, j: nat |
      i < |s.workers| && j < |s.workers| && Holds(s.workers[i], a, f) && Holds(s.workers[j], a, f) :: i == j
  {
    ReachedInv(source, s0, labels, s);
    if s.nodes[a].file.states[f] == DOWNLOADING {
      assert SomeHolder(s, a, f);
    }
    forall i: nat, j: nat | i < |s.workers| && j < |s.workers| && Holds(s.workers[i], a, f) && Holds(s.workers[j], a, f)
      ensures i == j && s.nodes[a].file.states[f] == DOWNLOADING
    {
      assert ClaimOk(s.nodes, s.workers[i]) && Clash(s.workers[i], s.workers[j]);
    }
  }

  /** The completion latch: asking gives the answer of a fresh scan, and a complete file
      has the source in front on its disk, except for segments of which a store failed. The
      disk begins with the source exactly if what did not come through is zeros. */
  lemma LatchAgrees(source: bytes, s0: Swarm, labels: seq<Label>, s: Swarm, a: nat)
    requires Reached(source, s0, labels, s) && a < |s.nodes|
    ensures s.nodes[a].file.Poll().isCompleted == s.nodes[a].file.AllComplete()
    ensures s.nodes[a].file.AllComplete() ==>
      forall p: nat | p < |source| && p / SEGMENT_SIZE !in Spoiled(s.nodes) ::
        p < |s.nodes[a].disk| && s.nodes[a].disk[p] == source[p]
    ensures |s.nodes[a].disk| >= |source|
    ensures s.nodes[a].disk[..|source|] == source <==>
      forall f: nat | f < SegmentCount(|source|) :: ZeroFrom(source, f, s.nodes[a].Through(f))
    ensures s.nodes[a].file.AllComplete() && Spoiled(s.nodes) == {} ==>
      |s.nodes[a].disk| >= |source| && s.nodes[a].disk[..|source|] == source
  {
    ReachedInv(source, s0, labels, s);
    PollAgreesWithScan(s.nodes[a].file);
    assert NodeOk(source, s.nodes[a]);
    PrefixExactly(source, s.nodes[a]);
    if s.nodes[a].file.AllComplete() {
      forall p: nat | p < |source| && p / SEGMENT_SIZE !in Spoiled(s.nodes)
        ensures s.nodes[a].disk[p] == source[p]
      {
        RangesPartition(|source|, p, p / SEGMENT_SIZE);
        assert HoldsSegment(s.nodes[a].disk, source, p / SEGMENT_SIZE) by {
          ContentIntegrity(source, s0, labels, s);
        }
        assert InSegment(p / SEGMENT_SIZE, p);
        assert ByteAt(s.nodes[a].disk, p) == ByteAt(source, p);
      }
    }
  }

  /** What the histories of errors record: segment f of node a has failed to download exactly
      if it had before, or a worker of that node loses a message while it waits for f; and a
      store of it has failed exactly if one had before, or fails in this step. */
  lemma ErrorsRecorded(source: bytes, s: Swarm, l: Label, s': Swarm, a: nat, f: nat)
    requires Inv(source, s) && Step(|source|, s, l) == Some(s') && a < |s.nodes|
    ensures |s'.nodes| == |s.nodes|
    ensures f in s'.nodes[a].errors <==>
      f in s.nodes[a].errors ||
      (l.Work? && l.env.Fails? && Holds(s.workers[l.i], a, f)
       && (s.workers[l.i].pc.Claimed? || s.workers[l.i].pc.Replying?))
    ensures f in s'.nodes[a].unstored <==>
      f in s.nodes[a].unstored ||
      (l.Work? && l.env.Fails? && Holds(s.workers[l.i], a, f)
       && s.workers[l.i].pc.Storing? && s.workers[l.i].pc.written < SEGMENT_SIZE)
  {
    if l.Work? {
      assert WorkerOk(source, s.nodes, s.workers[l.i]);
    }
  }

  /** Asking sets the flag to what a scan gives and changes nothing else. */
  lemma PollSetsFlag(source: bytes, s0: Swarm, labels: seq<Label>, s: Swarm, a: nat, s': Swarm)
    requires Reached(source, s0, labels, s) && a < |s.nodes| && Step(|source|, s, Poll(a)) == Some(s')
    ensures |s'.nodes| == |s.nodes| && s'.workers == s.workers
    ensures s'.nodes[a].file.isCompleted <==> s.nodes[a].file.AllComplete()
    ensures s'.nodes[a] == s.nodes[a].(file := s'.nodes[a].file)
    ensures s'.nodes[a].file.states == s.nodes[a].file.states
    ensures forall b: nat | b < |s.nodes| && b != a :: s'.nodes[b] == s.nodes[b]
  {
    ReachedInv(source, s0, labels, s);
    PollAgreesWithScan(s.nodes[a].file);
    assert NodeOk(source, s.nodes[a]);
  }

  /** A flag that is set stays set. */
  lemma {:induction false} FlagStays(size: nat, s: Swarm, labels: seq<Label>, s': Swarm, a: nat)
    requires Run(size, s, labels) == Some(s') && a < |s.nodes| && s.nodes[a].file.isCompleted
    ensures a < |s'.nodes| && s'.nodes[a].file.isCompleted
  {
    if labels != [] {
      var n := |labels| - 1;
      var r := Run(size, s, labels[..n]).value;
      FlagStays(size, s, labels[..n], r, a);
      StepKeepsFlag(size, r, labels[n], s', a);
    }
  }

  lemma StepKeepsFlag(size: nat, s: Swarm, l: Label, s': Swarm, a: nat)
    requires Step(size, s, l) == Some(s') && a < |s.nodes| && s.nodes[a].file.isCompleted
    ensures a < |s'.nodes| && s'.nodes[a].file.isCompleted
  {
  }

  /** A disk begins with the source exactly if what did not come through is zeros. */
  lemma PrefixExactly(source: bytes, n: Node)
    requires NodeOk(source, n)
    ensures n.disk[..|source|] == source <==>
      forall f: nat | f < SegmentCount(|source|) :: ZeroFrom(source, f, n.Through(f))
  {
    if n.disk[..|source|] == source {
      forall f: nat | f < SegmentCount(|source|)
        ensures ZeroFrom(source, f, n.Through(f))
      {
        assert SegmentOk(source, n, f);
        assert forall p: nat | p < |source| :: n.disk[..|source|][p] == ByteAt(n.disk, p);
      }
    }
    if forall f: nat | f < SegmentCount(|source|) :: ZeroFrom(source, f, n.Through(f)) {
      forall f: nat | f < SegmentCount(|source|)
        ensures HoldsSegment(n.disk, source, f)
      {
        assert SegmentOk(source, n, f);
        HoldsExactly(n.disk, source, f, n.Through(f));
      }
      HoldsAllGivesPrefix(n.disk, source);
    }
  }

  /** One step leaves every COMPLETE segment of every node COMPLETE, and loses no error. */
  lemma StepMonotone(source: bytes, s: Swarm, l: Label, s': Swarm)
    requires Inv(source, s) && Step(|source|, s, l) == Some(s')
    ensures |s'.nodes| == |s.nodes|
    ensures forall a: nat, f: nat | a < |s.nodes| && f < |s.nodes[a].file.states| ::
      f < |s'.nodes[a].file.states|
      && (s.nodes[a].file.states[f] == COMPLETE ==> s'.nodes[a].file.states[f] == COMPLETE)
    ensures forall a: nat | a < |s.nodes| :: s.nodes[a].errors <= s'.nodes[a].errors
    ensures Spoiled(s.nodes) <= Spoiled(s'.nodes)
  {
    SpoiledGrows(|source|, s, l, s');
    if l.Work? {
      var w := s.workers[l.i];
      assert ClaimOk(s.nodes, w);
    }
  }

  /** COMPLETE is never left. */
  lemma {:induction false} CompleteStays(source: bytes, s: Swarm, labels: seq<Label>, s': Swarm, a: nat, f: nat)
    requires Inv(source, s) && Run(|source|, s, labels) == Some(s')
    requires a < |s.nodes| && f < |s.nodes[a].file.states| && s.nodes[a].file.states[f] == COMPLETE
    ensures a < |s'.nodes| && f < |s'.nodes[a].file.states| && s'.nodes[a].file.states[f] == COMPLETE
  {
    if labels != [] {
      var n := |labels| - 1;
      var r := Run(|source|, s, labels[..n]).value;
      CompleteStays(source, s, labels[..n], r, a, f);
      RunInv(source, s, labels[..n], r);
      StepMonotone(source, r, labels[n], s');
    }
  }

  /** Listed means served: when a worker's request for a listed segment reaches its peer,
      the peer starts to answer F_FINE, it can read every byte, and what the worker then
      stores are the bytes read: the segment's block, unless a store of it failed. The
      stray memory of an empty reply is never stored. */
  lemma ListedMeansServed(source: bytes, s0: Swarm, labels: seq<Label>, s: Swarm, i: nat, stray: bytes)
    requires Reached(source, s0, labels, s) && i < |s.workers|
    requires s.workers[i].pc.Claimed? || s.workers[i].pc.Replying?
    ensures var w := s.workers[i];
      var s' := Step(|source|, s, Work(i, Works(stray)));
      && s'.Some?
      && w.pc.k < |w.list|
      && (w.pc.Claimed? ==> s'.value.workers[i].pc == Replying(w.pc.k, []))
      && (w.pc.Replying? && |w.pc.buffer| < SEGMENT_SIZE ==>
           && s'.value.workers[i].pc.Replying?
           && exists b: byte :: s'.value.workers[i].pc == Replying(w.pc.k, w.pc.buffer + [b]))
      && (w.pc.Replying? && |w.pc.buffer| == SEGMENT_SIZE ==>
           s'.value.workers[i].pc == Storing(w.pc.k, w.pc.buffer, 0))
      && w.peer < |s.nodes|
      && (w.pc.Replying? && |w.pc.buffer| < SEGMENT_SIZE ==>
           s'.value.workers[i].pc.buffer <= Cut(source, w.list[w.pc.k], s.nodes[w.peer].Through(w.list[w.pc.k])))
      && (w.list[w.pc.k] !in Spoiled(s.nodes) && s'.value.workers[i].pc.Replying? ==>
           s'.value.workers[i].pc.buffer <= Block(source, w.list[w.pc.k]))
      && (w.list[w.pc.k] !in Spoiled(s.nodes) && s'.value.workers[i].pc.Storing? ==>
           s'.value.workers[i].pc.data == Block(source, w.list[w.pc.k]))
  {
    ReachedInv(source, s0, labels, s);
    var w := s.workers[i];
    var f := w.list[w.pc.k];
    assert WorkerOk(source, s.nodes, w) && NodeOk(source, s.nodes[w.peer]);
    var l := Work(i, Works(stray));
    assert (labels + [l])[..|labels|] == labels;
    var s' := Step(|source|, s, l).value;
    SpoiledSame(|source|, s, i, stray, s');
    ContentIntegrity(source, s0, labels + [l], s');
    ContentExactly(source, s0, labels + [l], s');
    if w.pc.Replying? && |w.pc.buffer| < SEGMENT_SIZE {
      var b := s'.workers[i].pc.buffer;
      assert s'.workers[i].pc == Replying(w.pc.k, w.pc.buffer + [b[|w.pc.buffer|]]);
    }
  }

  /** Only a failing step spoils a segment. */
  lemma SpoiledSame(size: nat, s: Swarm, i: nat, stray: bytes, s': Swarm)
    requires Step(size, s, Work(i, Works(stray))) == Some(s')
    ensures Spoiled(s'.nodes) == Spoiled(s.nodes)
  {
    assert |s'.nodes| == |s.nodes|;
    assert forall a: nat | a < |s.nodes| :: s'.nodes[a].unstored == s.nodes[a].unstored;
  }

  /** No undefined behaviour and no stuck worker: a list holds only ids in range, every
      read lies inside the peer's file, and each worker that is not Done can step. */
  lemma NeverStuck(source: bytes, s: Swarm, i: nat, env: Env)
    requires Inv(source, s) && i < |s.workers|
    ensures Step(|source|, s, Work(i, env)).Some? <==> !s.workers[i].pc.Done?
  {
    var w := s.workers[i];
    assert WorkerOk(source, s.nodes, w);
    assert ClaimOk(s.nodes, w);
  }
}
