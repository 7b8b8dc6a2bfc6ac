/** The download worker's own code, run by one thread of the swarm while all other
    threads go on between any two of its steps. */
module DownloadWorker {
  import opened Common
  import opened Blocks
  import opened SegmentTable
  import opened Swarm
  import opened SwarmSafety
  import opened SwarmOutcome

  /** Nothing that was COMPLETE is lost. */
  ghost predicate Grows(s: Swarm, s': Swarm) {
    |s'.nodes| == |s.nodes| && forall a: nat, f: nat | CompleteAt(s, a, f) :: CompleteAt(s', a, f)
  }

  lemma StepGrows(source: bytes, s: Swarm, l: Label, s': Swarm)
    requires Inv(source, s) && Step(|source|, s, l) == Some(s')
    ensures Grows(s, s')
  {
    StepMonotone(source, s, l, s');
  }

  /** A step of anyone else leaves worker i where it is. */
  lemma OthersKeepWorker(size: nat, s: Swarm, l: Label, s': Swarm, i: nat)
    requires Step(size, s, l) == Some(s') && i < |s.workers| && !(l.Work? && l.i == i)
    ensures i < |s'.workers| && s'.workers[i] == s.workers[i]
  {
  }

  /** The state that all threads share, with the run that has led to it. */
  class Shared {
    const size: nat
    ghost const source: bytes
    ghost const s0: Swarm
    ghost var labels: seq<Label>
    var s: Swarm

    ghost predicate Valid()
      reads this
    {
      size == |source| && Reached(source, s0, labels, s)
    }

    constructor (ghost source: bytes, size: nat, s0: Swarm)
      requires size == |source| && Init(source, s0)
      ensures Valid() && s == s0 && labels == [] && this.source == source && this.s0 == s0
    {
      this.source, this.size, this.s0 := source, size, s0;
      labels, s := [], s0;
    }

    /** One step of worker i. */
    method Act(i: nat, env: Env)
      requires Valid() && i < |s.workers| && !s.workers[i].pc.Done?
      modifies this
      ensures Valid() && labels == old(labels) + [Work(i, env)]
      ensures Step(size, old(s), Work(i, env)) == Some(s)
    {
      ReachedInv(source, s0, labels, s);
      NeverStuck(source, s, i, env);
      labels := labels + [Work(i, env)];
      assert labels[..|labels| - 1] == old(labels);
      s := Step(size, s, Work(i, env)).value;
    }

    /** Any number of steps of anyone but worker i. */
    method Interfere(i: nat)
      requires Valid() && i < |s.workers|
      modifies this
      ensures Valid() && old(labels) <= labels
      ensures i < |s.workers| && s.workers[i] == old(s.workers[i])
      ensures Grows(old(s), s)
    {
      var n: int := *;
      while n > 0
        invariant Valid() && old(labels) <= labels
        invariant i < |s.workers| && s.workers[i] == old(s.workers[i])
        invariant Grows(old(s), s)
      {
        var l: Label := *;
        if !(l.Work? && l.i == i) && Step(size, s, l).Some? {
          Others(i, l);
        }
        n := n - 1;
      }
    }

    /** One step of someone else. */
    method Others(i: nat, l: Label)
      requires Valid() && i < |s.workers| && !(l.Work? && l.i == i) && Step(size, s, l).Some?
      modifies this
      ensures Valid() && labels == old(labels) + [l]
      ensures i < |s.workers| && s.workers[i] == old(s.workers[i])
      ensures Grows(old(s), s)
    {
      ghost var next := Step(size, s, l).value;
      ReachedInv(source, s0, labels, s);
      StepGrows(source, s, l, next);
      OthersKeepWorker(size, s, l, next, i);
      labels := labels + [l];
      assert labels[..|labels| - 1] == old(labels);
      s := Step(size, s, l).value;
    }

    /** Worker i after interference and one step of its own. */
    method Next(i: nat)
      requires Valid() && i < |s.workers| && !s.workers[i].pc.Done?
      modifies this
      ensures Valid() && old(labels) <= labels && i < |s.workers|
      ensures FollowsFrom(old(s.workers[i]), s.workers[i])
      ensures Scans(SegmentCount(size), old(s), old(s.workers[i]), s.workers[i])
      ensures Inv(source, s) && Grows(old(s), s)
    {
      Interfere(i);
      var env: Env := *;
      ReachedInv(source, s0, labels, s);
      ghost var before := s;
      Act(i, env);
      ReachedInv(source, s0, labels, s);
      StepGrows(source, before, Work(i, env), s);
      StepFollows(source, old(s), before, i, env, s);
    }
  }

  /** What a worker knows of its own next state, whatever the others and the network do. */
  ghost predicate FollowsFrom(w: Worker, v: Worker) {
    && v.owner == w.owner
    && v.peer == w.peer
    && (!w.pc.Connecting? && !w.pc.Listing? ==> v.list == w.list)
    && match w.pc
       case Connecting => v.pc == Listing(0) || v.pc.Done?
       case Listing(next) =>
         || (v.pc == Listing(next + 1) && (v.list == w.list || v.list == w.list + [next]))
         || (v.pc == AtFragment(0) && v.list == w.list)
         || v.pc.Done?
       case AtFragment(k) =>
         if k < |w.list| then v.pc == Claimed(k) || v.pc == AtFragment(k + 1) else v.pc.Done?
       case Claimed(k) =>
         || v.pc == Failed(k)
         || v.pc == Replying(k, [])
         || (v.pc.Storing? && v.pc.k == k && v.pc.written == 0)
       case Replying(k, buffer) =>
         || v.pc == Failed(k)
         || (|buffer| < SEGMENT_SIZE && v.pc.Replying? && v.pc.k == k && |v.pc.buffer| == |buffer| + 1)
         || (|buffer| >= SEGMENT_SIZE && v.pc == Storing(k, buffer, 0))
       case Storing(k, data, written) =>
         if written < |data| then v.pc == Storing(k, data, written + 1) || v.pc == Storing(k, data, |data|)
         else v.pc == AtFragment(k + 1)
       case Failed(k) => v.pc == AtFragment(k + 1)
       case Done => false
  }

  /** The responder's scan for worker w, in a state that was s before: it misses nothing
      that was COMPLETE, and goes through all n segments. */
  ghost predicate Scans(n: nat, s: Swarm, w: Worker, v: Worker) {
    w.pc.Listing? ==>
      && (v.pc.Listing? && CompleteAt(s, w.peer, w.pc.next) ==> w.pc.next in v.list)
      && (v.pc.AtFragment? ==> w.pc.next >= n)
  }

  lemma StepFollows(source: bytes, s0: Swarm, s: Swarm, i: nat, env: Env, s': Swarm)
    requires Inv(source, s) && Step(|source|, s, Work(i, env)) == Some(s') && Grows(s0, s)
    ensures FollowsFrom(s.workers[i], s'.workers[i])
    ensures Scans(SegmentCount(|source|), s0, s.workers[i], s'.workers[i])
  {
    var w := s.workers[i];
    assert WorkerOk(source, s.nodes, w) && NodeOk(source, s.nodes[w.peer]);
    if w.pc.Listing? && CompleteAt(s0, w.peer, w.pc.next) {
      assert CompleteAt(s, w.peer, w.pc.next);
    }
  }

  /** The ids below `next` that worker w has been told: they ascend, and none that was
      COMPLETE in s is missing. */
  ghost predicate ListedBelow(s: Swarm, w: Worker, next: nat) {
    && (forall j: nat | j < |w.list| :: w.list[j] < next)
    && (forall j: nat, k: nat | j < k < |w.list| :: w.list[j] < w.list[k])
    && (forall f: nat | f < next && CompleteAt(s, w.peer, f) :: f in w.list)
  }

  /** Asks the peer for its list; the result tells whether there is one. The list ascends,
      names all that the peer had COMPLETE when it was asked, and nothing that is not
      COMPLETE there by now. */
  method RequestFragmentsList(sh: Shared, i: nat) returns (listed: bool)
    requires sh.Valid() && i < |sh.s.workers| && sh.s.workers[i].pc == Listing(0)
    modifies sh
    ensures sh.Valid() && old(sh.labels) <= sh.labels && i < |sh.s.workers|
    ensures sh.s.workers[i].owner == old(sh.s.workers[i].owner)
    ensures sh.s.workers[i].peer == old(sh.s.workers[i].peer)
    ensures if listed then sh.s.workers[i].pc == AtFragment(0) else sh.s.workers[i].pc.Done?
    ensures listed ==>
      var w := sh.s.workers[i];
      && (forall f: nat | CompleteAt(old(sh.s), w.peer, f) :: f in w.list)
      && (forall f: nat | f in w.list :: CompleteAt(sh.s, w.peer, f))
      && (forall j: nat, k: nat | j < k < |w.list| :: w.list[j] < w.list[k])
  {
    ReachedInv(sh.source, sh.s0, sh.labels, sh.s);
    assert WorkerOk(sh.source, sh.s.nodes, sh.s.workers[i]);
    ghost var n := SegmentCount(|sh.source|);
    ghost var peer := sh.s.workers[i].peer;
    while sh.s.workers[i].pc.Listing?
      invariant sh.Valid() && old(sh.labels) <= sh.labels && i < |sh.s.workers|
      invariant sh.s.workers[i].owner == old(sh.s.workers[i].owner)
      invariant sh.s.workers[i].peer == peer
      invariant Inv(sh.source, sh.s) && Grows(old(sh.s), sh.s)
      invariant sh.s.workers[i].pc.Listing? || sh.s.workers[i].pc == AtFragment(0) || sh.s.workers[i].pc.Done?
      invariant sh.s.workers[i].pc.Listing? ==> ListedBelow(old(sh.s), sh.s.workers[i], sh.s.workers[i].pc.next)
      invariant sh.s.workers[i].pc.AtFragment? ==> ListedBelow(old(sh.s), sh.s.workers[i], n)
      decreases if sh.s.workers[i].pc.Listing? then n + 1 - sh.s.workers[i].pc.next else 0
    {
      ghost var before, w := sh.s, sh.s.workers[i];
      sh.Next(i);
      ListGrows(sh.source, old(sh.s), before, w, sh.s.workers[i]);
    }
    listed := sh.s.workers[i].pc.AtFragment?;
    assert WorkerOk(sh.source, sh.s.nodes, sh.s.workers[i]);
    assert forall f: nat | CompleteAt(old(sh.s), peer, f) :: CompleteAt(sh.s, peer, f);
  }

  lemma ListGrows(source: bytes, s0: Swarm, s: Swarm, w: Worker, v: Worker)
    requires Inv(source, s) && Grows(s0, s) && w.pc.Listing? && w.peer < |s.nodes|
    requires w.pc.next <= SegmentCount(|source|)
    requires ListedBelow(s0, w, w.pc.next) && FollowsFrom(w, v) && Scans(SegmentCount(|source|), s, w, v)
    ensures v.pc.Listing? ==> ListedBelow(s0, v, v.pc.next)
    ensures v.pc.AtFragment? ==> ListedBelow(s0, v, SegmentCount(|source|))
  {
    var next := w.pc.next;
    assert |s.nodes[w.peer].file.states| == SegmentCount(|source|);
    if v.pc.Listing? {
      forall f: nat | f < next + 1 && CompleteAt(s0, v.peer, f)
        ensures f in v.list
      {
        assert CompleteAt(s, w.peer, f);
      }
    }
  }

  /** Asks the peer for the claimed segment; without an answer the result is F_ERROR. The
      answer is the segment's block, unless a store of that segment failed somewhere. */
  method RequestFragment(sh: Shared, i: nat) returns (error: bool)
    requires sh.Valid() && i < |sh.s.workers| && sh.s.workers[i].pc.Claimed?
    modifies sh
    ensures sh.Valid() && old(sh.labels) <= sh.labels && i < |sh.s.workers|
    ensures var w, w' := old(sh.s.workers[i]), sh.s.workers[i];
      && w' == w.(pc := w'.pc) && w.pc.k < |w.list|
      && (error ==> w'.pc == Failed(w.pc.k))
      && (!error ==> w'.pc.Storing? && w'.pc == Storing(w.pc.k, w'.pc.data, 0))
      && w.peer < |sh.s.nodes|
      && (!error ==> w'.pc.data == Cut(sh.source, w.list[w.pc.k], sh.s.nodes[w.peer].Through(w.list[w.pc.k])))
      && (!error && w.list[w.pc.k] !in Spoiled(sh.s.nodes) ==> w'.pc.data == Block(sh.source, w.list[w.pc.k]))
  {
    ghost var w := sh.s.workers[i];
    sh.Next(i);
    while sh.s.workers[i].pc.Replying?
      invariant sh.Valid() && old(sh.labels) <= sh.labels && i < |sh.s.workers|
      invariant Inv(sh.source, sh.s)
      invariant sh.s.workers[i].(pc := w.pc) == w
      invariant sh.s.workers[i].pc.Replying? || sh.s.workers[i].pc.Failed?
             || (sh.s.workers[i].pc.Storing? && sh.s.workers[i].pc.written == 0)
      invariant sh.s.workers[i].pc.k == w.pc.k
      decreases if sh.s.workers[i].pc.Replying? then SEGMENT_SIZE + 1 - |sh.s.workers[i].pc.buffer| else 0
    {
      sh.Next(i);
    }
    assert WorkerOk(sh.source, sh.s.nodes, sh.s.workers[i]);
    ContentExactly(sh.source, sh.s0, sh.labels, sh.s);
    ContentIntegrity(sh.source, sh.s0, sh.labels, sh.s);
    error := sh.s.workers[i].pc.Failed?;
  }

  /** Stores the block byte by byte, or gives up, and marks the segment COMPLETE. */
  method StoreAndMark(sh: Shared, i: nat)
    requires sh.Valid() && i < |sh.s.workers| && sh.s.workers[i].pc.Storing?
    modifies sh
    ensures sh.Valid() && old(sh.labels) <= sh.labels && i < |sh.s.workers|
    ensures var w, w' := old(sh.s.workers[i]), sh.s.workers[i];
      w'.owner == w.owner && w'.list == w.list && w'.pc == AtFragment(w.pc.k + 1)
  {
    ghost var w := sh.s.workers[i];
    while sh.s.workers[i].pc.Storing?
      invariant sh.Valid() && old(sh.labels) <= sh.labels && i < |sh.s.workers|
      invariant sh.s.workers[i].owner == w.owner && sh.s.workers[i].list == w.list
      invariant sh.s.workers[i].pc == AtFragment(w.pc.k + 1)
             || (sh.s.workers[i].pc.Storing? && sh.s.workers[i].pc.k == w.pc.k)
      decreases if sh.s.workers[i].pc.Storing? then |sh.s.workers[i].pc.data| - sh.s.workers[i].pc.written + 1 else 0
    {
      ReachedInv(sh.source, sh.s0, sh.labels, sh.s);
      assert WorkerOk(sh.source, sh.s.nodes, sh.s.workers[i]);
      sh.Next(i);
    }
  }

  /** Segment f of node a after a worker has dealt with it: it is not FREE, or a download of it
      has failed; its block is on disk exactly if what did not come through is zeros, and so
      it is if no store of it has failed. */
  ghost predicate Brought(source: bytes, s: Swarm, a: nat, f: nat) {
    && a < |s.nodes|
    && f < SegmentCount(|source|) == |s.nodes[a].file.states|
    && (s.nodes[a].file.states[f] == FREE ==> f in s.nodes[a].errors)
    && (HoldsSegment(s.nodes[a].disk, source, f) <==> ZeroFrom(source, f, s.nodes[a].Through(f)))
    && (s.nodes[a].file.states[f] == COMPLETE && f !in Spoiled(s.nodes) ==> HoldsSegment(s.nodes[a].disk, source, f))
  }

  lemma BroughtBehind(source: bytes, s: Swarm, i: nat)
    requires Inv(source, s) && CameThrough(s) && i < |s.workers|
    ensures var w := s.workers[i];
      forall j: nat | j < Behind(w) && j < |w.list| :: Brought(source, s, w.owner, w.list[j])
  {
    var w := s.workers[i];
    assert WorkerOk(source, s.nodes, w);
    assert NodeOk(source, s.nodes[w.owner]) && NodeOk(source, s.nodes[w.peer]);
    forall j: nat | j < Behind(w) && j < |w.list|
      ensures Brought(source, s, w.owner, w.list[j])
    {
      var o, f := s.nodes[w.owner], w.list[j];
      assert SegmentOk(source, o, f);
      HoldsExactly(o.disk, source, f, o.Through(f));
    }
  }

  /** The body of the worker's loop: the segment is not FREE afterwards, or a download of
      it has failed, and if it is COMPLETE its block is on disk. */
  method DownloadFragment(sh: Shared, i: nat)
    requires sh.Valid() && i < |sh.s.workers|
    requires sh.s.workers[i].pc.AtFragment? && sh.s.workers[i].pc.k < |sh.s.workers[i].list|
    modifies sh
    ensures sh.Valid() && old(sh.labels) <= sh.labels && i < |sh.s.workers|
    ensures var w, w' := old(sh.s.workers[i]), sh.s.workers[i];
      w'.owner == w.owner && w'.list == w.list && w'.pc == AtFragment(w.pc.k + 1)
    ensures Brought(sh.source, sh.s, old(sh.s.workers[i].owner), old(sh.s.workers[i].list[sh.s.workers[i].pc.k]))
  {
    sh.Next(i);                           // tryToSetStateSegmentStateToDownload
    if sh.s.workers[i].pc.Claimed? {
      var error := RequestFragment(sh, i);
      if error {
        sh.Next(i);                       // setSegmentState(FREE)
      } else {
        StoreAndMark(sh, i);              // storeSegmentToFile, setSegmentState(COMPLETE)
      }
    }
    ReachedInv(sh.source, sh.s0, sh.labels, sh.s);
    RunThrough(sh.source, sh.s0, sh.labels, sh.s);
    BroughtBehind(sh.source, sh.s, i);
  }

  /** The worker's thread: it ends, whatever the other threads and the network do, and
      when it ends each segment that its peer listed is COMPLETE at its file, or claimed by
      another worker, or a download of it has failed. */
  method DoWork(sh: Shared, i: nat)
    requires sh.Valid() && i < |sh.s.workers| && sh.s.workers[i].pc.Connecting?
    modifies sh
    ensures sh.Valid() && old(sh.labels) <= sh.labels
    ensures i < |sh.s.workers| && sh.s.workers[i].pc.Done?
    ensures var w := sh.s.workers[i];
      w.owner == old(sh.s.workers[i].owner) &&
      forall j: nat | j < |w.list| :: Brought(sh.source, sh.s, w.owner, w.list[j])
  {
    ghost var owner := sh.s.workers[i].owner;
    sh.Next(i);
    if !sh.s.workers[i].pc.Done? {
      var listed := RequestFragmentsList(sh, i);
      if listed {
        var fragments := sh.s.workers[i].list;
        for k := 0 to |fragments|
          invariant sh.Valid() && old(sh.labels) <= sh.labels && i < |sh.s.workers|
          invariant sh.s.workers[i].owner == owner && sh.s.workers[i].list == fragments
          invariant sh.s.workers[i].pc == AtFragment(k)
        {
          DownloadFragment(sh, i);
        }
        sh.Next(i);
      }
    }
    ReachedInv(sh.source, sh.s0, sh.labels, sh.s);
    RunThrough(sh.source, sh.s0, sh.labels, sh.s);
    BroughtBehind(sh.source, sh.s, i);
  }
}
