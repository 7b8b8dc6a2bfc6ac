/** The download protocol as a transition system: any number of nodes that share one
    torrent, any number of download workers, and every interleaving of their steps.
    A step is one mutex-guarded call on a file's segment table, one byte moved from or
    to a disk, or one message that arrives or is lost. A store may fail, at its start when
    the local file does not open or at any byte; the worker does not notice. */
module Swarm {
  import opened Common
  import opened Blocks
  import opened SegmentTable

  /** One client: its segment table and its file on disk. The others are history variables
      that no step depends on: `errors` are the segments whose download failed at least
      once, `unstored` those of which a store failed; `stored` has the bytes that stores
      have written of each segment, and `through` how many bytes of the source's block
      have come through to this disk. */
  datatype Node = Node(file: Table, disk: bytes, errors: set<nat>, unstored: set<nat>,
                       stored: map<nat, bytes>, through: map<nat, nat>) {
    function Stored(f: nat): bytes {
      if f in stored then stored[f] else []
    }

    function Through(f: nat): nat {
      if f in through then through[f] else 0
    }

    /** One more byte of segment f is written; of its block, the peer's disk has the first
        `whole` bytes. */
    function Write(f: nat, at: nat, b: byte, whole: nat): Node {
      var bytes := Stored(f) + [b];
      this.(disk := WriteByte(disk, at, b), stored := stored[f := bytes], through := through[f := Min(|bytes|, whole)])
    }
  }

  /** Where a worker is in its loop. `k` is the position in the peer's list. */
  datatype Pc =
    | Connecting
    | Listing(next: nat)                        // the peer's responder has scanned `next` states
    | AtFragment(k: nat)                        // at the head of the loop
    | Claimed(k: nat)                           // the request is on its way
    | Replying(k: nat, buffer: bytes)           // the peer's responder has read these bytes
    | Storing(k: nat, data: bytes, written: nat)
    | Failed(k: nat)                            // F_ERROR received, claim not yet released
    | Done

  datatype Worker = Worker(owner: nat, peer: nat, list: seq<nat>, pc: Pc)

  datatype Swarm = Swarm(nodes: seq<Node>, workers: seq<Worker>)

  /** What the environment does to a step: the network to the message a worker waits for,
      the file system to a store. A reply without a fragment leaves `stray` memory to be
      stored in its place. */
  datatype Env = Fails | Works(stray: bytes)

  datatype Label =
    | Work(i: nat, env: Env)             // worker i takes its next step
    | Spawn(owner: nat, peer: nat)       // a manager starts a worker
    | Poll(node: nat)                    // a manager asks whether its file is complete

  predicate Holding(w: Worker) {
    (w.pc.Claimed? || w.pc.Replying? || w.pc.Storing? || w.pc.Failed?) && w.pc.k < |w.list|
  }

  /** Worker `w` stands between the claim and the release of segment `f` of node `a`. */
  predicate Holds(w: Worker, a: nat, f: nat) {
    w.owner == a && Holding(w) && w.list[w.pc.k] == f
  }

  // ---------- steps ----------

  /** The new node of worker i's owner and the new state of worker i, or None where
      the program has no defined behaviour. */
  function WorkerStep(size: nat, o: Node, p: Node, w: Worker, env: Env): Option<(Node, Worker)> {
    match w.pc
    case Connecting =>
      Some((o, w.(pc := if env.Fails? then Done else Listing(0))))
    case Listing(next) =>
      if env.Fails? then Some((o, w.(list := [], pc := Done)))
      else if next < |p.file.states| then
        var list := if p.file.states[next] == COMPLETE then w.list + [next] else w.list;
        Some((o, w.(list := list, pc := Listing(next + 1))))
      else Some((o, w.(pc := AtFragment(0))))
    case AtFragment(k) =>
      if k < |w.list| then
        if w.list[k] < |o.file.states| then
          var (claimed, table) := o.file.Claim(w.list[k]);
          Some((o.(file := table), w.(pc := if claimed then Claimed(k) else AtFragment(k + 1))))
        else None
      else Some((o, w.(pc := Done)))
    case Claimed(k) =>
      if k >= |w.list| || w.list[k] >= |p.file.states| then None
      else if env.Fails? then Some((o.(errors := o.errors + {w.list[k]}), w.(pc := Failed(k))))
      else if p.file.states[w.list[k]] == COMPLETE then Some((o, w.(pc := Replying(k, []))))
      else Some((o, w.(pc := Storing(k, Block(env.stray, 0), 0))))
    case Replying(k, buffer) =>
      if k >= |w.list| then None
      else if env.Fails? then Some((o.(errors := o.errors + {w.list[k]}), w.(pc := Failed(k))))
      else if |buffer| < SEGMENT_SIZE then
        var at := Offset(w.list[k]) + |buffer|;
        if at >= size then Some((o, w.(pc := Replying(k, buffer + [0]))))
        else if at < |p.disk| then Some((o, w.(pc := Replying(k, buffer + [p.disk[at]]))))
        else None
      else Some((o, w.(pc := Storing(k, buffer, 0))))
    case Storing(k, data, written) =>
      if k >= |w.list| || w.list[k] >= |o.file.states| then None
      else if written < |data| && env.Fails? then
        Some((o.(unstored := o.unstored + {w.list[k]}), w.(pc := Storing(k, data, |data|))))
      else if written < |data| then
        Some((o.Write(w.list[k], Offset(w.list[k]) + written, data[written], p.Through(w.list[k])),
              w.(pc := Storing(k, data, written + 1))))
      else Some((o.(file := o.file.Set(w.list[k], COMPLETE)), w.(pc := AtFragment(k + 1))))
    case Failed(k) =>
      if k >= |w.list| || w.list[k] >= |o.file.states| then None
      else Some((o.(file := o.file.Set(w.list[k], FREE)), w.(pc := AtFragment(k + 1))))
    case Done => None
  }

  function Step(size: nat, s: Swarm, l: Label): Option<Swarm> {
    match l
    case Work(i, env) =>
      if i >= |s.workers| then None
      else
        var w := s.workers[i];
        if w.owner >= |s.nodes| || w.peer >= |s.nodes| then None
        else
          var r := WorkerStep(size, s.nodes[w.owner], s.nodes[w.peer], w, env);
          if r.None? then None
          else Some(Swarm(s.nodes[w.owner := r.value.0], s.workers[i := r.value.1]))
    case Spawn(owner, peer) =>
      if owner >= |s.nodes| || peer >= |s.nodes| then None
      else Some(s.(workers := s.workers + [Worker(owner, peer, [], Connecting)]))
    case Poll(a) =>
      if a >= |s.nodes| then None
      else Some(s.(nodes := s.nodes[a := s.nodes[a].(file := s.nodes[a].file.Poll())]))
  }

  function Run(size: nat, s: Swarm, labels: seq<Label>): Option<Swarm> {
    if labels == [] then Some(s)
    else
      var n := |labels| - 1;
      var r := Run(size, s, labels[..n]);
      if r.None? then None else Step(size, r.value, labels[n])
  }

  // ---------- initial states ----------

  /** A seed holds the source and has every segment COMPLETE. */
  ghost predicate Seed(source: bytes, n: Node) {
    && n.disk == source
    && |n.file.states| == SegmentCount(|source|)
    && n.file.AllComplete()
    && n.stored == map[]
    && forall f: nat | f < |n.file.states| :: n.Through(f) == SEGMENT_SIZE
  }

  /** A leecher has just created its zero-filled local file. */
  ghost predicate Leecher(source: bytes, n: Node) {
    && n.disk == Zeros(|source|)
    && |n.file.states| == SegmentCount(|source|)
    && !n.file.isCompleted
    && n.stored == map[]
    && n.through == map[]
    && forall f: nat | f < |n.file.states| :: n.file.states[f] == FREE
  }

  ghost predicate Init(source: bytes, s: Swarm) {
    && s.workers == []
    && forall a: nat | a < |s.nodes| ::
         && s.nodes[a].errors == {}
         && s.nodes[a].unstored == {}
         && (Seed(source, s.nodes[a]) || Leecher(source, s.nodes[a]))
  }

  // ---------- the invariant ----------

  /** The segments of which some store failed, at whatever node. */
  ghost function Spoiled(nodes: seq<Node>): set<nat> {
    set a: nat, f: nat | a < |nodes| && f in nodes[a].unstored :: f
  }

  /** On disk is as much of segment f as has come through, and a FREE segment is untouched. */
  ghost predicate SegmentOk(source: bytes, n: Node, f: nat)
    requires f < |n.file.states|
  {
    && n.Through(f) <= SEGMENT_SIZE
    && HoldsUpTo(n.disk, source, f, n.Through(f))
    && |n.Stored(f)| <= SEGMENT_SIZE
    && (n.file.states[f] == FREE ==> Untouched(n, f))
  }

  predicate Untouched(n: Node, f: nat) {
    n.Stored(f) == [] && n.Through(f) == 0
  }

  ghost predicate NodeOk(source: bytes, n: Node) {
    && |n.file.states| == SegmentCount(|source|)
    && |source| <= |n.disk| <= Offset(SegmentCount(|source|))
    && n.file.LatchSound()
    && forall f: nat | f < |n.file.states| :: SegmentOk(source, n, f)
  }

  /** Everything the peer has listed is COMPLETE there now. */
  ghost predicate Served(p: Node, list: seq<nat>) {
    forall j: nat | j < |list| :: list[j] < |p.file.states| && p.file.states[list[j]] == COMPLETE
  }

  /** How many list entries the worker has left behind. */
  function Behind(w: Worker): nat {
    match w.pc
    case Connecting => 0
    case Listing(_) => 0
    case Done => |w.list|
    case _ => w.pc.k
  }

  /** An entry left behind is not FREE, unless some download of it failed. */
  ghost predicate Settled(o: Node, w: Worker) {
    forall j: nat | j < Behind(w) && j < |w.list| && w.list[j] < |o.file.states| ::
      o.file.states[w.list[j]] != FREE || w.list[j] in o.errors
  }

  /** What a worker of node `o` with peer `p` knows at its place in the loop: the bytes on
      their way are those that the peer's disk has, and go to the own disk in order. */
  ghost predicate PcOk(source: bytes, o: Node, p: Node, w: Worker) {
    match w.pc
    case Connecting => w.list == []
    case Listing(next) => next <= SegmentCount(|source|) && |w.list| <= next
    case AtFragment(k) => k <= |w.list|
    case Claimed(k) => k < |w.list| && Untouched(o, w.list[k])
    case Failed(k) => k < |w.list| && Untouched(o, w.list[k]) && w.list[k] in o.errors
    case Replying(k, buffer) =>
      && k < |w.list|
      && Untouched(o, w.list[k])
      && buffer <= Cut(source, w.list[k], p.Through(w.list[k]))
    case Storing(k, data, written) =>
      && k < |w.list|
      && data == Cut(source, w.list[k], p.Through(w.list[k]))
      && written <= SEGMENT_SIZE
      && StoreOk(o, p, w.list[k], data, written)
    case Done => true
  }

  /** The store of segment f has come as far as `written`, or it has failed before. */
  predicate StoreOk(o: Node, p: Node, f: nat, data: bytes, written: nat) {
    && o.Stored(f) <= data
    && o.Through(f) == Min(|o.Stored(f)|, p.Through(f))
    && |o.Stored(f)| <= written
    && (|o.Stored(f)| < written ==> written == |data| && f in o.unstored)
  }

  ghost predicate WorkerOk(source: bytes, nodes: seq<Node>, w: Worker) {
    && w.owner < |nodes|
    && w.peer < |nodes|
    && |w.list| <= SegmentCount(|source|)
    && Served(nodes[w.peer], w.list)
    && Settled(nodes[w.owner], w)
    && PcOk(source, nodes[w.owner], nodes[w.peer], w)
  }

  ghost predicate SomeHolder(s: Swarm, a: nat, f: nat) {
    exists i: nat :: i < |s.workers| && Holds(s.workers[i], a, f)
  }

  /** What a worker holds is DOWNLOADING at its owner. */
  ghost predicate ClaimOk(nodes: seq<Node>, w: Worker) {
    Holding(w) ==>
      && w.owner < |nodes|
      && w.list[w.pc.k] < |nodes[w.owner].file.states|
      && nodes[w.owner].file.states[w.list[w.pc.k]] == DOWNLOADING
  }

  /** Two workers hold the same segment of the same node. */
  predicate Clash(w: Worker, v: Worker) {
    Holding(w) && Holding(v) && w.owner == v.owner && w.list[w.pc.k] == v.list[v.pc.k]
  }

  /** Every DOWNLOADING segment of a node is held by some worker. */
  ghost predicate AllHeld(s: Swarm) {
    forall a: nat, f: nat | a < |s.nodes| && f < |s.nodes[a].file.states| ::
      s.nodes[a].file.states[f] == DOWNLOADING ==> SomeHolder(s, a, f)
  }

  /** DOWNLOADING segments and the workers between claim and release correspond one to one. */
  ghost predicate ClaimsMatch(s: Swarm) {
    && (forall i: nat | i < |s.workers| :: ClaimOk(s.nodes, s.workers[i]))
    && (forall i: nat, j: nat | i < |s.workers| && j < |s.workers| && i != j :: !Clash(s.workers[i], s.workers[j]))
    && AllHeld(s)
  }

  ghost predicate Inv(source: bytes, s: Swarm) {
    && (forall a: nat | a < |s.nodes| :: NodeOk(source, s.nodes[a]))
    && (forall i: nat | i < |s.workers| :: WorkerOk(source, s.nodes, s.workers[i]))
    && ClaimsMatch(s)
  }

  lemma InitInv(source: bytes, s: Swarm)
    requires Init(source, s)
    ensures Inv(source, s)
  {
  }

  // ---------- what one step may do to a node ----------

  /** Node `n` became `m` by a step on segment `f`: nothing else moved, COMPLETE stays
      COMPLETE with its bytes, and a release leaves an entry in the error history. */
  ghost predicate Evolves(n: Node, m: Node, f: nat) {
    && |m.file.states| == |n.file.states|
    && (forall g: nat | g < |n.file.states| && g != f :: m.file.states[g] == n.file.states[g])
    && (f < |n.file.states| && n.file.states[f] == COMPLETE ==> m.file.states[f] == COMPLETE)
    && (f < |n.file.states| && m.file.states[f] == FREE ==> n.file.states[f] == FREE || f in m.errors)
    && |m.disk| >= |n.disk|
    && (forall p: nat | !InSegment(f, p) :: ByteAt(m.disk, p) == ByteAt(n.disk, p))
    && n.errors <= m.errors
    && n.unstored <= m.unstored
    && (forall g: nat | g != f :: m.Stored(g) == n.Stored(g) && m.Through(g) == n.Through(g))
    && (f < |n.file.states| && n.file.states[f] == COMPLETE ==> m.Through(f) == n.Through(f))
  }

  /** A bystander that does not hold segment f of node a is not disturbed. */
  lemma BystanderOk(source: bytes, nodes: seq<Node>, a: nat, m: Node, f: nat, x: Worker)
    requires a < |nodes| && Evolves(nodes[a], m, f)
    requires WorkerOk(source, nodes, x) && !Holds(x, a, f)
    ensures WorkerOk(source, nodes[a := m], x)
  {
    var nodes' := nodes[a := m];
    assert Served(nodes'[x.peer], x.list);
    assert Settled(nodes'[x.owner], x);
    if Holding(x) {
      var g := x.list[x.pc.k];
      assert Holds(x, x.owner, g) && nodes[x.peer].file.states[g] == COMPLETE;
      assert nodes'[x.peer].Through(g) == nodes[x.peer].Through(g);
    }
  }

  /** What a step of worker `w` of node `o`, which is node `a`, has to make of its owner and
      of itself so that the invariant is kept: it works on one segment f, which was FREE or
      its own, and afterwards holds it exactly if it is DOWNLOADING. */
  ghost predicate StepsOn(o: Node, w: Worker, m: Node, w': Worker, f: nat) {
    && w'.owner == w.owner
    && Evolves(o, m, f)
    && f < |o.file.states|
    && (o.file.states[f] == FREE || Holds(w, w.owner, f))
    && (Holding(w) ==> w.list[w.pc.k] == f)
    && (Holding(w') ==> w'.list[w'.pc.k] == f)
    && (Holding(w') <==> m.file.states[f] == DOWNLOADING)
  }

  lemma OthersDoNotHold(s: Swarm, i: nat, j: nat, f: nat)
    requires ClaimsMatch(s) && i < |s.workers| && j < |s.workers| && j != i
    requires var a := s.workers[i].owner;
      a < |s.nodes| && f < |s.nodes[a].file.states| && (s.nodes[a].file.states[f] == FREE || Holds(s.workers[i], a, f))
    ensures !Holds(s.workers[j], s.workers[i].owner, f)
  {
    assert ClaimOk(s.nodes, s.workers[j]) && !Clash(s.workers[i], s.workers[j]);
  }

  lemma HoldersAfterStep(s: Swarm, i: nat, m: Node, w': Worker, f: nat)
    requires AllHeld(s) && i < |s.workers| && s.workers[i].owner < |s.nodes|
    requires StepsOn(s.nodes[s.workers[i].owner], s.workers[i], m, w', f)
    ensures AllHeld(Swarm(s.nodes[s.workers[i].owner := m], s.workers[i := w']))
  {
    var a := s.workers[i].owner;
    var s' := Swarm(s.nodes[a := m], s.workers[i := w']);
    forall b: nat, g: nat | b < |s'.nodes| && g < |s'.nodes[b].file.states| && s'.nodes[b].file.states[g] == DOWNLOADING
      ensures SomeHolder(s', b, g)
    {
      if b == a && g == f {
        assert Holds(s'.workers[i], b, g);
      } else {
        assert s.nodes[b].file.states[g] == DOWNLOADING;
        assert SomeHolder(s, b, g);
        var j: nat :| j < |s.workers| && Holds(s.workers[j], b, g);
        assert Holds(s'.workers[j], b, g);
      }
    }
  }

  lemma ClaimsAfterStep(s: Swarm, i: nat, m: Node, w': Worker, f: nat)
    requires ClaimsMatch(s) && i < |s.workers| && s.workers[i].owner < |s.nodes|
    requires StepsOn(s.nodes[s.workers[i].owner], s.workers[i], m, w', f)
    ensures ClaimsMatch(Swarm(s.nodes[s.workers[i].owner := m], s.workers[i := w']))
  {
    var a := s.workers[i].owner;
    HoldersAfterStep(s, i, m, w', f);
    forall j: nat | j < |s.workers| && j != i
      ensures ClaimOk(s.nodes[a := m], s.workers[j])
      ensures !Clash(s.workers[j], w') && !Clash(w', s.workers[j])
    {
      assert ClaimOk(s.nodes, s.workers[j]);
      OthersDoNotHold(s, i, j, f);
    }
    assert ClaimOk(s.nodes[a := m], w');
  }

  /** Worker i's step on segment f of its owner keeps the invariant. */
  lemma StepOnSegment(source: bytes, s: Swarm, i: nat, m: Node, w': Worker, f: nat)
    requires Inv(source, s) && i < |s.workers|
    requires StepsOn(s.nodes[s.workers[i].owner], s.workers[i], m, w', f)
    requires NodeOk(source, m)
    requires WorkerOk(source, s.nodes[s.workers[i].owner := m], w')
    ensures Inv(source, Swarm(s.nodes[s.workers[i].owner := m], s.workers[i := w']))
  {
    var a := s.workers[i].owner;
    ClaimsAfterStep(s, i, m, w', f);
    forall j: nat | j < |s.workers| && j != i
      ensures WorkerOk(source, s.nodes[a := m], s.workers[j])
    {
      OthersDoNotHold(s, i, j, f);
      BystanderOk(source, s.nodes, a, m, f, s.workers[j]);
    }
  }

  /** A step that only moves worker i along, neither taking nor giving up a claim. */
  lemma StepInPlace(source: bytes, s: Swarm, i: nat, w': Worker)
    requires Inv(source, s) && i < |s.workers|
    requires WorkerOk(source, s.nodes, w')
    requires !Holding(s.workers[i]) && !Holding(w')
    ensures Inv(source, Swarm(s.nodes, s.workers[i := w']))
  {
    var s' := Swarm(s.nodes, s.workers[i := w']);
    forall b: nat, g: nat | b < |s'.nodes| && g < |s'.nodes[b].file.states| && s'.nodes[b].file.states[g] == DOWNLOADING
      ensures SomeHolder(s', b, g)
    {
      assert SomeHolder(s, b, g);
      var j: nat :| j < |s.workers| && Holds(s.workers[j], b, g);
      assert Holds(s'.workers[j], b, g);
    }
  }

  // ---------- every step keeps the invariant ----------

  lemma ClaimStep(source: bytes, s: Swarm, i: nat, env: Env, s': Swarm)
    requires Inv(source, s) && i < |s.workers| && s.workers[i].pc.AtFragment?
    requires Step(|source|, s, Work(i, env)) == Some(s')
    ensures Inv(source, s')
  {
    var w := s.workers[i];
    var o := s.nodes[w.owner];
    assert WorkerOk(source, s.nodes, w) && NodeOk(source, o);
    if w.pc.k < |w.list| && o.file.states[w.list[w.pc.k]] == FREE {
      var f := w.list[w.pc.k];
      var m, w' := o.(file := o.file.Set(f, DOWNLOADING)), w.(pc := Claimed(w.pc.k));
      TakeOk(source, o, f);
      OwnStepOk(source, s.nodes, w, m, w', f);
      StepOnSegment(source, s, i, m, w', f);
    } else {
      assert s'.nodes == s.nodes;
      StepInPlace(source, s, i, s'.workers[i]);
    }
  }

  /** What is left to show of the worker itself when it steps on segment f: its position. */
  lemma OwnStepOk(source: bytes, nodes: seq<Node>, w: Worker, m: Node, w': Worker, f: nat)
    requires WorkerOk(source, nodes, w) && Evolves(nodes[w.owner], m, f)
    requires w' == w.(pc := w'.pc) && PcOk(source, m, nodes[w.peer], w')
    requires Behind(w') == Behind(w) || (Behind(w') == Behind(w) + 1 && Behind(w) < |w.list| && w.list[Behind(w)] == f)
    requires Behind(w') == Behind(w) + 1 && f < |m.file.states| ==> m.file.states[f] != FREE || f in m.errors
    ensures WorkerOk(source, nodes[w.owner := m], w')
  {
    assert Served(nodes[w.owner := m][w.peer], w.list);
    assert Settled(nodes[w.owner], w);
    assert Settled(m, w');
    if w'.pc.Replying? || w'.pc.Storing? {
      var g := w.list[w'.pc.k];
      assert nodes[w.peer].file.states[g] == COMPLETE;
      assert nodes[w.owner := m][w.peer].Through(g) == nodes[w.peer].Through(g);
    }
  }

  lemma ListStep(source: bytes, s: Swarm, i: nat, env: Env, s': Swarm)
    requires Inv(source, s) && i < |s.workers| && (s.workers[i].pc.Connecting? || s.workers[i].pc.Listing?)
    requires Step(|source|, s, Work(i, env)) == Some(s')
    ensures Inv(source, s')
  {
    var w := s.workers[i];
    assert WorkerOk(source, s.nodes, w) && NodeOk(source, s.nodes[w.peer]);
    assert s'.nodes == s.nodes;
    StepInPlace(source, s, i, s'.workers[i]);
  }

  /** F_ERROR, or a reply that is delivered: the claim stays where it is. */
  lemma RequestStep(source: bytes, s: Swarm, i: nat, env: Env, s': Swarm)
    requires Inv(source, s) && i < |s.workers| && (s.workers[i].pc.Claimed? || s.workers[i].pc.Replying?)
    requires Step(|source|, s, Work(i, env)) == Some(s')
    ensures Inv(source, s')
  {
    var w := s.workers[i];
    var o := s.nodes[w.owner];
    assert WorkerOk(source, s.nodes, w);
    var f := w.list[w.pc.k];
    assert Holds(w, w.owner, f) && NodeOk(source, s.nodes[w.peer]);
    if env.Fails? {
      ErrorOk(source, o, s.nodes[w.peer], w);
    } else {
      ReplyOk(source, o, s.nodes[w.peer], w, env);
    }
    OwnStepOk(source, s.nodes, w, s'.nodes[w.owner], s'.workers[i], f);
    StepOnSegment(source, s, i, s'.nodes[w.owner], s'.workers[i], f);
  }

  lemma ErrorOk(source: bytes, o: Node, p: Node, w: Worker)
    requires NodeOk(source, o) && (w.pc.Claimed? || w.pc.Replying?) && PcOk(source, o, p, w)
    ensures var f := w.list[w.pc.k];
      var m := o.(errors := o.errors + {f});
      NodeOk(source, m) && Evolves(o, m, f) && PcOk(source, m, p, w.(pc := Failed(w.pc.k)))
  {
    UntouchedFree(source, o);
    SameDisk(source, o, o.(errors := o.errors + {w.list[w.pc.k]}));
  }

  /** The peer has the segment, so the reply grows by the next byte of the peer's disk. */
  lemma ReplyOk(source: bytes, o: Node, p: Node, w: Worker, env: Env)
    requires NodeOk(source, p) && Served(p, w.list) && env.Works?
    requires (w.pc.Claimed? || w.pc.Replying?) && PcOk(source, o, p, w)
    ensures var r := WorkerStep(|source|, o, p, w, env);
      r.Some? ==>
        var (m, v) := r.value;
        m == o && PcOk(source, o, p, v) && v == w.(pc := v.pc) && Holding(v) && v.pc.k == w.pc.k
  {
    var f := w.list[w.pc.k];
    assert SegmentOk(source, p, f);
    if w.pc.Replying? {
      var buffer, c := w.pc.buffer, Cut(source, f, p.Through(f));
      if |buffer| < SEGMENT_SIZE {
        assert InSegment(f, Offset(f) + |buffer|);
        PrefixNext(buffer, c);
      } else {
        assert buffer == c;
      }
    }
  }

  lemma StoreStep(source: bytes, s: Swarm, i: nat, env: Env, s': Swarm)
    requires Inv(source, s) && i < |s.workers| && s.workers[i].pc.Storing?
    requires Step(|source|, s, Work(i, env)) == Some(s')
    ensures Inv(source, s')
  {
    var w := s.workers[i];
    var o, p := s.nodes[w.owner], s.nodes[w.peer];
    assert WorkerOk(source, s.nodes, w) && NodeOk(source, o) && ClaimOk(s.nodes, w);
    var f := w.list[w.pc.k];
    assert Holds(w, w.owner, f);
    StoringOk(source, o, p, w, env);
    OwnStepOk(source, s.nodes, w, s'.nodes[w.owner], s'.workers[i], f);
    StepOnSegment(source, s, i, s'.nodes[w.owner], s'.workers[i], f);
  }

  /** A storing worker writes a byte, fails, or marks the segment. */
  lemma StoringOk(source: bytes, o: Node, p: Node, w: Worker, env: Env)
    requires NodeOk(source, o) && w.pc.Storing? && PcOk(source, o, p, w)
    requires var f := w.list[w.pc.k]; f < |o.file.states| && o.file.states[f] == DOWNLOADING
    ensures WorkerStep(|source|, o, p, w, env).Some?
    ensures var (m, v) := WorkerStep(|source|, o, p, w, env).value;
      var f := w.list[w.pc.k];
      && NodeOk(source, m) && Evolves(o, m, f) && PcOk(source, m, p, v) && v == w.(pc := v.pc)
      && (Holding(v) <==> m.file.states[f] == DOWNLOADING)
      && (if Holding(v) then v.pc.k == w.pc.k else v.pc == AtFragment(w.pc.k + 1) && m.file.states[f] == COMPLETE)
  {
    var f := w.list[w.pc.k];
    if w.pc.written == |w.pc.data| {
      MarkOk(source, o, f);
    } else if env.Works? {
      StoreByteOk(source, o, p, f, w.pc.data, w.pc.written);
    } else {
      UntouchedFree(source, o);
      SameDisk(source, o, o.(unstored := o.unstored + {f}));
    }
  }

  /** A byte written into a DOWNLOADING segment brings it one byte further, and leaves the
      other segments alone. */
  lemma StoreByteOk(source: bytes, o: Node, p: Node, f: nat, data: bytes, written: nat)
    requires NodeOk(source, o) && f < |o.file.states| && o.file.states[f] == DOWNLOADING
    requires data == Cut(source, f, p.Through(f)) && written < |data| && StoreOk(o, p, f, data, written)
    ensures var m := o.Write(f, Offset(f) + written, data[written], p.Through(f));
      NodeOk(source, m) && Evolves(o, m, f) && StoreOk(m, p, f, data, written + 1)
  {
    var m := o.Write(f, Offset(f) + written, data[written], p.Through(f));
    WriteHere(source, o, p, f, data, written);
    WriteEvolves(o, f, written, data[written], p.Through(f));
    assert Offset(f) + written < Offset(SegmentCount(|source|));
    forall g: nat | g < |m.file.states|
      ensures SegmentOk(source, m, g)
    {
      if g != f {
        WriteElsewhere(source, o, f, Offset(f) + written, data[written], p.Through(f), g);
      }
    }
  }

  lemma PrefixNext(a: bytes, b: bytes)
    requires a <= b && |a| < |b|
    ensures a + [b[|a|]] <= b
  {
  }

  lemma WriteHere(source: bytes, o: Node, p: Node, f: nat, data: bytes, written: nat)
    requires f < |o.file.states| && SegmentOk(source, o, f) && o.file.states[f] == DOWNLOADING
    requires data == Cut(source, f, p.Through(f)) && written < |data| && StoreOk(o, p, f, data, written)
    ensures var m := o.Write(f, Offset(f) + written, data[written], p.Through(f));
      SegmentOk(source, m, f) && StoreOk(m, p, f, data, written + 1)
  {
    var at := Offset(f) + written;
    var m := o.Write(f, at, data[written], p.Through(f));
    PrefixNext(o.Stored(f), data);
    assert m.Stored(f) == o.Stored(f) + [data[written]];
    forall q: nat | InSegment(f, q)
      ensures ByteAt(m.disk, q) == if q < Offset(f) + m.Through(f) then ByteAt(source, q) else 0
    {
      assert q != at ==> ByteAt(m.disk, q) == ByteAt(o.disk, q);
    }
  }

  lemma WriteEvolves(o: Node, f: nat, written: nat, b: byte, whole: nat)
    requires f < |o.file.states| && o.file.states[f] == DOWNLOADING && written < SEGMENT_SIZE
    ensures Evolves(o, o.Write(f, Offset(f) + written, b, whole), f)
  {
  }

  lemma WriteElsewhere(source: bytes, o: Node, f: nat, at: nat, b: byte, whole: nat, g: nat)
    requires g < |o.file.states| && SegmentOk(source, o, g) && InSegment(f, at) && g != f
    ensures SegmentOk(source, o.Write(f, at, b, whole), g)
  {
    assert forall q: nat | InSegment(g, q) :: q != at;
  }

  /** Where a node's disk and its histories stay the same, so does what is on disk. */
  lemma SameDisk(source: bytes, o: Node, m: Node)
    requires NodeOk(source, o) && m == o.(file := m.file, errors := m.errors, unstored := m.unstored)
    requires |m.file.states| == |o.file.states| && m.file.LatchSound()
    requires forall f: nat | f < |m.file.states| && m.file.states[f] == FREE :: Untouched(m, f)
    ensures NodeOk(source, m)
  {
    forall f: nat | f < |m.file.states|
      ensures SegmentOk(source, m, f)
    {
      assert SegmentOk(source, o, f);
    }
  }

  lemma UntouchedFree(source: bytes, o: Node)
    requires NodeOk(source, o)
    ensures forall f: nat | f < |o.file.states| && o.file.states[f] == FREE :: Untouched(o, f)
  {
    forall f: nat | f < |o.file.states| && o.file.states[f] == FREE
      ensures Untouched(o, f)
    {
      assert SegmentOk(source, o, f);
    }
  }

  lemma MarkOk(source: bytes, o: Node, f: nat)
    requires NodeOk(source, o) && f < |o.file.states| && o.file.states[f] == DOWNLOADING
    ensures var m := o.(file := o.file.Set(f, COMPLETE)); NodeOk(source, m) && Evolves(o, m, f)
  {
    SetKeepsLatch(o.file, f, COMPLETE);
    UntouchedFree(source, o);
    SameDisk(source, o, o.(file := o.file.Set(f, COMPLETE)));
  }

  lemma ReleaseOk(source: bytes, o: Node, f: nat)
    requires NodeOk(source, o) && f < |o.file.states| && o.file.states[f] == DOWNLOADING && f in o.errors
    requires Untouched(o, f)
    ensures var m := o.(file := o.file.Set(f, FREE)); NodeOk(source, m) && Evolves(o, m, f)
  {
    SetKeepsLatch(o.file, f, FREE);
    UntouchedFree(source, o);
    SameDisk(source, o, o.(file := o.file.Set(f, FREE)));
  }

  lemma TakeOk(source: bytes, o: Node, f: nat)
    requires NodeOk(source, o) && f < |o.file.states| && o.file.states[f] == FREE
    ensures var m := o.(file := o.file.Set(f, DOWNLOADING)); NodeOk(source, m) && Evolves(o, m, f) && Untouched(m, f)
  {
    SetKeepsLatch(o.file, f, DOWNLOADING);
    assert SegmentOk(source, o, f);
    UntouchedFree(source, o);
    SameDisk(source, o, o.(file := o.file.Set(f, DOWNLOADING)));
  }

  lemma ReleaseStep(source: bytes, s: Swarm, i: nat, env: Env, s': Swarm)
    requires Inv(source, s) && i < |s.workers| && s.workers[i].pc.Failed?
    requires Step(|source|, s, Work(i, env)) == Some(s')
    ensures Inv(source, s')
  {
    var w := s.workers[i];
    var o := s.nodes[w.owner];
    assert WorkerOk(source, s.nodes, w) && NodeOk(source, o);
    var f := w.list[w.pc.k];
    assert Holds(w, w.owner, f);
    var m, w' := s'.nodes[w.owner], s'.workers[i];
    assert ClaimOk(s.nodes, w) && w' == w.(pc := AtFragment(w.pc.k + 1));
    ReleaseOk(source, o, f);
    OwnStepOk(source, s.nodes, w, m, w', f);
    StepOnSegment(source, s, i, m, w', f);
  }

  lemma SpawnStep(source: bytes, s: Swarm, owner: nat, peer: nat)
    requires Inv(source, s) && owner < |s.nodes| && peer < |s.nodes|
    ensures Inv(source, Step(|source|, s, Spawn(owner, peer)).value)
  {
    var w := Worker(owner, peer, [], Connecting);
    var s' := Swarm(s.nodes, s.workers + [w]);
    assert WorkerOk(source, s.nodes, w) && ClaimOk(s.nodes, w);
    HoldersRemain(s, s');
    assert ClaimsMatch(s');
  }

  /** A segment keeps its holder when workers are added and no state becomes DOWNLOADING. */
  lemma HoldersRemain(s: Swarm, s': Swarm)
    requires ClaimsMatch(s) && s.workers <= s'.workers && |s'.nodes| == |s.nodes|
    requires forall a: nat | a < |s.nodes| :: s'.nodes[a].file.states == s.nodes[a].file.states
    ensures AllHeld(s')
  {
    forall b: nat, g: nat | b < |s'.nodes| && g < |s'.nodes[b].file.states| && s'.nodes[b].file.states[g] == DOWNLOADING
      ensures SomeHolder(s', b, g)
    {
      assert s.nodes[b].file.states[g] == DOWNLOADING;
      assert SomeHolder(s, b, g);
      var j: nat :| j < |s.workers| && Holds(s.workers[j], b, g);
      assert Holds(s'.workers[j], b, g);
    }
  }

  lemma PollStep(source: bytes, s: Swarm, a: nat)
    requires Inv(source, s) && a < |s.nodes|
    ensures Inv(source, Step(|source|, s, Poll(a)).value)
  {
    var s' := Step(|source|, s, Poll(a)).value;
    PollAgreesWithScan(s.nodes[a].file);
    UntouchedFree(source, s.nodes[a]);
    SameDisk(source, s.nodes[a], s'.nodes[a]);
    forall j: nat | j < |s'.workers|
      ensures WorkerOk(source, s'.nodes, s'.workers[j])
      ensures ClaimOk(s'.nodes, s'.workers[j])
    {
      assert WorkerOk(source, s.nodes, s.workers[j]) && ClaimOk(s.nodes, s.workers[j]);
    }
    HoldersRemain(s, s');
  }

  lemma StepInv(source: bytes, s: Swarm, l: Label, s': Swarm)
    requires Inv(source, s) && Step(|source|, s, l) == Some(s')
    ensures Inv(source, s')
  {
    match l
    case Spawn(owner, peer) => SpawnStep(source, s, owner, peer);
    case Poll(a) => PollStep(source, s, a);
    case Work(i, env) =>
      match s.workers[i].pc
      case Connecting => ListStep(source, s, i, env, s');
      case Listing(_) => ListStep(source, s, i, env, s');
      case AtFragment(_) => ClaimStep(source, s, i, env, s');
      case Claimed(_) => RequestStep(source, s, i, env, s');
      case Replying(_, _) => RequestStep(source, s, i, env, s');
      case Storing(_, _, _) => StoreStep(source, s, i, env, s');
      case Failed(_) => ReleaseStep(source, s, i, env, s');
      case Done =>
  }

  lemma SpoiledGrows(size: nat, s: Swarm, l: Label, s': Swarm)
    requires Step(size, s, l) == Some(s')
    ensures Spoiled(s.nodes) <= Spoiled(s'.nodes)
  {
    forall f | f in Spoiled(s.nodes)
      ensures f in Spoiled(s'.nodes)
    {
      var a: nat :| a < |s.nodes| && f in s.nodes[a].unstored;
      assert f in s'.nodes[a].unstored;
    }
  }

  lemma {:induction false} RunInv(source: bytes, s0: Swarm, labels: seq<Label>, s: Swarm)
    requires Inv(source, s0) && Run(|source|, s0, labels) == Some(s)
    ensures Inv(source, s)
  {
    if labels != [] {
      var n := |labels| - 1;
      var r := Run(|source|, s0, labels[..n]).value;
      RunInv(source, s0, labels[..n], r);
      StepInv(source, r, labels[n], s);
    }
  }
}
