/** The fine-grained steps of the swarm against the methods of the client: a worker that
    nobody disturbs does what calling the methods one after the other does. */
module SwarmRefinement {
  import opened Common
  import opened Blocks
  import opened SegmentTable
  import opened Swarm
  import opened Responder
  import opened SwarmOutcome
  import opened ClientFile
  import FM = FileManager

  /** Worker `w` of node `o` takes n steps while its peer stays as it is and all messages
      arrive. */
  function Alone(size: nat, o: Node, p: Node, w: Worker, n: nat): Option<(Node, Worker)> {
    if n == 0 then Some((o, w))
    else
      var r := Alone(size, o, p, w, n - 1);
      if r.None? then None else WorkerStep(size, r.value.0, p, r.value.1, Works([]))
  }

  /** The peer as its responder offers it. */
  function OfferedBy(p: Node, size: nat): Offered {
    Offered(0, p.file.states, size, p.disk)
  }

  /** The scan of the peer's states gives the list that the responder's loop builds. */
  lemma {:induction false} AloneScan(size: nat, o: Node, p: Node, w: Worker, n: nat)
    requires w.pc == Listing(0) && w.list == [] && n <= |p.file.states|
    ensures Alone(size, o, p, w, n) == Some((o, w.(list := CompleteIds(p.file.states, n), pc := Listing(n))))
  {
    if n == 0 {
      assert w.(list := CompleteIds(p.file.states, 0), pc := Listing(0)) == w;
    } else {
      AloneScan(size, o, p, w, n - 1);
      var before := w.(list := CompleteIds(p.file.states, n - 1), pc := Listing(n - 1));
      AloneStep(size, o, p, w, n, o, before);
      ScanStep(size, o, p, before);
      assert CompleteIds(p.file.states, n) == before.list + if p.file.states[n - 1] == COMPLETE then [n - 1] else [];
    }
  }

  lemma ScanStep(size: nat, o: Node, p: Node, w: Worker)
    requires w.pc.Listing? && w.pc.next < |p.file.states|
    ensures WorkerStep(size, o, p, w, Works([])) ==
      Some((o, w.(list := w.list + (if p.file.states[w.pc.next] == COMPLETE then [w.pc.next] else []),
                  pc := Listing(w.pc.next + 1))))
  {
    assert w.list + [] == w.list;
  }

  /** Requesting the list ends with exactly the list reply of the responder. */
  lemma AloneList(size: nat, o: Node, p: Node, w: Worker)
    requires w.pc == Listing(0) && w.list == []
    ensures Alone(size, o, p, w, |p.file.states| + 1) ==
      Some((o, w.(list := ListOf([OfferedBy(p, size)], 0), pc := AtFragment(0))))
  {
    AloneScan(size, o, p, w, |p.file.states|);
    assert ListOf([OfferedBy(p, size)], 0) == CompleteIds(p.file.states, |p.file.states|);
  }

  /** Worker `w` is about to download a FREE segment that its peer has. */
  ghost predicate Ready(size: nat, o: Node, p: Node, w: Worker) {
    && w.pc.AtFragment?
    && w.pc.k < |w.list|
    && var f := w.list[w.pc.k];
    && f < |o.file.states| && o.file.states[f] == FREE
    && f < |p.file.states| == SegmentCount(size) && p.file.states[f] == COMPLETE
    && |p.disk| >= size
  }

  /** The fragment in the responder's reply. */
  function Fragment(size: nat, p: Node, f: nat): (b: bytes)
    requires f < |p.file.states| == SegmentCount(size) && |p.disk| >= size
    ensures |b| == SEGMENT_SIZE
    ensures forall j: nat :: j < SEGMENT_SIZE ==>
      b[j] == if Offset(f) + j < size then p.disk[Offset(f) + j] else 0
  {
    var pad := Zeros(SEGMENT_SIZE - ClippedSize(size, f));
    assert forall j: nat | j < |pad| :: pad[j] == ByteAt(pad, j);
    SegmentOf(OfferedBy(p, size), f)
  }

  lemma {:induction false} AloneRead(size: nat, o: Node, p: Node, w: Worker, n: nat)
    requires Ready(size, o, p, w) && n <= SEGMENT_SIZE
    ensures var f := w.list[w.pc.k];
      Alone(size, o, p, w, n + 2) ==
      Some((o.(file := o.file.Claim(f).1), w.(pc := Replying(w.pc.k, Fragment(size, p, f)[..n]))))
  {
    var f := w.list[w.pc.k];
    if n == 0 {
      assert Alone(size, o, p, w, 0) == Some((o, w));
      assert Alone(size, o, p, w, 1) == Some((o.(file := o.file.Claim(f).1), w.(pc := Claimed(w.pc.k))));
      assert Fragment(size, p, f)[..0] == [];
    } else {
      AloneRead(size, o, p, w, n - 1);
      var b := Fragment(size, p, f);
      var o1, w1 := o.(file := o.file.Claim(f).1), w.(pc := Replying(w.pc.k, b[..n - 1]));
      AloneStep(size, o, p, w, n + 2, o1, w1);
      ReadStep(size, o1, p, w1);
      assert b[..n] == b[..n - 1] + [b[n - 1]];
    }
  }

  lemma ReadStep(size: nat, o: Node, p: Node, w: Worker)
    requires w.pc.Replying? && w.pc.k < |w.list| && |w.pc.buffer| < SEGMENT_SIZE && |p.disk| >= size
    ensures var at := Offset(w.list[w.pc.k]) + |w.pc.buffer|;
      WorkerStep(size, o, p, w, Works([])) ==
      Some((o, w.(pc := Replying(w.pc.k, w.pc.buffer + [if at < size then p.disk[at] else 0]))))
  {
  }

  /** The owner and the worker while the fragment is being stored; of the owner's histories
      nothing is said. */
  ghost predicate WhileStoring(size: nat, o: Node, p: Node, w: Worker, written: nat, o1: Node, w1: Worker)
    requires Ready(size, o, p, w) && written <= SEGMENT_SIZE
  {
    var f := w.list[w.pc.k];
    var b := Fragment(size, p, f);
    && o1.file == o.file.Claim(f).1
    && o1.disk == WriteAt(o.disk, Offset(f), b[..written])
    && o1.errors == o.errors
    && o1.unstored == o.unstored
    && w1 == w.(pc := Storing(w.pc.k, b, written))
  }

  lemma DeliverStep(size: nat, o: Node, p: Node, w: Worker) returns (o1: Node, w1: Worker)
    requires Ready(size, o, p, w)
    ensures var f := w.list[w.pc.k];
      WorkerStep(size, o.(file := o.file.Claim(f).1), p, w.(pc := Replying(w.pc.k, Fragment(size, p, f))), Works([])) ==
      Some((o1, w1))
    ensures WhileStoring(size, o, p, w, 0, o1, w1)
  {
    var b := Fragment(size, p, w.list[w.pc.k]);
    o1, w1 := o.(file := o.file.Claim(w.list[w.pc.k]).1), w.(pc := Storing(w.pc.k, b, 0));
  }

  lemma StoreByteStep(size: nat, o: Node, p: Node, w: Worker, written: nat, o1: Node, w1: Worker)
    returns (o2: Node, w2: Worker)
    requires Ready(size, o, p, w) && written < SEGMENT_SIZE && WhileStoring(size, o, p, w, written, o1, w1)
    ensures WorkerStep(size, o1, p, w1, Works([])) == Some((o2, w2))
    ensures WhileStoring(size, o, p, w, written + 1, o2, w2)
  {
    var f := w.list[w.pc.k];
    var b := Fragment(size, p, f);
    o2, w2 := StoringStep(size, o1, p, w1);
    WriteAtSnoc(o.disk, Offset(f), b, written);
  }

  lemma StoringStep(size: nat, o: Node, p: Node, w: Worker) returns (o1: Node, w1: Worker)
    requires w.pc.Storing? && w.pc.k < |w.list| && w.list[w.pc.k] < |o.file.states| && w.pc.written < |w.pc.data|
    ensures WorkerStep(size, o, p, w, Works([])) == Some((o1, w1))
    ensures o1 == o.(disk := WriteByte(o.disk, Offset(w.list[w.pc.k]) + w.pc.written, w.pc.data[w.pc.written]),
                     stored := o1.stored, through := o1.through)
    ensures w1 == w.(pc := w.pc.(written := w.pc.written + 1))
  {
    var f := w.list[w.pc.k];
    o1 := o.Write(f, Offset(f) + w.pc.written, w.pc.data[w.pc.written], p.Through(f));
    w1 := w.(pc := w.pc.(written := w.pc.written + 1));
  }

  lemma MarkStep(size: nat, o: Node, p: Node, w: Worker, o1: Node, w1: Worker) returns (o2: Node, w2: Worker)
    requires Ready(size, o, p, w) && WhileStoring(size, o, p, w, SEGMENT_SIZE, o1, w1)
    ensures WorkerStep(size, o1, p, w1, Works([])) == Some((o2, w2))
    ensures Downloaded(o, w, Fragment(size, p, w.list[w.pc.k]), o2, w2)
  {
    var f := w.list[w.pc.k];
    var b := Fragment(size, p, f);
    assert b[..SEGMENT_SIZE] == b;
    o2, w2 := o1.(file := o1.file.Set(f, COMPLETE)), w.(pc := AtFragment(w.pc.k + 1));
  }

  /** The segment is claimed, its fragment is written and it is COMPLETE. */
  predicate Downloaded(o: Node, w: Worker, fragment: bytes, o1: Node, w1: Worker)
    requires w.pc.AtFragment? && w.pc.k < |w.list| && w.list[w.pc.k] < |o.file.states|
  {
    var f := w.list[w.pc.k];
    && o1.file == o.file.Claim(f).1.Set(f, COMPLETE)
    && o1.disk == WriteAt(o.disk, Offset(f), fragment)
    && o1.errors == o.errors
    && o1.unstored == o.unstored
    && w1 == w.(pc := AtFragment(w.pc.k + 1))
  }

  lemma AloneStep(size: nat, o: Node, p: Node, w: Worker, m: nat, o1: Node, w1: Worker)
    requires m > 0 && Alone(size, o, p, w, m - 1) == Some((o1, w1))
    ensures Alone(size, o, p, w, m) == WorkerStep(size, o1, p, w1, Works([]))
  {
  }

  lemma {:induction false} AloneStore(size: nat, o: Node, p: Node, w: Worker, n: nat, m: nat)
    returns (o1: Node, w1: Worker)
    requires Ready(size, o, p, w) && n <= SEGMENT_SIZE && m == SEGMENT_SIZE + 3 + n
    ensures Alone(size, o, p, w, m) == Some((o1, w1)) && WhileStoring(size, o, p, w, n, o1, w1)
    decreases n
  {
    var f := w.list[w.pc.k];
    if n == 0 {
      AloneRead(size, o, p, w, m - 3);
      var b := Fragment(size, p, f);
      assert b[..m - 3] == b;
      AloneStep(size, o, p, w, m, o.(file := o.file.Claim(f).1), w.(pc := Replying(w.pc.k, b)));
      o1, w1 := DeliverStep(size, o, p, w);
    } else {
      o1, w1 := AloneStore(size, o, p, w, n - 1, m - 1);
      AloneStep(size, o, p, w, m, o1, w1);
      o1, w1 := StoreByteStep(size, o, p, w, n - 1, o1, w1);
    }
  }

  /** One undisturbed download takes 16004 steps and is: claim the segment, ask the peer's
      responder, store the fragment of its F_FINE reply as storeSegmentToFile does, and
      set the segment COMPLETE. */
  lemma AloneDownload(size: nat, o: Node, p: Node, w: Worker, n: nat) returns (o1: Node, w1: Worker)
    requires Ready(size, o, p, w) && n == ENTRY_STEPS
    ensures Alone(size, o, p, w, n) == Some((o1, w1))
    ensures var reply := FragmentOf([OfferedBy(p, size)], 0, w.list[w.pc.k]);
      reply.code == F_FINE && Downloaded(o, w, reply.fragment, o1, w1)
  {
    o1, w1 := AloneStore(size, o, p, w, SEGMENT_SIZE, n - 1);
    AloneStep(size, o, p, w, n, o1, w1);
    o1, w1 := MarkStep(size, o, p, w, o1, w1);
    ReplyIs(size, p, w.list[w.pc.k]);
  }

  lemma ReplyIs(size: nat, p: Node, f: nat)
    requires f < |p.file.states| == SegmentCount(size) && |p.disk| >= size && p.file.states[f] == COMPLETE
    ensures FragmentOf([OfferedBy(p, size)], 0, f) == FragmentReply(F_FINE, 0, f, Fragment(size, p, f))
  {
  }

  // ---------- where the initial states come from ----------

  /** Creating the file object and the local file of a torrent below 2^31 bytes gives a
      leecher of whatever source the torrent stands for. */
  method CreateLeecher(fm: FM.FileManager, hashed: Hash, size: uint32, fileName: bytes, ghost source: bytes)
    returns (file: File)
    requires |source| == size < TWO_31
    modifies fm`files
    ensures fresh(file) && fileName in fm.files
    ensures Leecher(source, Node(file.View(), fm.files[fileName], {}, {}, map[], map[]))
  {
    file := new File(hashed, size, fileName);
    CutRightExactlyBelow2GiB(size);
    fm.CreateLocalFile(fileName, size);
  }
}
