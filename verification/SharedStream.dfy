/** Several threads that read segments of one read-locked file through the stream of its
    table entry. Each call on the stream is a step of its own.

    `guarded` tells two variants apart. As the code is written (guarded = false) no mutex is
    held from the seek to the read; with guarded = true a reader keeps the stream until it
    has read. */
module SharedStream {
  import opened Common
  import opened Blocks
  import FM = FileManager

  datatype Pc =
    | Begin                            // about to call seekg
    | Sought                           // about to call tellg
    | Told                             // about to call read
    | Ended(result: Option<bytes>)

  /** A call of getSegment for `size` bytes of segment `id`. */
  datatype Reader = Reader(id: nat, size: nat, pc: Pc)

  datatype State = State(readers: seq<Reader>, pos: nat, failed: bool)

  predicate Inside(r: Reader) {
    r.pc.Sought? || r.pc.Told?
  }

  predicate Taken(s: State) {
    exists u: nat :: u < |s.readers| && Inside(s.readers[u])
  }

  /** The block that reading `size` bytes at position `pos` gives. */
  function ReadAt(disk: bytes, pos: nat, size: nat): (b: bytes)
    requires size <= SEGMENT_SIZE
    ensures |b| == SEGMENT_SIZE
    ensures forall j: nat :: j < SEGMENT_SIZE ==> b[j] == if j < size then ByteAt(disk, pos + j) else 0
  {
    seq<byte>(size, (j: nat) => ByteAt(disk, pos + j)) + seq<byte>(SEGMENT_SIZE - size, _ => 0)
  }

  /** What read gives, and nothing past the end of the file. */
  function Read(disk: bytes, pos: nat, size: nat): Option<bytes>
    requires size <= SEGMENT_SIZE
  {
    if size > 0 && pos + size > |disk| then None else Some(ReadAt(disk, pos, size))
  }

  /** The next call of reader t. A failed stream neither seeks nor tells nor reads. */
  function Step(guarded: bool, disk: bytes, s: State, t: nat): Option<State> {
    if t >= |s.readers| then None
    else
      var r := s.readers[t];
      match r.pc
      case Begin =>
        if r.size > SEGMENT_SIZE then Some(s.(readers := s.readers[t := r.(pc := Ended(None))]))
        else if guarded && Taken(s) then None
        else Some(s.(readers := s.readers[t := r.(pc := Sought)], pos := if s.failed then s.pos else Offset(r.id)))
      case Sought =>
        var next := if s.failed || s.pos != Offset(r.id) then Ended(None) else Told;
        Some(s.(readers := s.readers[t := r.(pc := next)]))
      case Told =>
        if s.failed || r.size > SEGMENT_SIZE then Some(s.(readers := s.readers[t := r.(pc := Ended(None))]))
        else
          var result := Read(disk, s.pos, r.size);
          Some(State(s.readers[t := r.(pc := Ended(result))],
                     if result.None? then |disk| else s.pos + r.size,
                     result.None?))
      case Ended(_) => None
  }

  function Run(guarded: bool, disk: bytes, s: State, steps: seq<nat>): Option<State> {
    if steps == [] then Some(s)
    else
      var n := |steps| - 1;
      var r := Run(guarded, disk, s, steps[..n]);
      if r.None? then None else Step(guarded, disk, r.value, steps[n])
  }

  predicate Init(s: State) {
    !s.failed && forall t: nat | t < |s.readers| :: s.readers[t].pc.Begin?
  }

  // ---------- one reader at a time ----------

  lemma ReadIsSegment(disk: bytes, id: nat, size: nat)
    requires size <= SEGMENT_SIZE
    ensures Read(disk, Offset(id), size) == FM.ReadSegment(disk, id, size)
  {
    var pad := Zeros(SEGMENT_SIZE - size);
    assert forall j: nat | j < |pad| :: pad[j] == ByteAt(pad, j);
    assert ReadAt(disk, Offset(id), size) == Block(disk, id)[..size] + pad;
  }

  /** One reader at most is between its seek and its read, and there the stream is where it
      wants it; whoever has ended has the segment, or nothing because the stream has failed. */
  ghost predicate Ok(disk: bytes, s: State) {
    && (forall t: nat, u: nat | t < |s.readers| && u < |s.readers| && Inside(s.readers[t]) && Inside(s.readers[u]) ::
          t == u)
    && forall t: nat | t < |s.readers| :: ReaderOk(disk, s, s.readers[t])
  }

  ghost predicate ReaderOk(disk: bytes, s: State, r: Reader) {
    && (Inside(r) ==> r.size <= SEGMENT_SIZE && (s.failed || s.pos == Offset(r.id)))
    && (r.pc.Ended? ==> r.pc.result == FM.ReadSegment(disk, r.id, r.size) || (s.failed && r.pc.result == None))
  }

  lemma StepOk(guarded: bool, disk: bytes, s: State, t: nat, s': State)
    requires Ok(disk, s) && Step(guarded, disk, s, t) == Some(s') && (guarded || |s.readers| == 1)
    ensures Ok(disk, s') && |s'.readers| == |s.readers|
  {
    var r := s.readers[t];
    if r.size <= SEGMENT_SIZE {
      ReadIsSegment(disk, r.id, r.size);
    }
    forall u: nat | u < |s'.readers|
      ensures ReaderOk(disk, s', s'.readers[u])
    {
      if u != t {
        assert ReaderOk(disk, s, s.readers[u]);
        assert Inside(s.readers[u]) && r.pc.Begin? ==> Taken(s);
      }
    }
  }

  /** Some reader asked for bytes past the end of the file. */
  ghost predicate AskedPastEnd(disk: bytes, s: State) {
    exists t: nat ::
      && t < |s.readers| && s.readers[t].pc == Ended(None)
      && s.readers[t].size <= SEGMENT_SIZE && FM.ReadSegment(disk, s.readers[t].id, s.readers[t].size) == None
  }

  lemma StepFailed(guarded: bool, disk: bytes, s: State, t: nat, s': State)
    requires Ok(disk, s) && Step(guarded, disk, s, t) == Some(s') && (s.failed ==> AskedPastEnd(disk, s))
    ensures s'.failed ==> AskedPastEnd(disk, s')
  {
    var r := s.readers[t];
    if s.failed {
      var u: nat :| u < |s.readers| && s.readers[u].pc == Ended(None)
        && s.readers[u].size <= SEGMENT_SIZE && FM.ReadSegment(disk, s.readers[u].id, s.readers[u].size) == None;
      assert s'.readers[u] == s.readers[u];
    } else if s'.failed {
      assert ReaderOk(disk, s, r);
      ReadIsSegment(disk, r.id, r.size);
      assert s'.readers[t].pc == Ended(None);
    }
  }

  /** The stream fails only when somebody asked for bytes past the end. */
  lemma {:induction false} FailsOnlyPastEnd(guarded: bool, disk: bytes, s0: State, steps: seq<nat>, s: State)
    requires Init(s0) && Run(guarded, disk, s0, steps) == Some(s) && (guarded || |s0.readers| == 1)
    ensures s.failed ==> AskedPastEnd(disk, s)
  {
    if steps != [] {
      var n := |steps| - 1;
      var r := Run(guarded, disk, s0, steps[..n]).value;
      FailsOnlyPastEnd(guarded, disk, s0, steps[..n], r);
      AloneReadsRight(guarded, disk, s0, steps[..n], r);
      StepFailed(guarded, disk, r, steps[n], s);
    }
  }

  /** A reader that has the stream to itself, because it is guarded or because it is its own,
      gets its segment in every run, as long as no read has gone past the end. */
  lemma {:induction false} AloneReadsRight(guarded: bool, disk: bytes, s0: State, steps: seq<nat>, s: State)
    requires Init(s0) && Run(guarded, disk, s0, steps) == Some(s) && (guarded || |s0.readers| == 1)
    ensures Ok(disk, s) && |s.readers| == |s0.readers|
    ensures forall t: nat | t < |s.readers| && s.readers[t].pc.Ended? ::
      var r := s.readers[t];
      r.pc.result == FM.ReadSegment(disk, r.id, r.size) || (s.failed && r.pc.result == None)
  {
    if steps != [] {
      var n := |steps| - 1;
      var r := Run(guarded, disk, s0, steps[..n]).value;
      AloneReadsRight(guarded, disk, s0, steps[..n], r);
      StepOk(guarded, disk, r, steps[n], s);
    }
  }

  // ---------- readers in between ----------

  /** A read at the wrong place may still be right by chance. It is right for every file of
      this length exactly if the stream is where the reader wants it, nothing is read, or
      both places are too near the end. */
  lemma ReadRightExactly(length: nat, pos: nat, id: nat, size: nat)
    requires size <= SEGMENT_SIZE
    ensures (forall disk: bytes | |disk| == length :: Read(disk, pos, size) == FM.ReadSegment(disk, id, size)) <==>
      pos == Offset(id) || size == 0 || (pos + size > length && Offset(id) + size > length)
  {
    if pos == Offset(id) || size == 0 || (pos + size > length && Offset(id) + size > length) {
      forall disk: bytes | |disk| == length
        ensures Read(disk, pos, size) == FM.ReadSegment(disk, id, size)
      {
        ReadIsSegment(disk, id, size);
        if size == 0 {
          assert ReadAt(disk, pos, 0) == ReadAt(disk, Offset(id), 0);
        }
      }
    } else {
      var disk := Tell(length, pos);
      ReadIsSegment(disk, id, size);
      if pos + size <= length && Offset(id) + size <= length {
        assert ReadAt(disk, pos, size)[0] == 1 && ReadAt(disk, Offset(id), size)[0] == 0;
      }
    }
  }

  /** A file that tells one position from the others. */
  function Tell(length: nat, p: nat): (d: bytes)
    ensures |d| == length
    ensures forall q: nat :: q < length ==> d[q] == if q == p then 1 else 0
  {
    seq<byte>(length, (q: nat) => if q == p then 1 else 0)
  }

  lemma Then(disk: bytes, s0: State, steps: seq<nat>, s: State, t: nat, s': State) returns (steps': seq<nat>)
    requires Run(false, disk, s0, steps) == Some(s) && Step(false, disk, s, t) == Some(s')
    ensures Run(false, disk, s0, steps') == Some(s')
  {
    steps' := steps + [t];
    assert steps'[..|steps|] == steps;
  }

  /** As written, with two readers of one stream: the first seeks and tells, the second seeks,
      and the first reads the second one's segment for its own. */
  lemma StolenReadTrace(disk: bytes, id1: nat, id2: nat) returns (s0: State, steps: seq<nat>, s: State)
    requires Offset(id2) + SEGMENT_SIZE <= |disk|
    ensures Init(s0) && Run(false, disk, s0, steps) == Some(s)
    ensures |s.readers| == 2 && s.readers[0] == Reader(id1, SEGMENT_SIZE, Ended(Some(Block(disk, id2))))
  {
    var x, y := Reader(id1, SEGMENT_SIZE, Begin), Reader(id2, SEGMENT_SIZE, Begin);
    s0 := State([x, y], 0, false);
    var s1 := State(s0.readers[0 := x.(pc := Sought)], Offset(id1), false);
    steps := Then(disk, s0, [], s0, 0, s1);
    var s2 := State(s1.readers[0 := x.(pc := Told)], Offset(id1), false);
    steps := Then(disk, s0, steps, s1, 0, s2);
    var s3 := State(s2.readers[1 := y.(pc := Sought)], Offset(id2), false);
    steps := Then(disk, s0, steps, s2, 1, s3);
    var block := Read(disk, Offset(id2), SEGMENT_SIZE);
    assert block == Some(Block(disk, id2)) by {
      assert ReadAt(disk, Offset(id2), SEGMENT_SIZE) == Block(disk, id2);
    }
    s := State(s3.readers[0 := x.(pc := Ended(block))], Offset(id2) + SEGMENT_SIZE, false);
    steps := Then(disk, s0, steps, s3, 0, s);
  }
}
