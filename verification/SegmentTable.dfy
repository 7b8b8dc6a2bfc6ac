/** The segment states of one file with the cached completion flag, as a value:
    what each mutex-guarded method of a client file does in one atomic step. */
module SegmentTable {
  import opened Common

  datatype SegmentState = FREE | DOWNLOADING | COMPLETE

  datatype Table = Table(states: seq<SegmentState>, isCompleted: bool) {
    predicate AllComplete() {
      forall i: nat | i < |states| :: states[i] == COMPLETE
    }

    /** The cached flag never claims more than the states say. */
    predicate LatchSound() {
      isCompleted ==> AllComplete()
    }

    function Set(id: nat, state: SegmentState): Table
      requires id < |states|
    {
      this.(states := states[id := state])
    }

    /** The claim succeeds only on a FREE segment. */
    function Claim(id: nat): (bool, Table)
      requires id < |states|
    {
      if states[id] == FREE then (true, Set(id, DOWNLOADING)) else (false, this)
    }

    function Poll(): Table {
      this.(isCompleted := isCompleted || AllComplete())
    }
  }

  /** The latch and a fresh scan give the same answer as long as the latch is sound,
      and asking keeps it sound. */
  lemma PollAgreesWithScan(t: Table)
    ensures t.LatchSound() <==> t.Poll().isCompleted == t.AllComplete()
    ensures t.LatchSound() ==> t.Poll().LatchSound()
  {
  }

  /** Setting a state keeps a sound latch sound in exactly these cases: the flag was
      not set yet, or the new state is COMPLETE. So a release of a claimed segment is
      harmless, because a claimed segment is not COMPLETE and the flag cannot be set. */
  lemma SetKeepsLatch(t: Table, id: nat, state: SegmentState)
    requires id < |t.states| && t.LatchSound()
    ensures t.Set(id, state).LatchSound() <==> !t.isCompleted || state == COMPLETE
    ensures t.states[id] == DOWNLOADING ==> t.Set(id, state).LatchSound()
  {
    assert t.Set(id, state).states[id] == state;
    if t.isCompleted && state == COMPLETE {
      assert t.Set(id, state).states == t.states;
    }
  }
}

/** A client file: a torrent's size and name with the segment table that its download
    workers, its manager and its responder share under one mutex. */
module ClientFile {
  import opened Common
  import opened Blocks
  import opened SegmentTable

  /** What the unsigned 32-bit torrent size becomes in the signed field of a file. */
  function ToInt32(u: uint32): int {
    if u < TWO_31 then u else u - TWO_32
  }

  /** C++ division and remainder, which truncate toward zero. */
  function TruncDiv(a: int, b: nat): int
    requires b > 0
  {
    if a >= 0 then a / b else -((-a) / b)
  }

  function TruncMod(a: int, b: nat): int
    requires b > 0
  {
    a - TruncDiv(a, b) * b
  }

  /** The number of segments that generateSegments creates for a signed size. */
  function GeneratedCount(size: int): nat {
    var n := TruncDiv(size, SEGMENT_SIZE) + if TruncMod(size, SEGMENT_SIZE) == 0 then 0 else 1;
    if n < 0 then 0 else n
  }

  /** A torrent of up to 4 GiB is accepted, but its file is cut into the right number
      of segments exactly when its size is below 2^31. */
  lemma CutRightExactlyBelow2GiB(u: uint32)
    ensures GeneratedCount(ToInt32(u)) == SegmentCount(u) <==> u < TWO_31
  {
  }

  /** What goes wrong above: one segment, or none at all. */
  lemma LargeFileSegments(u: uint32)
    requires u >= TWO_31
    ensures GeneratedCount(ToInt32(u)) == if u > TWO_32 - SEGMENT_SIZE then 1 else 0
  {
  }

  /** And then the file is complete as soon as it is asked: a new file counts as complete
      exactly if it is empty or of a size from 2^31 to 2^32 - 8000. */
  method AskNewFile(hashed: Hash, size: uint32, fileName: bytes) returns (complete: bool)
    ensures complete <==> size == 0 || TWO_31 <= size <= TWO_32 - SEGMENT_SIZE
  {
    var file := new File(hashed, size, fileName);
    ghost var n := |file.segments|;
    assert n > 0 ==> file.segments[0] == FREE;
    complete := file.IsComplete();
    if size >= TWO_31 {
      LargeFileSegments(size);
    }
  }

  class File {
    const size: int
    const hashed: Hash
    const fileName: bytes
    var segments: seq<SegmentState>
    var numOfSegments: int
    var isCompleted: bool

    function View(): Table
      reads this
    {
      Table(segments, isCompleted)
    }

    predicate Valid()
      reads this
    {
      numOfSegments == |segments|
    }

    constructor (hashed: Hash, size: uint32, fileName: bytes)
      ensures Valid() && View().LatchSound()
      ensures this.hashed == hashed && this.size == ToInt32(size) && this.fileName == fileName
      ensures |segments| == GeneratedCount(ToInt32(size)) && !isCompleted
      ensures forall i: nat | i < |segments| :: segments[i] == FREE
    {
      this.hashed := hashed;
      this.size := ToInt32(size);
      this.fileName := fileName;
      segments := [];
      numOfSegments := -1;
      isCompleted := false;
      new;
      GenerateSegments();
      numOfSegments := |segments|;
    }

    method GenerateSegments()
      requires segments == []
      modifies this
      ensures isCompleted == old(isCompleted)
      ensures |segments| == GeneratedCount(size)
      ensures forall i: nat | i < |segments| :: segments[i] == FREE
    {
      if TruncMod(size, SEGMENT_SIZE) == 0 {
        numOfSegments := TruncDiv(size, SEGMENT_SIZE);
      } else {
        numOfSegments := TruncDiv(size, SEGMENT_SIZE) + 1;
      }
      var i := 0;
      while i < numOfSegments
        invariant i == |segments| && (i <= numOfSegments || i == 0)
        invariant forall j: nat | j < i :: segments[j] == FREE
        modifies this`segments
      {
        segments := segments + [FREE];
        i := i + 1;
      }
    }

    method TryToSetStateSegmentStateToDownload(id: nat) returns (claimed: bool)
      requires id < |segments|
      modifies this`segments
      ensures (claimed, View()) == old(View()).Claim(id)
    {
      if segments[id] == FREE {
        segments := segments[id := DOWNLOADING];
        return true;
      }
      return false;
    }

    /** The state is stored before the argument is checked, so a call with DOWNLOADING
        throws (the result is true) but leaves its mark. */
    method SetSegmentState(id: nat, newState: SegmentState) returns (threw: bool)
      requires id < |segments|
      modifies this`segments
      ensures View() == old(View()).Set(id, newState)
      ensures threw <==> newState == DOWNLOADING
    {
      segments := segments[id := newState];
      threw := newState == DOWNLOADING;
    }

    method GetSegmentState(id: nat) returns (state: SegmentState)
      requires id < |segments|
      ensures state == segments[id]
    {
      state := segments[id];
    }

    method IsComplete() returns (complete: bool)
      modifies this`isCompleted
      ensures View() == old(View()).Poll() && complete == isCompleted
      ensures old(View()).LatchSound() ==> complete == old(View()).AllComplete()
    {
      if !isCompleted {
        var maybeCompleted := true;
        for i := 0 to |segments|
          invariant maybeCompleted
          invariant forall j: nat | j < i :: segments[j] == COMPLETE
        {
          if segments[i] != COMPLETE {
            maybeCompleted := false;
            break;
          }
        }
        isCompleted := maybeCompleted;
      }
      return isCompleted;
    }
  }
}
