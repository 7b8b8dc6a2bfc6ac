/** Reading and writing segments of files on disk. The lock tables are fields here;
    how threads wait on them is the subject of module LockTables. */
module FileManager {
  import opened Common
  import opened Blocks

  /** What reading `segmentSize` bytes of segment `id` gives: the bytes padded with zeros
      to a whole block, or nothing when the size is too big or the file too short. */
  function ReadSegment(disk: bytes, id: nat, segmentSize: nat): Option<bytes> {
    if segmentSize > SEGMENT_SIZE || (segmentSize > 0 && Offset(id) + segmentSize > |disk|) then None
    else Some(Block(disk, id)[..segmentSize] + Zeros(SEGMENT_SIZE - segmentSize))
  }

  /** How a call to store a segment goes: it waits in writeLock as long as the file is
      locked for reading. */
  datatype StoreResult = Stored | NotOpened | Waits

  class FileManager {
    var files: map<bytes, bytes>        // the file system: contents by name
    var readLockedFiles: seq<bytes>
    var writeLockedFiles: seq<bytes>
    var failedStreams: set<bytes>       // files whose shared stream has failed while they are locked for reading

    constructor (files: map<bytes, bytes>)
      ensures this.files == files && readLockedFiles == [] && writeLockedFiles == [] && failedStreams == {}
    {
      this.files := files;
      readLockedFiles, writeLockedFiles, failedStreams := [], [], {};
    }

    /** Creates the zero-filled file of a torrent; an old file of that name is truncated. */
    method CreateLocalFile(fileName: bytes, size: uint32)
      modifies this`files
      ensures files == old(files)[fileName := Zeros(size)]
    {
      files := files[fileName := []];
      var i := 0;
      while i < size
        invariant i <= size
        invariant files == old(files)[fileName := Zeros(i)]
      {
        assert Zeros(i) + [0] == Zeros(i + 1);
        files := files[fileName := files[fileName] + [0]];
        i := i + 1;
      }
    }

    /** Writes one block, unless it has to wait. When the file cannot be opened nothing is
        written and the name stays in the table of write locks; otherwise the lock is
        released again. */
    method StoreSegmentToFile(fileName: bytes, segmentId: nat, segmentData: bytes) returns (outcome: StoreResult)
      requires |segmentData| >= SEGMENT_SIZE
      modifies this`files, this`writeLockedFiles
      ensures outcome ==
        if fileName in readLockedFiles then Waits else if fileName in old(files) then Stored else NotOpened
      ensures outcome.Waits? ==> files == old(files) && writeLockedFiles == old(writeLockedFiles)
      ensures outcome.NotOpened? ==>
        files == old(files) && writeLockedFiles == old(writeLockedFiles) + [fileName]
      ensures outcome.Stored? ==>
        && files == old(files)[fileName :=
             WriteAt(old(files)[fileName], Offset(segmentId), segmentData[..SEGMENT_SIZE])]
        && multiset(writeLockedFiles) == multiset(old(writeLockedFiles))
    {
      if fileName in readLockedFiles {
        return Waits;
      }
      writeLockedFiles := writeLockedFiles + [fileName];
      if fileName !in files {
        return NotOpened;
      }
      var contents := WriteBlock(files[fileName], Offset(segmentId), segmentData);
      files := files[fileName := contents];
      WriteUnlock(fileName);
      return Stored;
    }

    /** Writes the first 8000 bytes of `data` at offset `p` of an open file. */
    static method WriteBlock(d: bytes, p: nat, data: bytes) returns (e: bytes)
      requires |data| >= SEGMENT_SIZE
      ensures e == WriteAt(d, p, data[..SEGMENT_SIZE])
    {
      e := d;
      var i := 0;
      while i < SEGMENT_SIZE
        invariant i <= SEGMENT_SIZE
        invariant e == WriteAt(d, p, data[..i])
      {
        WriteAtSnoc(d, p, data, i);
        e := WriteByte(e, p + i, data[i]);
        i := i + 1;
      }
    }

    /** Removes the first entry of the name; other entries, of other writers, stay. */
    method WriteUnlock(fileName: bytes)
      modifies this`writeLockedFiles
      ensures fileName !in old(writeLockedFiles) ==> writeLockedFiles == old(writeLockedFiles)
      ensures fileName in old(writeLockedFiles) ==>
        exists i: nat ::
          && i < |old(writeLockedFiles)| && old(writeLockedFiles)[i] == fileName
          && fileName !in old(writeLockedFiles)[..i]
          && writeLockedFiles == old(writeLockedFiles)[..i] + old(writeLockedFiles)[i + 1..]
      ensures multiset(writeLockedFiles) == multiset(old(writeLockedFiles)) - multiset{fileName}
    {
      for i := 0 to |writeLockedFiles|
        invariant writeLockedFiles == old(writeLockedFiles)
        invariant fileName !in writeLockedFiles[..i]
      {
        if writeLockedFiles[i] == fileName {
          ghost var w := writeLockedFiles;
          assert w == w[..i] + [w[i]] + w[i + 1..];
          writeLockedFiles := writeLockedFiles[..i] + writeLockedFiles[i + 1..];
          return;
        }
      }
      assert writeLockedFiles[..|writeLockedFiles|] == writeLockedFiles;
    }

    /** Reads one segment of a read-locked file into a zero-padded block. All reads of the
        file share one stream: after a read past the end it has failed, and no later read
        of that lock succeeds. Here a call runs without another one in between; module
        SharedStream has the calls on the stream as steps. */
    method GetSegment(fileName: bytes, segmentId: nat, segmentSize: nat) returns (r: Option<bytes>)
      requires fileName in readLockedFiles
      modifies this`failedStreams
      ensures r == if fileName in old(failedStreams) || fileName !in files then None
                   else ReadSegment(files[fileName], segmentId, segmentSize)
      ensures r.Some? <==>
        && fileName in files && fileName !in old(failedStreams) && segmentSize <= SEGMENT_SIZE
        && (segmentSize == 0 || Offset(segmentId) + segmentSize <= |files[fileName]|)
      ensures r.Some? ==>
        && |r.value| == SEGMENT_SIZE
        && forall j: nat | j < SEGMENT_SIZE ::
             r.value[j] == if j < segmentSize then files[fileName][Offset(segmentId) + j] else 0
      ensures failedStreams ==
        if segmentSize <= SEGMENT_SIZE && fileName in files && r.None? then old(failedStreams) + {fileName}
        else old(failedStreams)
    {
      if segmentSize > SEGMENT_SIZE || fileName !in files || fileName in failedStreams {
        return None;
      }
      var disk := files[fileName];
      var buffer := new byte[SEGMENT_SIZE];
      var i := 0;
      while i < segmentSize
        invariant i <= segmentSize
        invariant i > 0 ==> Offset(segmentId) + i <= |disk|
        invariant forall j: nat | j < i :: buffer[j] == ByteAt(disk, Offset(segmentId) + j)
        invariant failedStreams == old(failedStreams)
      {
        if Offset(segmentId) + i >= |disk| {
          failedStreams := failedStreams + {fileName};
          return None;
        }
        buffer[i] := disk[Offset(segmentId) + i];
        i := i + 1;
      }
      while i < SEGMENT_SIZE
        invariant segmentSize <= i <= SEGMENT_SIZE && failedStreams == old(failedStreams)
        invariant forall j: nat | j < segmentSize :: buffer[j] == ByteAt(disk, Offset(segmentId) + j)
        invariant forall j: nat | segmentSize <= j < i :: buffer[j] == 0
      {
        buffer[i] := 0;
        i := i + 1;
      }
      r := Some(buffer[..]);
      PaddedBuffer(buffer[..], disk, segmentId, segmentSize);
    }
  }

  lemma PaddedBuffer(buffer: bytes, disk: bytes, id: nat, size: nat)
    requires |buffer| == SEGMENT_SIZE && size <= SEGMENT_SIZE
    requires forall j: nat | j < size :: buffer[j] == ByteAt(disk, Offset(id) + j)
    requires forall j: nat | size <= j < SEGMENT_SIZE :: buffer[j] == 0
    ensures buffer == Block(disk, id)[..size] + Zeros(SEGMENT_SIZE - size)
  {
    var pad := Zeros(SEGMENT_SIZE - size);
    assert forall j: nat | j < |pad| :: pad[j] == ByteAt(pad, j);
  }

  /** A file that holds segment `id` of the source is read into exactly the source's
      padded block, when the read asks for the bytes of the file that lie in the segment. */
  lemma ReadGivesBlock(disk: bytes, source: bytes, id: nat)
    requires id < SegmentCount(|source|)
    requires |disk| >= |source| && HoldsSegment(disk, source, id)
    ensures ReadSegment(disk, id, ClippedSize(|source|, id)) == Some(Block(source, id))
  {
    var n := ClippedSize(|source|, id);
    var pad := Zeros(SEGMENT_SIZE - n);
    assert forall j: nat | j < |pad| :: pad[j] == ByteAt(pad, j);
    forall j: nat | j < SEGMENT_SIZE
      ensures Block(disk, id)[j] == Block(source, id)[j]
    {
      assert InSegment(id, Offset(id) + j);
    }
    assert Block(disk, id)[..n] + pad == Block(source, id);
  }

  /** What was stored is read back, and a store leaves every other segment as it was. */
  lemma StoreThenRead(disk: bytes, id: nat, data: bytes, other: nat, size: nat)
    requires |data| == SEGMENT_SIZE
    ensures ReadSegment(WriteAt(disk, Offset(id), data), id, SEGMENT_SIZE) == Some(data)
    ensures other != id && ReadSegment(disk, other, size).Some? ==>
      ReadSegment(WriteAt(disk, Offset(id), data), other, size) == ReadSegment(disk, other, size)
  {
    var d := WriteAt(disk, Offset(id), data);
    assert Block(d, id)[..SEGMENT_SIZE] + Zeros(0) == data;
    if other != id && ReadSegment(disk, other, size).Some? {
      assert Block(d, other) == Block(disk, other);
    }
  }

  /** With the default size of a whole block, a file that is exactly the source can be
      read except for a last segment that is not full. */
  lemma DefaultSizeFailsExactlyAtShortEnd(source: bytes, id: nat)
    requires id < SegmentCount(|source|)
    ensures ReadSegment(source, id, SEGMENT_SIZE) == Some(Block(source, id)) <==>
      ClippedSize(|source|, id) == SEGMENT_SIZE
    ensures ReadSegment(source, id, SEGMENT_SIZE) == None <==>
      id == SegmentCount(|source|) - 1 && |source| % SEGMENT_SIZE != 0
  {
    if ClippedSize(|source|, id) == SEGMENT_SIZE {
      ReadGivesBlock(source, source, id);
    }
  }
}
