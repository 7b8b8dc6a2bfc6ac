/** The peer side: how a client answers requests for its list of segments and for one
    segment. */
module Responder {
  import opened Common
  import opened Blocks
  import opened SegmentTable
  import opened ClientFile
  import FM = FileManager

  datatype FileCode = F_ERROR | F_DENY | F_NO_FILE | F_FRAG_MISSING | F_FRAG_COMPLETE | F_FINE

  datatype Request = Ok | ListRequest(hashed: Hash) | FragmentRequest(hashed: Hash, fragNum: nat) | OtherRequest

  datatype Reply =
    | OkReply
    | ListReply(code: FileCode, hashed: Hash, fragments: seq<nat>)
    | FragmentReply(code: FileCode, hashed: Hash, fragNum: nat, fragment: bytes)
    | NoReply

  /** A file of the client's database as its responder sees it. */
  datatype Offered = Offered(hashed: Hash, states: seq<SegmentState>, size: nat, disk: bytes) {
    predicate Sound() {
      |states| == SegmentCount(size) && |disk| >= size
    }
  }

  /** The ids below `n` whose segment is COMPLETE, in ascending order. */
  function CompleteIds(states: seq<SegmentState>, n: nat): seq<nat>
    requires n <= |states|
  {
    if n == 0 then []
    else CompleteIds(states, n - 1) + if states[n - 1] == COMPLETE then [n - 1] else []
  }

  function ListOf(files: seq<Offered>, hashed: Hash): seq<nat> {
    if files == [] then []
    else
      var last := files[|files| - 1];
      ListOf(files[..|files| - 1], hashed)
      + if last.hashed == hashed then CompleteIds(last.states, |last.states|) else []
  }

  predicate Answers(f: Offered, hashed: Hash, fragNum: nat) {
    f.hashed == hashed && fragNum < |f.states| && f.states[fragNum] == COMPLETE
  }

  predicate AllSound(files: seq<Offered>) {
    forall i: nat | i < |files| :: files[i].Sound()
  }

  function SegmentOf(f: Offered, fragNum: nat): bytes
    requires f.Sound() && fragNum < |f.states|
  {
    FM.ReadSegment(f.disk, fragNum, ClippedSize(f.size, fragNum)).value
  }

  /** The last offered file that has the segment answers; none means F_NO_FILE. */
  function FragmentOf(files: seq<Offered>, hashed: Hash, fragNum: nat): (r: Reply)
    requires AllSound(files)
    ensures r.FragmentReply? && r.code in {F_FINE, F_NO_FILE}
  {
    if files == [] then FragmentReply(F_NO_FILE, 0, 0, [])
    else
      var last := files[|files| - 1];
      if Answers(last, hashed, fragNum) then FragmentReply(F_FINE, hashed, fragNum, SegmentOf(last, fragNum))
      else FragmentOf(files[..|files| - 1], hashed, fragNum)
  }

  function OfferedOf(f: File, fm: FM.FileManager): Offered
    requires f.size >= 0 && f.fileName in fm.files
    reads f, fm
  {
    Offered(f.hashed, f.segments, f.size, fm.files[f.fileName])
  }

  predicate Servable(files: seq<File>, fm: FM.FileManager)
    reads files, fm
  {
    forall f | f in files ::
      && f.Valid()
      && f.size >= 0
      && f.fileName in fm.files
      && f.fileName in fm.readLockedFiles
      && f.fileName !in fm.failedStreams
      && |f.segments| == SegmentCount(f.size)
      && |fm.files[f.fileName]| >= f.size
  }

  ghost function OfferedAll(files: seq<File>, fm: FM.FileManager): (r: seq<Offered>)
    requires Servable(files, fm)
    reads files, fm
    ensures |r| == |files| && AllSound(r)
    ensures forall i: nat | i < |r| :: r[i] == OfferedOf(files[i], fm)
  {
    assert forall i: nat | i < |files| :: files[i] in files;
    seq(|files|, i requires 0 <= i < |files| && Servable(files, fm) reads files, fm => OfferedOf(files[i], fm))
  }

  // ---------- what a reply says of the client's files ----------

  /** The client's file f has segment `fragNum` of the torrent. */
  predicate Has(f: File, hashed: Hash, fragNum: nat)
    reads f
  {
    f.hashed == hashed && fragNum < |f.segments| && f.segments[fragNum] == COMPLETE
  }

  /** The fragment is what the client's file system has in that segment of the file, with
      zeros after the file's end. */
  ghost predicate Carries(fragment: bytes, f: File, fm: FM.FileManager, fragNum: nat)
    requires f.fileName in fm.files && f.size <= |fm.files[f.fileName]|
    reads f, fm
  {
    && |fragment| == SEGMENT_SIZE
    && forall j: nat | j < SEGMENT_SIZE ::
         fragment[j] == if Offset(fragNum) + j < f.size then fm.files[f.fileName][Offset(fragNum) + j] else 0
  }

  /** No other file of the client has this hash. */
  predicate OnlyOne(files: seq<File>, hashed: Hash)
    reads files
  {
    forall m: nat, n: nat | m < |files| && n < |files| && files[m].hashed == hashed == files[n].hashed :: m == n
  }

  /** The list names what some file of the client has, ascending if there is only one. */
  ghost predicate Lists(fragments: seq<nat>, files: seq<File>, hashed: Hash)
    reads files
  {
    && (forall i: nat :: i in fragments <==> exists n: nat :: n < |files| && Has(files[n], hashed, i))
    && (OnlyOne(files, hashed) ==> forall j: nat, k: nat | j < k < |fragments| :: fragments[j] < fragments[k])
  }

  /** The reply is F_FINE with the bytes of the last of the client's files that has the segment,
      or F_NO_FILE with nothing else if there is none. */
  ghost predicate Serves(r: Reply, files: seq<File>, fm: FM.FileManager, hashed: Hash, fragNum: nat)
    requires Servable(files, fm)
    reads files, fm
  {
    && r.FragmentReply?
    && (r.code == F_FINE <==> exists n: nat :: n < |files| && Has(files[n], hashed, fragNum))
    && (r.code == F_FINE ==>
         && r.hashed == hashed && r.fragNum == fragNum
         && exists n: nat ::
              && n < |files| && Has(files[n], hashed, fragNum)
              && (forall m: nat | n < m < |files| :: !Has(files[m], hashed, fragNum))
              && files[n] in files && Carries(r.fragment, files[n], fm, fragNum))
    && (r.code != F_FINE ==> r == FragmentReply(F_NO_FILE, 0, 0, []))
  }

  method AddCompleteSegments(s: File, before: seq<nat>) returns (fragments: seq<nat>)
    requires s.Valid()
    ensures fragments == before + CompleteIds(s.segments, |s.segments|)
  {
    fragments := before;
    var i := 0;
    while i < s.numOfSegments
      invariant i <= |s.segments|
      invariant fragments == before + CompleteIds(s.segments, i)
    {
      var state := s.GetSegmentState(i);
      if state == COMPLETE {
        fragments := fragments + [i];
      }
      i := i + 1;
    }
  }

  method RespondList(files: seq<File>, fm: FM.FileManager, hashed: Hash) returns (r: Reply)
    requires Servable(files, fm)
    ensures r == ListReply(F_FRAG_COMPLETE, hashed, ListOf(OfferedAll(files, fm), hashed))
    ensures Lists(r.fragments, files, hashed)
  {
    ghost var offered := OfferedAll(files, fm);
    assert offered[..|files|] == offered;
    var fragments: seq<nat> := [];
    for n := 0 to |files|
      invariant fragments == ListOf(offered[..n], hashed)
    {
      var s := files[n];
      assert offered[..n + 1][..n] == offered[..n];
      if hashed == s.hashed {
        fragments := AddCompleteSegments(s, fragments);
      }
    }
    r := ListReply(F_FRAG_COMPLETE, hashed, fragments);
    ListsOffered(files, fm, hashed);
  }

  lemma ListsOffered(files: seq<File>, fm: FM.FileManager, hashed: Hash)
    requires Servable(files, fm)
    ensures Lists(ListOf(OfferedAll(files, fm), hashed), files, hashed)
  {
    var offered := OfferedAll(files, fm);
    forall i: nat
      ensures i in ListOf(offered, hashed) <==> exists n: nat :: n < |files| && Has(files[n], hashed, i)
    {
      ListOfExact(offered, hashed, i);
      OfferedHas(files, fm, hashed, i);
    }
    if OnlyOne(files, hashed) {
      assert forall n: nat | n < |files| :: offered[n].hashed == files[n].hashed;
      ListOfAscends(offered, hashed);
    }
  }

  lemma OfferedHas(files: seq<File>, fm: FM.FileManager, hashed: Hash, i: nat)
    requires Servable(files, fm)
    ensures forall n: nat | n < |files| :: Answers(OfferedAll(files, fm)[n], hashed, i) <==> Has(files[n], hashed, i)
  {
  }

  lemma ServesOffered(files: seq<File>, fm: FM.FileManager, hashed: Hash, fragNum: nat)
    requires Servable(files, fm)
    ensures Serves(FragmentOf(OfferedAll(files, fm), hashed, fragNum), files, fm, hashed, fragNum)
  {
    var offered := OfferedAll(files, fm);
    var r := FragmentOf(offered, hashed, fragNum);
    OfferedHas(files, fm, hashed, fragNum);
    AnsweredExactlyWhenComplete(offered, hashed, fragNum);
    NoFileReply(offered, hashed, fragNum);
    if r.code == F_FINE {
      var n := LastAnswers(offered, hashed, fragNum);
      SegmentBytes(offered[n], fragNum);
      assert offered[n] == OfferedOf(files[n], fm);
      assert Has(files[n], hashed, fragNum) && Carries(r.fragment, files[n], fm, fragNum);
    }
  }

  method RespondFragment(files: seq<File>, fm: FM.FileManager, hashed: Hash, fragNum: nat) returns (r: Reply)
    requires Servable(files, fm)
    requires forall f | f in files && f.hashed == hashed :: fragNum < |f.segments|
    modifies fm`failedStreams
    ensures fm.failedStreams == old(fm.failedStreams)
    ensures r == FragmentOf(old(OfferedAll(files, fm)), hashed, fragNum)
    ensures Servable(files, fm) && Serves(r, files, fm, hashed, fragNum)
  {
    ghost var offered := OfferedAll(files, fm);
    assert offered[..|files|] == offered;
    r := FragmentReply(F_NO_FILE, 0, 0, []);
    for n := 0 to |files|
      invariant fm.failedStreams == old(fm.failedStreams)
      invariant r == FragmentOf(offered[..n], hashed, fragNum)
    {
      var s := files[n];
      assert offered[..n + 1][..n] == offered[..n];
      if s.hashed == hashed {
        var state := s.GetSegmentState(fragNum);
        if state == COMPLETE {
          assert offered[n] == OfferedOf(s, fm);
          var fragment := fm.GetSegment(s.fileName, fragNum, ClippedSize(s.size, fragNum));
          r := FragmentReply(F_FINE, hashed, fragNum, fragment.value);
        }
      }
    }
    ServesOffered(files, fm, hashed, fragNum);
  }

  /** Answers one request. A fragment number must be a segment of each file it asks for,
      as it is when it comes from a list of one of these files. */
  method Respond(files: seq<File>, fm: FM.FileManager, msg: Request) returns (r: Reply)
    requires Servable(files, fm)
    requires msg.FragmentRequest? ==>
      forall f | f in files && f.hashed == msg.hashed :: msg.fragNum < |f.segments|
    modifies fm`failedStreams
    ensures fm.failedStreams == old(fm.failedStreams)
    ensures msg.Ok? ==> r == OkReply
    ensures msg.ListRequest? ==>
      r == ListReply(F_FRAG_COMPLETE, msg.hashed, ListOf(old(OfferedAll(files, fm)), msg.hashed))
    ensures msg.FragmentRequest? ==> r == FragmentOf(old(OfferedAll(files, fm)), msg.hashed, msg.fragNum)
    ensures msg.ListRequest? ==> Lists(r.fragments, files, msg.hashed)
    ensures Servable(files, fm) && (msg.FragmentRequest? ==> Serves(r, files, fm, msg.hashed, msg.fragNum))
    ensures msg.OtherRequest? ==> r == NoReply
  {
    match msg {
      case Ok => r := OkReply;
      case ListRequest(hashed) => r := RespondList(files, fm, hashed);
      case FragmentRequest(hashed, fragNum) => r := RespondFragment(files, fm, hashed, fragNum);
      case OtherRequest => r := NoReply;
    }
  }

  // ---------- what the replies mean ----------

  /** The list names exactly the COMPLETE segments, each once, in ascending order. */
  lemma {:induction false} CompleteIdsExact(states: seq<SegmentState>, n: nat)
    requires n <= |states|
    ensures forall i: nat :: i in CompleteIds(states, n) <==> i < n && states[i] == COMPLETE
    ensures forall j: nat, k: nat | j < k < |CompleteIds(states, n)| ::
      CompleteIds(states, n)[j] < CompleteIds(states, n)[k]
  {
    if n > 0 {
      CompleteIdsExact(states, n - 1);
      var ids := CompleteIds(states, n - 1);
      assert forall j: nat | j < |ids| :: ids[j] in ids;
    }
  }

  /** A list names exactly what some offered file of the hash has. */
  lemma {:induction false} ListOfExact(files: seq<Offered>, hashed: Hash, i: nat)
    ensures i in ListOf(files, hashed) <==> exists n: nat :: n < |files| && Answers(files[n], hashed, i)
  {
    if files != [] {
      var m := |files| - 1;
      ListOfExact(files[..m], hashed, i);
      CompleteIdsExact(files[m].states, |files[m].states|);
      if n: nat :| n < m && Answers(files[n], hashed, i) {
        assert Answers(files[..m][n], hashed, i);
      }
      if n: nat :| n < m && Answers(files[..m][n], hashed, i) {
        assert Answers(files[n], hashed, i);
      }
    }
  }

  lemma {:induction false} ListOfAscends(files: seq<Offered>, hashed: Hash)
    requires forall m: nat, n: nat | m < |files| && n < |files| && files[m].hashed == hashed == files[n].hashed ::
      m == n
    ensures forall j: nat, k: nat | j < k < |ListOf(files, hashed)| ::
      ListOf(files, hashed)[j] < ListOf(files, hashed)[k]
  {
    if files != [] {
      var m := |files| - 1;
      if files[m].hashed == hashed {
        assert forall f | f in files[..m] :: f.hashed != hashed;
        ListOfNone(files[..m], hashed);
        CompleteIdsExact(files[m].states, |files[m].states|);
      } else {
        ListOfAscends(files[..m], hashed);
      }
    }
  }

  /** The file that answers is the last one that can. */
  lemma {:induction false} LastAnswers(files: seq<Offered>, hashed: Hash, fragNum: nat) returns (n: nat)
    requires AllSound(files) && FragmentOf(files, hashed, fragNum).code == F_FINE
    ensures n < |files| && Answers(files[n], hashed, fragNum)
    ensures forall m: nat | n < m < |files| :: !Answers(files[m], hashed, fragNum)
    ensures FragmentOf(files, hashed, fragNum) == FragmentReply(F_FINE, hashed, fragNum, SegmentOf(files[n], fragNum))
  {
    n := |files| - 1;
    if !Answers(files[n], hashed, fragNum) {
      n := LastAnswers(files[..n], hashed, fragNum);
    }
  }

  lemma {:induction false} NoFileReply(files: seq<Offered>, hashed: Hash, fragNum: nat)
    requires AllSound(files)
    ensures FragmentOf(files, hashed, fragNum).code != F_FINE ==>
      FragmentOf(files, hashed, fragNum) == FragmentReply(F_NO_FILE, 0, 0, [])
  {
    if files != [] {
      NoFileReply(files[..|files| - 1], hashed, fragNum);
    }
  }

  /** A segment has the file's bytes, and zeros after the file's end. */
  lemma SegmentBytes(f: Offered, fragNum: nat)
    requires f.Sound() && fragNum < |f.states|
    ensures |SegmentOf(f, fragNum)| == SEGMENT_SIZE
    ensures forall j: nat | j < SEGMENT_SIZE ::
      SegmentOf(f, fragNum)[j] ==
      if Offset(fragNum) + j < f.size && Offset(fragNum) + j < |f.disk| then f.disk[Offset(fragNum) + j] else 0
  {
    var pad := Zeros(SEGMENT_SIZE - ClippedSize(f.size, fragNum));
    assert forall j: nat | j < |pad| :: pad[j] == ByteAt(pad, j);
  }

  ghost predicate UniqueHashes(files: seq<Offered>) {
    forall i: nat, j: nat | i < |files| && j < |files| && files[i].hashed == files[j].hashed :: i == j
  }

  lemma {:induction false} ListOfOne(files: seq<Offered>, hashed: Hash, n: nat)
    requires UniqueHashes(files) && n < |files| && files[n].hashed == hashed
    ensures ListOf(files, hashed) == CompleteIds(files[n].states, |files[n].states|)
  {
    var m := |files| - 1;
    if n == m {
      ListOfNone(files[..m], hashed);
    } else {
      ListOfOne(files[..m], hashed, n);
    }
  }

  lemma {:induction false} ListOfNone(files: seq<Offered>, hashed: Hash)
    requires forall f | f in files :: f.hashed != hashed
    ensures ListOf(files, hashed) == []
  {
    if files != [] {
      ListOfNone(files[..|files| - 1], hashed);
    }
  }

  lemma {:induction false} FragmentOfOne(files: seq<Offered>, hashed: Hash, fragNum: nat, n: nat)
    requires AllSound(files)
    requires UniqueHashes(files) && n < |files| && Answers(files[n], hashed, fragNum)
    ensures FragmentOf(files, hashed, fragNum) ==
      FragmentReply(F_FINE, hashed, fragNum, SegmentOf(files[n], fragNum))
  {
    if n < |files| - 1 {
      FragmentOfOne(files[..|files| - 1], hashed, fragNum, n);
    }
  }

  /** Whether a fragment request is answered: F_FINE exactly when the database has a file
      of that hash whose segment is COMPLETE, and F_NO_FILE otherwise. */
  lemma {:induction false} AnsweredExactlyWhenComplete(files: seq<Offered>, hashed: Hash, fragNum: nat)
    requires AllSound(files)
    ensures FragmentOf(files, hashed, fragNum).code == F_FINE <==>
      exists i: nat :: i < |files| && Answers(files[i], hashed, fragNum)
  {
    if files != [] {
      var m := |files| - 1;
      AnsweredExactlyWhenComplete(files[..m], hashed, fragNum);
      if i: nat :| i < m && Answers(files[i], hashed, fragNum) {
        assert Answers(files[..m][i], hashed, fragNum);
      }
    }
  }

  /** File `n` of the database has only gained COMPLETE segments since then. */
  ghost predicate Grown(before: seq<Offered>, after: seq<Offered>, n: nat) {
    && n < |before| && n < |after|
    && after[n].hashed == before[n].hashed
    && |after[n].states| == |before[n].states|
    && forall i: nat | i < |before[n].states| && before[n].states[i] == COMPLETE :: after[n].states[i] == COMPLETE
  }

  /** Listed means served: a segment that a list reply named is answered F_FINE by every
      later state of the database, with the source's padded block, as long as the file
      keeps its COMPLETE segments and their bytes. */
  lemma ListedThenFine(before: seq<Offered>, after: seq<Offered>, n: nat, i: nat, source: bytes)
    requires UniqueHashes(before) && UniqueHashes(after) && Grown(before, after, n)
    requires AllSound(before) && AllSound(after)
    requires i in ListOf(before, before[n].hashed)
    requires after[n].size == |source| && HoldsSegment(after[n].disk, source, i)
    ensures FragmentOf(after, before[n].hashed, i) == FragmentReply(F_FINE, before[n].hashed, i, Block(source, i))
  {
    ListOfOne(before, before[n].hashed, n);
    CompleteIdsExact(before[n].states, |before[n].states|);
    FragmentOfOne(after, before[n].hashed, i, n);
    FM.ReadGivesBlock(after[n].disk, source, i);
  }
}
