/** The client's list of torrent files: a 16-bit count followed by length-prefixed paths. */
module ClientDatabase {
  import opened Common
  import opened LittleEndian
  import opened Torrents

  /** The paths of the entries that have one, in order. */
  function PathsOf(files: seq<Torrent>): seq<bytes> {
    if files == [] then []
    else
      var last := files[|files| - 1];
      PathsOf(files[..|files| - 1]) + if last.path.Some? then [last.path.value] else []
  }

  function EncodePath(path: bytes): bytes {
    Little(|path| % TWO_32, 4) + path[..|path| % TWO_32]
  }

  function EncodePaths(paths: seq<bytes>): bytes {
    if paths == [] then []
    else EncodePaths(paths[..|paths| - 1]) + EncodePath(paths[|paths| - 1])
  }

  /** The list file. The count is that of all entries, in 16 bits; an entry without a
      path is counted but not written. */
  function Saved(files: seq<Torrent>): bytes {
    Little(|files| % TWO_16, 2) + EncodePaths(PathsOf(files))
  }

  /** One length-prefixed path at the front of `b`, and how many bytes it takes. */
  function DecodePath(b: bytes): (r: Option<(bytes, nat)>)
    ensures r.Some? ==> r.value.1 == 4 + |r.value.0| <= |b|
  {
    if |b| < 4 || |b| < 4 + FromLittle(b[..4]) then None
    else Some((b[4..4 + FromLittle(b[..4])], 4 + FromLittle(b[..4])))
  }

  function DecodePaths(b: bytes, count: nat): Option<seq<bytes>>
    decreases count
  {
    if count == 0 then Some([])
    else if DecodePath(b).None? then None
    else
      var (path, n) := DecodePath(b).value;
      var rest := DecodePaths(b[n..], count - 1);
      if rest.None? then None else Some([path] + rest.value)
  }

  /** The paths in a list file, or None where it ends too early. */
  function ListedPaths(b: bytes): Option<seq<bytes>> {
    if |b| < 2 then None else DecodePaths(b[2..], FromLittle(b[..2]))
  }

  /** The torrents of the listed paths whose files exist, in order, each with its path.
      None where such a file is not a whole torrent file. */
  function LoadPaths(fs: map<bytes, bytes>, paths: seq<bytes>): Option<seq<Torrent>> {
    if paths == [] then Some([])
    else
      var p := paths[|paths| - 1];
      var before := LoadPaths(fs, paths[..|paths| - 1]);
      if before.None? then None
      else if p !in fs then before
      else if Decode(fs[p]).None? then None
      else Some(before.value + [Decode(fs[p]).value.0.(path := Some(p))])
  }

  function Present(fs: map<bytes, bytes>, paths: seq<bytes>): seq<bytes> {
    if paths == [] then []
    else
      var p := paths[|paths| - 1];
      Present(fs, paths[..|paths| - 1]) + if p in fs then [p] else []
  }

  class Database {
    var files: seq<Torrent>

    constructor ()
      ensures files == []
    {
      files := [];
    }

    /** Writes the list file; the result is 1 when it cannot be opened. */
    method SaveToFile(fs: FileSystem, filename: bytes, opens: bool) returns (r: int)
      modifies fs
      ensures opens ==> r == 0 && fs.files == old(fs.files)[filename := Saved(files)]
      ensures !opens ==> r == 1 && fs.files == old(fs.files)
    {
      if !opens {
        return 1;
      }
      var file := Little(|files| % TWO_16, 2);
      ghost var head := file;
      assert head + [] == head;
      for i := 0 to |files|
        invariant fs.files == old(fs.files)
        invariant file == head + EncodePaths(PathsOf(files[..i]))
      {
        EncodeNext(files, i);
        Associative(head, EncodePaths(PathsOf(files[..i])), EncodeEntry(files[i]));
        file := WriteEntry(file, files[i]);
      }
      assert files[..|files|] == files;
      fs.files := fs.files[filename := file];
      return 0;
    }

    /** Refills the database from a list file. The result is 1 when there is no such file;
        of lists or torrent files that end too early nothing is promised (result 2). */
    method LoadFromFile(hash: bytes -> Hash, fs: FileSystem, filename: bytes) returns (r: int)
      modifies this
      ensures filename !in fs.files ==> r == 1 && files == old(files)
      ensures filename in fs.files ==>
        var paths := ListedPaths(fs.files[filename]);
        if paths.Some? && LoadPaths(fs.files, paths.value).Some?
        then r == 0 && Some(files) == LoadPaths(fs.files, paths.value)
        else r == 2
    {
      if filename !in fs.files {
        return 1;
      }
      files := [];
      var file := new InStream(fs.files[filename]);
      var ok, field := file.Read(2);
      if !ok { return 2; }
      var torrentCount := FromLittle(field);
      var loaded;
      ok, loaded := LoadEntries(hash, fs, file, torrentCount);
      files := loaded;
      return if ok then 0 else 2;
    }
  }

  /** The loop of loadFromFile: reads `torrentCount` paths and loads the torrents that exist. */
  method LoadEntries(hash: bytes -> Hash, fs: FileSystem, file: InStream, torrentCount: nat)
    returns (ok: bool, loaded: seq<Torrent>)
    requires file.Valid()
    modifies file`pos
    ensures var listed := DecodePaths(file.data[old(file.pos)..], torrentCount);
      && (ok <==> listed.Some? && LoadPaths(fs.files, listed.value).Some?)
      && (ok ==> Some(loaded) == LoadPaths(fs.files, listed.value))
  {
    ghost var listed := DecodePaths(file.data[file.pos..], torrentCount);
    ghost var read: seq<bytes> := [];
    loaded := [];
    var i := 0;
    while i < torrentCount
      invariant i <= torrentCount && file.Valid()
      invariant Continues(listed, read, file.data[file.pos..], torrentCount - i)
      invariant LoadPaths(fs.files, read) == Some(loaded)
    {
      var torrentPath;
      ghost var b := file.data[file.pos..];
      ok, torrentPath := ReadPath(file);
      ContinuesNext(listed, read, b, torrentCount - i);
      if !ok { return; }
      read := read + [torrentPath];
      assert read[..|read| - 1] + [torrentPath] == read;
      if torrentPath in fs.files {
        var t;
        ok, t := LoadTorrent(hash, fs, torrentPath);
        if !ok {
          LoadPathsPrefix(fs.files, listed, read);
          return;
        }
        loaded := loaded + [t];
      }
      i := i + 1;
    }
    assert listed.Some? && listed.value == read + [] == read;
    ok := true;
  }

  lemma ContinuesNext(listed: Option<seq<bytes>>, read: seq<bytes>, b: bytes, count: nat)
    requires Continues(listed, read, b, count) && count > 0
    ensures DecodePath(b).None? ==> listed.None?
    ensures DecodePath(b).Some? ==>
      var (path, n) := DecodePath(b).value; Continues(listed, read + [path], b[n..], count - 1)
  {
  }

  method LoadTorrent(hash: bytes -> Hash, fs: FileSystem, torrentPath: bytes) returns (whole: bool, t: Torrent)
    requires torrentPath in fs.files
    ensures whole <==> Decode(fs.files[torrentPath]).Some?
    ensures whole ==> t == Decode(fs.files[torrentPath]).value.0.(path := Some(torrentPath))
  {
    var torrent := new TorrentObject.Copy(hash, Torrent(0, 0, [], None));
    whole := torrent.LoadFromFile(fs, torrentPath);
    t := torrent.Value();
  }

  /** What is still to come: the list is what was read with what the remaining bytes give. */
  ghost predicate Continues(listed: Option<seq<bytes>>, read: seq<bytes>, b: bytes, count: nat) {
    var rest := DecodePaths(b, count);
    && (listed.Some? <==> rest.Some?)
    && (listed.Some? ==> listed.value == read + rest.value)
  }

  method ReadPath(file: InStream) returns (ok: bool, path: bytes)
    requires file.Valid()
    modifies file`pos
    ensures file.Valid()
    ensures var d := DecodePath(file.data[old(file.pos)..]);
      && (ok <==> d.Some?)
      && (ok ==> path == d.value.0 && file.data[file.pos..] == file.data[old(file.pos)..][d.value.1..])
  {
    ghost var b := file.data[file.pos..];
    var field;
    ok, field := file.Read(4);
    path := [];
    if !ok { return; }
    assert field == b[..4];
    var nameSize := FromLittle(field);
    ok, path := file.Read(nameSize);
    if ok {
      assert path == b[4..4 + nameSize];
    }
  }

  function EncodeEntry(t: Torrent): bytes {
    if t.path.Some? then EncodePath(t.path.value) else []
  }

  /** Appends the entry of one file to the bytes written so far; without a path, nothing. */
  method WriteEntry(file: bytes, t: Torrent) returns (file': bytes)
    ensures file' == file + EncodeEntry(t)
  {
    file' := file;
    if t.path.Some? {
      var nameSize := |t.path.value| % TWO_32;
      file' := file' + (Little(nameSize, 4) + t.path.value[..nameSize]);
    }
  }

  lemma EncodeNext(files: seq<Torrent>, i: nat)
    requires i < |files|
    ensures EncodePaths(PathsOf(files[..i + 1])) == EncodePaths(PathsOf(files[..i])) + EncodeEntry(files[i])
  {
    assert files[..i + 1][..i] == files[..i];
    var paths := PathsOf(files[..i]);
    if files[i].path.Some? {
      assert (paths + [files[i].path.value])[..|paths|] == paths;
    } else {
      assert PathsOf(files[..i + 1]) == paths + [] == paths;
    }
  }

  /** A torrent file that does not load makes the whole list fail. */
  lemma LoadPathsPrefix(fs: map<bytes, bytes>, listed: Option<seq<bytes>>, read: seq<bytes>)
    requires read != [] && read[|read| - 1] in fs && Decode(fs[read[|read| - 1]]).None?
    requires listed.Some? ==> read <= listed.value
    ensures listed.Some? ==> LoadPaths(fs, listed.value).None?
  {
    if listed.Some? {
      LoadPathsStuck(fs, listed.value, |read|);
    }
  }

  lemma {:induction false} LoadPathsStuck(fs: map<bytes, bytes>, paths: seq<bytes>, n: nat)
    requires n <= |paths| && LoadPaths(fs, paths[..n]).None?
    ensures LoadPaths(fs, paths).None?
  {
    if n < |paths| {
      assert paths[..|paths| - 1][..n] == paths[..n];
      LoadPathsStuck(fs, paths[..|paths| - 1], n);
    } else {
      assert paths[..n] == paths;
    }
  }

  // ---------- the order and the layout of the list ----------

  /** `picked` are those of `all` at the positions `at`, in their order. */
  ghost predicate Picked(all: seq<bytes>, picked: seq<bytes>, at: seq<nat>) {
    && |at| == |picked|
    && (forall i: nat | i < |at| :: at[i] < |all| && picked[i] == all[at[i]])
    && (forall i: nat, j: nat | i < j < |at| :: at[i] < at[j])
  }

  lemma PickedNext(all: seq<bytes>, picked: seq<bytes>, at: seq<nat>, x: bytes)
    requires Picked(all, picked, at)
    ensures Picked(all + [x], picked, at) && Picked(all + [x], picked + [x], at + [|all|])
    ensures |all| !in at
  {
  }

  function PathOrEmpty(t: Torrent): bytes {
    if t.path.Some? then t.path.value else []
  }

  /** The paths of the entries in their order. */
  function AllPaths(files: seq<Torrent>): (r: seq<bytes>)
    ensures |r| == |files| && forall i: nat | i < |r| :: r[i] == PathOrEmpty(files[i])
  {
    seq(|files|, i requires 0 <= i < |files| => PathOrEmpty(files[i]))
  }

  /** A list has the paths of the entries that have one, in the order of the entries. */
  lemma {:induction false} PathsInOrder(files: seq<Torrent>) returns (at: seq<nat>)
    ensures Picked(AllPaths(files), PathsOf(files), at)
    ensures forall p: nat | p < |files| :: p in at <==> files[p].path.Some?
  {
    if files == [] {
      at := [];
    } else {
      var m := |files| - 1;
      var before := PathsInOrder(files[..m]);
      PickedNext(AllPaths(files[..m]), PathsOf(files[..m]), before, PathOrEmpty(files[m]));
      assert AllPaths(files) == AllPaths(files[..m]) + [PathOrEmpty(files[m])];
      at := if files[m].path.Some? then before + [m] else before;
      OneMorePosition(files, before, at);
    }
  }

  lemma OneMorePosition(files: seq<Torrent>, before: seq<nat>, at: seq<nat>)
    requires files != [] && |files| - 1 !in before
    requires at == if files[|files| - 1].path.Some? then before + [|files| - 1] else before
    requires var m := |files| - 1; forall p: nat | p < m :: p in before <==> files[..m][p].path.Some?
    ensures forall p: nat | p < |files| :: p in at <==> files[p].path.Some?
  {
    var m := |files| - 1;
    forall p: nat | p < |files|
      ensures p in at <==> files[p].path.Some?
    {
      if p < m {
        assert files[..m][p] == files[p];
      }
    }
  }

  /** Loading keeps the paths of the files that exist in their order. */
  lemma {:induction false} PresentInOrder(fs: map<bytes, bytes>, paths: seq<bytes>) returns (at: seq<nat>)
    ensures Picked(paths, Present(fs, paths), at)
    ensures forall p: nat | p < |paths| :: p in at <==> paths[p] in fs
  {
    if paths == [] {
      at := [];
    } else {
      var m := |paths| - 1;
      var before := PresentInOrder(fs, paths[..m]);
      PickedNext(paths[..m], Present(fs, paths[..m]), before, paths[m]);
      assert paths == paths[..m] + [paths[m]];
      at := if paths[m] in fs then before + [m] else before;
      forall p: nat | p < |paths|
        ensures p in at <==> paths[p] in fs
      {
        if p < m {
          assert paths[..m][p] == paths[p];
        }
      }
    }
  }

  /** How many bytes the first i paths take. */
  function Start(paths: seq<bytes>, i: nat): nat
    requires i <= |paths|
  {
    if i == 0 then 0 else Start(paths, i - 1) + 4 + |paths[i - 1]|
  }

  lemma {:induction false} StartPrefix(paths: seq<bytes>, i: nat)
    requires paths != [] && i < |paths|
    ensures Start(paths[..|paths| - 1], i) == Start(paths, i)
  {
    if i > 0 {
      StartPrefix(paths, i - 1);
    }
  }

  lemma EncodePathLayout(path: bytes)
    requires |path| < TWO_32
    ensures var b := EncodePath(path);
      |b| == 4 + |path| && FromLittle(b[..4]) == |path| && b[4..] == path
  {
    DecodeEncodePath(path, []);
    assert EncodePath(path) + [] == EncodePath(path);
  }

  /** At this position lie four bytes with the length of the path, and then the path. */
  predicate LiesAt(b: bytes, from: nat, path: bytes) {
    && from + 4 + |path| <= |b|
    && FromLittle(b[from..from + 4]) == |path|
    && b[from + 4..from + 4 + |path|] == path
  }

  lemma StillLiesAt(b: bytes, more: bytes, from: nat, path: bytes)
    requires LiesAt(b, from, path)
    ensures LiesAt(b + more, from, path)
  {
    assert (b + more)[from..from + 4] == b[from..from + 4];
    assert (b + more)[from + 4..from + 4 + |path|] == b[from + 4..from + 4 + |path|];
  }

  lemma LiesLast(b: bytes, path: bytes)
    requires |path| < TWO_32
    ensures LiesAt(b + EncodePath(path), |b|, path)
  {
    var last := EncodePath(path);
    EncodePathLayout(path);
    assert (b + last)[|b|..|b| + 4] == last[..4];
    assert (b + last)[|b| + 4..|b| + 4 + |path|] == last[4..];
  }

  /** Where each path of a list lies: one after the other. */
  lemma {:induction false} PathsLayout(paths: seq<bytes>, i: nat)
    requires ShortPaths(paths) && i < |paths|
    ensures |EncodePaths(paths)| == Start(paths, |paths|)
    ensures LiesAt(EncodePaths(paths), Start(paths, i), paths[i])
  {
    var m := |paths| - 1;
    var before := EncodePaths(paths[..m]);
    PathsLength(paths);
    PathsLength(paths[..m]);
    StartPrefix(paths, i);
    if i == m {
      LiesLast(before, paths[m]);
    } else {
      PathsLayout(paths[..m], i);
      StillLiesAt(before, EncodePath(paths[m]), Start(paths, i), paths[i]);
    }
  }

  lemma {:induction false} PathsLength(paths: seq<bytes>)
    requires ShortPaths(paths)
    ensures |EncodePaths(paths)| == Start(paths, |paths|)
  {
    if paths != [] {
      var m := |paths| - 1;
      PathsLength(paths[..m]);
      EncodePathLayout(paths[m]);
      StartPrefix(paths, m);
    }
  }

  /** A saved list is two bytes with the number of entries, and then the paths. */
  lemma SavedLayout(files: seq<Torrent>)
    ensures var b := Saved(files);
      |b| >= 2 && FromLittle(b[..2]) == |files| % TWO_16 && b[2..] == EncodePaths(PathsOf(files))
  {
    Powers();
    LittleRoundTrip(|files| % TWO_16, 2);
    assert Saved(files)[..2] == Little(|files| % TWO_16, 2);
  }

  // ---------- saving and loading again ----------

  predicate ShortPaths(paths: seq<bytes>) {
    forall i: nat | i < |paths| :: |paths[i]| < TWO_32
  }

  lemma SmallMod(n: nat, m: nat)
    requires n < m
    ensures n % m == n
  {
  }

  lemma Slices(a: bytes, b: bytes, c: bytes)
    ensures var all := (a + b) + c;
      all[..|a|] == a && all[|a|..|a| + |b|] == b
  {
  }

  lemma DecodeEncodePath(path: bytes, suffix: bytes)
    requires |path| < TWO_32
    ensures DecodePath(EncodePath(path) + suffix) == Some((path, |EncodePath(path)|))
  {
    var length := Little(|path|, 4);
    assert FromLittle(length) == |path| by {
      Powers();
      LittleRoundTrip(|path|, 4);
    }
    assert EncodePath(path) == length + path by {
      SmallMod(|path|, TWO_32);
      assert path[..|path|] == path;
    }
    Slices(length, path, suffix);
  }

  lemma EncodePathsSnoc(paths: seq<bytes>, path: bytes)
    ensures EncodePaths(paths + [path]) == EncodePaths(paths) + EncodePath(path)
  {
    assert (paths + [path])[..|paths|] == paths;
  }

  lemma {:induction false} EncodePathsCons(path: bytes, rest: seq<bytes>)
    ensures EncodePaths([path] + rest) == EncodePath(path) + EncodePaths(rest)
  {
    if rest == [] {
      EncodePathsSnoc([], path);
      assert [path] + rest == [] + [path];
    } else {
      var m := |rest| - 1;
      EncodePathsCons(path, rest[..m]);
      assert [path] + rest == ([path] + rest[..m]) + [rest[m]];
      EncodePathsSnoc([path] + rest[..m], rest[m]);
      Associative(EncodePath(path), EncodePaths(rest[..m]), EncodePath(rest[m]));
    }
  }

  lemma NoPathLeft(count: nat)
    requires count > 0
    ensures DecodePaths(EncodePaths([]), count) == None
  {
    assert DecodePath([]).None?;
  }

  lemma TakeCons(paths: seq<bytes>, count: nat)
    requires 0 < count <= |paths|
    ensures [paths[0]] + paths[1..][..count - 1] == paths[..count]
  {
  }

  /** Reading `count` paths from the encoding of a list gives its first `count` paths, and
      fails when the list is shorter than that. */
  lemma {:induction false} DecodeEncodePaths(paths: seq<bytes>, count: nat)
    requires ShortPaths(paths)
    ensures DecodePaths(EncodePaths(paths), count) ==
      if count <= |paths| then Some(paths[..count]) else None
    decreases count
  {
    if count > 0 && paths == [] {
      NoPathLeft(count);
    } else if count > 0 {
      DecodeFirstPath(paths);
      DecodeEncodePaths(paths[1..], count - 1);
      DecodeNextPath(EncodePaths(paths), count, paths[0], EncodePaths(paths[1..]));
      if count <= |paths| {
        TakeCons(paths, count);
      }
    }
  }

  lemma DecodeNextPath(b: bytes, count: nat, path: bytes, rest: bytes)
    requires count > 0 && DecodePath(b).Some? && DecodePath(b).value.0 == path && b[DecodePath(b).value.1..] == rest
    ensures var r := DecodePaths(rest, count - 1);
      DecodePaths(b, count) == if r.None? then None else Some([path] + r.value)
  {
  }

  lemma DecodeFirstPath(paths: seq<bytes>)
    requires paths != [] && |paths[0]| < TWO_32
    ensures var b, n := EncodePaths(paths), |EncodePath(paths[0])|;
      n <= |b| && DecodePath(b) == Some((paths[0], n)) && b[n..] == EncodePaths(paths[1..])
  {
    assert paths == [paths[0]] + paths[1..];
    EncodePathsCons(paths[0], paths[1..]);
    DecodeEncodePath(paths[0], EncodePaths(paths[1..]));
  }

  lemma ListedPathsOfSaved(files: seq<Torrent>)
    requires ShortPaths(PathsOf(files))
    ensures var paths, count := PathsOf(files), |files| % TWO_16;
      ListedPaths(Saved(files)) == if count <= |paths| then Some(paths[..count]) else None
  {
    var b := Saved(files);
    Powers();
    LittleRoundTrip(|files| % TWO_16, 2);
    assert b[..2] == Little(|files| % TWO_16, 2) && b[2..] == EncodePaths(PathsOf(files));
    DecodeEncodePaths(PathsOf(files), |files| % TWO_16);
  }

  lemma TakeAllExactly(paths: seq<bytes>, count: nat, r: Option<seq<bytes>>)
    requires r == if count <= |paths| then Some(paths[..count]) else None
    ensures r == Some(paths) <==> |paths| == count
  {
    if count == |paths| {
      assert paths[..count] == paths;
    }
  }

  /** A saved list names exactly the paths of the database when as many entries have a
      path as there are entries, in 16 bits; otherwise it does not. */
  lemma SavedListsPathsExactly(files: seq<Torrent>)
    requires ShortPaths(PathsOf(files))
    ensures ListedPaths(Saved(files)) == Some(PathsOf(files)) <==> |PathsOf(files)| == |files| % TWO_16
  {
    ListedPathsOfSaved(files);
    TakeAllExactly(PathsOf(files), |files| % TWO_16, ListedPaths(Saved(files)));
  }

  /** One entry without a path makes a list that ends too early: it counts one path and
      names none. */
  lemma PathlessEntryCutsList(hashed: Hash, size: uint32, fileName: bytes)
    ensures var files := [Torrent(hashed, size, fileName, None)];
      PathsOf(files) == [] && ListedPaths(Saved(files)) == None
  {
    var files := [Torrent(hashed, size, fileName, None)];
    assert files[..0] == [] && PathsOf(files[..0]) == [];
    ListedPathsOfSaved(files);
  }

  /** So below 2^16 entries each must have a path. */
  lemma {:induction false} PathsOfCount(files: seq<Torrent>)
    ensures |PathsOf(files)| <= |files|
    ensures |PathsOf(files)| == |files| <==> forall i: nat | i < |files| :: files[i].path.Some?
  {
    if files != [] {
      PathsOfCount(files[..|files| - 1]);
    }
  }

  /** Loading keeps, in order, exactly the paths whose files exist. */
  lemma {:induction false} LoadKeepsPresent(fs: map<bytes, bytes>, paths: seq<bytes>)
    requires LoadPaths(fs, paths).Some?
    ensures PathsOf(LoadPaths(fs, paths).value) == Present(fs, paths)
    ensures |LoadPaths(fs, paths).value| == |Present(fs, paths)|
  {
    if paths != [] {
      var m := |paths| - 1;
      LoadKeepsPresent(fs, paths[..m]);
      if paths[m] in fs {
        var before := LoadPaths(fs, paths[..m]).value;
        var t := Decode(fs[paths[m]]).value.0.(path := Some(paths[m]));
        assert (before + [t])[..|before|] == before;
      }
    }
  }

  lemma {:induction false} PresentIsAll(fs: map<bytes, bytes>, paths: seq<bytes>)
    requires forall p | p in paths :: p in fs
    ensures Present(fs, paths) == paths
  {
    if paths != [] {
      PresentIsAll(fs, paths[..|paths| - 1]);
    }
  }

  lemma SavedAndListed(files: seq<Torrent>)
    requires |PathsOf(files)| == |files| < TWO_16 && ShortPaths(PathsOf(files))
    ensures ListedPaths(Saved(files)) == Some(PathsOf(files))
  {
    SavedListsPathsExactly(files);
  }

  /** Stability: a database of fewer than 2^16 entries that all have paths is saved, loaded
      and saved again. The second list names the paths whose torrent files exist, in
      order, and when none is missing it is the first list byte for byte. */
  lemma SaveLoadSave(fs: map<bytes, bytes>, files: seq<Torrent>, again: seq<Torrent>)
    requires |files| < TWO_16 && forall i: nat | i < |files| :: files[i].path.Some?
    requires ShortPaths(PathsOf(files))
    requires LoadPaths(fs, PathsOf(files)) == Some(again)
    ensures ListedPaths(Saved(files)) == Some(PathsOf(files))
    ensures ListedPaths(Saved(again)) == Some(Present(fs, PathsOf(files)))
    ensures PathsOf(again) == Present(fs, PathsOf(files))
    ensures (forall p | p in PathsOf(files) :: p in fs) ==> Saved(again) == Saved(files)
  {
    PathsOfCount(files);
    SavedAndListed(files);
    LoadKeepsPresent(fs, PathsOf(files));
    PresentSublist(fs, PathsOf(files));
    SavedAndListed(again);
    if forall p | p in PathsOf(files) :: p in fs {
      PresentIsAll(fs, PathsOf(files));
      SameSaved(again, files);
    }
  }

  lemma SameSaved(again: seq<Torrent>, files: seq<Torrent>)
    requires PathsOf(again) == PathsOf(files) && |again| == |files|
    ensures Saved(again) == Saved(files)
  {
  }

  lemma {:induction false} PresentSublist(fs: map<bytes, bytes>, paths: seq<bytes>)
    ensures |Present(fs, paths)| <= |paths|
    ensures ShortPaths(paths) ==> ShortPaths(Present(fs, paths))
    ensures forall p :: p in Present(fs, paths) <==> p in paths && p in fs
  {
    if paths != [] {
      PresentSublist(fs, paths[..|paths| - 1]);
      assert paths == paths[..|paths| - 1] + [paths[|paths| - 1]];
    }
  }

  // ---------- entries whose torrent was saved ----------

  /** The file `b` is a torrent file of t. */
  predicate IsFileOf(b: bytes, t: Torrent) {
    Decode(b).Some? && Decode(b).value.0 == t.(path := None)
  }

  /** The path of t is listed and names a torrent file of it. */
  predicate Loadable(fs: map<bytes, bytes>, paths: seq<bytes>, t: Torrent) {
    t.path.Some? && t.path.value in paths && t.path.value in fs && IsFileOf(fs[t.path.value], t)
  }

  /** An entry is loaded exactly if its path is listed and names a torrent file of it. */
  lemma {:induction false} LoadedExactly(fs: map<bytes, bytes>, paths: seq<bytes>, t: Torrent)
    requires LoadPaths(fs, paths).Some?
    ensures t in LoadPaths(fs, paths).value <==> Loadable(fs, paths, t)
  {
    if paths != [] {
      var m := |paths| - 1;
      LoadedExactly(fs, paths[..m], t);
      LoadedNext(fs, paths, t);
      LoadableNext(fs, paths[..m], paths[m], t);
      assert paths == paths[..m] + [paths[m]];
    }
  }

  /** The one entry that a path gives. */
  predicate EntryOf(fs: map<bytes, bytes>, path: bytes, t: Torrent) {
    path in fs && t.path == Some(path) && IsFileOf(fs[path], t)
  }

  lemma LoadedNext(fs: map<bytes, bytes>, paths: seq<bytes>, t: Torrent)
    requires paths != [] && LoadPaths(fs, paths).Some?
    ensures var m := |paths| - 1;
      && LoadPaths(fs, paths[..m]).Some?
      && (t in LoadPaths(fs, paths).value <==> t in LoadPaths(fs, paths[..m]).value || EntryOf(fs, paths[m], t))
  {
    var p := paths[|paths| - 1];
    var before := LoadPaths(fs, paths[..|paths| - 1]).value;
    if p in fs {
      var x := Decode(fs[p]).value.0.(path := Some(p));
      assert t in before + [x] <==> t in before || t == x;
      assert t == x <==> EntryOf(fs, p, t);
    }
  }

  lemma LoadableNext(fs: map<bytes, bytes>, paths: seq<bytes>, p: bytes, t: Torrent)
    ensures Loadable(fs, paths + [p], t) <==> Loadable(fs, paths, t) || EntryOf(fs, p, t)
  {
  }

  lemma {:induction false} PathListed(files: seq<Torrent>, t: Torrent)
    requires t in files && t.path.Some?
    ensures t.path.value in PathsOf(files)
  {
    var m := |files| - 1;
    if files[m] != t {
      PathListed(files[..m], t);
    }
  }

  /** Loading the list file `list` gives the entry. */
  predicate FoundAgain(fs: map<bytes, bytes>, list: bytes, entry: Torrent) {
    && ListedPaths(list).Some?
    && LoadPaths(fs, ListedPaths(list).value).Some?
    && entry in LoadPaths(fs, ListedPaths(list).value).value
  }

  /** Every listed file that exists is a whole torrent file. */
  predicate AllWhole(fs: map<bytes, bytes>, paths: seq<bytes>) {
    forall i: nat | i < |paths| && paths[i] in fs :: Decode(fs[paths[i]]).Some?
  }

  lemma {:induction false} LoadsExactly(fs: map<bytes, bytes>, paths: seq<bytes>)
    ensures LoadPaths(fs, paths).Some? <==> AllWhole(fs, paths)
  {
    if paths != [] {
      var m := |paths| - 1;
      LoadsExactly(fs, paths[..m]);
      assert AllWhole(fs, paths) <==> AllWhole(fs, paths[..m]) && (paths[m] in fs ==> Decode(fs[paths[m]]).Some?) by {
        assert forall i: nat | i < m :: paths[..m][i] == paths[i];
      }
    }
  }

  /** The paths that are read from a saved list, if it does not end too early. */
  function PathsRead(files: seq<Torrent>): seq<bytes> {
    var paths, count := PathsOf(files), |files| % TWO_16;
    if count <= |paths| then paths[..count] else []
  }

  /** An entry is found again after the list was saved and loaded exactly if its path is among
      those that are read, all files that these name are whole, and its own is one of it. */
  lemma FoundAgainExactly(fs: map<bytes, bytes>, files: seq<Torrent>, entry: Torrent)
    requires ShortPaths(PathsOf(files))
    ensures FoundAgain(fs, Saved(files), entry) <==>
      && entry.path.Some? && entry.path.value in PathsRead(files)
      && AllWhole(fs, PathsRead(files))
      && entry.path.value in fs && IsFileOf(fs[entry.path.value], entry)
  {
    ListedPathsOfSaved(files);
    LoadsExactly(fs, PathsRead(files));
    if AllWhole(fs, PathsRead(files)) {
      LoadedExactly(fs, PathsRead(files), entry);
    }
  }

  predicate AllHavePaths(files: seq<Torrent>) {
    forall i: nat | i < |files| :: files[i].path.Some?
  }

  lemma AllPathsCounted(files: seq<Torrent>)
    ensures |PathsOf(files)| <= |files|
    ensures |PathsOf(files)| == |files| <==> AllHavePaths(files)
  {
    PathsOfCount(files);
  }

  /** Below 2^16 entries, a path is read exactly if every entry has one, and then all are. */
  lemma ReadExactly(files: seq<Torrent>, path: bytes)
    requires |files| < TWO_16 && path in PathsOf(files)
    ensures path in PathsRead(files) <==> AllHavePaths(files)
    ensures AllHavePaths(files) ==> PathsRead(files) == PathsOf(files)
  {
    SmallMod(|files|, TWO_16);
    AllPathsCounted(files);
    TakeEnough(PathsOf(files), |files|);
  }

  lemma TakeEnough(paths: seq<bytes>, count: nat)
    requires |paths| <= count
    ensures (if count <= |paths| then paths[..count] else []) == if |paths| == count then paths else []
  {
    assert paths[..|paths|] == paths;
  }

  /** The name of the content is the name of a torrent file of t: the one that is saved now,
      or one that was there. */
  predicate NameIsTorrentFile(fs: map<bytes, bytes>, t: Torrent, torrentFilename: bytes) {
    torrentFilename == t.fileName || (t.fileName in fs && IsFileOf(fs[t.fileName], t))
  }

  lemma SavedFile(fs: map<bytes, bytes>, t: Torrent, torrentFilename: bytes)
    requires |t.fileName| < TWO_32
    ensures var fs' := fs[torrentFilename := Encode(t)];
      t.fileName in fs' && IsFileOf(fs'[t.fileName], t) <==> NameIsTorrentFile(fs, t, torrentFilename)
  {
    RoundTripExactly(t);
  }

  /** Saving a torrent makes its entry remember the name of the content as its path. So the
      entry is found again, after the list was saved and loaded, exactly if that name is
      among those that are read, all files read are whole, and the torrent file was given the
      name of the content, or that name is one of a torrent file of the same torrent anyway.
      Below 2^16 entries it is read exactly if every entry has a path. */
  lemma SavedEntryFoundExactly(fs: map<bytes, bytes>, files: seq<Torrent>, t: Torrent, torrentFilename: bytes)
    requires t.(path := Some(t.fileName)) in files && ShortPaths(PathsOf(files))
    ensures var fs' := fs[torrentFilename := Encode(t)];
      FoundAgain(fs', Saved(files), t.(path := Some(t.fileName))) <==>
      && t.fileName in PathsRead(files)
      && AllWhole(fs', PathsRead(files))
      && NameIsTorrentFile(fs, t, torrentFilename)
    ensures |files| < TWO_16 ==> (t.fileName in PathsRead(files) <==> AllHavePaths(files))
  {
    var entry := t.(path := Some(t.fileName));
    PathListed(files, entry);
    NameIsShort(PathsOf(files), t.fileName);
    SavedFile(fs, t, torrentFilename);
    SavedEntryRead(fs[torrentFilename := Encode(t)], files, t, entry);
    if |files| < TWO_16 {
      ReadExactly(files, t.fileName);
    }
  }

  lemma SavedEntryRead(fs: map<bytes, bytes>, files: seq<Torrent>, t: Torrent, entry: Torrent)
    requires ShortPaths(PathsOf(files)) && entry == t.(path := Some(t.fileName))
    ensures FoundAgain(fs, Saved(files), entry) <==>
      && t.fileName in PathsRead(files)
      && AllWhole(fs, PathsRead(files))
      && t.fileName in fs && IsFileOf(fs[t.fileName], t)
  {
    FoundAgainExactly(fs, files, entry);
  }

  lemma NameIsShort(paths: seq<bytes>, name: bytes)
    requires name in paths && ShortPaths(paths)
    ensures |name| < TWO_32
  {
  }
}
