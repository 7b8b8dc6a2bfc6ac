/** Unsigned numbers in the byte order in which the programs write them to a file:
    least significant byte first. */
module LittleEndian {
  import opened Common

  function Pow256(w: nat): nat {
    if w == 0 then 1 else 256 * Pow256(w - 1)
  }

  function Little(n: nat, w: nat): (b: bytes)
    ensures |b| == w
  {
    if w == 0 then [] else [n % 256] + Little(n / 256, w - 1)
  }

  function FromLittle(b: bytes): (n: nat)
    ensures n < Pow256(|b|)
  {
    if b == [] then 0 else b[0] + 256 * FromLittle(b[1..])
  }

  /** The last byte is the most significant one: byte i counts 256^i times. */
  lemma {:induction false} LastByteCountsMost(b: bytes, high: byte)
    ensures FromLittle([high]) == high
    ensures FromLittle(b + [high]) == FromLittle(b) + high * Pow256(|b|)
  {
    assert FromLittle([]) == 0 && [high][1..] == [];
    if b == [] {
      assert b + [high] == [high];
    } else {
      LastByteCountsMost(b[1..], high);
      assert (b + [high])[1..] == b[1..] + [high];
      Reorder(high, Pow256(|b| - 1));
    }
  }

  lemma Reorder(high: byte, p: nat)
    ensures 256 * (high * p) == high * (256 * p)
  {
  }

  lemma {:induction false} LittleRoundTrip(n: nat, w: nat)
    requires n < Pow256(w)
    ensures FromLittle(Little(n, w)) == n
  {
    if w > 0 {
      LittleRoundTrip(n / 256, w - 1);
    }
  }

  lemma LowByte(low: byte, high: nat)
    ensures (low + 256 * high) % 256 == low && (low + 256 * high) / 256 == high
  {
  }

  lemma {:induction false} FromLittleRoundTrip(b: bytes)
    ensures Little(FromLittle(b), |b|) == b
  {
    if b != [] {
      FromLittleRoundTrip(b[1..]);
      LowByte(b[0], FromLittle(b[1..]));
      assert b == [b[0]] + b[1..];
    }
  }

  lemma Powers()
    ensures Pow256(2) == TWO_16 && Pow256(4) == TWO_32 && Pow256(8) == TWO_64
  {
  }
}

/** Torrents: their hashes, which the tracker allocates, and their file format. */
module Torrents {
  import opened Common
  import opened LittleEndian

  /** A torrent as a value. `path` is the file it was loaded from or saved to, if any. */
  datatype Torrent = Torrent(hashed: Hash, size: uint32, fileName: bytes, path: Option<bytes>)

  // ---------- hashing ----------

  /** The decimal digits of a number. */
  function Decimal(n: nat): (d: bytes)
    ensures |d| >= 1
  {
    if n < 10 then [48 + n] else Decimal(n / 10) + [48 + n % 10]
  }

  function ValueOf(digits: bytes): int {
    if digits == [] then 0 else ValueOf(digits[..|digits| - 1]) * 10 + (digits[|digits| - 1] as int - 48)
  }

  /** Decimal writes the number in ASCII digits, without leading zeros. */
  lemma {:induction false} DecimalIsValue(n: nat)
    ensures ValueOf(Decimal(n)) == n
    ensures forall i: nat | i < |Decimal(n)| :: 48 <= Decimal(n)[i] <= 57
    ensures Decimal(n)[0] == 48 <==> n == 0
  {
    if n >= 10 {
      DecimalIsValue(n / 10);
      assert Decimal(n)[..|Decimal(n)| - 1] == Decimal(n / 10);
    } else {
      assert Decimal(n)[..0] == [];
    }
  }

  /** The file name after k salts have been appended: 1, 2, 3, ... in 32 bits. */
  function Chain(name: bytes, k: nat): bytes {
    if k == 0 then name else Chain(name, k - 1) + Decimal(k % TWO_32)
  }

  lemma {:induction false} ChainGrows(name: bytes, j: nat, k: nat)
    requires j < k
    ensures |Chain(name, j)| < |Chain(name, k)|
  {
    if j < k - 1 {
      ChainGrows(name, j, k - 1);
    }
  }

  /** The numbers from i to k in decimals, one after the other. */
  function Decimals(i: nat, k: nat): bytes
    decreases k + 1 - i
  {
    if i > k then [] else Decimal(i) + Decimals(i + 1, k)
  }

  lemma {:induction false} DecimalsSnoc(i: nat, k: nat)
    requires i <= k + 1
    ensures Decimals(i, k + 1) == Decimals(i, k) + Decimal(k + 1)
    decreases k + 1 - i
  {
    if i == k + 1 {
      assert Decimals(k + 2, k + 1) == [];
    } else {
      DecimalsSnoc(i + 1, k);
    }
  }

  /** After k salts a name has the decimals of 1 to k behind it. */
  lemma {:induction false} ChainIsDecimals(name: bytes, k: nat)
    requires k < TWO_32
    ensures Chain(name, k) == name + Decimals(1, k)
  {
    if k == 0 {
      assert Decimals(1, 0) == [] && name + [] == name;
    } else {
      ChainIsDecimals(name, k - 1);
      ChainNext(name, k);
      DecimalsSnoc(1, k - 1);
      Associative(name, Decimals(1, k - 1), Decimal(k));
    }
  }

  lemma ChainNext(name: bytes, k: nat)
    requires 0 < k < TWO_32
    ensures Chain(name, k) == Chain(name, k - 1) + Decimal(k)
  {
    assert k % TWO_32 == k;
  }

  lemma Associative(a: bytes, b: bytes, c: bytes)
    ensures (a + b) + c == a + (b + c)
  {
  }

  /** With the salt after 2^32 - 1 the counter begins anew, at 0. */
  lemma ChainWraps(name: bytes)
    ensures Chain(name, TWO_32) == name + Decimals(1, TWO_32 - 1) + Decimal(0)
  {
    ChainIsDecimals(name, TWO_32 - 1);
  }

  /** A salted name begins with the name. */
  lemma {:induction false} ChainPrefix(name: bytes, k: nat)
    ensures name <= Chain(name, k)
  {
    if k > 0 {
      ChainPrefix(name, k - 1);
    }
  }

  /** An object that the tracker hashes and that is saved and loaded in place. */
  class TorrentObject {
    const hash: bytes -> Hash
    var hashed: Hash
    var size: uint32
    var fileName: bytes
    var hasPath: bool
    var currentPath: bytes

    function Value(): Torrent
      reads this
    {
      Torrent(hashed, size, fileName, if hasPath then Some(currentPath) else None)
    }

    constructor Copy(hash: bytes -> Hash, t: Torrent)
      ensures Value() == t && this.hash == hash
    {
      this.hash := hash;
      hashed, size, fileName := t.hashed, t.size, t.fileName;
      hasPath := t.path.Some?;
      currentPath := if t.path.Some? then t.path.value else [];
    }

    method GenDefaultHash()
      modifies this`hashed
      ensures Value() == old(Value()).(hashed := hash(old(fileName)))
    {
      hashed := hash(fileName);
    }

    method GenSaltedHash(salt: uint32)
      modifies this`hashed, this`fileName
      ensures var name := old(fileName) + Decimal(salt);
        Value() == old(Value()).(hashed := hash(name), fileName := name)
    {
      fileName := fileName + Decimal(salt);
      hashed := hash(fileName);
    }

    method SetPath(path: bytes)
      modifies this`hasPath, this`currentPath
      ensures Value() == old(Value()).(path := Some(path))
    {
      hasPath := true;
      currentPath := path;
    }

    /** Writes the torrent file. The path it remembers is the name of the content, not
        the name of the file it has written. */
    method SaveToFile(fs: FileSystem, torrentFilename: bytes)
      modifies fs, this`hasPath, this`currentPath
      ensures fs.files == old(fs.files)[torrentFilename := Encode(old(Value()))]
      ensures Value() == old(Value()).(path := Some(fileName))
    {
      var file := Little(hashed, 8);
      file := file + Little(size, 4);
      var nameSize := |fileName| % TWO_32;
      file := file + Little(nameSize, 4);
      file := file + fileName[..nameSize];
      SetPath(fileName);
      fs.files := fs.files[torrentFilename := file];
    }

    /** Reads a torrent file. A missing file is marked by the size 2^32 - 1; of a file that
        ends too early nothing is promised, which the result tells. */
    method LoadFromFile(fs: FileSystem, torrentFilename: bytes) returns (whole: bool)
      modifies this`hashed, this`size, this`fileName, this`hasPath, this`currentPath
      ensures torrentFilename !in fs.files ==>
        whole && Value() == Torrent(0, TWO_32 - 1, [], None)
      ensures torrentFilename in fs.files ==>
        (whole <==> Decode(fs.files[torrentFilename]).Some?)
      ensures torrentFilename in fs.files && whole ==>
        Value() == Decode(fs.files[torrentFilename]).value.0.(path := Some(torrentFilename))
    {
      Powers();
      hashed, size, fileName, hasPath, currentPath := 0, 0, [], false, [];
      if torrentFilename !in fs.files {
        size := TWO_32 - 1;
        return true;
      }
      var file := new InStream(fs.files[torrentFilename]);
      var ok, field := file.Read(8);
      if !ok { return false; }
      hashed := FromLittle(field);
      ok, field := file.Read(4);
      if !ok { return false; }
      size := FromLittle(field);
      ok, field := file.Read(4);
      if !ok { return false; }
      var nameSize := FromLittle(field);
      ok, field := file.Read(nameSize);
      if !ok { return false; }
      fileName := field;
      SetPath(torrentFilename);
      return true;
    }
  }

  class FileSystem {
    var files: map<bytes, bytes>

    constructor (files: map<bytes, bytes>)
      ensures this.files == files
    {
      this.files := files;
    }
  }

  /** A file open for reading. */
  class InStream {
    const data: bytes
    var pos: nat

    predicate Valid()
      reads this
    {
      pos <= |data|
    }

    constructor (data: bytes)
      ensures Valid() && this.data == data && pos == 0
    {
      this.data := data;
      pos := 0;
    }

    /** Reads the next n bytes, or fails when fewer are left. */
    method Read(n: nat) returns (ok: bool, field: bytes)
      requires Valid()
      modifies this`pos
      ensures Valid()
      ensures ok <==> old(pos) + n <= |data|
      ensures ok ==> field == data[old(pos)..old(pos) + n] && pos == old(pos) + n
    {
      if pos + n <= |data| {
        ok, field := true, data[pos..pos + n];
        pos := pos + n;
      } else {
        ok, field := false, [];
      }
    }
  }

  // ---------- the file format ----------

  /** The bytes of a torrent file. The length of the name is written in 32 bits. */
  function Encode(t: Torrent): bytes {
    Little(t.hashed, 8) + Little(t.size, 4)
    + Little(|t.fileName| % TWO_32, 4) + t.fileName[..|t.fileName| % TWO_32]
  }

  /** The torrent at the front of `b`, with no path, and how many bytes it takes. */
  function Decode(b: bytes): Option<(Torrent, nat)> {
    if |b| < 16 then None
    else
      var nameSize := FromLittle(b[12..16]);
      if |b| < 16 + nameSize then None
      else
        Powers();
        Some((Torrent(FromLittle(b[..8]), FromLittle(b[8..12]), b[16..16 + nameSize], None), 16 + nameSize))
  }

  /** Where each field lies: the hash in bytes 0 to 7, the size in 8 to 11, the length of
      the name in 12 to 15, and then the name. */
  lemma EncodeLayout(t: Torrent)
    requires |t.fileName| < TWO_32
    ensures var b := Encode(t);
      && |b| == 16 + |t.fileName|
      && FromLittle(b[..8]) == t.hashed
      && FromLittle(b[8..12]) == t.size
      && FromLittle(b[12..16]) == |t.fileName|
      && b[16..] == t.fileName
  {
    DecodeEncode(t, []);
    assert Encode(t) + [] == Encode(t);
  }

  /** Decoding the encoding, with anything after it, gives back the torrent with its name
      cut to the length that was written, and takes exactly the bytes that were written. */
  lemma DecodeEncode(t: Torrent, suffix: bytes)
    ensures Decode(Encode(t) + suffix) ==
      Some((t.(path := None, fileName := t.fileName[..|t.fileName| % TWO_32]), |Encode(t)|))
  {
    Powers();
    var n := |t.fileName| % TWO_32;
    var b := Encode(t) + suffix;
    LittleRoundTrip(t.hashed, 8);
    LittleRoundTrip(t.size, 4);
    LittleRoundTrip(n, 4);
    assert b[..8] == Little(t.hashed, 8);
    assert b[8..12] == Little(t.size, 4);
    assert b[12..16] == Little(n, 4);
    assert b[16..16 + n] == t.fileName[..n];
  }

  /** So a torrent survives being saved and loaded exactly when its name is shorter than
      2^32 bytes. */
  lemma RoundTripExactly(t: Torrent)
    ensures Decode(Encode(t)) == Some((t.(path := None), |Encode(t)|)) <==> |t.fileName| < TWO_32
  {
    DecodeEncode(t, []);
    assert Encode(t) + [] == Encode(t);
    var cut := t.fileName[..|t.fileName| % TWO_32];
    assert cut == t.fileName <==> |cut| == |t.fileName|;
  }

  lemma DecodeEncodeShort(t: Torrent, suffix: bytes)
    requires |t.fileName| < TWO_32
    ensures Decode(Encode(t) + suffix) == Some((t.(path := None), |Encode(t)|))
  {
    DecodeEncode(t, suffix);
    assert t.fileName[..|t.fileName|] == t.fileName;
  }

  /** Different torrents have different encodings, and none is a prefix of another. */
  lemma EncodeInjective(t: Torrent, u: Torrent, s1: bytes, s2: bytes)
    requires |t.fileName| < TWO_32 && |u.fileName| < TWO_32
    requires Encode(t) + s1 == Encode(u) + s2
    ensures t.(path := None) == u.(path := None) && s1 == s2
  {
    DecodeEncodeShort(t, s1);
    DecodeEncodeShort(u, s2);
    Rest(Encode(t), s1);
    Rest(Encode(u), s2);
  }

  lemma Rest(a: bytes, b: bytes)
    ensures (a + b)[|a|..] == b
  {
  }

  /** What decodes is the encoding of what it decodes to: there is no second form. */
  lemma EncodeDecode(b: bytes)
    requires Decode(b).Some?
    ensures var (t, n) := Decode(b).value; n <= |b| && Encode(t) == b[..n]
  {
    Powers();
    var (t, n) := Decode(b).value;
    FromLittleRoundTrip(b[..8]);
    FromLittleRoundTrip(b[8..12]);
    FromLittleRoundTrip(b[12..16]);
    EncodeFields(t, b[..8], b[8..12], b[12..16]);
    assert b[..n] == b[..8] + b[8..12] + b[12..16] + b[16..n];
  }

  lemma EncodeFields(t: Torrent, hashed: bytes, size: bytes, nameSize: bytes)
    requires Little(t.hashed, 8) == hashed && Little(t.size, 4) == size
    requires |t.fileName| < TWO_32 && Little(|t.fileName|, 4) == nameSize
    ensures Encode(t) == hashed + size + nameSize + t.fileName
  {
    assert t.fileName[..|t.fileName|] == t.fileName;
  }
}
