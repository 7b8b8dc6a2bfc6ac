/** How the tracker finds a hash for a new torrent: it salts the name until the hash is
    not taken. */
module Allocation {
  import opened Common
  import opened Torrents

  type HashFunction = bytes -> Hash

  function HashesOf(torrents: seq<Torrent>): set<Hash> {
    set i: nat | i < |torrents| :: torrents[i].hashed
  }

  /** The k-th salted name of the chain has a hash that no stored torrent has. */
  predicate Fresh(h: HashFunction, taken: set<Hash>, name: bytes, k: nat) {
    h(Chain(name, k)) !in taken
  }

  /** The salting loop ends. */
  ghost predicate Allocatable(h: HashFunction, taken: set<Hash>, name: bytes) {
    exists k: nat :: Fresh(h, taken, name, k)
  }

  ghost predicate FirstFresh(h: HashFunction, taken: set<Hash>, name: bytes, k: nat) {
    Fresh(h, taken, name, k) && forall j: nat | j < k :: !Fresh(h, taken, name, j)
  }

  lemma {:induction false} FirstFreshBelow(h: HashFunction, taken: set<Hash>, name: bytes, k: nat) returns (first: nat)
    requires Fresh(h, taken, name, k)
    ensures first <= k && FirstFresh(h, taken, name, first)
  {
    if j: nat :| j < k && Fresh(h, taken, name, j) {
      first := FirstFreshBelow(h, taken, name, j);
    } else {
      first := k;
    }
  }

  /** How many salts are tried. */
  ghost function Salts(h: HashFunction, taken: set<Hash>, name: bytes): (k: nat)
    requires Allocatable(h, taken, name)
    ensures FirstFresh(h, taken, name, k)
  {
    var any: nat :| Fresh(h, taken, name, any);
    assert exists first: nat :: FirstFresh(h, taken, name, first) by {
      var first := FirstFreshBelow(h, taken, name, any);
    }
    var k: nat :| FirstFresh(h, taken, name, k);
    k
  }

  /** The torrent after k salts. */
  function Salted(h: HashFunction, t: Torrent, k: nat): Torrent {
    t.(hashed := h(Chain(t.fileName, k)), fileName := Chain(t.fileName, k))
  }

  /** The torrent as it is stored. */
  ghost function Allocated(h: HashFunction, taken: set<Hash>, t: Torrent): Torrent
    requires Allocatable(h, taken, t.fileName)
  {
    Salted(h, t, Salts(h, taken, t.fileName))
  }

  // ---------- termination ----------

  ghost predicate InjectiveOnChain(h: HashFunction, name: bytes, m: nat) {
    forall j: nat, k: nat | j <= m && k <= m && h(Chain(name, j)) == h(Chain(name, k)) ::
      Chain(name, j) == Chain(name, k)
  }

  ghost function ChainHashes(h: HashFunction, name: bytes, m: nat): set<Hash> {
    set k: nat | k < m :: h(Chain(name, k))
  }

  lemma {:induction false} ChainHashesCount(h: HashFunction, name: bytes, m: nat, n: nat)
    requires InjectiveOnChain(h, name, m) && n <= m + 1
    ensures |ChainHashes(h, name, n)| == n
  {
    if n > 0 {
      ChainHashesCount(h, name, m, n - 1);
      ChainHashesNext(h, name, n - 1);
      ChainHashIsNew(h, name, m, n - 1);
      CountNext(ChainHashes(h, name, n - 1), h(Chain(name, n - 1)));
    }
  }

  lemma CountNext<T>(a: set<T>, x: T)
    requires x !in a
    ensures |a + {x}| == |a| + 1
  {
  }

  lemma ChainHashesNext(h: HashFunction, name: bytes, n: nat)
    ensures ChainHashes(h, name, n + 1) == ChainHashes(h, name, n) + {h(Chain(name, n))}
  {
  }

  lemma ChainHashIsNew(h: HashFunction, name: bytes, m: nat, n: nat)
    requires InjectiveOnChain(h, name, m) && n <= m
    ensures h(Chain(name, n)) !in ChainHashes(h, name, n)
  {
    forall k: nat | k < n
      ensures h(Chain(name, k)) != h(Chain(name, n))
    {
      ChainGrows(name, k, n);
    }
  }

  lemma SubsetCount<T>(a: set<T>, b: set<T>)
    requires a <= b
    ensures |a| <= |b|
  {
    assert b == a + (b - a);
  }

  lemma {:induction false} HashesCount(torrents: seq<Torrent>)
    ensures |HashesOf(torrents)| <= |torrents|
  {
    if torrents != [] {
      var m := |torrents| - 1;
      HashesCount(torrents[..m]);
      assert HashesOf(torrents) == HashesOf(torrents[..m]) + {torrents[m].hashed};
    }
  }

  /** With m stored torrents, if the hash does not confuse two of the first m + 1 names of
      the chain, the loop ends after at most m salts: m + 1 different hashes cannot all be
      among m taken ones. */
  lemma TerminatesWithinStored(h: HashFunction, torrents: seq<Torrent>, name: bytes)
    requires InjectiveOnChain(h, name, |torrents|)
    ensures Allocatable(h, HashesOf(torrents), name)
    ensures Salts(h, HashesOf(torrents), name) <= |torrents|
  {
    var m, taken := |torrents|, HashesOf(torrents);
    ChainHashesCount(h, name, m, m + 1);
    HashesCount(torrents);
    if forall k: nat | k <= m :: !Fresh(h, taken, name, k) {
      assert ChainHashes(h, name, m + 1) <= taken by {
        forall x | x in ChainHashes(h, name, m + 1)
          ensures x in taken
        {
          var k: nat :| k < m + 1 && x == h(Chain(name, k));
          assert !Fresh(h, taken, name, k);
        }
      }
      SubsetCount(ChainHashes(h, name, m + 1), taken);
      assert false;
    }
    var k: nat :| k <= m && Fresh(h, taken, name, k);
    assert Salts(h, taken, name) <= k;
  }
}
