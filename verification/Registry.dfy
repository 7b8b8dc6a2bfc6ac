/** The tracker's registry: which torrents are known and which clients share them. The
    entries of its vectors are values, as C++ copies them. */
module Registry {
  import opened Common
  import opened Torrents
  import opened Allocation

  datatype Address = Address(ip: bytes, port: uint32)

  datatype ClientInfo = ClientInfo(isIpV4: bool, address: Address, torrents: seq<Torrent>) {
    predicate HasTorrent(hash: Hash) {
      exists i: nat :: i < |torrents| && torrents[i].hashed == hash
    }

    function AddTorrent(t: Torrent): ClientInfo {
      if HasTorrent(t.hashed) then this else this.(torrents := torrents + [t])
    }

    /** Two clients are equal by address and address family. */
    predicate Same(other: ClientInfo) {
      address == other.address && isIpV4 == other.isIpV4
    }

    predicate DistinctTorrents() {
      forall i: nat, j: nat | i < |torrents| && j < |torrents| && torrents[i].hashed == torrents[j].hashed :: i == j
    }
  }

  /** The position of the first client with address `a`, or the number of clients. */
  function Find(clients: seq<ClientInfo>, a: Address): (i: nat)
    ensures i <= |clients|
    ensures forall j: nat | j < i :: clients[j].address != a
    ensures i < |clients| ==> clients[i].address == a
  {
    if clients == [] || clients[0].address == a then 0 else 1 + Find(clients[1..], a)
  }

  function Updated(clients: seq<ClientInfo>, ci: ClientInfo): seq<ClientInfo> {
    var i := Find(clients, ci.address);
    if i < |clients| then clients[i := clients[i].(torrents := ci.torrents)] else clients + [ci]
  }

  function Added(clients: seq<ClientInfo>, ci: ClientInfo, t: Torrent): seq<ClientInfo> {
    var i := Find(clients, ci.address);
    if i < |clients| then clients[i := clients[i].AddTorrent(t)] else clients + [ci.AddTorrent(t)]
  }

  function Deleted(clients: seq<ClientInfo>, ci: ClientInfo): seq<ClientInfo> {
    if clients == [] then []
    else
      var m := |clients| - 1;
      Deleted(clients[..m], ci) + if ci.Same(clients[m]) then [] else [clients[m]]
  }

  function With(clients: seq<ClientInfo>, hash: Hash): seq<ClientInfo> {
    if clients == [] then []
    else
      var m := |clients| - 1;
      With(clients[..m], hash) + if clients[m].HasTorrent(hash) then [clients[m]] else []
  }

  class Database {
    const hash: HashFunction
    var clients: seq<ClientInfo>
    var torrents: seq<Torrent>

    constructor (hash: HashFunction)
      ensures clients == [] && torrents == [] && this.hash == hash
    {
      this.hash := hash;
      clients, torrents := [], [];
    }

    method HasTorrent(c: ClientInfo, hash: Hash) returns (b: bool)
      ensures b <==> c.HasTorrent(hash)
    {
      for i := 0 to |c.torrents|
        invariant forall j: nat | j < i :: c.torrents[j].hashed != hash
      {
        if c.torrents[i].hashed == hash {
          return true;
        }
      }
      return false;
    }

    method AddOrUpdateClient(clientInfo: ClientInfo)
      modifies this`clients
      ensures clients == Updated(old(clients), clientInfo)
    {
      var i := 0;
      while i < |clients|
        invariant i <= |clients| && clients == old(clients)
        invariant forall j: nat | j < i :: clients[j].address != clientInfo.address
      {
        if clientInfo.address == clients[i].address {
          clients := clients[i := clients[i].(torrents := clientInfo.torrents)];
          return;
        }
        i := i + 1;
      }
      clients := clients + [clientInfo];
    }

    method AddTorrentToClient(clientInfo: ClientInfo, torrent: Torrent)
      modifies this`clients
      ensures clients == Added(old(clients), clientInfo, torrent)
    {
      var i := 0;
      while i < |clients|
        invariant i <= |clients| && clients == old(clients)
        invariant forall j: nat | j < i :: clients[j].address != clientInfo.address
      {
        if clients[i].address == clientInfo.address {
          var has := HasTorrent(clients[i], torrent.hashed);
          if !has {
            clients := clients[i := clients[i].(torrents := clients[i].torrents + [torrent])];
          }
          return;
        }
        i := i + 1;
      }
      var has := HasTorrent(clientInfo, torrent.hashed);
      var ci := if has then clientInfo else clientInfo.(torrents := clientInfo.torrents + [torrent]);
      clients := clients + [ci];
    }

    /** remove_if and erase: the clients that stay are moved up, in order. */
    method DeleteClient(client: ClientInfo)
      modifies this`clients
      ensures clients == Deleted(old(clients), client)
    {
      var kept: seq<ClientInfo> := [];
      for i := 0 to |clients|
        invariant clients == old(clients)
        invariant kept == Deleted(clients[..i], client)
      {
        assert clients[..i + 1][..i] == clients[..i];
        if !client.Same(clients[i]) {
          kept := kept + [clients[i]];
        }
      }
      assert clients[..|clients|] == clients;
      clients := kept;
    }

    method GetClientsWith(hash: Hash) returns (clientsToReturn: seq<ClientInfo>)
      ensures clientsToReturn == With(clients, hash)
    {
      clientsToReturn := [];
      for i := 0 to |clients|
        invariant clientsToReturn == With(clients[..i], hash)
      {
        assert clients[..i + 1][..i] == clients[..i];
        var has := HasTorrent(clients[i], hash);
        if has {
          clientsToReturn := clientsToReturn + [clients[i]];
        }
      }
      assert clients[..|clients|] == clients;
    }

    method IsHashUnique(hash: Hash) returns (unique: bool)
      ensures unique <==> hash !in HashesOf(torrents)
    {
      for i := 0 to |torrents|
        invariant forall j: nat | j < i :: torrents[j].hashed != hash
      {
        if torrents[i].hashed == hash {
          return false;
        }
      }
      return true;
    }

    /** Salts the name until its hash is not taken. The precondition is that it ends. */
    method AddTorrent(t0: Torrent) returns (hashed: Hash)
      requires Allocatable(hash, HashesOf(torrents), t0.fileName)
      modifies this`torrents
      ensures var t := Allocated(hash, HashesOf(old(torrents)), t0);
        torrents == old(torrents) + [t] && hashed == t.hashed
    {
      ghost var taken, name := HashesOf(torrents), t0.fileName;
      ghost var goal := Salts(hash, taken, name);
      ghost var k: nat := 0;
      var salt: uint32 := 1;
      var t := new TorrentObject.Copy(hash, t0);
      t.GenDefaultHash();
      var unique := IsHashUnique(t.hashed);
      assert unique <==> Fresh(hash, taken, name, 0);
      while !unique
        invariant fresh(t) && t.hash == hash && torrents == old(torrents)
        invariant t.Value() == Salted(hash, t0, k)
        invariant salt == (k + 1) % TWO_32
        invariant k <= goal && (unique <==> k == goal)
        decreases goal - k
      {
        t.GenSaltedHash(salt);
        SaltNext(k);
        salt := (salt + 1) % TWO_32;
        k := k + 1;
        unique := IsHashUnique(t.hashed);
        assert unique <==> Fresh(hash, taken, name, k);
      }
      torrents := torrents + [t.Value()];
      return t.hashed;
    }
  }

  /** The salt counter wraps around in 32 bits. */
  lemma SaltNext(k: nat)
    ensures ((k + 1) % TWO_32 + 1) % TWO_32 == (k + 2) % TWO_32
  {
  }

  // ---------- what the query returns ----------

  /** The clients that share `hash`, each once and in the order of registration: the
      result picks out increasing positions, and no client with the hash is left out. */
  lemma {:induction false} WithExact(clients: seq<ClientInfo>, hash: Hash) returns (at: seq<nat>)
    ensures |at| == |With(clients, hash)|
    ensures forall i: nat | i < |at| :: at[i] < |clients| && With(clients, hash)[i] == clients[at[i]]
    ensures forall i: nat, j: nat | i < j < |at| :: at[i] < at[j]
    ensures forall p: nat | p < |clients| :: clients[p].HasTorrent(hash) <==> p in at
  {
    if clients == [] {
      at := [];
    } else {
      var m := |clients| - 1;
      at := WithExact(clients[..m], hash);
      assert clients[..m] + [clients[m]] == clients;
      at := WithNext(clients[..m], clients[m], hash, at);
    }
  }

  /** `at` picks the clients that have the hash out of `clients`. */
  ghost predicate Picks(clients: seq<ClientInfo>, hash: Hash, at: seq<nat>) {
    && |at| == |With(clients, hash)|
    && (forall i: nat | i < |at| :: at[i] < |clients| && With(clients, hash)[i] == clients[at[i]])
    && (forall i: nat, j: nat | i < j < |at| :: at[i] < at[j])
    && (forall p: nat | p < |clients| :: clients[p].HasTorrent(hash) <==> p in at)
  }

  lemma WithNext(clients: seq<ClientInfo>, c: ClientInfo, hash: Hash, at: seq<nat>) returns (at': seq<nat>)
    requires Picks(clients, hash, at)
    ensures Picks(clients + [c], hash, at')
  {
    var all, m, has := clients + [c], |clients|, c.HasTorrent(hash);
    assert all[..m] == clients && all[m] == c;
    assert With(all, hash) == With(clients, hash) + if has then [c] else [];
    at' := at + if has then [m] else [];
    assert m !in at;
    forall p: nat | p < |all|
      ensures all[p].HasTorrent(hash) <==> p in at'
    {
      if p < m {
        assert all[p] == clients[p];
        assert p in at' <==> p in at;
      }
    }
  }

  // ---------- what an operation does to the vector ----------

  function Addresses(clients: seq<ClientInfo>): (r: seq<Address>)
    ensures |r| == |clients| && forall i: nat | i < |r| :: r[i] == clients[i].address
  {
    seq(|clients|, i requires 0 <= i < |clients| => clients[i].address)
  }

  /** The client of the address afterwards, and all others untouched in their places. A new
      address comes last. */
  lemma AddedEntry(clients: seq<ClientInfo>, ci: ClientInfo, t: Torrent) returns (i: nat)
    ensures var after := Added(clients, ci, t);
      && Addresses(after) == (if ci.address in Addresses(clients) then Addresses(clients)
                              else Addresses(clients) + [ci.address])
      && i < |after| && after[i].address == ci.address
      && (forall j: nat | j < |clients| && j != i :: after[j] == clients[j])
      && var before := if i < |clients| then clients[i] else ci;
      && after[i].isIpV4 == before.isIpV4
      && after[i].torrents == before.torrents + if before.HasTorrent(t.hashed) then [] else [t]
  {
    i := Find(clients, ci.address);
    assert ci.address in Addresses(clients) <==> i < |clients| by {
      if i < |clients| {
        assert Addresses(clients)[i] == ci.address;
      }
    }
    assert Addresses(clients + [ci.AddTorrent(t)]) == Addresses(clients) + [ci.address];
    var before := if i < |clients| then clients[i] else ci;
    assert before.torrents + [] == before.torrents;
  }

  /** The address has the given torrents afterwards, and all others are untouched in their
      places. A new address comes last. */
  lemma UpdatedEntry(clients: seq<ClientInfo>, ci: ClientInfo) returns (i: nat)
    ensures var after := Updated(clients, ci);
      && Addresses(after) == (if ci.address in Addresses(clients) then Addresses(clients)
                              else Addresses(clients) + [ci.address])
      && i < |after| && after[i].address == ci.address
      && (forall j: nat | j < |clients| && j != i :: after[j] == clients[j])
      && after[i].isIpV4 == (if i < |clients| then clients[i] else ci).isIpV4
      && after[i].torrents == ci.torrents
  {
    i := Find(clients, ci.address);
    assert ci.address in Addresses(clients) <==> i < |clients| by {
      if i < |clients| {
        assert Addresses(clients)[i] == ci.address;
      }
    }
    assert Addresses(clients + [ci]) == Addresses(clients) + [ci.address];
  }

  /** The clients that are not equal stay, untouched and in their order. */
  lemma {:induction false} DeletedExact(clients: seq<ClientInfo>, ci: ClientInfo) returns (at: seq<nat>)
    ensures |at| == |Deleted(clients, ci)|
    ensures forall i: nat | i < |at| :: at[i] < |clients| && Deleted(clients, ci)[i] == clients[at[i]]
    ensures forall i: nat, j: nat | i < j < |at| :: at[i] < at[j]
    ensures forall p: nat | p < |clients| :: p in at <==> !ci.Same(clients[p])
  {
    if clients == [] {
      at := [];
    } else {
      var m := |clients| - 1;
      var before := DeletedExact(clients[..m], ci);
      assert m !in before;
      assert forall p: nat | p < m :: clients[..m][p] == clients[p];
      at := before + if ci.Same(clients[m]) then [] else [m];
      assert forall p: nat :: p in at <==> p in before || (p == m && !ci.Same(clients[m]));
    }
  }

  // ---------- the relation behind the vectors ----------

  /** What the tracker knows of an address. */
  datatype Entry = Entry(isIpV4: bool, hashes: set<Hash>)

  type Relation = map<Address, Entry>

  function EntryOf(c: ClientInfo): Entry {
    Entry(c.isIpV4, HashesOf(c.torrents))
  }

  ghost predicate DistinctAddresses(clients: seq<ClientInfo>) {
    forall i: nat, j: nat | i < |clients| && j < |clients| && clients[i].address == clients[j].address :: i == j
  }

  ghost predicate ClientsOk(clients: seq<ClientInfo>) {
    DistinctAddresses(clients) && forall i: nat | i < |clients| :: clients[i].DistinctTorrents()
  }

  function RelationOf(clients: seq<ClientInfo>): Relation {
    if clients == [] then map[]
    else
      var m := |clients| - 1;
      RelationOf(clients[..m])[clients[m].address := EntryOf(clients[m])]
  }

  lemma {:induction false} RelationLookup(clients: seq<ClientInfo>, a: Address)
    requires DistinctAddresses(clients)
    ensures a in RelationOf(clients) <==> Find(clients, a) < |clients|
    ensures a in RelationOf(clients) ==> RelationOf(clients)[a] == EntryOf(clients[Find(clients, a)])
  {
    if clients != [] {
      var m := |clients| - 1;
      RelationLookup(clients[..m], a);
      FindPrefix(clients, a);
    }
  }

  lemma {:induction false} FindPrefix(clients: seq<ClientInfo>, a: Address)
    requires clients != []
    ensures var m := |clients| - 1;
      Find(clients, a) == if Find(clients[..m], a) < m then Find(clients[..m], a)
                          else if clients[m].address == a then m else m + 1
  {
  }

  /** The relation is determined by what each address looks up. */
  lemma RelationIs(clients: seq<ClientInfo>, r: Relation)
    requires DistinctAddresses(clients)
    requires forall a :: a in r <==> Find(clients, a) < |clients|
    requires forall a | a in r :: r[a] == EntryOf(clients[Find(clients, a)])
    ensures RelationOf(clients) == r
  {
    forall a
      ensures a in RelationOf(clients) <==> a in r
      ensures a in r ==> RelationOf(clients)[a] == r[a]
    {
      RelationLookup(clients, a);
    }
  }

  lemma FindIs(clients: seq<ClientInfo>, a: Address, i: nat)
    requires DistinctAddresses(clients) && i < |clients| && clients[i].address == a
    ensures Find(clients, a) == i
  {
  }

  /** An update sets the address's hashes and leaves every other address alone. */
  lemma UpdateRefines(clients: seq<ClientInfo>, ci: ClientInfo)
    requires ClientsOk(clients)
    ensures DistinctAddresses(Updated(clients, ci))
    ensures ClientsOk(Updated(clients, ci)) <==> ci.DistinctTorrents()
    ensures var r := RelationOf(clients);
      RelationOf(Updated(clients, ci)) ==
      r[ci.address := Entry(if ci.address in r then r[ci.address].isIpV4 else ci.isIpV4, HashesOf(ci.torrents))]
  {
    var i := Find(clients, ci.address);
    var updated := Updated(clients, ci);
    var c := if i < |clients| then clients[i].(torrents := ci.torrents) else ci;
    assert updated == Replaced(clients, i, c);
    ReplacedOk(clients, i, c);
    ReplaceRefines(clients, i, c);
    RelationLookup(clients, ci.address);
  }

  function Replaced(clients: seq<ClientInfo>, i: nat, c: ClientInfo): seq<ClientInfo>
    requires i <= |clients|
  {
    if i < |clients| then clients[i := c] else clients + [c]
  }

  lemma ReplacedOk(clients: seq<ClientInfo>, i: nat, c: ClientInfo)
    requires ClientsOk(clients) && i == Find(clients, c.address)
    ensures DistinctAddresses(Replaced(clients, i, c))
    ensures ClientsOk(Replaced(clients, i, c)) <==> c.DistinctTorrents()
  {
    assert Replaced(clients, i, c)[i] == c;
  }

  lemma ReplacedFind(clients: seq<ClientInfo>, i: nat, c: ClientInfo, b: Address)
    requires ClientsOk(clients) && i == Find(clients, c.address)
    ensures b == c.address ==> Find(Replaced(clients, i, c), b) == i
    ensures b != c.address ==>
      (Find(Replaced(clients, i, c), b) < |Replaced(clients, i, c)| <==> Find(clients, b) < |clients|)
    ensures b != c.address && Find(clients, b) < |clients| ==> Find(Replaced(clients, i, c), b) == Find(clients, b)
  {
    var updated := Replaced(clients, i, c);
    ReplacedOk(clients, i, c);
    assert updated[i] == c;
    if b == c.address {
      FindIs(updated, b, i);
    } else if Find(clients, b) < |clients| {
      FindIs(updated, b, Find(clients, b));
    } else {
      forall j: nat | j < |updated|
        ensures updated[j].address != b
      {
        assert j == i || updated[j] == clients[j];
      }
    }
  }

  /** Replacing or appending the client of one address. */
  lemma ReplaceRefines(clients: seq<ClientInfo>, i: nat, c: ClientInfo)
    requires ClientsOk(clients) && i == Find(clients, c.address)
    ensures RelationOf(Replaced(clients, i, c)) == RelationOf(clients)[c.address := EntryOf(c)]
  {
    var updated, r := Replaced(clients, i, c), RelationOf(clients)[c.address := EntryOf(c)];
    ReplacedOk(clients, i, c);
    assert updated[i] == c;
    forall b
      ensures b in r <==> Find(updated, b) < |updated|
      ensures b in r ==> r[b] == EntryOf(updated[Find(updated, b)])
    {
      RelationLookup(clients, b);
      ReplacedFind(clients, i, c, b);
    }
    RelationIs(updated, r);
  }

  /** Adding a torrent adds its hash to the address's hashes. */
  lemma AddRefines(clients: seq<ClientInfo>, ci: ClientInfo, t: Torrent)
    requires ClientsOk(clients) && ci.DistinctTorrents()
    ensures ClientsOk(Added(clients, ci, t))
    ensures var r := RelationOf(clients);
      var e := if ci.address in r then r[ci.address] else EntryOf(ci);
      RelationOf(Added(clients, ci, t)) == r[ci.address := e.(hashes := e.hashes + {t.hashed})]
  {
    var i := Find(clients, ci.address);
    var c := if i < |clients| then clients[i] else ci;
    AddTorrentHashes(c, t);
    assert Added(clients, ci, t) == Replaced(clients, i, c.AddTorrent(t));
    ReplacedOk(clients, i, c.AddTorrent(t));
    ReplaceRefines(clients, i, c.AddTorrent(t));
    RelationLookup(clients, ci.address);
  }

  lemma AddTorrentHashes(c: ClientInfo, t: Torrent)
    ensures HashesOf(c.AddTorrent(t).torrents) == HashesOf(c.torrents) + {t.hashed}
    ensures c.DistinctTorrents() ==> c.AddTorrent(t).DistinctTorrents()
  {
    var ts := c.AddTorrent(t).torrents;
    assert c.HasTorrent(t.hashed) <==> t.hashed in HashesOf(c.torrents);
    if !c.HasTorrent(t.hashed) {
      assert ts[|c.torrents|] == t;
      assert forall i: nat | i < |c.torrents| :: ts[i] == c.torrents[i];
    }
  }

  lemma {:induction false} DeletedOk(clients: seq<ClientInfo>, ci: ClientInfo)
    requires ClientsOk(clients)
    ensures ClientsOk(Deleted(clients, ci))
    ensures forall c :: c in Deleted(clients, ci) <==> c in clients && !ci.Same(c)
  {
    if clients != [] {
      var m := |clients| - 1;
      DeletedOk(clients[..m], ci);
      assert clients == clients[..m] + [clients[m]];
      var kept := Deleted(clients[..m], ci);
      forall i: nat | i < |kept|
        ensures kept[i].address != clients[m].address
      {
        assert kept[i] in clients[..m];
      }
    }
  }

  /** Deleting removes the address exactly when it is registered with that family. */
  lemma DeleteRefines(clients: seq<ClientInfo>, ci: ClientInfo)
    requires ClientsOk(clients)
    ensures ClientsOk(Deleted(clients, ci))
    ensures var r := RelationOf(clients);
      RelationOf(Deleted(clients, ci)) ==
      if ci.address in r && r[ci.address].isIpV4 == ci.isIpV4 then r - {ci.address} else r
  {
    var r, kept := RelationOf(clients), Deleted(clients, ci);
    var r' := if ci.address in r && r[ci.address].isIpV4 == ci.isIpV4 then r - {ci.address} else r;
    DeletedOk(clients, ci);
    RelationLookup(clients, ci.address);
    forall b
      ensures b in r' <==> Find(kept, b) < |kept|
      ensures b in r' ==> r'[b] == EntryOf(kept[Find(kept, b)])
    {
      RelationLookup(clients, b);
      var i, j := Find(clients, b), Find(kept, b);
      if j < |kept| {
        assert kept[j] in clients;
        var p: nat :| p < |clients| && clients[p] == kept[j];
        FindIs(clients, b, p);
      }
      if i < |clients| && !ci.Same(clients[i]) {
        assert clients[i] in kept;
        var p: nat :| p < |kept| && kept[p] == clients[i];
        FindIs(kept, b, p);
      }
    }
    RelationIs(kept, r');
  }

  /** The query answers from the relation: its addresses are those related to the hash. */
  lemma WithRefines(clients: seq<ClientInfo>, hash: Hash, a: Address)
    requires ClientsOk(clients)
    ensures (exists c :: c in With(clients, hash) && c.address == a) <==>
      a in RelationOf(clients) && hash in RelationOf(clients)[a].hashes
  {
    var at := WithExact(clients, hash);
    RelationLookup(clients, a);
    var i := Find(clients, a);
    if i < |clients| && clients[i].HasTorrent(hash) {
      var k: nat :| k < |at| && at[k] == i;
      assert With(clients, hash)[k] == clients[i];
    }
    if c :| c in With(clients, hash) && c.address == a {
      var k: nat :| k < |at| && With(clients, hash)[k] == c;
      FindIs(clients, a, at[k]);
      assert at[k] in at;
    }
  }
}
