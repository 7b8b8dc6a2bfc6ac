/** What the tracker's registry keeps of the announcements and registrations of a run. */
module TrackerRuns {
  import opened Common
  import opened Torrents
  import opened Allocation
  import opened Registry
  import opened Tracker

  // ---------- torrents are stored as they were sent ----------

  /** The torrent is stored as it was sent, except that its name may have salts behind it. */
  ghost predicate StoredFrom(h: HashFunction, t: Torrent, size: uint32, fileName: bytes) {
    && t.size == size
    && fileName <= t.fileName
    && t.hashed == h(t.fileName)
    && t.path == None
  }

  /** An announcement leaves the stored torrents in their places and puts the new one last. */
  lemma PutKeeps(h: HashFunction, s: Tracker, op: Op, s': Tracker)
    requires (op.New? || op.Put?) && Step(h, s, op) == Some(s')
    ensures |s'.torrents| == |s.torrents| + 1 && s'.torrents[..|s.torrents|] == s.torrents
    ensures StoredFrom(h, s'.torrents[|s.torrents|], op.size, op.fileName)
  {
    ChainPrefix(op.fileName, Salts(h, HashesOf(s.torrents), op.fileName));
  }

  /** The torrents that were announced, in order. */
  function Sent(ops: seq<Op>): seq<(uint32, bytes)> {
    if ops == [] then []
    else
      var m := |ops| - 1;
      Sent(ops[..m]) + match ops[m]
        case New(_, size, fileName) => [(size, fileName)]
        case Put(size, fileName) => [(size, fileName)]
        case _ => []
  }

  /** After every run the stored torrents are those that were announced, one for each, in
      order, each with its size and with its name in front. */
  lemma {:induction false} StoredAsSent(h: HashFunction, ops: seq<Op>, s: Tracker)
    requires Run(h, EMPTY, ops) == Some(s)
    ensures AllFrom(h, s.torrents, Sent(ops))
  {
    if ops != [] {
      var m := |ops| - 1;
      var r := Run(h, EMPTY, ops[..m]).value;
      StoredAsSent(h, ops[..m], r);
      if ops[m].New? || ops[m].Put? {
        PutKeeps(h, r, ops[m], s);
        OneMoreStored(h, r.torrents, s.torrents, Sent(ops[..m]), ops[m].size, ops[m].fileName);
      } else {
        assert s.torrents == r.torrents && Sent(ops) == Sent(ops[..m]);
      }
    }
  }

  ghost predicate AllFrom(h: HashFunction, torrents: seq<Torrent>, sent: seq<(uint32, bytes)>) {
    && |torrents| == |sent|
    && forall i: nat | i < |torrents| :: StoredFrom(h, torrents[i], sent[i].0, sent[i].1)
  }

  lemma OneMoreStored(h: HashFunction, before: seq<Torrent>, after: seq<Torrent>, sent: seq<(uint32, bytes)>,
                      size: uint32, fileName: bytes)
    requires AllFrom(h, before, sent) && |after| == |before| + 1 && after[..|before|] == before
    requires StoredFrom(h, after[|before|], size, fileName)
    ensures AllFrom(h, after, sent + [(size, fileName)])
  {
    assert forall i: nat | i < |before| :: after[i] == before[i];
  }

  /** Some client of the address has the torrent. */
  ghost predicate Shares(clients: seq<ClientInfo>, a: Address, t: Torrent) {
    exists i: nat :: i < |clients| && clients[i].address == a && t in clients[i].torrents
  }

  ghost predicate SharesHash(clients: seq<ClientInfo>, a: Address, hash: Hash) {
    exists i: nat :: i < |clients| && clients[i].address == a && clients[i].HasTorrent(hash)
  }

  lemma AddedShares(clients: seq<ClientInfo>, ci: ClientInfo, t: Torrent)
    requires ci.torrents == []
    ensures SharesHash(clients, ci.address, t.hashed) || Shares(Added(clients, ci, t), ci.address, t)
  {
    var i := AddedEntry(clients, ci, t);
    var after := Added(clients, ci, t);
    var before := if i < |clients| then clients[i] else ci;
    if before.HasTorrent(t.hashed) {
      assert clients[i].HasTorrent(t.hashed);
      assert Addresses(after)[i] == ci.address;
    } else {
      assert after[i].torrents[|before.torrents|] == t;
    }
  }

  /** The client that announces a torrent, or notifies that it is a seed of one, has it
      afterwards with the size and the name that were sent, or that are stored, unless it
      had one of that hash before. */
  lemma ClientHasTorrent(h: HashFunction, s: Tracker, op: Op, s': Tracker)
    requires Step(h, s, op) == Some(s')
    ensures op.New? || op.Join? ==>
      || SharesHash(s.clients, op.from, h(op.fileName))
      || Shares(s'.clients, op.from, Torrent(h(op.fileName), op.size, op.fileName, None))
    ensures op.Seed? && op.hash in HashesOf(s.torrents) ==>
      || SharesHash(s.clients, op.from, op.hash)
      || exists t :: t in s.torrents && t.hashed == op.hash && Shares(s'.clients, op.from, t)
  {
    if op.New? || op.Join? {
      AddedShares(s.clients, ClientInfo(true, op.from, []), Announced(h, op.size, op.fileName));
    } else if op.Seed? && op.hash in HashesOf(s.torrents) {
      var t := s.torrents[FirstWith(s.torrents, op.hash)];
      assert t in s.torrents;
      AddedShares(s.clients, ClientInfo(true, op.from, []), t);
    }
  }

  // ---------- clients stand in the order of registration ----------

  predicate Before(order: seq<Address>, a: Address, b: Address) {
    exists p: nat, q: nat :: p < q < |order| && order[p] == a && order[q] == b
  }

  /** The addresses that stay keep their order, and at most one is new, which is last. */
  ghost predicate KeepsOrder(before: seq<Address>, after: seq<Address>) {
    forall i: nat, j: nat | i < j < |after| ::
      after[i] in before && (after[j] in before ==> Before(before, after[i], after[j]))
  }

  lemma AppendKeepsOrder(before: seq<Address>, a: Address)
    requires a !in before
    ensures KeepsOrder(before, before) && KeepsOrder(before, before + [a])
  {
    var after := before + [a];
    forall i: nat, j: nat | i < j < |after|
      ensures after[i] in before && (after[j] in before ==> Before(before, after[i], after[j]))
    {
      assert after[i] == before[i];
      if j < |before| {
        assert after[j] == before[j];
      }
    }
  }

  lemma SameKeepsOrder(order: seq<Address>)
    ensures KeepsOrder(order, order)
  {
  }

  lemma DeleteKeepsOrder(clients: seq<ClientInfo>, ci: ClientInfo)
    ensures KeepsOrder(Addresses(clients), Addresses(Deleted(clients, ci)))
  {
    var before, after := Addresses(clients), Addresses(Deleted(clients, ci));
    var at := DeletedExact(clients, ci);
    forall i: nat, j: nat | i < j < |after|
      ensures after[i] in before && Before(before, after[i], after[j])
    {
      assert at[i] < at[j] && before[at[i]] == after[i] && before[at[j]] == after[j];
    }
  }

  /** Every operation keeps the order of the clients that stay and registers at most one new
      client, which comes last. */
  lemma StepKeepsOrder(h: HashFunction, s: Tracker, op: Op, s': Tracker)
    requires Step(h, s, op) == Some(s')
    ensures KeepsOrder(Addresses(s.clients), Addresses(s'.clients))
  {
    var order := Addresses(s.clients);
    SameKeepsOrder(order);
    match op
    case New(from, size, fileName) => AddKeepsOrder(s.clients, from, Announced(h, size, fileName));
    case Put(size, fileName) =>
    case Join(from, size, fileName) => AddKeepsOrder(s.clients, from, Announced(h, size, fileName));
    case Seed(from, hash) =>
      var i := FirstWith(s.torrents, hash);
      if i < |s.torrents| {
        AddKeepsOrder(s.clients, from, s.torrents[i]);
      }
    case Update(ci) =>
      var i := UpdatedEntry(s.clients, ci);
      if ci.address !in order {
        AppendKeepsOrder(order, ci.address);
      }
    case Delete(ci) => DeleteKeepsOrder(s.clients, ci);
  }

  lemma AddKeepsOrder(clients: seq<ClientInfo>, from: Address, t: Torrent)
    ensures KeepsOrder(Addresses(clients), Addresses(Added(clients, ClientInfo(true, from, []), t)))
  {
    var i := AddedEntry(clients, ClientInfo(true, from, []), t);
    SameKeepsOrder(Addresses(clients));
    if from !in Addresses(clients) {
      AppendKeepsOrder(Addresses(clients), from);
    }
  }

  /** The last operation of the run registers the address, which was not registered before. */
  ghost predicate NewlyRegistered(h: HashFunction, ops: seq<Op>, a: Address)
    requires ops != []
  {
    var r, r' := Run(h, EMPTY, ops[..|ops| - 1]), Run(h, EMPTY, ops);
    r.Some? && r'.Some? && a !in Addresses(r.value.clients) && a in Addresses(r'.value.clients)
  }

  /** The position of the operation that last newly registered the address; -1 if none did. */
  ghost function RegisteredAt(h: HashFunction, ops: seq<Op>, a: Address): (i: int)
    ensures -1 <= i < |ops|
  {
    if ops == [] then -1
    else if NewlyRegistered(h, ops, a) then |ops| - 1
    else RegisteredAt(h, ops[..|ops| - 1], a)
  }

  /** After every run the clients stand in the order in which they were last newly registered. */
  lemma {:induction false} ClientsInOrder(h: HashFunction, ops: seq<Op>, s: Tracker)
    requires Run(h, EMPTY, ops) == Some(s)
    ensures forall i: nat, j: nat | i < j < |s.clients| ::
      RegisteredAt(h, ops, s.clients[i].address) < RegisteredAt(h, ops, s.clients[j].address)
  {
    if ops != [] {
      var m := |ops| - 1;
      var r := Run(h, EMPTY, ops[..m]).value;
      ClientsInOrder(h, ops[..m], r);
      StepKeepsOrder(h, r, ops[m], s);
      var before, after := Addresses(r.clients), Addresses(s.clients);
      forall i: nat, j: nat | i < j < |s.clients|
        ensures RegisteredAt(h, ops, s.clients[i].address) < RegisteredAt(h, ops, s.clients[j].address)
      {
        var a, b := after[i], after[j];
        assert a in before && !NewlyRegistered(h, ops, a);
        if b in before {
          assert !NewlyRegistered(h, ops, b) && Before(before, a, b);
          var p: nat, q: nat :| p < q < |before| && before[p] == a && before[q] == b;
          assert r.clients[p].address == a && r.clients[q].address == b;
        } else {
          assert b in after && NewlyRegistered(h, ops, b);
        }
      }
    }
  }

  /** So a query returns the addresses in the order in which they were last newly registered. */
  lemma QueryInOrder(h: HashFunction, ops: seq<Op>, s: Tracker, hash: Hash)
    requires Run(h, EMPTY, ops) == Some(s)
    ensures forall i: nat, j: nat | i < j < |With(s.clients, hash)| ::
      RegisteredAt(h, ops, With(s.clients, hash)[i].address) < RegisteredAt(h, ops, With(s.clients, hash)[j].address)
  {
    ClientsInOrder(h, ops, s);
    var at := WithExact(s.clients, hash);
    forall i: nat, j: nat | i < j < |at|
      ensures RegisteredAt(h, ops, With(s.clients, hash)[i].address)
            < RegisteredAt(h, ops, With(s.clients, hash)[j].address)
    {
      assert at[i] < at[j];
    }
  }

  /** The reply to a seedlist request has the addresses of each family in that order, too. */
  lemma {:induction false} SeedlistInOrder(clients: seq<ClientInfo>, v4: bool) returns (at: seq<nat>)
    ensures |at| == |AddressesOf(clients, v4)|
    ensures forall i: nat | i < |at| :: at[i] < |clients| && AddressesOf(clients, v4)[i] == clients[at[i]].address
    ensures forall i: nat, j: nat | i < j < |at| :: at[i] < at[j]
    ensures forall p: nat | p < |clients| :: p in at <==> clients[p].isIpV4 == v4
  {
    if clients == [] {
      at := [];
    } else {
      var m := |clients| - 1;
      at := SeedlistInOrder(clients[..m], v4);
      assert clients[..m] + [clients[m]] == clients;
      at := SeedlistNext(clients[..m], clients[m], v4, at);
    }
  }

  ghost predicate PicksFamily(clients: seq<ClientInfo>, v4: bool, at: seq<nat>) {
    && |at| == |AddressesOf(clients, v4)|
    && (forall i: nat | i < |at| :: at[i] < |clients| && AddressesOf(clients, v4)[i] == clients[at[i]].address)
    && (forall i: nat, j: nat | i < j < |at| :: at[i] < at[j])
    && (forall p: nat | p < |clients| :: p in at <==> clients[p].isIpV4 == v4)
  }

  lemma SeedlistNext(clients: seq<ClientInfo>, c: ClientInfo, v4: bool, at: seq<nat>) returns (at': seq<nat>)
    requires PicksFamily(clients, v4, at)
    ensures PicksFamily(clients + [c], v4, at')
  {
    var all, m := clients + [c], |clients|;
    assert all[..m] == clients && all[m] == c;
    assert AddressesOf(all, v4) == AddressesOf(clients, v4) + if c.isIpV4 == v4 then [c.address] else [];
    at' := at + if c.isIpV4 == v4 then [m] else [];
    assert m !in at;
    forall p: nat | p < |all|
      ensures p in at' <==> all[p].isIpV4 == v4
    {
      if p < m {
        assert all[p] == clients[p];
        assert p in at' <==> p in at;
      }
    }
  }
}
