/** The tracker as a whole: its operations on the registry, and runs of them. */
module Tracker {
  import opened Common
  import opened Torrents
  import opened Allocation
  import opened Registry

  datatype Tracker = Tracker(clients: seq<ClientInfo>, torrents: seq<Torrent>)

  /** What changes the registry: a new torrent or a seed notification from a connected
      client, or a call that sets or deletes a client. A new torrent takes two critical
      sections, Put and Join, between which other threads may come; New is both at once. */
  datatype Op =
    | New(from: Address, size: uint32, fileName: bytes)
    | Put(size: uint32, fileName: bytes)
    | Join(from: Address, size: uint32, fileName: bytes)
    | Seed(from: Address, hash: Hash)
    | Update(ci: ClientInfo)
    | Delete(ci: ClientInfo)

  function Announced(h: HashFunction, size: uint32, fileName: bytes): Torrent {
    Torrent(h(fileName), size, fileName, None)
  }

  function FirstWith(torrents: seq<Torrent>, hash: Hash): (i: nat)
    ensures i <= |torrents|
    ensures forall j: nat | j < i :: torrents[j].hashed != hash
    ensures i < |torrents| ==> torrents[i].hashed == hash
  {
    if torrents == [] || torrents[0].hashed == hash then 0 else 1 + FirstWith(torrents[1..], hash)
  }

  /** None is a call that never returns, because its salting loop does not end. */
  ghost function Step(h: HashFunction, s: Tracker, op: Op): Option<Tracker> {
    match op
    case New(from, size, fileName) =>
      if !Allocatable(h, HashesOf(s.torrents), fileName) then None
      else
        var t := Announced(h, size, fileName);
        Some(Tracker(Added(s.clients, ClientInfo(true, from, []), t),
                     s.torrents + [Allocated(h, HashesOf(s.torrents), t)]))
    case Put(size, fileName) =>
      if !Allocatable(h, HashesOf(s.torrents), fileName) then None
      else
        Some(s.(torrents := s.torrents + [Allocated(h, HashesOf(s.torrents), Announced(h, size, fileName))]))
    case Join(from, size, fileName) =>
      Some(s.(clients := Added(s.clients, ClientInfo(true, from, []), Announced(h, size, fileName))))
    case Seed(from, hash) =>
      var i := FirstWith(s.torrents, hash);
      if i < |s.torrents| then Some(s.(clients := Added(s.clients, ClientInfo(true, from, []), s.torrents[i])))
      else Some(s)
    case Update(ci) => Some(s.(clients := Updated(s.clients, ci)))
    case Delete(ci) => Some(s.(clients := Deleted(s.clients, ci)))
  }

  ghost function Run(h: HashFunction, s: Tracker, ops: seq<Op>): Option<Tracker> {
    if ops == [] then Some(s)
    else
      var m := |ops| - 1;
      var r := Run(h, s, ops[..m]);
      if r.None? then None else Step(h, r.value, ops[m])
  }

  const EMPTY := Tracker([], [])

  // ---------- the thread that serves one connection ----------

  datatype Message =
    | Ok
    | SeedlistRequest(hash: Hash)
    | NewRequest(torrent: Torrent)
    | ImASeed(hash: Hash)
    | ClientUnavailable
    | Other

  datatype Reply =
    | OkReply
    | SeedlistResponse(ipV4Peers: seq<Address>, ipV6Peers: seq<Address>)
    | NewResponse(newHash: Hash)
    | NoReply

  function AddressesOf(clients: seq<ClientInfo>, isIpV4: bool): seq<Address> {
    if clients == [] then []
    else
      var m := |clients| - 1;
      AddressesOf(clients[..m], isIpV4) + if clients[m].isIpV4 == isIpV4 then [clients[m].address] else []
  }

  class TrackerThread {
    const db: Database

    constructor (db: Database)
      ensures this.db == db
    {
      this.db := db;
    }

    method HandleSeedNotification(address: Address, hash: Hash)
      modifies db`clients
      ensures Some(Tracker(db.clients, db.torrents)) ==
        Step(db.hash, old(Tracker(db.clients, db.torrents)), Seed(address, hash))
    {
      var ci := ClientInfo(true, address, []);
      for i := 0 to |db.torrents|
        invariant db.clients == old(db.clients)
        invariant forall j: nat | j < i :: db.torrents[j].hashed != hash
      {
        if db.torrents[i].hashed == hash {
          db.AddTorrentToClient(ci, db.torrents[i]);
          return;
        }
      }
    }

    method Seedlist(hash: Hash) returns (r: Reply)
      ensures var found := With(db.clients, hash);
        r == SeedlistResponse(AddressesOf(found, true), AddressesOf(found, false))
    {
      var res := db.GetClientsWith(hash);
      var v4: seq<Address>, v6: seq<Address> := [], [];
      for i := 0 to |res|
        invariant v4 == AddressesOf(res[..i], true) && v6 == AddressesOf(res[..i], false)
      {
        assert res[..i + 1][..i] == res[..i];
        if res[i].isIpV4 {
          v4 := v4 + [res[i].address];
        } else {
          v6 := v6 + [res[i].address];
        }
      }
      assert res[..|res|] == res;
      r := SeedlistResponse(v4, v6);
    }

    /** The hash that addTorrent returns is not used: the reply and the client's entry
        have the hash of the name as it was sent. The two calls on the database are the
        operations Put and Join; here no other thread comes between them. */
    method HandleNew(from: Address, t: Torrent) returns (r: Reply)
      requires Allocatable(db.hash, HashesOf(db.torrents), t.fileName)
      modifies db
      ensures r == NewResponse(db.hash(t.fileName))
      ensures Some(Tracker(db.clients, db.torrents)) ==
        Step(db.hash, old(Tracker(db.clients, db.torrents)), New(from, t.size, t.fileName))
    {
      var newTorrent := new TorrentObject.Copy(db.hash, t.(path := None));
      newTorrent.GenDefaultHash();
      var announced := newTorrent.Value();
      var stored := db.AddTorrent(announced);
      var ci := ClientInfo(true, from, []);
      db.AddTorrentToClient(ci, announced);
      r := NewResponse(newTorrent.hashed);
    }

    method Respond(from: Address, msg: Message) returns (r: Reply)
      requires msg.NewRequest? ==> Allocatable(db.hash, HashesOf(db.torrents), msg.torrent.fileName)
      modifies db
      ensures msg.Ok? ==> r == OkReply
      ensures msg.SeedlistRequest? ==>
        var found := With(db.clients, msg.hash);
        r == SeedlistResponse(AddressesOf(found, true), AddressesOf(found, false))
      ensures msg.NewRequest? ==> r == NewResponse(db.hash(msg.torrent.fileName))
      ensures msg.ImASeed? || msg.ClientUnavailable? || msg.Other? ==> r == NoReply
      ensures var s, s' := old(Tracker(db.clients, db.torrents)), Tracker(db.clients, db.torrents);
        match msg
        case NewRequest(t) => Some(s') == Step(db.hash, s, New(from, t.size, t.fileName))
        case ImASeed(hash) => Some(s') == Step(db.hash, s, Seed(from, hash))
        case _ => s' == s
    {
      r := NoReply;
      match msg {
        case Ok => r := OkReply;
        case SeedlistRequest(hash) => r := Seedlist(hash);
        case NewRequest(t) => r := HandleNew(from, t);
        case ImASeed(hash) => HandleSeedNotification(from, hash);
        case ClientUnavailable =>
        case Other =>
      }
    }
  }

  /** A seedlist reply names every client of the query in exactly one of its lists, by
      address family. */
  lemma {:induction false} SeedlistExact(clients: seq<ClientInfo>, a: Address, v4: bool)
    ensures a in AddressesOf(clients, v4) <==>
      exists i: nat :: i < |clients| && clients[i].address == a && clients[i].isIpV4 == v4
    ensures |AddressesOf(clients, true)| + |AddressesOf(clients, false)| == |clients|
  {
    if clients != [] {
      var m := |clients| - 1;
      SeedlistExact(clients[..m], a, v4);
      if i: nat :| i < m && clients[i].address == a && clients[i].isIpV4 == v4 {
        assert clients[..m][i].address == a;
      }
    }
  }

  // ---------- the invariant ----------

  ghost predicate TorrentsOk(h: HashFunction, torrents: seq<Torrent>) {
    && (forall i: nat | i < |torrents| :: torrents[i].hashed == h(torrents[i].fileName))
    && (forall i: nat, j: nat | i < |torrents| && j < |torrents| && torrents[i].hashed == torrents[j].hashed :: i == j)
  }

  ghost predicate Inv(h: HashFunction, s: Tracker) {
    TorrentsOk(h, s.torrents) && ClientsOk(s.clients)
  }

  /** A client that is set as a whole must come with torrents of distinct hashes. */
  predicate OpOk(op: Op) {
    op.Update? ==> op.ci.DistinctTorrents()
  }

  ghost predicate OpsOk(ops: seq<Op>) {
    forall i: nat | i < |ops| :: OpOk(ops[i])
  }

  lemma AllocatedKeepsOk(h: HashFunction, torrents: seq<Torrent>, t: Torrent)
    requires TorrentsOk(h, torrents) && Allocatable(h, HashesOf(torrents), t.fileName)
    ensures TorrentsOk(h, torrents + [Allocated(h, HashesOf(torrents), t)])
  {
    var a := Allocated(h, HashesOf(torrents), t);
    assert a.hashed !in HashesOf(torrents);
    assert forall i: nat | i < |torrents| :: torrents[i].hashed in HashesOf(torrents);
  }

  // ---------- the relation that the tracker refines ----------

  /** The hashes that are taken, and which addresses share which hashes. */
  datatype Abstract = Abstract(taken: set<Hash>, relation: Relation)

  function AbstractOf(s: Tracker): Abstract {
    Abstract(HashesOf(s.torrents), RelationOf(s.clients))
  }

  function Share(r: Relation, a: Address, hash: Hash): Relation {
    var e := if a in r then r[a] else Entry(true, {});
    r[a := e.(hashes := e.hashes + {hash})]
  }

  ghost function AbstractStep(h: HashFunction, s: Abstract, op: Op): Option<Abstract> {
    match op
    case New(from, _, fileName) =>
      if !Allocatable(h, s.taken, fileName) then None
      else Some(Abstract(s.taken + {h(Chain(fileName, Salts(h, s.taken, fileName)))},
                         Share(s.relation, from, h(fileName))))
    case Put(_, fileName) =>
      if !Allocatable(h, s.taken, fileName) then None
      else Some(s.(taken := s.taken + {h(Chain(fileName, Salts(h, s.taken, fileName)))}))
    case Join(from, _, fileName) => Some(s.(relation := Share(s.relation, from, h(fileName))))
    case Seed(from, hash) =>
      Some(if hash in s.taken then s.(relation := Share(s.relation, from, hash)) else s)
    case Update(ci) =>
      var v4 := if ci.address in s.relation then s.relation[ci.address].isIpV4 else ci.isIpV4;
      Some(s.(relation := s.relation[ci.address := Entry(v4, HashesOf(ci.torrents))]))
    case Delete(ci) =>
      Some(if ci.address in s.relation && s.relation[ci.address].isIpV4 == ci.isIpV4
           then s.(relation := s.relation - {ci.address}) else s)
  }

  ghost function AbstractRun(h: HashFunction, s: Abstract, ops: seq<Op>): Option<Abstract> {
    if ops == [] then Some(s)
    else
      var m := |ops| - 1;
      var r := AbstractRun(h, s, ops[..m]);
      if r.None? then None else AbstractStep(h, r.value, ops[m])
  }

  lemma ShareRefines(clients: seq<ClientInfo>, from: Address, t: Torrent)
    requires ClientsOk(clients)
    ensures ClientsOk(Added(clients, ClientInfo(true, from, []), t))
    ensures RelationOf(Added(clients, ClientInfo(true, from, []), t)) == Share(RelationOf(clients), from, t.hashed)
  {
    var ci := ClientInfo(true, from, []);
    assert EntryOf(ci) == Entry(true, {});
    AddRefines(clients, ci, t);
  }

  lemma HashesAppend(torrents: seq<Torrent>, t: Torrent)
    ensures HashesOf(torrents + [t]) == HashesOf(torrents) + {t.hashed}
  {
    var ts := torrents + [t];
    assert ts[|torrents|] == t;
    assert forall i: nat | i < |torrents| :: ts[i] == torrents[i];
  }

  lemma PutRefines(h: HashFunction, s: Tracker, size: uint32, fileName: bytes)
    requires TorrentsOk(h, s.torrents) && Allocatable(h, HashesOf(s.torrents), fileName)
    ensures var taken := HashesOf(s.torrents);
      var torrents := s.torrents + [Allocated(h, taken, Announced(h, size, fileName))];
      && TorrentsOk(h, torrents)
      && HashesOf(torrents) == taken + {h(Chain(fileName, Salts(h, taken, fileName)))}
  {
    var t := Announced(h, size, fileName);
    AllocatedKeepsOk(h, s.torrents, t);
    HashesAppend(s.torrents, Allocated(h, HashesOf(s.torrents), t));
  }

  /** One operation on the vectors is one operation on the relation, and keeps hashes,
      names, addresses and torrents of a client distinct. */
  lemma StepRefines(h: HashFunction, s: Tracker, op: Op)
    requires Inv(h, s) && OpOk(op)
    ensures Step(h, s, op).Some? ==> Inv(h, Step(h, s, op).value)
    ensures AbstractStep(h, AbstractOf(s), op) ==
      if Step(h, s, op).None? then None else Some(AbstractOf(Step(h, s, op).value))
  {
    match op
    case New(from, size, fileName) =>
      if Allocatable(h, HashesOf(s.torrents), fileName) {
        PutRefines(h, s, size, fileName);
        ShareRefines(s.clients, from, Announced(h, size, fileName));
      }
    case Put(size, fileName) =>
      if Allocatable(h, HashesOf(s.torrents), fileName) {
        PutRefines(h, s, size, fileName);
      }
    case Join(from, size, fileName) => ShareRefines(s.clients, from, Announced(h, size, fileName));
    case Seed(from, hash) =>
      var i := FirstWith(s.torrents, hash);
      assert hash in HashesOf(s.torrents) <==> i < |s.torrents|;
      if i < |s.torrents| {
        ShareRefines(s.clients, from, s.torrents[i]);
      }
    case Update(ci) => UpdateRefines(s.clients, ci);
    case Delete(ci) => DeleteRefines(s.clients, ci);
  }

  /** Every run refines the run of the relation. */
  lemma {:induction false} RunRefines(h: HashFunction, ops: seq<Op>)
    requires OpsOk(ops)
    ensures Run(h, EMPTY, ops).Some? ==> Inv(h, Run(h, EMPTY, ops).value)
    ensures AbstractRun(h, AbstractOf(EMPTY), ops) ==
      if Run(h, EMPTY, ops).None? then None else Some(AbstractOf(Run(h, EMPTY, ops).value))
  {
    if ops != [] {
      var m := |ops| - 1;
      RunRefines(h, ops[..m]);
      var r := Run(h, EMPTY, ops[..m]);
      if r.Some? {
        StepRefines(h, r.value, ops[m]);
      }
    }
  }

  /** After every run: an address is returned for a hash exactly when the relation says so,
      and no address is returned twice. */
  lemma QueriesFollowRelation(h: HashFunction, ops: seq<Op>, s: Tracker, hash: Hash, a: Address)
    requires OpsOk(ops) && Run(h, EMPTY, ops) == Some(s)
    ensures AbstractRun(h, AbstractOf(EMPTY), ops).Some?
    ensures var r := AbstractRun(h, AbstractOf(EMPTY), ops).value.relation;
      (exists c :: c in With(s.clients, hash) && c.address == a) <==> a in r && hash in r[a].hashes
    ensures forall i: nat, j: nat | i < j < |With(s.clients, hash)| ::
      With(s.clients, hash)[i].address != With(s.clients, hash)[j].address
  {
    RunRefines(h, ops);
    WithRefines(s.clients, hash, a);
    var at := WithExact(s.clients, hash);
    forall i: nat, j: nat | i < j < |at|
      ensures With(s.clients, hash)[i].address != With(s.clients, hash)[j].address
    {
      assert at[i] < at[j];
    }
  }

  // ---------- hashes identify torrents ----------

  /** After every run the stored hashes are pairwise distinct, each is the hash of the
      stored name, and so the stored names are pairwise distinct too. */
  lemma HashesIdentify(h: HashFunction, ops: seq<Op>, s: Tracker)
    requires OpsOk(ops) && Run(h, EMPTY, ops) == Some(s)
    ensures forall i: nat | i < |s.torrents| :: s.torrents[i].hashed == h(s.torrents[i].fileName)
    ensures forall i: nat, j: nat | i < j < |s.torrents| ::
      s.torrents[i].hashed != s.torrents[j].hashed && s.torrents[i].fileName != s.torrents[j].fileName
  {
    RunRefines(h, ops);
  }

  /** The hash that addTorrent returns identifies the new torrent. The reply of the tracker
      thread does so exactly when the hash of the name was not taken; otherwise it names a
      torrent that was there before. */
  lemma ReplyIdentifiesExactly(h: HashFunction, s: Tracker, from: Address, size: uint32, fileName: bytes)
    requires Inv(h, s) && Allocatable(h, HashesOf(s.torrents), fileName)
    ensures var s' := Step(h, s, New(from, size, fileName)).value;
      var m := |s.torrents|;
      && |s'.torrents| == m + 1
      && (forall i: nat | i < m :: s'.torrents[i].hashed != s'.torrents[m].hashed)
      && (h(fileName) == s'.torrents[m].hashed <==> h(fileName) !in HashesOf(s.torrents))
      && (h(fileName) != s'.torrents[m].hashed ==> FirstWith(s'.torrents, h(fileName)) < m)
  {
    var t := Announced(h, size, fileName);
    var taken := HashesOf(s.torrents);
    AllocatedKeepsOk(h, s.torrents, t);
    assert Fresh(h, taken, fileName, 0) <==> h(fileName) !in taken;
    assert Allocated(h, taken, t).hashed !in taken;
    var ts := s.torrents + [Allocated(h, taken, t)];
    if h(fileName) in taken {
      var i: nat :| i < |s.torrents| && s.torrents[i].hashed == h(fileName);
      assert ts[i].hashed == h(fileName);
    }
  }

  // ---------- announcements in two sections ----------

  /** An announcement is the two sections one after the other. */
  lemma NewIsPutThenJoin(h: HashFunction, s: Tracker, from: Address, size: uint32, fileName: bytes)
    ensures Step(h, s, Put(size, fileName)).None? ==> Step(h, s, New(from, size, fileName)) == None
    ensures Step(h, s, Put(size, fileName)).Some? ==>
      var s' := Step(h, s, Put(size, fileName)).value;
      Step(h, s, New(from, size, fileName)) == Step(h, s', Join(from, size, fileName))
  {
  }

  /** The operations with every announcement taken apart. */
  function Split(ops: seq<Op>): seq<Op> {
    if ops == [] then []
    else
      var m := |ops| - 1;
      Split(ops[..m]) + match ops[m]
        case New(from, size, fileName) => [Put(size, fileName), Join(from, size, fileName)]
        case op => [op]
  }

  lemma RunNext(h: HashFunction, s: Tracker, ops: seq<Op>, op: Op)
    ensures Run(h, s, ops + [op]) ==
      if Run(h, s, ops).None? then None else Step(h, Run(h, s, ops).value, op)
  {
    assert (ops + [op])[..|ops|] == ops;
  }

  /** A run in which nothing comes between the two sections of an announcement is one of the
      runs in which they are steps of their own, so what holds of all of these holds of it. */
  lemma {:induction false} SplitRuns(h: HashFunction, s: Tracker, ops: seq<Op>)
    ensures Run(h, s, Split(ops)) == Run(h, s, ops)
  {
    if ops != [] {
      var m := |ops| - 1;
      var before := Split(ops[..m]);
      SplitRuns(h, s, ops[..m]);
      match ops[m]
      case New(from, size, fileName) =>
        var put, join := Put(size, fileName), Join(from, size, fileName);
        assert Split(ops) == (before + [put]) + [join];
        RunNext(h, s, before, put);
        RunNext(h, s, before + [put], join);
        if Run(h, s, before).Some? {
          NewIsPutThenJoin(h, Run(h, s, before).value, from, size, fileName);
        }
      case op =>
        RunNext(h, s, before, ops[m]);
    }
  }

  /** Some client of address `a` is found for the hash. */
  ghost predicate Found(clients: seq<ClientInfo>, hash: Hash, a: Address) {
    exists c :: c in With(clients, hash) && c.address == a
  }

  /** After any run, and whatever came between the sections: joining makes the client found
      under the hash of the name, and under no other hash. */
  lemma JoinExactly(h: HashFunction, ops: seq<Op>, s: Tracker, from: Address, size: uint32, fileName: bytes,
                    hash: Hash, a: Address)
    requires OpsOk(ops) && Run(h, EMPTY, ops) == Some(s)
    ensures var s' := Step(h, s, Join(from, size, fileName)).value;
      Found(s'.clients, hash, a) <==> Found(s.clients, hash, a) || (a == from && hash == h(fileName))
  {
    var clients' := Step(h, s, Join(from, size, fileName)).value.clients;
    RunRefines(h, ops);
    ShareRefines(s.clients, from, Announced(h, size, fileName));
    FoundIsRelated(s.clients, hash, a);
    FoundIsRelated(clients', hash, a);
    ShareAdds(RelationOf(s.clients), from, h(fileName), hash, a);
  }

  predicate Related(r: Relation, hash: Hash, a: Address) {
    a in r && hash in r[a].hashes
  }

  lemma FoundIsRelated(clients: seq<ClientInfo>, hash: Hash, a: Address)
    requires ClientsOk(clients)
    ensures Found(clients, hash, a) <==> Related(RelationOf(clients), hash, a)
  {
    WithRefines(clients, hash, a);
  }

  lemma ShareAdds(r: Relation, from: Address, shared: Hash, hash: Hash, a: Address)
    ensures Related(Share(r, from, shared), hash, a) <==> Related(r, hash, a) || (a == from && hash == shared)
  {
  }

  /** The operations that the tracker threads perform: a client is joined to a torrent only
      after that was put into the registry. */
  ghost predicate ThreadOps(ops: seq<Op>) {
    forall i: nat | i < |ops| :: !ops[i].Update? && (ops[i].Join? ==> PutBefore(ops, i, ops[i].fileName))
  }

  ghost predicate PutBefore(ops: seq<Op>, i: nat, fileName: bytes)
    requires i <= |ops|
  {
    exists j: nat :: j < i && ops[j].Put? && ops[j].fileName == fileName
  }

  lemma ThreadOpsPrefix(ops: seq<Op>, m: nat)
    requires ThreadOps(ops) && m <= |ops|
    ensures ThreadOps(ops[..m])
  {
    forall i: nat | i < m && ops[..m][i].Join?
      ensures PutBefore(ops[..m], i, ops[..m][i].fileName)
    {
      assert PutBefore(ops, i, ops[i].fileName);
      var j: nat :| j < i && ops[j].Put? && ops[j].fileName == ops[i].fileName;
      assert ops[..m][j].Put?;
    }
  }

  /** Once a torrent was put, the hash of its name is taken, by it or by another one. */
  lemma {:induction false} TakenAfterPut(h: HashFunction, ops: seq<Op>, j: nat)
    requires AbstractRun(h, AbstractOf(EMPTY), ops).Some? && j < |ops| && ops[j].Put?
    ensures h(ops[j].fileName) in AbstractRun(h, AbstractOf(EMPTY), ops).value.taken
  {
    var m := |ops| - 1;
    if j < m {
      TakenAfterPut(h, ops[..m], j);
    } else {
      var r := AbstractRun(h, AbstractOf(EMPTY), ops[..m]).value;
      FirstSaltOrTaken(h, r.taken, ops[m].fileName);
    }
  }

  lemma FirstSaltOrTaken(h: HashFunction, taken: set<Hash>, name: bytes)
    requires Allocatable(h, taken, name)
    ensures h(name) in taken || h(Chain(name, Salts(h, taken, name))) == h(name)
  {
    assert Fresh(h, taken, name, 0) ==> Salts(h, taken, name) == 0;
  }

  ghost predicate SharesOnlyTaken(s: Abstract) {
    forall a | a in s.relation :: s.relation[a].hashes <= s.taken
  }

  lemma ShareTaken(s: Abstract, from: Address, hash: Hash)
    requires SharesOnlyTaken(s) && hash in s.taken
    ensures SharesOnlyTaken(s.(relation := Share(s.relation, from, hash)))
  {
  }

  lemma {:induction false} ThreadsShareOnlyTaken(h: HashFunction, ops: seq<Op>)
    requires ThreadOps(ops) && AbstractRun(h, AbstractOf(EMPTY), ops).Some?
    ensures SharesOnlyTaken(AbstractRun(h, AbstractOf(EMPTY), ops).value)
  {
    if ops != [] {
      var m := |ops| - 1;
      ThreadOpsPrefix(ops, m);
      ThreadsShareOnlyTaken(h, ops[..m]);
      var r := AbstractRun(h, AbstractOf(EMPTY), ops[..m]).value;
      match ops[m]
      case New(from, size, fileName) =>
        FirstSaltOrTaken(h, r.taken, fileName);
        var taken := r.taken + {h(Chain(fileName, Salts(h, r.taken, fileName)))};
        ShareTaken(r.(taken := taken), from, h(fileName));
      case Join(from, size, fileName) =>
        assert PutBefore(ops, m, fileName);
        var j: nat :| j < m && ops[j].Put? && ops[j].fileName == fileName;
        TakenAfterPut(h, ops[..m], j);
        ShareTaken(r, from, h(fileName));
      case _ =>
    }
  }

  /** What a run of the tracker threads knows of a hash that is not taken: nobody. */
  lemma UntakenUnknown(h: HashFunction, ops: seq<Op>, s: Tracker, hash: Hash, a: Address)
    requires ThreadOps(ops) && Run(h, EMPTY, ops) == Some(s) && hash !in HashesOf(s.torrents)
    ensures Inv(h, s) && !Found(s.clients, hash, a)
  {
    RunRefines(h, ops);
    ThreadsShareOnlyTaken(h, ops);
    FoundIsRelated(s.clients, hash, a);
  }

  /** And then the client is not registered for its own torrent: after any run of the
      tracker threads, whoever asks for the new torrent's hash learns of the client that
      announced it exactly when the hash of the name was not taken. */
  lemma AnnouncerFoundExactly(h: HashFunction, ops: seq<Op>, s: Tracker, from: Address, size: uint32, fileName: bytes)
    requires ThreadOps(ops) && Run(h, EMPTY, ops) == Some(s)
    requires Allocatable(h, HashesOf(s.torrents), fileName)
    ensures var s' := Step(h, s, New(from, size, fileName)).value;
      |s'.torrents| == |s.torrents| + 1 &&
      var mine := s'.torrents[|s.torrents|].hashed;
      (exists c :: c in With(s'.clients, mine) && c.address == from) <==> h(fileName) !in HashesOf(s.torrents)
  {
    var s' := Step(h, s, New(from, size, fileName)).value;
    var mine := s'.torrents[|s.torrents|].hashed;
    MineIsUntaken(h, s, from, size, fileName);
    UntakenUnknown(h, ops, s, mine, from);
    ReplyIdentifiesExactly(h, s, from, size, fileName);
    JoinExactly(h, ops, s, from, size, fileName, mine, from);
    assert Found(s'.clients, mine, from) <==> mine == h(fileName);
  }

  lemma MineIsUntaken(h: HashFunction, s: Tracker, from: Address, size: uint32, fileName: bytes)
    requires Allocatable(h, HashesOf(s.torrents), fileName)
    ensures var s' := Step(h, s, New(from, size, fileName)).value;
      |s'.torrents| == |s.torrents| + 1 && s'.torrents[|s.torrents|].hashed !in HashesOf(s.torrents)
  {
  }

  lemma FirstSaltFree(h: HashFunction, name: bytes)
    ensures Allocatable(h, {}, name) && Salts(h, {}, name) == 0
  {
    assert Fresh(h, {}, name, 0);
  }

  lemma SecondSaltFree(h: HashFunction, name: bytes)
    requires h(name) != h(Chain(name, 1))
    ensures Allocatable(h, {h(name)}, name) && Salts(h, {h(name)}, name) == 1
  {
    assert Fresh(h, {h(name)}, name, 1) && !Fresh(h, {h(name)}, name, 0);
  }

  lemma OneNew(h: HashFunction, a: Address, size: uint32, name: bytes) returns (s: Tracker)
    ensures Run(h, EMPTY, [New(a, size, name)]) == Some(s)
    ensures s.torrents == [Torrent(h(name), size, name, None)] && HashesOf(s.torrents) == {h(name)}
  {
    FirstSaltFree(h, name);
    assert [New(a, size, name)][..0] == [];
    assert HashesOf([]) == {};
    HashesAppend([], Torrent(h(name), size, name, None));
    assert [] + [Torrent(h(name), size, name, None)] == [Torrent(h(name), size, name, None)];
    s := Step(h, EMPTY, New(a, size, name)).value;
  }

  /** Two clients announce different torrents under one name. Both are told the hash of the
      name, which is the first torrent's. The second one is stored with a 1 behind its name,
      and the client that announced it is found under the first one only. */
  lemma TwoOfOneName(h: HashFunction, a: Address, b: Address, size1: uint32, size2: uint32, name: bytes)
    returns (s: Tracker)
    requires h(name) != h(Chain(name, 1))
    ensures Run(h, EMPTY, [New(a, size1, name), New(b, size2, name)]) == Some(s)
    ensures s.torrents == [Torrent(h(name), size1, name, None), Torrent(h(name + [49]), size2, name + [49], None)]
    ensures s.torrents[0].hashed != s.torrents[1].hashed
    ensures exists c :: c in With(s.clients, h(name)) && c.address == b
    ensures !exists c :: c in With(s.clients, s.torrents[1].hashed) && c.address == b
  {
    var op1, op2 := New(a, size1, name), New(b, size2, name);
    var r := OneNew(h, a, size1, name);
    SecondSaltFree(h, name);
    ChainIsDecimals(name, 1);
    assert Decimals(1, 1) == Decimal(1) + Decimals(2, 1) == [49];
    assert [op1, op2][..1] == [op1];
    s := Step(h, r, op2).value;
    ReplyIdentifiesExactly(h, r, b, size2, name) by {
      RunRefines(h, [op1]);
    }
    AnnouncerFoundExactly(h, [op1], r, b, size2, name);
    FoundByName(h, [op1], r, b, size2, name);
  }

  /** Whoever announces a torrent is found under the hash of its name. */
  lemma FoundByName(h: HashFunction, ops: seq<Op>, s: Tracker, from: Address, size: uint32, fileName: bytes)
    requires OpsOk(ops) && Run(h, EMPTY, ops) == Some(s) && Allocatable(h, HashesOf(s.torrents), fileName)
    ensures var s' := Step(h, s, New(from, size, fileName)).value;
      exists c :: c in With(s'.clients, h(fileName)) && c.address == from
  {
    JoinExactly(h, ops, s, from, size, fileName, h(fileName), from);
    assert Found(Step(h, s, New(from, size, fileName)).value.clients, h(fileName), from);
  }
}
