/** The manager of one download: it keeps the file's list of peers up to date from the
    tracker's replies and starts one worker for each peer.

    Two flags tell variants of its comparisons apart. As the code is written
    (addRepaired = false) a peer is added when the file already has its address; with the
    repair it is added when its address is missing. As the code is written
    (matchRepaired = false) a worker counts as working with a peer when either of their
    address strings agree; with the repair both must. */
module DownloadManager {
  import opened Common

  datatype PeerInfo = PeerInfo(id: nat, ipV4: bytes, ipV6: bytes, port: int)

  datatype IpPort = IpPort(ip: bytes, port: int)

  datatype SeedlistResponse = SeedlistResponse(
    ipV4Seeds: seq<IpPort>, ipV4Peers: seq<IpPort>, ipV6Seeds: seq<IpPort>, ipV6Peers: seq<IpPort>)

  function AddressOf(p: PeerInfo, v6: bool): bytes {
    if v6 then p.ipV6 else p.ipV4
  }

  predicate Contains(peers: seq<PeerInfo>, ip: bytes, v6: bool) {
    exists i: nat :: i < |peers| && AddressOf(peers[i], v6) == ip
  }

  function NewPeer(n: nat, x: IpPort, v6: bool): PeerInfo {
    PeerInfo(n + 1, if v6 then [] else x.ip, if v6 then x.ip else [], x.port)
  }

  function WithList(repaired: bool, peers: seq<PeerInfo>, list: seq<IpPort>, v6: bool): seq<PeerInfo> {
    if list == [] then peers
    else
      var x := list[|list| - 1];
      var before := WithList(repaired, peers, list[..|list| - 1], v6);
      if Contains(before, x.ip, v6) == repaired then before else before + [NewPeer(|before|, x, v6)]
  }

  /** The file's peers after one reply of the tracker. */
  function WithResponse(repaired: bool, peers: seq<PeerInfo>, r: SeedlistResponse): seq<PeerInfo> {
    var p1 := WithList(repaired, peers, r.ipV6Peers, true);
    var p2 := WithList(repaired, p1, r.ipV6Seeds, true);
    var p3 := WithList(repaired, p2, r.ipV4Seeds, false);
    WithList(repaired, p3, r.ipV4Peers, false)
  }

  predicate Matches(repaired: bool, p: PeerInfo, q: PeerInfo) {
    if repaired then p.ipV4 == q.ipV4 && p.ipV6 == q.ipV6 else p.ipV4 == q.ipV4 || p.ipV6 == q.ipV6
  }

  predicate HasWorker(repaired: bool, workers: seq<PeerInfo>, p: PeerInfo) {
    exists i: nat :: i < |workers| && Matches(repaired, workers[i], p)
  }

  /** The peers among `peers` that have no worker yet. */
  function Unserved(repaired: bool, workers: seq<PeerInfo>, peers: seq<PeerInfo>): seq<PeerInfo> {
    if peers == [] then []
    else
      var p := peers[|peers| - 1];
      Unserved(repaired, workers, peers[..|peers| - 1]) + if HasWorker(repaired, workers, p) then [] else [p]
  }

  class DownloadManager {
    const addRepaired: bool
    const matchRepaired: bool
    var peers: seq<PeerInfo>      // of the file
    var workers: seq<PeerInfo>    // the peer of each worker

    constructor (addRepaired: bool, matchRepaired: bool)
      ensures this.addRepaired == addRepaired && this.matchRepaired == matchRepaired
      ensures peers == [] && workers == []
    {
      this.addRepaired, this.matchRepaired := addRepaired, matchRepaired;
      peers, workers := [], [];
    }

    method CheckIfFileContains(ip: bytes, v6: bool) returns (found: bool)
      ensures found <==> Contains(peers, ip, v6)
    {
      for i := 0 to |peers|
        invariant forall j: nat | j < i :: AddressOf(peers[j], v6) != ip
      {
        if AddressOf(peers[i], v6) == ip {
          return true;
        }
      }
      return false;
    }

    method AddList(list: seq<IpPort>, v6: bool)
      modifies this`peers
      ensures peers == WithList(addRepaired, old(peers), list, v6)
    {
      for i := 0 to |list|
        invariant peers == WithList(addRepaired, old(peers), list[..i], v6)
      {
        assert list[..i + 1][..i] == list[..i];
        var found := CheckIfFileContains(list[i].ip, v6);
        if found != addRepaired {
          peers := peers + [NewPeer(|peers|, list[i], v6)];
        }
      }
      assert list[..|list|] == list;
    }

    method AddPeersToFile(response: SeedlistResponse)
      modifies this`peers
      ensures peers == WithResponse(addRepaired, old(peers), response)
    {
      AddList(response.ipV6Peers, true);
      AddList(response.ipV6Seeds, true);
      AddList(response.ipV4Seeds, false);
      AddList(response.ipV4Peers, false);
    }

    method CheckIfWorkersWorkWithPeer(myPeers: seq<PeerInfo>, peer: PeerInfo) returns (found: bool)
      ensures found <==> HasWorker(matchRepaired, myPeers, peer)
    {
      for i := 0 to |myPeers|
        invariant forall j: nat | j < i :: !Matches(matchRepaired, myPeers[j], peer)
      {
        if Matches(matchRepaired, myPeers[i], peer) {
          return true;
        }
      }
      return false;
    }

    /** The workers that exist are noted before the loop; those it starts are not. */
    method StartWorkersForNewPeers()
      modifies this`workers
      ensures workers == old(workers) + Unserved(matchRepaired, old(workers), peers)
    {
      var myPeers := workers;
      for i := 0 to |peers|
        invariant workers == myPeers + Unserved(matchRepaired, myPeers, peers[..i])
      {
        assert peers[..i + 1][..i] == peers[..i];
        var found := CheckIfWorkersWorkWithPeer(myPeers, peers[i]);
        if !found {
          workers := workers + [peers[i]];
        }
      }
      assert peers[..|peers|] == peers;
    }

    method UpdatePeersAndStartWorkers(response: SeedlistResponse)
      modifies this
      ensures (peers, workers) == Round(addRepaired, matchRepaired, old(peers), old(workers), response)
    {
      AddPeersToFile(response);
      StartWorkersForNewPeers();
    }
  }

  function Round(addRepaired: bool, matchRepaired: bool, peers: seq<PeerInfo>, workers: seq<PeerInfo>,
                 r: SeedlistResponse): (seq<PeerInfo>, seq<PeerInfo>)
  {
    var peers' := WithResponse(addRepaired, peers, r);
    (peers', workers + Unserved(matchRepaired, workers, peers'))
  }

  function Rounds(addRepaired: bool, matchRepaired: bool, rs: seq<SeedlistResponse>)
    : (seq<PeerInfo>, seq<PeerInfo>)
  {
    if rs == [] then ([], [])
    else
      var (peers, workers) := Rounds(addRepaired, matchRepaired, rs[..|rs| - 1]);
      Round(addRepaired, matchRepaired, peers, workers, rs[|rs| - 1])
  }

  // ---------- the repaired manager ----------

  /** Ids count from 1, and no two peers have the same address. */
  ghost predicate PeersOk(peers: seq<PeerInfo>) {
    && (forall i: nat | i < |peers| :: peers[i].id == i + 1)
    && (forall i: nat, j: nat | i < j < |peers| :: !Matches(true, peers[i], peers[j]))
  }

  lemma {:induction false} WithListOk(peers: seq<PeerInfo>, list: seq<IpPort>, v6: bool)
    requires PeersOk(peers)
    ensures PeersOk(WithList(true, peers, list, v6))
    ensures peers <= WithList(true, peers, list, v6)
  {
    if list != [] {
      WithListOk(peers, list[..|list| - 1], v6);
    }
  }

  predicate InList(list: seq<IpPort>, ip: bytes) {
    exists i: nat :: i < |list| && list[i].ip == ip
  }

  /** Afterwards the file has exactly the addresses it had and those of the list; the
      addresses of the other family are the same, the empty one apart. */
  lemma {:induction false} WithListContains(peers: seq<PeerInfo>, list: seq<IpPort>, v6: bool, ip: bytes)
    requires ip != []
    ensures Contains(WithList(true, peers, list, v6), ip, v6) <==> Contains(peers, ip, v6) || InList(list, ip)
    ensures Contains(WithList(true, peers, list, v6), ip, !v6) <==> Contains(peers, ip, !v6)
  {
    if list != [] {
      var m := |list| - 1;
      var x := list[m];
      WithListContains(peers, list[..m], v6, ip);
      assert InList(list, ip) <==> InList(list[..m], ip) || x.ip == ip by {
        if i: nat :| i < m && list[i].ip == ip {
          assert list[..m][i].ip == ip;
        }
        if i: nat :| i < m && list[..m][i].ip == ip {
          assert list[i].ip == ip;
        }
      }
      var before := WithList(true, peers, list[..m], v6);
      var p := NewPeer(|before|, x, v6);
      ContainsSnoc(before, p, ip, v6);
      ContainsSnoc(before, p, ip, !v6);
    }
  }

  lemma ContainsSnoc(peers: seq<PeerInfo>, p: PeerInfo, ip: bytes, v6: bool)
    ensures Contains(peers + [p], ip, v6) <==> Contains(peers, ip, v6) || AddressOf(p, v6) == ip
  {
    var all := peers + [p];
    assert all[|peers|] == p;
    if i: nat :| i < |peers| && AddressOf(peers[i], v6) == ip {
      assert AddressOf(all[i], v6) == ip;
    }
  }

  /** A reply adds exactly the addresses it names, and drops none. */
  lemma ResponseContains(peers: seq<PeerInfo>, r: SeedlistResponse, ip: bytes)
    requires ip != []
    ensures Contains(WithResponse(true, peers, r), ip, true) <==>
      Contains(peers, ip, true) || InList(r.ipV6Peers, ip) || InList(r.ipV6Seeds, ip)
    ensures Contains(WithResponse(true, peers, r), ip, false) <==>
      Contains(peers, ip, false) || InList(r.ipV4Peers, ip) || InList(r.ipV4Seeds, ip)
  {
    var p1 := WithList(true, peers, r.ipV6Peers, true);
    var p2 := WithList(true, p1, r.ipV6Seeds, true);
    var p3 := WithList(true, p2, r.ipV4Seeds, false);
    WithListContains(peers, r.ipV6Peers, true, ip);
    WithListContains(p1, r.ipV6Seeds, true, ip);
    WithListContains(p2, r.ipV4Seeds, false, ip);
    WithListContains(p3, r.ipV4Peers, false, ip);
  }

  lemma NewPeerHasNoWorker(workers: seq<PeerInfo>, peers: seq<PeerInfo>)
    requires PeersOk(peers) && workers < peers
    ensures !HasWorker(true, workers, peers[|peers| - 1])
  {
    assert forall i: nat | i < |workers| :: workers[i] == peers[i];
  }

  /** A peer comes from an entry of a list of its family, with that entry's port. */
  ghost predicate ComesFrom(p: PeerInfo, list: seq<IpPort>, v6: bool) {
    exists i: nat :: i < |list| && AddressOf(p, v6) == list[i].ip && AddressOf(p, !v6) == [] && p.port == list[i].port
  }

  lemma {:induction false} WithListOrigin(peers: seq<PeerInfo>, list: seq<IpPort>, v6: bool, i: nat)
    requires |peers| <= i < |WithList(true, peers, list, v6)|
    ensures ComesFrom(WithList(true, peers, list, v6)[i], list, v6)
  {
    var m := |list| - 1;
    var before := WithList(true, peers, list[..m], v6);
    if i < |before| {
      WithListOrigin(peers, list[..m], v6, i);
      var j: nat :| j < m && AddressOf(before[i], v6) == list[..m][j].ip && AddressOf(before[i], !v6) == []
        && before[i].port == list[..m][j].port;
      assert list[j] == list[..m][j];
    } else {
      assert WithList(true, peers, list, v6)[i].port == list[m].port;
    }
  }

  /** Every peer that a reply adds is one of its entries, port included, in the lists of its
      own address family. */
  lemma ResponseOrigin(peers: seq<PeerInfo>, r: SeedlistResponse, i: nat)
    requires PeersOk(peers) && |peers| <= i < |WithResponse(true, peers, r)|
    ensures var p := WithResponse(true, peers, r)[i];
      || ComesFrom(p, r.ipV6Peers, true) || ComesFrom(p, r.ipV6Seeds, true)
      || ComesFrom(p, r.ipV4Seeds, false) || ComesFrom(p, r.ipV4Peers, false)
  {
    var p1 := WithList(true, peers, r.ipV6Peers, true);
    var p2 := WithList(true, p1, r.ipV6Seeds, true);
    var p3 := WithList(true, p2, r.ipV4Seeds, false);
    WithListOk(peers, r.ipV6Peers, true);
    WithListOk(p1, r.ipV6Seeds, true);
    WithListOk(p2, r.ipV4Seeds, false);
    WithListOk(p3, r.ipV4Peers, false);
    if i < |p1| {
      WithListOrigin(peers, r.ipV6Peers, true, i);
    } else if i < |p2| {
      WithListOrigin(p1, r.ipV6Seeds, true, i);
    } else if i < |p3| {
      WithListOrigin(p2, r.ipV4Seeds, false, i);
    } else {
      WithListOrigin(p3, r.ipV4Peers, false, i);
    }
  }

  // ---------- the order of the peers ----------

  function Tagged(list: seq<IpPort>, v6: bool): (r: seq<(IpPort, bool)>)
    ensures |r| == |list| && forall i: nat | i < |r| :: r[i] == (list[i], v6)
  {
    seq(|list|, i requires 0 <= i < |list| => (list[i], v6))
  }

  /** The entries in the order in which the source goes through the lists. */
  function Entries(r: SeedlistResponse): seq<(IpPort, bool)> {
    Tagged(r.ipV6Peers, true) + Tagged(r.ipV6Seeds, true) + Tagged(r.ipV4Seeds, false) + Tagged(r.ipV4Peers, false)
  }

  /** The file has the address of entry k already, from before or from an earlier entry. */
  ghost predicate Known(before: seq<PeerInfo>, after: seq<PeerInfo>, at: seq<nat>, e: (IpPort, bool), k: nat) {
    exists j: nat ::
      && j < |after| && AddressOf(after[j], e.1) == e.0.ip
      && (j < |before| || (j - |before| < |at| && at[j - |before|] < k))
  }

  /** The entries at the positions `at` have been added, in their order; all others were known. */
  ghost predicate AddedAt(before: seq<PeerInfo>, entries: seq<(IpPort, bool)>, after: seq<PeerInfo>, at: seq<nat>) {
    && before <= after && |after| == |before| + |at|
    && (forall i: nat, j: nat | i < j < |at| :: at[i] < at[j])
    && (forall i: nat | i < |at| :: at[i] < |entries|)
    && (forall i: nat | i < |at| ::
          after[|before| + i] == NewPeer(|before| + i, entries[at[i]].0, entries[at[i]].1))
    && OthersKnown(before, entries, after, at)
  }

  lemma KnownStays(before: seq<PeerInfo>, after: seq<PeerInfo>, at: seq<nat>, after': seq<PeerInfo>, at': seq<nat>,
                   e: (IpPort, bool), k: nat)
    requires Known(before, after, at, e, k) && after <= after' && at <= at'
    ensures Known(before, after', at', e, k)
  {
    var j: nat :| j < |after| && AddressOf(after[j], e.1) == e.0.ip
      && (j < |before| || (j - |before| < |at| && at[j - |before|] < k));
    assert after'[j] == after[j];
    assert j >= |before| ==> at'[j - |before|] == at[j - |before|];
  }

  /** All entries that were not added are known. */
  ghost predicate OthersKnown(before: seq<PeerInfo>, entries: seq<(IpPort, bool)>, after: seq<PeerInfo>, at: seq<nat>) {
    forall k: nat | k < |entries| && k !in at :: Known(before, after, at, entries[k], k)
  }

  lemma OthersKnownNext(before: seq<PeerInfo>, entries: seq<(IpPort, bool)>, after: seq<PeerInfo>, at: seq<nat>,
                        e: (IpPort, bool), after': seq<PeerInfo>, at': seq<nat>)
    requires OthersKnown(before, entries, after, at) && after <= after' && at <= at'
    requires |entries| in at' || Known(before, after', at', e, |entries|)
    ensures OthersKnown(before, entries + [e], after', at')
  {
    var all := entries + [e];
    forall k: nat | k < |all| && k !in at'
      ensures Known(before, after', at', all[k], k)
    {
      if k < |entries| {
        assert all[k] == entries[k];
        assert k !in at;
        KnownStays(before, after, at, after', at', entries[k], k);
      }
    }
  }

  /** One more entry, whose address is known. */
  lemma AddedKnown(before: seq<PeerInfo>, entries: seq<(IpPort, bool)>, after: seq<PeerInfo>, at: seq<nat>,
                   e: (IpPort, bool))
    requires AddedAt(before, entries, after, at) && Contains(after, e.0.ip, e.1)
    ensures AddedAt(before, entries + [e], after, at)
  {
    var j: nat :| j < |after| && AddressOf(after[j], e.1) == e.0.ip;
    assert j >= |before| ==> at[j - |before|] < |entries|;
    assert Known(before, after, at, e, |entries|);
    OthersKnownNext(before, entries, after, at, e, after, at);
    assert forall i: nat | i < |at| :: (entries + [e])[at[i]] == entries[at[i]];
  }

  /** One more entry, which is added. */
  lemma AddedNew(before: seq<PeerInfo>, entries: seq<(IpPort, bool)>, after: seq<PeerInfo>, at: seq<nat>,
                 e: (IpPort, bool))
    requires AddedAt(before, entries, after, at)
    ensures AddedAt(before, entries + [e], after + [NewPeer(|after|, e.0, e.1)], at + [|entries|])
  {
    var after', at' := after + [NewPeer(|after|, e.0, e.1)], at + [|entries|];
    assert at'[|at|] == |entries|;
    OthersKnownNext(before, entries, after, at, e, after', at');
    forall i: nat | i < |at'|
      ensures after'[|before| + i] == NewPeer(|before| + i, (entries + [e])[at'[i]].0, (entries + [e])[at'[i]].1)
    {
      if i < |at| {
        assert (entries + [e])[at'[i]] == entries[at[i]];
      }
    }
  }

  lemma AddedNext(before: seq<PeerInfo>, entries: seq<(IpPort, bool)>, after: seq<PeerInfo>, at: seq<nat>,
                  e: (IpPort, bool)) returns (at': seq<nat>)
    requires AddedAt(before, entries, after, at)
    ensures AddedAt(before, entries + [e],
                    if Contains(after, e.0.ip, e.1) then after else after + [NewPeer(|after|, e.0, e.1)], at')
  {
    if Contains(after, e.0.ip, e.1) {
      at' := at;
      AddedKnown(before, entries, after, at, e);
    } else {
      at' := at + [|entries|];
      AddedNew(before, entries, after, at, e);
    }
  }

  lemma TaggedNext(entries: seq<(IpPort, bool)>, list: seq<IpPort>, v6: bool)
    requires list != []
    ensures var m := |list| - 1;
      (entries + Tagged(list[..m], v6)) + [(list[m], v6)] == entries + Tagged(list, v6)
  {
  }

  lemma {:induction false} ListAddedAt(before: seq<PeerInfo>, entries: seq<(IpPort, bool)>, peers: seq<PeerInfo>,
                                       at: seq<nat>, list: seq<IpPort>, v6: bool) returns (at': seq<nat>)
    requires AddedAt(before, entries, peers, at)
    ensures AddedAt(before, entries + Tagged(list, v6), WithList(true, peers, list, v6), at')
  {
    if list == [] {
      at' := at;
      assert entries + Tagged(list, v6) == entries;
    } else {
      var m := |list| - 1;
      at' := ListAddedAt(before, entries, peers, at, list[..m], v6);
      var done, after := entries + Tagged(list[..m], v6), WithList(true, peers, list[..m], v6);
      at' := AddedNext(before, done, after, at', (list[m], v6));
      TaggedNext(entries, list, v6);
    }
  }

  /** A reply adds its new addresses in the order of its lists, IPv6 peers, IPv6 seeds, IPv4
      seeds and IPv4 peers, each where it comes first. */
  lemma ResponseOrder(peers: seq<PeerInfo>, r: SeedlistResponse) returns (at: seq<nat>)
    ensures AddedAt(peers, Entries(r), WithResponse(true, peers, r), at)
  {
    var p1 := WithList(true, peers, r.ipV6Peers, true);
    var p2 := WithList(true, p1, r.ipV6Seeds, true);
    var p3 := WithList(true, p2, r.ipV4Seeds, false);
    var e1 := Tagged(r.ipV6Peers, true);
    var e2 := e1 + Tagged(r.ipV6Seeds, true);
    var e3 := e2 + Tagged(r.ipV4Seeds, false);
    assert AddedAt(peers, [], peers, []);
    at := ListAddedAt(peers, [], peers, [], r.ipV6Peers, true);
    assert [] + e1 == e1;
    at := ListAddedAt(peers, e1, p1, at, r.ipV6Seeds, true);
    at := ListAddedAt(peers, e2, p2, at, r.ipV4Seeds, false);
    at := ListAddedAt(peers, e3, p3, at, r.ipV4Peers, false);
  }

  /** If the peers begin with the served ones, the unserved ones are the others. */
  lemma {:induction false} UnservedAreNew(workers: seq<PeerInfo>, peers: seq<PeerInfo>)
    requires PeersOk(peers) && workers <= peers
    ensures workers + Unserved(true, workers, peers) == peers
  {
    if |peers| == |workers| {
      AllServed(workers, peers);
    } else {
      var m := |peers| - 1;
      UnservedAreNew(workers, peers[..m]);
      NewPeerHasNoWorker(workers, peers);
      assert peers == peers[..m] + [peers[m]];
    }
  }

  lemma {:induction false} AllServed(workers: seq<PeerInfo>, peers: seq<PeerInfo>)
    requires peers <= workers
    ensures Unserved(true, workers, peers) == []
  {
    if peers != [] {
      AllServed(workers, peers[..|peers| - 1]);
      assert Matches(true, workers[|peers| - 1], peers[|peers| - 1]);
    }
  }

  /** Pool coverage: after any replies of the tracker the file's peers are distinct, with
      ids 1 to n, and the workers are for these peers, exactly one for each. */
  lemma {:induction false} OneWorkerPerPeer(rs: seq<SeedlistResponse>)
    ensures var (peers, workers) := Rounds(true, true, rs); PeersOk(peers) && workers == peers
  {
    if rs != [] {
      var m := |rs| - 1;
      OneWorkerPerPeer(rs[..m]);
      var (peers, workers) := Rounds(true, true, rs[..m]);
      var r := rs[m];
      var p1 := WithList(true, peers, r.ipV6Peers, true);
      var p2 := WithList(true, p1, r.ipV6Seeds, true);
      var p3 := WithList(true, p2, r.ipV4Seeds, false);
      WithListOk(peers, r.ipV6Peers, true);
      WithListOk(p1, r.ipV6Seeds, true);
      WithListOk(p2, r.ipV4Seeds, false);
      WithListOk(p3, r.ipV4Peers, false);
      UnservedAreNew(workers, WithResponse(true, peers, r));
    }
  }

  // ---------- as written ----------

  lemma {:induction false} AsWrittenListAddsKnown(peers: seq<PeerInfo>, list: seq<IpPort>, v6: bool)
    requires forall i: nat | i < |list| :: !Contains(peers, list[i].ip, v6)
    ensures WithList(false, peers, list, v6) == peers
  {
    if list != [] {
      AsWrittenListAddsKnown(peers, list[..|list| - 1], v6);
    }
  }

  /** As written, a file that begins without peers never gets any, nor any worker, whatever the
      comparison of workers is. */
  lemma {:induction false} AsWrittenFindsNoPeers(matchRepaired: bool, rs: seq<SeedlistResponse>)
    ensures Rounds(false, matchRepaired, rs) == ([], [])
  {
    if rs != [] {
      var r := rs[|rs| - 1];
      AsWrittenFindsNoPeers(matchRepaired, rs[..|rs| - 1]);
      AsWrittenListAddsKnown([], r.ipV6Peers, true);
      AsWrittenListAddsKnown([], r.ipV6Seeds, true);
      AsWrittenListAddsKnown([], r.ipV4Seeds, false);
      AsWrittenListAddsKnown([], r.ipV4Peers, false);
      assert WithResponse(false, [], r) == [];
      var none: seq<PeerInfo> := [];
      assert none + Unserved(matchRepaired, none, none) == none;
    }
  }

  /** A peer has an address of one family at most, as every peer of the tracker's replies. */
  predicate OneAddress(p: PeerInfo) {
    p.ipV4 == [] || p.ipV6 == []
  }

  predicate AllOneAddress(peers: seq<PeerInfo>) {
    forall i: nat | i < |peers| :: OneAddress(peers[i])
  }

  lemma {:induction false} WithListOneAddress(repaired: bool, peers: seq<PeerInfo>, list: seq<IpPort>, v6: bool)
    requires AllOneAddress(peers)
    ensures AllOneAddress(WithList(repaired, peers, list, v6))
  {
    if list != [] {
      WithListOneAddress(repaired, peers, list[..|list| - 1], v6);
    }
  }

  lemma ResponseOneAddress(repaired: bool, peers: seq<PeerInfo>, r: SeedlistResponse)
    requires AllOneAddress(peers)
    ensures AllOneAddress(WithResponse(repaired, peers, r))
  {
    var p1 := WithList(repaired, peers, r.ipV6Peers, true);
    var p2 := WithList(repaired, p1, r.ipV6Seeds, true);
    var p3 := WithList(repaired, p2, r.ipV4Seeds, false);
    WithListOneAddress(repaired, peers, r.ipV6Peers, true);
    WithListOneAddress(repaired, p1, r.ipV6Seeds, true);
    WithListOneAddress(repaired, p2, r.ipV4Seeds, false);
    WithListOneAddress(repaired, p3, r.ipV4Peers, false);
  }

  /** Both lack an IPv4 address, or both lack an IPv6 address. */
  predicate SameFamily(p: PeerInfo, q: PeerInfo) {
    (p.ipV4 == [] && q.ipV4 == []) || (p.ipV6 == [] && q.ipV6 == [])
  }

  ghost predicate FamilyHasWorker(workers: seq<PeerInfo>, p: PeerInfo) {
    exists i: nat :: i < |workers| && SameFamily(workers[i], p)
  }

  /** As written, the empty address strings of two peers of one family agree. So a peer
      counts as served as soon as some worker is for its family, and the answer is right
      exactly if a worker is for the peer itself or none is for its family. */
  lemma AsWrittenServedExactly(workers: seq<PeerInfo>, p: PeerInfo)
    requires OneAddress(p) && AllOneAddress(workers)
    ensures HasWorker(false, workers, p) <==> FamilyHasWorker(workers, p)
    ensures HasWorker(false, workers, p) == HasWorker(true, workers, p) <==>
      HasWorker(true, workers, p) || !FamilyHasWorker(workers, p)
  {
    forall i: nat | i < |workers|
      ensures Matches(false, workers[i], p) <==> SameFamily(workers[i], p)
      ensures Matches(true, workers[i], p) ==> SameFamily(workers[i], p)
    {
      assert OneAddress(workers[i]);
    }
    if i: nat :| i < |workers| && SameFamily(workers[i], p) {
      assert Matches(false, workers[i], p);
    }
  }

  // ---------- the addition repaired, the comparison of workers as written ----------

  /** No entry of the reply has an empty address. */
  predicate Addressed(r: SeedlistResponse) {
    !InList(r.ipV6Peers, []) && !InList(r.ipV6Seeds, []) && !InList(r.ipV4Seeds, []) && !InList(r.ipV4Peers, [])
  }

  /** The file had a peer of this family. */
  ghost predicate FamilyHasPeer(peers: seq<PeerInfo>, p: PeerInfo) {
    exists i: nat :: i < |peers| && SameFamily(peers[i], p)
  }

  /** A peer has an address of exactly one family. */
  predicate OneFamily(p: PeerInfo) {
    (p.ipV4 == []) != (p.ipV6 == [])
  }

  ghost predicate AllOneFamily(peers: seq<PeerInfo>) {
    forall i: nat | i < |peers| :: OneFamily(peers[i])
  }

  lemma {:induction false} WithListOneFamily(peers: seq<PeerInfo>, list: seq<IpPort>, v6: bool)
    requires AllOneFamily(peers) && !InList(list, [])
    ensures AllOneFamily(WithList(true, peers, list, v6))
  {
    if list != [] {
      var m := |list| - 1;
      assert list[m].ip != [];
      assert forall i: nat | i < m :: list[..m][i].ip == list[i].ip != [];
      WithListOneFamily(peers, list[..m], v6);
    }
  }

  lemma ResponseOneFamily(peers: seq<PeerInfo>, r: SeedlistResponse)
    requires AllOneFamily(peers) && Addressed(r)
    ensures AllOneFamily(WithResponse(true, peers, r))
  {
    var p1 := WithList(true, peers, r.ipV6Peers, true);
    var p2 := WithList(true, p1, r.ipV6Seeds, true);
    var p3 := WithList(true, p2, r.ipV4Seeds, false);
    WithListOneFamily(peers, r.ipV6Peers, true);
    WithListOneFamily(p1, r.ipV6Seeds, true);
    WithListOneFamily(p2, r.ipV4Seeds, false);
    WithListOneFamily(p3, r.ipV4Peers, false);
  }

  /** Workers are for peers of the file, and every family with a peer has a worker. */
  ghost predicate FamiliesServed(peers: seq<PeerInfo>, workers: seq<PeerInfo>) {
    && AllOneFamily(peers)
    && (forall i: nat | i < |workers| :: workers[i] in peers)
    && (forall i: nat | i < |peers| :: FamilyHasWorker(workers, peers[i]))
  }

  /** Then a peer counts as served exactly if the file has a peer of its family. */
  lemma ServedByFamily(peers: seq<PeerInfo>, workers: seq<PeerInfo>, p: PeerInfo)
    requires FamiliesServed(peers, workers) && OneFamily(p)
    ensures HasWorker(false, workers, p) <==> FamilyHasPeer(peers, p)
  {
    WorkersOneFamily(peers, workers);
    AsWrittenServedExactly(workers, p);
    if i: nat :| i < |workers| && SameFamily(workers[i], p) {
      var j: nat :| j < |peers| && peers[j] == workers[i];
      assert SameFamily(peers[j], p);
    }
    if j: nat :| j < |peers| && SameFamily(peers[j], p) {
      assert FamilyHasWorker(workers, peers[j]);
      var i: nat :| i < |workers| && SameFamily(workers[i], peers[j]);
      assert OneFamily(peers[j]) && SameFamily(workers[i], p);
    }
  }

  lemma WorkersOneFamily(peers: seq<PeerInfo>, workers: seq<PeerInfo>)
    requires FamiliesServed(peers, workers)
    ensures AllOneFamily(workers) && AllOneAddress(workers)
  {
    forall i: nat | i < |workers|
      ensures OneFamily(workers[i])
    {
      var j: nat :| j < |peers| && peers[j] == workers[i];
    }
  }

  lemma {:induction false} UnservedExact(matchRepaired: bool, workers: seq<PeerInfo>, peers: seq<PeerInfo>, p: PeerInfo)
    ensures p in Unserved(matchRepaired, workers, peers) <==> p in peers && !HasWorker(matchRepaired, workers, p)
  {
    if peers != [] {
      var m := |peers| - 1;
      UnservedExact(matchRepaired, workers, peers[..m], p);
      assert peers == peers[..m] + [peers[m]];
    }
  }

  lemma RoundServes(peers: seq<PeerInfo>, workers: seq<PeerInfo>, r: SeedlistResponse)
    requires FamiliesServed(peers, workers) && PeersOk(peers) && Addressed(r)
    ensures var (peers', workers') := Round(true, false, peers, workers, r);
      PeersOk(peers') && peers <= peers' && FamiliesServed(peers', workers')
  {
    var (peers', workers') := Round(true, false, peers, workers, r);
    ResponseOneFamily(peers, r);
    ResponseKeeps(peers, r);
    forall i: nat | i < |workers'|
      ensures workers'[i] in peers'
    {
      if i < |workers| {
        assert workers[i] in peers;
      } else {
        UnservedExact(false, workers, peers', workers'[i]);
        assert workers'[i] in Unserved(false, workers, peers');
      }
    }
    forall i: nat | i < |peers'|
      ensures FamilyHasWorker(workers', peers'[i])
    {
      WorkerOrUnserved(peers, workers, peers', peers'[i]);
    }
  }

  lemma ResponseKeeps(peers: seq<PeerInfo>, r: SeedlistResponse)
    requires PeersOk(peers)
    ensures PeersOk(WithResponse(true, peers, r)) && peers <= WithResponse(true, peers, r)
  {
    var p1 := WithList(true, peers, r.ipV6Peers, true);
    var p2 := WithList(true, p1, r.ipV6Seeds, true);
    var p3 := WithList(true, p2, r.ipV4Seeds, false);
    WithListOk(peers, r.ipV6Peers, true);
    WithListOk(p1, r.ipV6Seeds, true);
    WithListOk(p2, r.ipV4Seeds, false);
    WithListOk(p3, r.ipV4Peers, false);
  }

  /** After a round a peer has a worker of its family: an old one, or its own. */
  lemma WorkerOrUnserved(peers: seq<PeerInfo>, workers: seq<PeerInfo>, peers': seq<PeerInfo>, p: PeerInfo)
    requires FamiliesServed(peers, workers) && OneFamily(p) && p in peers'
    ensures FamilyHasWorker(workers + Unserved(false, workers, peers'), p)
  {
    var all := workers + Unserved(false, workers, peers');
    WorkersOneFamily(peers, workers);
    AsWrittenServedExactly(workers, p);
    UnservedExact(false, workers, peers', p);
    if HasWorker(false, workers, p) {
      var i: nat :| i < |workers| && SameFamily(workers[i], p);
      assert SameFamily(all[i], p);
    } else {
      var i: nat :| i < |Unserved(false, workers, peers')| && Unserved(false, workers, peers')[i] == p;
      assert SameFamily(all[|workers| + i], p);
    }
  }

  lemma {:induction false} RunServesFamilies(rs: seq<SeedlistResponse>)
    requires forall i: nat | i < |rs| :: Addressed(rs[i])
    ensures var (peers, workers) := Rounds(true, false, rs); PeersOk(peers) && FamiliesServed(peers, workers)
  {
    if rs != [] {
      var m := |rs| - 1;
      RunServesFamilies(rs[..m]);
      var (peers, workers) := Rounds(true, false, rs[..m]);
      RoundServes(peers, workers, rs[m]);
    }
  }

  /** With the addition repaired and the comparison of workers as written, after any replies
      rs and one more: the peers stay distinct, and a peer that the last reply adds gets a
      worker if and only if the file had no peer of its family before that reply. */
  lemma AsWrittenServesFirstReply(rs: seq<SeedlistResponse>, r: SeedlistResponse, i: nat)
    requires Addressed(r) && forall j: nat | j < |rs| :: Addressed(rs[j])
    requires |Rounds(true, false, rs).0| <= i < |Rounds(true, false, rs + [r]).0|
    ensures var peers := Rounds(true, false, rs).0;
      var (peers', workers') := Rounds(true, false, rs + [r]);
      && peers <= peers' && PeersOk(peers')
      && (peers'[i] in workers' <==> !FamilyHasPeer(peers, peers'[i]))
  {
    RunServesFamilies(rs);
    assert (rs + [r])[..|rs|] == rs;
    var (peers, workers) := Rounds(true, false, rs);
    var (peers', workers') := Round(true, false, peers, workers, r);
    RoundServes(peers, workers, r);
    var p := peers'[i];
    ServedByFamily(peers, workers, p);
    UnservedExact(false, workers, peers', p);
    assert p !in workers by {
      NewIsNotOld(peers, peers', i);
    }
  }

  lemma NewIsNotOld(peers: seq<PeerInfo>, peers': seq<PeerInfo>, i: nat)
    requires PeersOk(peers') && peers <= peers' && |peers| <= i < |peers'|
    ensures peers'[i] !in peers
  {
    assert forall j: nat | j < |peers| :: peers[j] == peers'[j] && peers'[j].id == j + 1;
  }

  /** Two peers of one family: told in two replies, the second gets no worker; told in one,
      both get one. */
  lemma AsWrittenServesOne(ip1: bytes, ip2: bytes, port: int, v6: bool) returns (p: PeerInfo, q: PeerInfo)
    requires ip1 != ip2 && ip1 != [] && ip2 != []
    ensures p == NewPeer(0, IpPort(ip1, port), v6) && q == NewPeer(1, IpPort(ip2, port), v6)
    ensures var r1, r2 := Told([IpPort(ip1, port)], v6), Told([IpPort(ip2, port)], v6);
      Rounds(true, false, [r1, r2]) == ([p, q], [p])
    ensures Rounds(true, false, [Told([IpPort(ip1, port), IpPort(ip2, port)], v6)]) == ([p, q], [p, q])
    ensures !HasWorker(true, [p], q) && HasWorker(false, [p], q)
  {
    var x, y := IpPort(ip1, port), IpPort(ip2, port);
    p, q := NewPeer(0, x, v6), NewPeer(1, y, v6);
    TwoReplies(x, y, p, q, v6);
    OneReply(x, y, p, q, v6);
    HasOneWorker(p, q);
  }

  lemma TwoReplies(x: IpPort, y: IpPort, p: PeerInfo, q: PeerInfo, v6: bool)
    requires x.ip != y.ip && p == NewPeer(0, x, v6) && q == NewPeer(1, y, v6)
    ensures Rounds(true, false, [Told([x], v6), Told([y], v6)]) == ([p, q], [p])
  {
    var r1, r2 := Told([x], v6), Told([y], v6);
    FirstRound(x, p, v6);
    RoundsOne(r1);
    SecondRound(y, p, q, v6);
    RoundsNext([r1], r2);
    assert [r1] + [r2] == [r1, r2];
  }

  lemma OneReply(x: IpPort, y: IpPort, p: PeerInfo, q: PeerInfo, v6: bool)
    requires x.ip != y.ip && p == NewPeer(0, x, v6) && q == NewPeer(1, y, v6)
    ensures Rounds(true, false, [Told([x, y], v6)]) == ([p, q], [p, q])
  {
    BothRound(x, y, p, q, v6);
    RoundsOne(Told([x, y], v6));
  }

  lemma RoundsNext(rs: seq<SeedlistResponse>, r: SeedlistResponse)
    ensures Rounds(true, false, rs + [r]) == Round(true, false, Rounds(true, false, rs).0, Rounds(true, false, rs).1, r)
  {
    assert (rs + [r])[..|rs|] == rs;
  }

  lemma RoundsOne(r: SeedlistResponse)
    ensures Rounds(true, false, [r]) == Round(true, false, [], [], r)
  {
    RoundsNext([], r);
    assert [] + [r] == [r];
  }

  lemma UnservedNext(workers: seq<PeerInfo>, peers: seq<PeerInfo>, p: PeerInfo)
    ensures Unserved(false, workers, peers + [p]) ==
      Unserved(false, workers, peers) + if HasWorker(false, workers, p) then [] else [p]
  {
    assert (peers + [p])[..|peers|] == peers;
  }

  /** The unserved ones of one peer, and of two. */
  lemma UnservedFew(workers: seq<PeerInfo>, p: PeerInfo, q: PeerInfo)
    ensures Unserved(false, workers, [p]) == if HasWorker(false, workers, p) then [] else [p]
    ensures Unserved(false, workers, [p, q]) ==
      (if HasWorker(false, workers, p) then [] else [p]) + (if HasWorker(false, workers, q) then [] else [q])
  {
    UnservedNext(workers, [], p);
    UnservedNext(workers, [p], q);
    assert [] + [p] == [p] && [p] + [q] == [p, q];
  }

  lemma HasOneWorker(p: PeerInfo, q: PeerInfo)
    ensures HasWorker(false, [p], q) <==> Matches(false, p, q)
    ensures HasWorker(true, [p], q) <==> Matches(true, p, q)
  {
    assert [p][0] == p;
  }

  lemma NoWorker(p: PeerInfo)
    ensures !HasWorker(false, [], p)
  {
  }

  lemma FirstRound(x: IpPort, p: PeerInfo, v6: bool)
    requires p == NewPeer(0, x, v6)
    ensures Round(true, false, [], [], Told([x], v6)) == ([p], [p])
  {
    TellOne([], x, v6);
    UnservedFew([], p, p);
    NoWorker(p);
    assert [] + [p] == [p];
  }

  lemma SecondRound(y: IpPort, p: PeerInfo, q: PeerInfo, v6: bool)
    requires q == NewPeer(1, y, v6) && AddressOf(p, v6) != y.ip && Matches(false, p, q)
    ensures Round(true, false, [p], [p], Told([y], v6)) == ([p, q], [p])
  {
    TellOne([p], y, v6);
    UnservedFew([p], p, q);
    HasOneWorker(p, p);
    HasOneWorker(p, q);
    assert [p] + [q] == [p, q] && [p] + ([] + []) == [p];
  }

  lemma BothRound(x: IpPort, y: IpPort, p: PeerInfo, q: PeerInfo, v6: bool)
    requires x.ip != y.ip && p == NewPeer(0, x, v6) && q == NewPeer(1, y, v6)
    ensures Round(true, false, [], [], Told([x, y], v6)) == ([p, q], [p, q])
  {
    TellTwo(x, y, v6);
    UnservedFew([], p, q);
    NoWorker(p);
    NoWorker(q);
    assert [p] + [q] == [p, q] && [] + [p, q] == [p, q];
  }

  /** A reply that names these seeds of one family. */
  function Told(list: seq<IpPort>, v6: bool): SeedlistResponse {
    if v6 then SeedlistResponse([], [], list, []) else SeedlistResponse(list, [], [], [])
  }

  lemma TellOne(peers: seq<PeerInfo>, x: IpPort, v6: bool)
    ensures WithResponse(true, peers, Told([x], v6)) ==
      if Contains(peers, x.ip, v6) then peers else peers + [NewPeer(|peers|, x, v6)]
  {
    assert [x][..0] == [];
    assert WithList(true, peers, [x], v6) ==
      if Contains(peers, x.ip, v6) then peers else peers + [NewPeer(|peers|, x, v6)];
  }

  lemma TellTwo(x: IpPort, y: IpPort, v6: bool)
    requires x.ip != y.ip
    ensures WithResponse(true, [], Told([x, y], v6)) == [NewPeer(0, x, v6), NewPeer(1, y, v6)]
  {
    var p := NewPeer(0, x, v6);
    assert [x, y][..1] == [x] && [x][..0] == [];
    assert WithList(true, [], [x], v6) == [] + [p] == [p];
    assert AddressOf([p][0], v6) == x.ip;
    assert WithList(true, [], [x, y], v6) == [p] + [NewPeer(1, y, v6)];
  }
}
