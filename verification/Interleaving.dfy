/** Several stores into one file at once, byte by byte. The write lock admits any number
    of writers, so what keeps the file right is that their segments are distinct. */
module Interleaving {
  import opened Common
  import opened Blocks

  datatype Store = Store(id: nat, data: bytes)

  ghost predicate StoresOk(stores: seq<Store>) {
    && (forall t: nat | t < |stores| :: |stores[t].data| <= SEGMENT_SIZE)
    && (forall t: nat, u: nat | t < |stores| && u < |stores| && stores[t].id == stores[u].id :: t == u)
  }

  function Pos(st: Store, j: nat): nat {
    Offset(st.id) + j
  }

  /** Store t writes its next byte; one that has finished does nothing. */
  function Next(stores: seq<Store>, at: (bytes, seq<nat>), t: nat): (bytes, seq<nat>) {
    var (e, progress) := at;
    if t < |stores| && t < |progress| && progress[t] < |stores[t].data| then
      (WriteByte(e, Pos(stores[t], progress[t]), stores[t].data[progress[t]]), progress[t := progress[t] + 1])
    else at
  }

  /** The disk and each store's progress after `schedule`, whose entries say which store
      writes its next byte. */
  function RunStores(d: bytes, stores: seq<Store>, schedule: seq<nat>): (bytes, seq<nat>) {
    if schedule == [] then (d, seq(|stores|, _ => 0))
    else
      var n := |schedule| - 1;
      Next(stores, RunStores(d, stores, schedule[..n]), schedule[n])
  }

  /** Every store has written all its bytes. */
  ghost predicate Finished(stores: seq<Store>, progress: seq<nat>) {
    |progress| == |stores| && forall t: nat | t < |stores| :: progress[t] == |stores[t].data|
  }

  /** Running the stores one after the other in the given order. */
  function RunInOrder(d: bytes, stores: seq<Store>, order: seq<nat>): bytes {
    if order == [] then d
    else
      var n := |order| - 1;
      var e := RunInOrder(d, stores, order[..n]);
      if order[n] < |stores| then WriteAt(e, Offset(stores[order[n]].id), stores[order[n]].data) else e
  }

  /** `order` names every store, and none twice. */
  ghost predicate IsOrder(stores: seq<Store>, order: seq<nat>) {
    && (forall t: nat | t < |stores| :: t in order)
    && NoRepeats(order)
  }

  // ---------- what the disk is, given the progress alone ----------

  ghost predicate Covered(stores: seq<Store>, progress: seq<nat>, p: nat)
    requires |progress| == |stores|
  {
    exists t: nat :: t < |stores| && Pos(stores[t], 0) <= p < Pos(stores[t], progress[t])
  }

  ghost predicate Partial(d: bytes, stores: seq<Store>, progress: seq<nat>, e: bytes) {
    && |progress| == |stores|
    && |e| >= |d|
    && (forall t: nat | t < |stores| :: progress[t] <= |stores[t].data|)
    && (forall t: nat, j: nat | t < |stores| && j < progress[t] ::
          Pos(stores[t], j) < |e| && e[Pos(stores[t], j)] == stores[t].data[j])
    && (forall p: nat | !Covered(stores, progress, p) :: ByteAt(e, p) == ByteAt(d, p))
    && (|e| > |d| ==> Covered(stores, progress, |e| - 1))
  }

  lemma CoveredNext(stores: seq<Store>, progress: seq<nat>, t: nat, p: nat)
    requires |progress| == |stores| && t < |stores|
    ensures Covered(stores, progress, p) ==> Covered(stores, progress[t := progress[t] + 1], p)
    ensures p == Pos(stores[t], progress[t]) ==> Covered(stores, progress[t := progress[t] + 1], p)
  {
    var progress' := progress[t := progress[t] + 1];
    if u: nat :| u < |stores| && Pos(stores[u], 0) <= p < Pos(stores[u], progress[u]) {
      assert Pos(stores[u], 0) <= p < Pos(stores[u], progress'[u]);
    }
    if p == Pos(stores[t], progress[t]) {
      assert Pos(stores[t], 0) <= p < Pos(stores[t], progress'[t]);
    }
  }

  lemma PartialByte(d: bytes, stores: seq<Store>, progress: seq<nat>, e: bytes, t: nat)
    requires StoresOk(stores) && Partial(d, stores, progress, e)
    requires t < |stores| && progress[t] < |stores[t].data|
    ensures Partial(d, stores, progress[t := progress[t] + 1],
                    WriteByte(e, Pos(stores[t], progress[t]), stores[t].data[progress[t]]))
  {
    var at := Pos(stores[t], progress[t]);
    var progress' := progress[t := progress[t] + 1];
    var e' := WriteByte(e, at, stores[t].data[progress[t]]);
    CoveredNext(stores, progress, t, at);
    CoveredNext(stores, progress, t, |e'| - 1);
    forall p: nat | !Covered(stores, progress', p)
      ensures ByteAt(e', p) == ByteAt(d, p)
    {
      CoveredNext(stores, progress, t, p);
    }
    forall u: nat, j: nat | u < |stores| && j < progress'[u]
      ensures Pos(stores[u], j) < |e'| && e'[Pos(stores[u], j)] == stores[u].data[j]
    {
      if u != t || j != progress[t] {
        assert Pos(stores[u], j) != at;
        assert ByteAt(e', Pos(stores[u], j)) == ByteAt(e, Pos(stores[u], j));
      }
    }
  }

  /** The progress of all stores determines the disk. */
  lemma PartialUnique(d: bytes, stores: seq<Store>, progress: seq<nat>, e1: bytes, e2: bytes)
    requires Partial(d, stores, progress, e1) && Partial(d, stores, progress, e2)
    ensures e1 == e2
  {
    CoveredInside(d, stores, progress, e1, |e2| - 1);
    CoveredInside(d, stores, progress, e2, |e1| - 1);
    forall p: nat | p < |e1|
      ensures e1[p] == e2[p]
    {
      if Covered(stores, progress, p) {
        var t: nat :| t < |stores| && Pos(stores[t], 0) <= p < Pos(stores[t], progress[t]);
        var j: nat := p - Pos(stores[t], 0);
        assert p == Pos(stores[t], j);
      } else {
        assert ByteAt(e1, p) == ByteAt(d, p) == ByteAt(e2, p);
      }
    }
  }

  lemma CoveredInside(d: bytes, stores: seq<Store>, progress: seq<nat>, e: bytes, p: int)
    requires Partial(d, stores, progress, e)
    ensures p >= 0 && Covered(stores, progress, p) ==> p < |e|
  {
    if p >= 0 && Covered(stores, progress, p) {
      var t: nat :| t < |stores| && Pos(stores[t], 0) <= p < Pos(stores[t], progress[t]);
      var j: nat := p - Pos(stores[t], 0);
      assert p == Pos(stores[t], j);
    }
  }

  lemma NextPartial(d: bytes, stores: seq<Store>, at: (bytes, seq<nat>), t: nat)
    requires StoresOk(stores) && Partial(d, stores, at.1, at.0)
    ensures Partial(d, stores, Next(stores, at, t).1, Next(stores, at, t).0)
  {
    if t < |stores| && at.1[t] < |stores[t].data| {
      PartialByte(d, stores, at.1, at.0, t);
    }
  }

  lemma {:induction false} SchedulePartial(d: bytes, stores: seq<Store>, schedule: seq<nat>)
    requires StoresOk(stores)
    ensures var (e, progress) := RunStores(d, stores, schedule); Partial(d, stores, progress, e)
  {
    if schedule != [] {
      var n := |schedule| - 1;
      SchedulePartial(d, stores, schedule[..n]);
      NextPartial(d, stores, RunStores(d, stores, schedule[..n]), schedule[n]);
    }
  }

  lemma PartialNext(d: bytes, stores: seq<Store>, progress: seq<nat>, before: bytes, e: bytes, t: nat, n: nat)
    requires StoresOk(stores) && t < |stores| == |progress| && progress[t] == n < |stores[t].data|
    requires before == WriteAt(e, Offset(stores[t].id), stores[t].data[..n]) && Partial(d, stores, progress, before)
    ensures Partial(d, stores, progress[t := n + 1], WriteAt(e, Offset(stores[t].id), stores[t].data[..n + 1]))
  {
    var at, data := Offset(stores[t].id), stores[t].data;
    var after := WriteByte(before, Pos(stores[t], n), data[n]);
    assert WriteAt(e, at, data[..n + 1]) == after by {
      WriteAtSnoc(e, at, data, n);
    }
    assert Partial(d, stores, progress[t := n + 1], after) by {
      PartialByte(d, stores, progress, before, t);
    }
  }

  lemma {:induction false} PartialBlock(d: bytes, stores: seq<Store>, progress: seq<nat>, e: bytes, t: nat, n: nat)
    requires StoresOk(stores) && Partial(d, stores, progress, e)
    requires t < |stores| && progress[t] == 0 && n <= |stores[t].data|
    ensures Partial(d, stores, progress[t := n], WriteAt(e, Offset(stores[t].id), stores[t].data[..n]))
  {
    if n == 0 {
      assert progress[t := 0] == progress;
    } else {
      PartialBlock(d, stores, progress, e, t, n - 1);
      PartialBlockNext(d, stores, progress, e, t, n - 1);
    }
  }

  lemma PartialBlockNext(d: bytes, stores: seq<Store>, progress: seq<nat>, e: bytes, t: nat, n: nat)
    requires StoresOk(stores) && t < |stores| == |progress| && n < |stores[t].data|
    requires Partial(d, stores, progress[t := n], WriteAt(e, Offset(stores[t].id), stores[t].data[..n]))
    ensures Partial(d, stores, progress[t := n + 1], WriteAt(e, Offset(stores[t].id), stores[t].data[..n + 1]))
  {
    PartialNext(d, stores, progress[t := n], WriteAt(e, Offset(stores[t].id), stores[t].data[..n]), e, t, n);
    assert progress[t := n][t := n + 1] == progress[t := n + 1];
  }

  function OrderProgress(stores: seq<Store>, order: seq<nat>): seq<nat> {
    seq(|stores|, t requires 0 <= t < |stores| => if t in order then |stores[t].data| else 0)
  }

  lemma ProgressNext(stores: seq<Store>, order: seq<nat>, t: nat)
    requires t < |stores|
    ensures OrderProgress(stores, order + [t]) == OrderProgress(stores, order)[t := |stores[t].data|]
  {
    assert forall u: nat :: u in order + [t] <==> u in order || u == t;
  }

  lemma OrderNext(d: bytes, stores: seq<Store>, order: seq<nat>, e: bytes, t: nat)
    requires StoresOk(stores) && t !in order && t < |stores|
    requires Partial(d, stores, OrderProgress(stores, order), e)
    ensures Partial(d, stores, OrderProgress(stores, order + [t]), WriteAt(e, Offset(stores[t].id), stores[t].data))
  {
    PartialBlock(d, stores, OrderProgress(stores, order), e, t, |stores[t].data|);
    assert stores[t].data[..|stores[t].data|] == stores[t].data;
    ProgressNext(stores, order, t);
  }

  predicate NoRepeats(order: seq<nat>) {
    forall i: nat, j: nat | i < |order| && j < |order| && order[i] == order[j] :: i == j
  }

  lemma NothingYet(d: bytes, stores: seq<Store>)
    ensures Partial(d, stores, OrderProgress(stores, []), d)
  {
    var progress := OrderProgress(stores, []);
    forall p: nat
      ensures !Covered(stores, progress, p)
    {
      assert forall t: nat | t < |stores| :: progress[t] == 0;
    }
  }

  lemma {:induction false} OrderPartial(d: bytes, stores: seq<Store>, order: seq<nat>)
    requires StoresOk(stores) && NoRepeats(order)
    ensures Partial(d, stores, OrderProgress(stores, order), RunInOrder(d, stores, order))
  {
    if order == [] {
      NothingYet(d, stores);
    } else {
      var n := |order| - 1;
      OrderPartial(d, stores, order[..n]);
      LastIsNew(order);
      if order[n] < |stores| {
        OrderNext(d, stores, order[..n], RunInOrder(d, stores, order[..n]), order[n]);
      } else {
        assert OrderProgress(stores, order[..n] + [order[n]]) == OrderProgress(stores, order[..n]);
      }
    }
  }

  lemma LastIsNew(order: seq<nat>)
    requires order != [] && NoRepeats(order)
    ensures var n := |order| - 1;
      order == order[..n] + [order[n]] && order[n] !in order[..n] && NoRepeats(order[..n])
  {
  }

  /** Interleaved stores are serialisable: when concurrent stores of distinct segments
      have all finished, the disk is the one that running them one after the other gives,
      in any order. */
  lemma StoresSerialise(d: bytes, stores: seq<Store>, schedule: seq<nat>, order: seq<nat>)
    requires StoresOk(stores) && IsOrder(stores, order)
    requires Finished(stores, RunStores(d, stores, schedule).1)
    ensures RunStores(d, stores, schedule).0 == RunInOrder(d, stores, order)
  {
    SchedulePartial(d, stores, schedule);
    OrderPartial(d, stores, order);
    assert OrderProgress(stores, order) == RunStores(d, stores, schedule).1;
    PartialUnique(d, stores, OrderProgress(stores, order),
                  RunStores(d, stores, schedule).0, RunInOrder(d, stores, order));
  }

  // ---------- stores that grow ----------

  /** Every entry of the schedule writes a byte. */
  ghost predicate Effective(d: bytes, stores: seq<Store>, schedule: seq<nat>) {
    schedule == [] ||
    var n := |schedule| - 1;
    var progress := RunStores(d, stores, schedule[..n]).1;
    && Effective(d, stores, schedule[..n])
    && schedule[n] < |stores| == |progress|
    && progress[schedule[n]] < |stores[schedule[n]].data|
  }

  /** Store t gets more to write. */
  function Longer(stores: seq<Store>, t: nat, more: bytes): (r: seq<Store>)
    requires t < |stores|
    ensures |r| == |stores|
    ensures forall u: nat | u < |stores| :: r[u].id == stores[u].id && stores[u].data <= r[u].data
    ensures forall u: nat | u < |stores| && u != t :: r[u] == stores[u]
    ensures r[t].data == stores[t].data + more
  {
    stores[t := Store(stores[t].id, stores[t].data + more)]
  }

  /** It goes on from where it was. */
  lemma {:induction false} RunLonger(d: bytes, stores: seq<Store>, schedule: seq<nat>, t: nat, more: bytes)
    requires t < |stores| && Effective(d, stores, schedule)
    ensures RunStores(d, Longer(stores, t, more), schedule) == RunStores(d, stores, schedule)
    ensures Effective(d, Longer(stores, t, more), schedule)
  {
    if schedule != [] {
      var n := |schedule| - 1;
      RunLonger(d, stores, schedule[..n], t, more);
      LastLonger(d, stores, schedule, t, more);
    }
  }

  lemma LastLonger(d: bytes, stores: seq<Store>, schedule: seq<nat>, t: nat, more: bytes)
    requires t < |stores| && schedule != [] && Effective(d, stores, schedule)
    requires var longer, before := Longer(stores, t, more), schedule[..|schedule| - 1];
      RunStores(d, longer, before) == RunStores(d, stores, before) && Effective(d, longer, before)
    ensures RunStores(d, Longer(stores, t, more), schedule) == RunStores(d, stores, schedule)
    ensures Effective(d, Longer(stores, t, more), schedule)
  {
    var n := |schedule| - 1;
    NextLonger(stores, RunStores(d, stores, schedule[..n]), schedule[n], t, more);
  }

  lemma NextLonger(stores: seq<Store>, at: (bytes, seq<nat>), u: nat, t: nat, more: bytes)
    requires t < |stores| && u < |stores| == |at.1| && at.1[u] < |stores[u].data|
    ensures Next(Longer(stores, t, more), at, u) == Next(stores, at, u)
    ensures at.1[u] < |Longer(stores, t, more)[u].data|
  {
    var longer := Longer(stores, t, more);
    assert longer[u].id == stores[u].id && stores[u].data <= longer[u].data;
  }

  /** All that was to be stored has been stored. */
  function AllOf(stores: seq<Store>): (r: seq<nat>)
    ensures Finished(stores, r)
  {
    seq(|stores|, t requires 0 <= t < |stores| => |stores[t].data|)
  }

  /** The schedule writes all that is to be stored, and nothing in vain, and makes e of d. */
  ghost predicate Makes(d: bytes, stores: seq<Store>, schedule: seq<nat>, e: bytes) {
    Effective(d, stores, schedule) && RunStores(d, stores, schedule) == (e, AllOf(stores))
  }

  /** When all stores are through, one of them writes one more byte. */
  lemma GrowOne(d: bytes, stores: seq<Store>, schedule: seq<nat>, e: bytes, t: nat, b: byte)
    requires t < |stores| && Makes(d, stores, schedule, e)
    ensures Makes(d, Longer(stores, t, [b]), schedule + [t], WriteByte(e, Pos(stores[t], |stores[t].data|), b))
  {
    RunLonger(d, stores, schedule, t, [b]);
    RunNext(d, Longer(stores, t, [b]), schedule, t, e, AllOf(stores));
    AllOfLonger(stores, t, b);
  }

  lemma AllOfLonger(stores: seq<Store>, t: nat, b: byte)
    requires t < |stores|
    ensures AllOf(Longer(stores, t, [b])) == AllOf(stores)[t := |stores[t].data| + 1]
  {
  }

  lemma RunNext(d: bytes, stores: seq<Store>, schedule: seq<nat>, t: nat, e: bytes, progress: seq<nat>)
    requires RunStores(d, stores, schedule) == (e, progress) && Effective(d, stores, schedule)
    requires t < |stores| == |progress| && progress[t] < |stores[t].data|
    ensures RunStores(d, stores, schedule + [t]) ==
      (WriteByte(e, Pos(stores[t], progress[t]), stores[t].data[progress[t]]), progress[t := progress[t] + 1])
    ensures Effective(d, stores, schedule + [t])
  {
    assert (schedule + [t])[..|schedule|] == schedule;
  }

  // ---------- stores of the same segment ----------

  /** Distinctness is what it takes: two stores of one segment end differently in the
      two orders. */
  lemma SameSegmentDoesNotSerialise(d: bytes, id: nat, data1: bytes, data2: bytes)
    requires |data1| == |data2| == SEGMENT_SIZE
    ensures var stores := [Store(id, data1), Store(id, data2)];
      RunInOrder(d, stores, [0, 1]) == RunInOrder(d, stores, [1, 0]) <==> data1 == data2
  {
    var stores := [Store(id, data1), Store(id, data2)];
    assert [0, 1][..1] == [0] && [1, 0][..1] == [1];
    var e1, e2 := RunInOrder(d, stores, [0]), RunInOrder(d, stores, [1]);
    var r1, r2 := RunInOrder(d, stores, [0, 1]), RunInOrder(d, stores, [1, 0]);
    assert r1 == WriteAt(e1, Offset(id), data2) && r2 == WriteAt(e2, Offset(id), data1);
    if r1 == r2 {
      forall j: nat | j < SEGMENT_SIZE
        ensures data1[j] == data2[j]
      {
        assert ByteAt(r1, Offset(id) + j) == data2[j];
      }
    }
  }
}
