/**
 The local projection (local_ckf.rs) and its use by the KV index (kv_index.rs): lanes
 bound to backends, sequential inserts and deletes, and the batched overlap query.
 Interleaved inserts and deletes are the subject of LaneCas; here a compare-exchange
 meets no interference and succeeds at once.
 */
module LocalCkf {
  import opened Wrappers
  import opened CuckooFilter
  import opened Lane
  import opened Ids
  import opened LaneProjection
  import opened CkfConsumer

  const LOCAL_LANE_COUNT: nat := 16

  // ---------- what a query means ----------

  /** Number of hits among the first `n` hashes. */
  ghost function HitCount(a: Addressing, view: LaneBuckets, hashes: seq<Hash>, n: nat): nat
    requires a.Valid() && n <= |hashes|
  {
    if n == 0 then 0
    else HitCount(a, view, hashes, n - 1) + (if Hits(a, view, hashes[n - 1]) then 1 else 0)
  }

  ghost predicate SomeLaneHits(a: Addressing, views: map<nat, LaneBuckets>, h: Hash)
    requires a.Valid()
  {
    exists lane :: lane in views && Hits(a, views[lane], h)
  }

  /** The batched scan stops at the first hash that no lane has. */
  ghost predicate IsStop(a: Addressing, views: map<nat, LaneBuckets>, hashes: seq<Hash>, stop: nat)
    requires a.Valid()
  {
    && stop <= |hashes|
    && (forall k :: 0 <= k < stop ==> SomeLaneHits(a, views, hashes[k]))
    && (stop < |hashes| ==> !SomeLaneHits(a, views, hashes[stop]))
  }

  lemma {:induction false} HitCountGrows(a: Addressing, view: LaneBuckets, hashes: seq<Hash>, k: nat, n: nat)
    requires a.Valid() && k <= n <= |hashes|
    ensures HitCount(a, view, hashes, k) <= HitCount(a, view, hashes, n) <= HitCount(a, view, hashes, k) + (n - k)
    ensures HitCount(a, view, hashes, k) == HitCount(a, view, hashes, n) <==>
            forall j :: k <= j < n ==> !Hits(a, view, hashes[j])
  {
    hide Hits;
    if k < n { HitCountGrows(a, view, hashes, k, n - 1); }
  }

  lemma {:induction false} HitCountAllHits(a: Addressing, view: LaneBuckets, hashes: seq<Hash>, k: nat)
    requires a.Valid() && k <= |hashes| && forall j :: 0 <= j < k ==> Hits(a, view, hashes[j])
    ensures HitCount(a, view, hashes, k) == k
  {
    hide Hits;
    if k > 0 { HitCountAllHits(a, view, hashes, k - 1); }
  }

  /**
   Batched against single query, for any active lane: the single-lane prefix overlap is
   at most the batched figure, and they are equal exactly when the lane has no hit
   between its first miss and the index where the batched scan stops.
   */
  lemma BatchedBoundsSingle(a: Addressing, views: map<nat, LaneBuckets>, hashes: seq<Hash>, stop: nat, lane: nat,
                            overlap: nat)
    requires a.Valid() && IsStop(a, views, hashes, stop)
    requires lane in views && IsPrefixOverlap(a, views[lane], hashes, overlap)
    ensures overlap <= stop && overlap <= HitCount(a, views[lane], hashes, stop)
    ensures overlap == HitCount(a, views[lane], hashes, stop) <==>
            forall j :: overlap <= j < stop ==> !Hits(a, views[lane], hashes[j])
  {
    hide Hits, HitCount;
    forall k | 0 <= k < overlap ensures SomeLaneHits(a, views, hashes[k]) {
      assert Hits(a, views[lane], hashes[k]);
    }
    HitCountAllHits(a, views[lane], hashes, overlap);
    HitCountGrows(a, views[lane], hashes, overlap, stop);
  }

  /** With one active lane the two queries agree. */
  lemma BatchedEqualsSingleAlone(a: Addressing, views: map<nat, LaneBuckets>, hashes: seq<Hash>, stop: nat, lane: nat,
                                 overlap: nat)
    requires a.Valid() && IsStop(a, views, hashes, stop)
    requires views.Keys == {lane} && IsPrefixOverlap(a, views[lane], hashes, overlap)
    ensures overlap == stop == HitCount(a, views[lane], hashes, stop)
  {
    hide Hits, HitCount;
    BatchedBoundsSingle(a, views, hashes, stop, lane, overlap);
    forall k | 0 <= k < stop ensures Hits(a, views[lane], hashes[k]) {
      assert SomeLaneHits(a, views, hashes[k]);
    }
    HitCountAllHits(a, views[lane], hashes, stop);
  }

  lemma CreditedPastMiss(a: Addressing, views: map<nat, LaneBuckets>, h0: Hash, h1: Hash)
    requires a.Valid() && views.Keys == {0, 1}
    requires Hits(a, views[0], h0) && Hits(a, views[0], h1)
    requires !Hits(a, views[1], h0) && Hits(a, views[1], h1)
    ensures IsStop(a, views, [h0, h1], 2)
    ensures IsPrefixOverlap(a, views[1], [h0, h1], 0) && HitCount(a, views[1], [h0, h1], 2) == 1
  {
    hide Hits;
    assert 0 in views && 1 in views;
    assert SomeLaneHits(a, views, h0) && SomeLaneHits(a, views, h1);
    assert HitCount(a, views[1], [h0, h1], 1) == 0;
  }

  lemma EmptyMisses(a: Addressing, view: LaneBuckets, h: Hash)
    requires a.Valid() && view[Primary(a, h)] == 0
    ensures !Hits(a, view, h)
  {
    EmptyBucket();
    SwarMembership(0, a.probe(h).0);
    hide Count, BucketContains, FirstMatch, Slot;
  }

  /** A hash put into an empty bucket hits; buckets elsewhere are untouched. */
  lemma PutHits(a: Addressing, view: LaneBuckets, h: Hash)
    requires a.Valid() && view[Primary(a, h)] == 0
    ensures Hits(a, Moved(a, view, Put(h)), h)
    ensures forall j :: 0 <= j < BUCKETS_PER_LANE && j != Primary(a, h) ==> Moved(a, view, Put(h))[j] == view[j]
  {
    var fp := a.probe(h).0;
    EmptyBucket();
    TryInsertCount(0, fp, fp);
    TryInsertCount(0, fp, 0);
    SwarMembership(Moved(a, view, Put(h))[Primary(a, h)], fp);
    hide Count, BucketContains, FirstMatch, Slot, TryInsert;
  }

  /**
   The doc comment's per-lane prefix break does not hold: with both hashes in one lane and
   only the second in the other, the other is credited for its hit past its first miss.
   */
  lemma BatchedExceedsSingle(a: Addressing, h0: Hash, h1: Hash)
    requires a.Valid() && Primary(a, h0) != Primary(a, h1)
    ensures var both, second := Projected(a, EmptyLane(), [Put(h0), Put(h1)]), Projected(a, EmptyLane(), [Put(h1)]);
      && IsStop(a, map[0 := both, 1 := second], [h0, h1], 2)
      && IsPrefixOverlap(a, second, [h0, h1], 0)
      && HitCount(a, second, [h0, h1], 2) == 1
  {
    hide Moved, Projected, BucketContains, HitCount, IsStop, IsPrefixOverlap;
    var none: LaneBuckets := EmptyLane();
    assert [Put(h0)] == [] + [Put(h0)] && [Put(h1)] == [] + [Put(h1)] && [Put(h0), Put(h1)] == [Put(h0)] + [Put(h1)];
    ProjectedNone(a, none);
    ProjectedNext(a, none, [], Put(h0));
    ProjectedNext(a, none, [Put(h0)], Put(h1));
    ProjectedNext(a, none, [], Put(h1));
    var first, second := Moved(a, none, Put(h0)), Moved(a, none, Put(h1));
    PutHits(a, none, h0);
    PutHits(a, first, h1);
    PutHits(a, none, h1);
    EmptyMisses(a, second, h0);
    CreditedPastMiss(a, map[0 := Moved(a, first, Put(h1)), 1 := second], h0, h1);
  }

  class LocalCkf {
    const addr: Addressing
    const buckets: array2<PackedBucket>   // [bucket, lane]
    const active: array<bool>
    var laneBackends: map<nat, BackendId>
    var backendLanes: map<BackendId, nat>
    ghost var log: map<BackendId, seq<LaneOp>>   // what was projected for a backend since it was bound

    ghost predicate Shaped() {
      && addr.Valid()
      && buckets.Length0 == BUCKETS_PER_LANE && buckets.Length1 == LOCAL_LANE_COUNT
      && active.Length == LOCAL_LANE_COUNT
    }

    ghost function View(lane: nat): (view: LaneBuckets)
      reads buckets
      requires Shaped() && lane < LOCAL_LANE_COUNT
    {
      Column(buckets, lane)
    }

    /** The two maps are mutual inverses on lanes in range. */
    ghost predicate Paired()
      reads this
    {
      && (forall lane :: lane in laneBackends ==>
            lane < LOCAL_LANE_COUNT && laneBackends[lane] in backendLanes && backendLanes[laneBackends[lane]] == lane)
      && (forall b :: b in backendLanes ==> backendLanes[b] in laneBackends && laneBackends[backendLanes[b]] == b)
    }

    /** A lane is active exactly when bound, and unbound lanes are empty. */
    ghost predicate Valid()
      reads this, buckets, active
    {
      && Shaped() && Paired()
      && (forall lane :: 0 <= lane < LOCAL_LANE_COUNT ==> (active[lane] <==> lane in laneBackends))
      && (forall lane :: 0 <= lane < LOCAL_LANE_COUNT && lane !in laneBackends ==> View(lane) == EmptyLane())
    }

    /** Every bound lane is what the logged operations of its backend make of an empty one. */
    ghost predicate Logged()
      reads this, buckets
      requires Shaped() && Paired()
    {
      forall lane :: lane in laneBackends ==> LaneLogged(lane)
    }

    ghost predicate LaneLogged(lane: nat)
      reads this, buckets
      requires Shaped() && lane < LOCAL_LANE_COUNT && lane in laneBackends
    {
      laneBackends[lane] in log && View(lane) == Projected(addr, EmptyLane(), log[laneBackends[lane]])
    }

    /** The lane views of all active lanes. */
    ghost function ActiveViews(): map<nat, LaneBuckets>
      reads buckets, active
      requires Shaped()
    {
      map lane: nat | lane < LOCAL_LANE_COUNT && active[lane] :: View(lane)
    }

    constructor (addr: Addressing)
      requires addr.Valid()
      ensures Valid() && Logged() && fresh(buckets) && fresh(active) && this.addr == addr && backendLanes == map[]
    {
      this.addr := addr;
      buckets := new PackedBucket[BUCKETS_PER_LANE, LOCAL_LANE_COUNT]((_, _) => 0);
      active := new bool[LOCAL_LANE_COUNT](_ => false);
      laneBackends, backendLanes, log := map[], map[], map[];
    }

    method ZeroLane(lane: nat)
      requires Shaped() && lane < LOCAL_LANE_COUNT
      modifies buckets
      ensures View(lane) == EmptyLane()
      ensures forall l :: 0 <= l < LOCAL_LANE_COUNT && l != lane ==> View(l) == old(View(l))
    {
      for i := 0 to BUCKETS_PER_LANE
        invariant forall k :: 0 <= k < i ==> buckets[k, lane] == 0
        invariant forall k, l :: 0 <= k < BUCKETS_PER_LANE && 0 <= l < LOCAL_LANE_COUNT && l != lane ==>
                    buckets[k, l] == old(buckets[k, l])
      {
        buckets[i, lane] := 0;
      }
    }

    /** The backend's lane, binding the first free one if it has none; `None` when all lanes are taken. */
    method AssignLane(backend: BackendId) returns (lane: Option<nat>)
      requires Valid()
      modifies this`laneBackends, this`backendLanes, this`log, buckets, active
      ensures Valid()
      ensures backend in old(backendLanes) ==> lane == Some(old(backendLanes)[backend])
      ensures backend !in old(backendLanes) && lane.Some? ==>
                lane.value !in old(laneBackends) && forall l :: 0 <= l < lane.value ==> l in old(laneBackends)
      ensures lane.None? <==>
              backend !in old(backendLanes) && forall l :: 0 <= l < LOCAL_LANE_COUNT ==> l in old(laneBackends)
      ensures lane.Some? ==> lane.value < LOCAL_LANE_COUNT
      ensures backendLanes == if lane.Some? then old(backendLanes)[backend := lane.value] else old(backendLanes)
      ensures laneBackends == if lane.Some? then old(laneBackends)[lane.value := backend] else old(laneBackends)
      ensures forall l :: 0 <= l < LOCAL_LANE_COUNT ==> View(l) == old(View(l))
      ensures log == if lane.Some? && backend !in old(backendLanes) then old(log)[backend := []] else old(log)
      ensures old(Logged()) ==> Logged()
    {
      hide Projected, LaneLogged;
      if backend in backendLanes {
        return Some(backendLanes[backend]);
      }
      for l := 0 to LOCAL_LANE_COUNT
        invariant forall m :: 0 <= m < l ==> m in laneBackends
        invariant unchanged(this) && unchanged(buckets) && unchanged(active)
      {
        if l !in laneBackends {
          Bind(l, backend);
          return Some(l);
        }
      }
      return None;
    }

    /** Bind a free lane, with nothing logged yet. */
    method Bind(lane: nat, backend: BackendId)
      requires Valid() && lane < LOCAL_LANE_COUNT && lane !in laneBackends && backend !in backendLanes
      modifies this`laneBackends, this`backendLanes, this`log, buckets, active
      ensures Valid()
      ensures laneBackends == old(laneBackends)[lane := backend] && backendLanes == old(backendLanes)[backend := lane]
      ensures log == old(log)[backend := []]
      ensures forall l :: 0 <= l < LOCAL_LANE_COUNT ==> View(l) == old(View(l))
      ensures old(Logged()) ==> Logged()
    {
      hide Projected, View, EmptyLane;
      ProjectedNone(addr, EmptyLane());
      BindMaps(lane, backend);
      log := log[backend := []];
    }

    method BindMaps(lane: nat, backend: BackendId)
      requires Valid() && lane < LOCAL_LANE_COUNT && lane !in laneBackends && backend !in backendLanes
      modifies this`laneBackends, this`backendLanes, buckets, active
      ensures Valid() && View(lane) == EmptyLane()
      ensures laneBackends == old(laneBackends)[lane := backend] && backendLanes == old(backendLanes)[backend := lane]
      ensures forall l :: 0 <= l < LOCAL_LANE_COUNT ==> View(l) == old(View(l))
    {
      hide View, EmptyLane;
      ZeroLane(lane);
      laneBackends := laneBackends[lane := backend];
      backendLanes := backendLanes[backend := lane];
      active[lane] := true;
    }

    method UnassignLane(backend: BackendId)
      requires Valid()
      modifies this`laneBackends, this`backendLanes, buckets, active
      ensures Valid()
      ensures backendLanes == old(backendLanes) - {backend}
      ensures forall l :: 0 <= l < LOCAL_LANE_COUNT && l in laneBackends ==> View(l) == old(View(l))
      ensures old(Logged()) ==> Logged()
    {
      hide Projected;
      if backend in backendLanes {
        var lane := backendLanes[backend];
        backendLanes := backendLanes - {backend};
        active[lane] := false;
        ZeroLane(lane);
        laneBackends := laneBackends - {lane};
      }
    }

    /** Insert into the first candidate bucket with room; no eviction. */
    method Insert(hash: Hash, lane: nat) returns (ok: bool)
      requires Shaped() && lane < LOCAL_LANE_COUNT
      modifies buckets
      ensures active[lane] ==> View(lane) == Moved(addr, old(View(lane)), Put(hash))
      ensures ok == (active[lane] && DirectInsert(addr, old(View(lane)), hash).Some?)
      ensures !active[lane] ==> View(lane) == old(View(lane))
      ensures forall l :: 0 <= l < LOCAL_LANE_COUNT && l != lane ==> View(l) == old(View(l))
    {
      hide TryInsert;
      if !active[lane] {
        return false;
      }
      var fp := addr.probe(hash).0;
      var bucketA := addr.probe(hash).1;
      var bucketB := addr.alt(bucketA, fp);
      ghost var view := View(lane);
      match TryInsert(buckets[bucketA, lane], fp) {
        case Some(word) =>
          buckets[bucketA, lane] := word;
          assert View(lane) == view[bucketA := word];
          return true;
        case None =>
      }
      match TryInsert(buckets[bucketB, lane], fp) {
        case Some(word) =>
          buckets[bucketB, lane] := word;
          assert View(lane) == view[bucketB := word];
          return true;
        case None =>
      }
      return false;
    }

    method Delete(hash: Hash, lane: nat) returns (ok: bool)
      requires Shaped() && lane < LOCAL_LANE_COUNT
      modifies buckets
      ensures active[lane] ==> View(lane) == Moved(addr, old(View(lane)), Take(hash))
      ensures ok == (active[lane] && DirectDelete(addr, old(View(lane)), hash).Some?)
      ensures !active[lane] ==> View(lane) == old(View(lane))
      ensures forall l :: 0 <= l < LOCAL_LANE_COUNT && l != lane ==> View(l) == old(View(l))
    {
      hide TryDelete;
      if !active[lane] {
        return false;
      }
      var fp := addr.probe(hash).0;
      var bucketA := addr.probe(hash).1;
      var bucketB := addr.alt(bucketA, fp);
      ghost var view := View(lane);
      match TryDelete(buckets[bucketA, lane], fp) {
        case Some(word) =>
          buckets[bucketA, lane] := word;
          assert View(lane) == view[bucketA := word];
          return true;
        case None =>
      }
      match TryDelete(buckets[bucketB, lane], fp) {
        case Some(word) =>
          buckets[bucketB, lane] := word;
          assert View(lane) == view[bucketB := word];
          return true;
        case None =>
      }
      return false;
    }

    /** Empties a lane and leaves it active, bound or not; the binding law survives exactly on a bound lane. */
    method ClearLane(lane: nat)
      requires Valid() && lane < LOCAL_LANE_COUNT
      modifies buckets, active
      ensures View(lane) == EmptyLane() && active[lane]
      ensures forall l :: 0 <= l < LOCAL_LANE_COUNT && l != lane ==>
              View(l) == old(View(l)) && active[l] == old(active[l])
      ensures Valid() <==> lane in laneBackends
    {
      active[lane] := false;
      ZeroLane(lane);
      active[lane] := true;
    }

    method EstimateOverlap(hashes: seq<Hash>, lane: nat) returns (overlap: nat)
      requires Shaped() && lane < LOCAL_LANE_COUNT
      ensures active[lane] ==> IsPrefixOverlap(addr, View(lane), hashes, overlap)
      ensures !active[lane] ==> overlap == 0
    {
      hide BucketContains;
      overlap := 0;
      if !active[lane] {
        return;
      }
      for k := 0 to |hashes|
        invariant overlap == k
        invariant forall i :: 0 <= i < k ==> Hits(addr, View(lane), hashes[i])
      {
        var fp := addr.probe(hashes[k]).0;
        if !BucketContains(buckets[addr.probe(hashes[k]).1, lane], fp) {
          return;
        }
        overlap := overlap + 1;
      }
    }

    /** The active lanes in increasing order. */
    ghost predicate ListsActive(lanes: seq<nat>)
      reads active
      requires Shaped()
    {
      && (forall i :: 0 <= i < |lanes| ==> lanes[i] < LOCAL_LANE_COUNT && active[lanes[i]])
      && (forall l :: 0 <= l < LOCAL_LANE_COUNT && active[l] ==> l in lanes)
      && (forall i, j :: 0 <= i < j < |lanes| ==> lanes[i] < lanes[j])
    }

    method ActiveLanes() returns (lanes: seq<nat>)
      requires Shaped()
      ensures ListsActive(lanes)
    {
      lanes := [];
      for l := 0 to LOCAL_LANE_COUNT
        invariant forall i :: 0 <= i < |lanes| ==> lanes[i] < l && active[lanes[i]]
        invariant forall m :: 0 <= m < l && active[m] ==> m in lanes
        invariant forall i, j :: 0 <= i < j < |lanes| ==> lanes[i] < lanes[j]
      {
        if active[l] {
          lanes := lanes + [l];
        }
      }
    }

    /** Every listed lane is credited with its hits among the first `k` hashes. */
    ghost predicate Credited(lanes: seq<nat>, overlaps: array<nat>, hashes: seq<Hash>, k: nat)
      reads active, buckets, overlaps
      requires Shaped() && ListsActive(lanes) && overlaps.Length == LOCAL_LANE_COUNT && k <= |hashes|
    {
      forall i :: 0 <= i < |lanes| ==> overlaps[lanes[i]] == HitCount(addr, View(lanes[i]), hashes, k)
    }

    /**
     One pass over the hashes for all active lanes, in lane order: each lane is credited
     with its hits before the first hash that no active lane has.
     */
    method EstimateAllOverlaps(hashes: seq<Hash>) returns (result: seq<(nat, nat)>, ghost stop: nat)
      requires Shaped()
      ensures stop <= |hashes| && IsStop(addr, ActiveViews(), hashes, stop)
      ensures ListsActive(seq(|result|, i requires 0 <= i < |result| => result[i].0))
      ensures forall i :: 0 <= i < |result| ==> result[i].0 < LOCAL_LANE_COUNT
      ensures forall i :: 0 <= i < |result| ==> result[i].1 == HitCount(addr, View(result[i].0), hashes, stop)
    {
      hide BucketContains, Hits, HitCount, SomeLaneHits, Credited;
      var lanes := ActiveLanes();
      var overlaps := new nat[LOCAL_LANE_COUNT](_ => 0);
      stop := 0;
      NothingCredited(lanes, overlaps, hashes);
      for k := 0 to |hashes|
        invariant stop == k && ListsActive(lanes)
        invariant forall j :: 0 <= j < k ==> SomeLaneHits(addr, ActiveViews(), hashes[j])
        invariant Credited(lanes, overlaps, hashes, k)
      {
        var anyHit := ScanRow(hashes[k], lanes, overlaps, hashes, k);
        if !anyHit {
          break;
        }
        stop := stop + 1;
      }
      CreditedFigures(lanes, overlaps, hashes, stop);
      result := [];
      for i := 0 to |lanes|
        invariant |result| == i
        invariant forall j :: 0 <= j < i ==> result[j] == (lanes[j], overlaps[lanes[j]])
      {
        result := result + [(lanes[i], overlaps[lanes[i]])];
      }
      assert seq(|result|, i requires 0 <= i < |result| => result[i].0) == lanes;
    }

    lemma NothingCredited(lanes: seq<nat>, overlaps: array<nat>, hashes: seq<Hash>)
      requires Shaped() && ListsActive(lanes) && overlaps.Length == LOCAL_LANE_COUNT
      requires forall l :: 0 <= l < LOCAL_LANE_COUNT ==> overlaps[l] == 0
      ensures Credited(lanes, overlaps, hashes, 0)
    {}

    lemma CreditedFigures(lanes: seq<nat>, overlaps: array<nat>, hashes: seq<Hash>, k: nat)
      requires Shaped() && ListsActive(lanes) && overlaps.Length == LOCAL_LANE_COUNT && k <= |hashes|
      requires Credited(lanes, overlaps, hashes, k)
      ensures forall i :: 0 <= i < |lanes| ==> overlaps[lanes[i]] == HitCount(addr, View(lanes[i]), hashes, k)
    {}

    /** Credit every active lane that has the `k`-th hash. */
    method ScanRow(hash: Hash, lanes: seq<nat>, overlaps: array<nat>, ghost hashes: seq<Hash>, ghost k: nat)
      returns (anyHit: bool)
      requires Shaped() && k < |hashes| && hashes[k] == hash && overlaps.Length == LOCAL_LANE_COUNT
      requires ListsActive(lanes) && Credited(lanes, overlaps, hashes, k)
      modifies overlaps
      ensures anyHit <==> SomeLaneHits(addr, ActiveViews(), hash)
      ensures ListsActive(lanes) && Credited(lanes, overlaps, hashes, k + (if anyHit then 1 else 0))
    {
      hide HitCount, Credited, Hits, View, ActiveViews, SomeLaneHits;
      CreditedFigures(lanes, overlaps, hashes, k);
      anyHit := false;
      for i := 0 to |lanes|
        invariant ListsActive(lanes)
        invariant forall j :: 0 <= j < i ==>
                    overlaps[lanes[j]] == HitCount(addr, View(lanes[j]), hashes, k) + Hit(lanes[j], hash)
        invariant forall j :: i <= j < |lanes| ==> overlaps[lanes[j]] == HitCount(addr, View(lanes[j]), hashes, k)
        invariant anyHit <==> exists j :: 0 <= j < i && Hits(addr, View(lanes[j]), hash)
      {
        var hit := ScanCell(hash, lanes[i], overlaps);
        anyHit := anyHit || hit;
      }
      CreditedNext(lanes, overlaps, hashes, k);
      RowHit(lanes, hash);
      if !anyHit { CreditedStays(lanes, overlaps, hashes, k); }
    }

    ghost function Hit(lane: nat, hash: Hash): nat
      reads buckets
      requires Shaped() && lane < LOCAL_LANE_COUNT
    {
      if Hits(addr, View(lane), hash) then 1 else 0
    }

    /** Credit one lane, if it has the hash. */
    method ScanCell(hash: Hash, lane: nat, overlaps: array<nat>) returns (hit: bool)
      requires Shaped() && lane < LOCAL_LANE_COUNT && overlaps.Length == LOCAL_LANE_COUNT
      modifies overlaps
      ensures hit <==> Hits(addr, View(lane), hash)
      ensures overlaps[lane] == old(overlaps[lane]) + Hit(lane, hash)
      ensures forall l :: 0 <= l < LOCAL_LANE_COUNT && l != lane ==> overlaps[l] == old(overlaps[l])
    {
      hide BucketContains, View, Hits;
      CellHits(lane, hash);
      var fp := addr.probe(hash).0;
      hit := BucketContains(buckets[addr.probe(hash).1, lane], fp);
      if hit {
        overlaps[lane] := overlaps[lane] + 1;
      }
    }

    /** A query looks at one cell of a lane. */
    lemma CellHits(lane: nat, hash: Hash)
      requires Shaped() && lane < LOCAL_LANE_COUNT
      ensures addr.probe(hash).1 < BUCKETS_PER_LANE
      ensures Hits(addr, View(lane), hash) <==> BucketContains(buckets[addr.probe(hash).1, lane], addr.probe(hash).0)
    {
      hide BucketContains;
    }

    lemma CreditedNext(lanes: seq<nat>, overlaps: array<nat>, hashes: seq<Hash>, k: nat)
      requires Shaped() && ListsActive(lanes) && overlaps.Length == LOCAL_LANE_COUNT && k < |hashes|
      requires forall j :: 0 <= j < |lanes| ==>
                 overlaps[lanes[j]] == HitCount(addr, View(lanes[j]), hashes, k) + Hit(lanes[j], hashes[k])
      ensures Credited(lanes, overlaps, hashes, k + 1)
    {
      hide HitCount, Hits;
      forall j | 0 <= j < |lanes| ensures overlaps[lanes[j]] == HitCount(addr, View(lanes[j]), hashes, k + 1) {
        HitCountNext(addr, View(lanes[j]), hashes, k);
      }
    }

    lemma CreditedStays(lanes: seq<nat>, overlaps: array<nat>, hashes: seq<Hash>, k: nat)
      requires Shaped() && ListsActive(lanes) && overlaps.Length == LOCAL_LANE_COUNT && k < |hashes|
      requires forall j :: 0 <= j < |lanes| ==>
                 overlaps[lanes[j]] == HitCount(addr, View(lanes[j]), hashes, k) + Hit(lanes[j], hashes[k])
      requires forall j :: 0 <= j < |lanes| ==> !Hits(addr, View(lanes[j]), hashes[k])
      ensures Credited(lanes, overlaps, hashes, k)
    {
      hide HitCount;
    }

    lemma RowHit(lanes: seq<nat>, hash: Hash)
      requires Shaped() && ListsActive(lanes)
      ensures SomeLaneHits(addr, ActiveViews(), hash) <==>
              exists j :: 0 <= j < |lanes| && Hits(addr, View(lanes[j]), hash)
    {
      hide Hits;
      if lane :| lane in ActiveViews() && Hits(addr, ActiveViews()[lane], hash) {
        var j :| 0 <= j < |lanes| && lanes[j] == lane;
        assert Hits(addr, View(lanes[j]), hash);
      }
      if j :| 0 <= j < |lanes| && Hits(addr, View(lanes[j]), hash) {
        assert lanes[j] in ActiveViews() && Hits(addr, ActiveViews()[lanes[j]], hash);
      }
    }

    // ---------- the index ----------

    /** What is logged for a backend, nothing if it was never bound. */
    ghost function LogOf(backend: BackendId): seq<LaneOp>
      reads this
    {
      if backend in backendLanes && backend in log then log[backend] else []
    }

    /**
     Bind the backend if a lane is free, then, if the radix index takes the event, project
     it to the backend's lane; other lanes are untouched. An event the index refuses is an
     error and leaves at most the new binding.
     */
    method KvApplyEvent(event: KvCacheEvent, backend: BackendId, indexAccepts: bool)
      returns (ok: bool, lane: Option<nat>)
      requires Valid()
      modifies this`laneBackends, this`backendLanes, this`log, buckets, active
      ensures Valid()
      ensures lane.Some? ==> lane.value < LOCAL_LANE_COUNT
      ensures lane.Some? <==> backend in backendLanes
      ensures lane.None? <==>
              backend !in old(backendLanes) && forall l :: 0 <= l < LOCAL_LANE_COUNT ==> l in old(laneBackends)
      ensures lane.Some? ==> backendLanes == old(backendLanes)[backend := lane.value]
      ensures lane.None? ==> backendLanes == old(backendLanes)
      ensures ok == indexAccepts
      ensures lane.Some? ==>
                View(lane.value) == Projected(addr, old(View(lane.value)), if ok then EventOps(event) else [])
      ensures forall l :: 0 <= l < LOCAL_LANE_COUNT && lane != Some(l) ==> View(l) == old(View(l))
      ensures lane.Some? && ok ==> log == old(log)[backend := old(LogOf(backend)) + EventOps(event)]
      // so the hashes held by the backend are
      ensures lane.Some? && ok && event.Stored? ==> forall h ::
                h in Held(log[backend]) <==> h in Held(old(LogOf(backend))) || h in event.blockHashes
      ensures lane.Some? && ok && event.Removed? ==> forall h ::
                h in Held(log[backend]) <==> h in Held(old(LogOf(backend))) && h !in event.blockHashes
      ensures lane.Some? && ok && (event.Clear? || event.Reset?) ==> Held(log[backend]) == {}
      ensures !ok ==> log == if lane.Some? && backend !in old(backendLanes) then old(log)[backend := []] else old(log)
      ensures lane.None? ==> log == old(log)
      ensures old(Logged()) ==> Logged()
    {
      hide Moved, Projected, EventOps, EmptyLane, View, LaneLogged, Held;
      ok := indexAccepts;
      lane := AssignLane(backend);
      if !ok {
        if lane.Some? { ProjectedNone(addr, View(lane.value)); }
        return;
      }
      if lane.Some? {
        ProjectAndLog(event, backend, lane.value);
        forall h { HeldAfterEvent(old(LogOf(backend)), event, h); }
      }
    }

    method ProjectAndLog(event: KvCacheEvent, backend: BackendId, lane: nat)
      requires Valid() && lane in laneBackends && laneBackends[lane] == backend
      modifies this`log, buckets, active
      ensures Valid()
      ensures View(lane) == Projected(addr, old(View(lane)), EventOps(event))
      ensures forall l :: 0 <= l < LOCAL_LANE_COUNT && l != lane ==> View(l) == old(View(l))
      ensures log == old(log)[backend := old(LogOf(backend)) + EventOps(event)]
      ensures old(Logged()) ==> Logged()
    {
      hide Moved, Projected, EventOps, EmptyLane, View;
      ghost var before := LogOf(backend);
      assert Logged() ==> LaneLogged(lane);
      Project(event, lane);
      log := log[backend := before + EventOps(event)];
      ProjectedAppend(addr, EmptyLane(), before, EventOps(event));
    }

    /** The event, hash by hash, on a bound lane. */
    method Project(event: KvCacheEvent, lane: nat)
      requires Valid() && lane in laneBackends
      modifies buckets, active
      ensures Valid()
      ensures View(lane) == Projected(addr, old(View(lane)), EventOps(event))
      ensures forall l :: 0 <= l < LOCAL_LANE_COUNT && l != lane ==> View(l) == old(View(l))
    {
      hide Moved, Projected;
      ghost var ops := EventOps(event);
      ProjectedNone(addr, View(lane));
      match event {
        case Stored(hashes) =>
          for i := 0 to |hashes|
            modifies buckets
            invariant View(lane) == Projected(addr, old(View(lane)), ops[..i])
            invariant forall l :: 0 <= l < LOCAL_LANE_COUNT && l != lane ==> View(l) == old(View(l))
          {
            ProjectedNext(addr, old(View(lane)), ops[..i], ops[i]);
            assert ops[..i] + [ops[i]] == ops[..i + 1];
            var _ := Insert(hashes[i], lane);
          }
          assert ops[..|hashes|] == ops;
        case Removed(hashes) =>
          for i := 0 to |hashes|
            modifies buckets
            invariant View(lane) == Projected(addr, old(View(lane)), ops[..i])
            invariant forall l :: 0 <= l < LOCAL_LANE_COUNT && l != lane ==> View(l) == old(View(l))
          {
            ProjectedNext(addr, old(View(lane)), ops[..i], ops[i]);
            assert ops[..i] + [ops[i]] == ops[..i + 1];
            var _ := Delete(hashes[i], lane);
          }
          assert ops[..|hashes|] == ops;
        case Clear =>
          ProjectedWipe(addr, View(lane));
          ClearLane(lane);
        case Reset =>
          ProjectedWipe(addr, View(lane));
          ClearLane(lane);
      }
    }

    /** The backend of `lane` is reported with that lane's batched figure. */
    ghost predicate Figured(out: map<BackendId, nat>, lane: nat, hashes: seq<Hash>, stop: nat)
      reads this, buckets
      requires Shaped() && stop <= |hashes|
    {
      && lane < LOCAL_LANE_COUNT && lane in laneBackends && laneBackends[lane] in out
      && out[laneBackends[lane]] == HitCount(addr, View(lane), hashes, stop)
    }

    /** Each bound backend once, with its lane's batched figure. */
    method KvFindAllLocalOverlap(hashes: seq<Hash>) returns (out: map<BackendId, nat>, ghost stop: nat)
      requires Valid()
      ensures stop <= |hashes| && IsStop(addr, ActiveViews(), hashes, stop)
      ensures out.Keys == backendLanes.Keys
      ensures forall lane :: lane in laneBackends ==> Figured(out, lane, hashes, stop)
    {
      hide HitCount, IsStop, View, ActiveViews, EmptyLane, Hits, SomeLaneHits;
      var result;
      result, stop := EstimateAllOverlaps(hashes);
      ghost var lanes := seq(|result|, i requires 0 <= i < |result| => result[i].0);
      out := map[];
      for i := 0 to |result|
        invariant forall b :: b in out ==> b in backendLanes
        invariant forall j :: 0 <= j < i ==> Figured(out, lanes[j], hashes, stop)
      {
        var (lane, overlap) := result[i];
        assert lanes[i] == lane && active[lane];
        if lane in laneBackends {
          out := out[laneBackends[lane] := overlap];
        }
      }
      forall lane | lane in laneBackends
        ensures Figured(out, lane, hashes, stop)
      {
        assert lane in lanes;
      }
    }
  }

  lemma HitCountNext(a: Addressing, view: LaneBuckets, hashes: seq<Hash>, k: nat)
    requires a.Valid() && k < |hashes|
    ensures HitCount(a, view, hashes, k + 1) ==
            HitCount(a, view, hashes, k) + (if Hits(a, view, hashes[k]) then 1 else 0)
  {}

  /** The live lane of a bound backend has one copy per held hash exactly when lost and extra even out over its log. */
  lemma LiveLaneFaithfulIff(ckf: LocalCkf, backend: BackendId)
    requires ckf.Valid() && ckf.Logged() && backend in ckf.backendLanes
    ensures backend in ckf.log
    ensures Faithful(ckf.addr, ckf.View(ckf.backendLanes[backend]), Held(ckf.log[backend])) <==>
            forall f: Fp, i: nat :: f != 0 && i < BUCKETS_PER_LANE ==>
              Lost(ckf.addr, ckf.log[backend], f, i) == Extra(ckf.addr, ckf.log[backend], f, i)
  {
    hide Faithful, Lost, Extra, Held, Projected;
    assert ckf.LaneLogged(ckf.backendLanes[backend]);
    LaneFaithfulIff(ckf.addr, ckf.log[backend]);
  }
}
