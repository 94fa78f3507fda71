/** The cross-region consumer (ckf_consumer.rs): one lane of buckets per region. */
module CkfConsumer {
  import opened Wrappers
  import opened CuckooFilter
  import opened Lane
  import opened Ids
  import opened ProducerState
  import opened Replication

  const LANE_COUNT: nat := 16

  /** A query hits a hash when its fingerprint is in its primary bucket. */
  predicate Hits(a: Addressing, view: LaneBuckets, h: Hash)
    requires a.Valid()
  {
    BucketContains(view[Primary(a, h)], a.probe(h).0)
  }

  /** `k` is the length of the longest prefix of `hashes` that hits. */
  ghost predicate IsPrefixOverlap(a: Addressing, view: LaneBuckets, hashes: seq<Hash>, k: nat)
    requires a.Valid()
  {
    && k <= |hashes|
    && (forall i :: 0 <= i < k ==> Hits(a, view, hashes[i]))
    && (k < |hashes| ==> !Hits(a, view, hashes[k]))
  }

  class CkfConsumer {
    const addr: Addressing
    const buckets: array2<PackedBucket>   // [bucket, lane]
    const active: array<bool>
    var laneRegions: map<nat, RegionId>
    ghost var received: seq<seq<Publication>>   // per lane, all publications applied to it, in order

    ghost predicate Shaped()
      reads this
    {
      && addr.Valid()
      && buckets.Length0 == BUCKETS_PER_LANE && buckets.Length1 == LANE_COUNT
      && active.Length == LANE_COUNT && |received| == LANE_COUNT
      && forall lane :: lane in laneRegions ==> lane < LANE_COUNT
    }

    /** Every lane is what the publications applied to it make of an empty one. */
    ghost predicate Valid()
      reads this, buckets
    {
      && Shaped()
      && forall lane :: 0 <= lane < LANE_COUNT ==> View(lane) == ViewAfter(EmptyLane(), received[lane])
    }

    /** The buckets of one lane. */
    ghost function View(lane: nat): (view: LaneBuckets)
      reads this, buckets
      requires Shaped() && lane < LANE_COUNT
    {
      Column(buckets, lane)
    }

    constructor (addr: Addressing)
      requires addr.Valid()
      ensures Valid() && fresh(buckets) && fresh(active) && this.addr == addr
      ensures laneRegions == map[] && received == seq(LANE_COUNT, _ => [])
      ensures forall lane :: 0 <= lane < LANE_COUNT ==> View(lane) == EmptyLane() && !active[lane]
    {
      this.addr := addr;
      buckets := new PackedBucket[BUCKETS_PER_LANE, LANE_COUNT]((_, _) => 0);
      active := new bool[LANE_COUNT](_ => false);
      laneRegions := map[];
      received := seq(LANE_COUNT, _ => []);
      new;
      assert forall lane :: 0 <= lane < LANE_COUNT ==> View(lane) == EmptyLane();
    }

    /** Some lane bound to the region; which one is unspecified when several are. */
    method LaneOf(region: RegionId) returns (lane: Option<nat>)
      requires Valid()
      ensures lane.None? <==> region !in laneRegions.Values
      ensures lane.Some? ==> lane.value in laneRegions && laneRegions[lane.value] == region
    {
      if region in laneRegions.Values {
        var l :| l in laneRegions && laneRegions[l] == region;
        lane := Some(l);
      } else {
        lane := None;
      }
    }

    /** Retire, overwrite bucket by bucket, activate; a longer snapshot would run past the lane. */
    method InstallSnapshot(lane: nat, snapshot: Publication)
      requires Valid() && lane < LANE_COUNT && snapshot.CkfSnapshot? && |snapshot.words| <= BUCKETS_PER_LANE
      modifies this`received, buckets, active
      ensures Valid() && received == old(received)[lane := old(received[lane]) + [snapshot]]
      ensures View(lane) == Applied(old(View(lane)), snapshot)
      ensures active[lane]
      ensures forall l :: 0 <= l < LANE_COUNT && l != lane ==> View(l) == old(View(l)) && active[l] == old(active[l])
    {
      active[lane] := false;
      for i := 0 to |snapshot.words|
        modifies buckets
        invariant forall k :: 0 <= k < i ==> buckets[k, lane] == snapshot.words[k]
        invariant forall k :: i <= k < BUCKETS_PER_LANE ==> buckets[k, lane] == old(buckets[k, lane])
        invariant forall k, l :: 0 <= k < BUCKETS_PER_LANE && 0 <= l < LANE_COUNT && l != lane ==>
                    buckets[k, l] == old(buckets[k, l])
      {
        buckets[i, lane] := snapshot.words[i];
      }
      active[lane] := true;
      Log(lane, snapshot);
    }

    /** Record an applied publication. */
    ghost method Log(lane: nat, m: Publication)
      requires Shaped() && lane < LANE_COUNT
      requires View(lane) == Applied(ViewAfter(EmptyLane(), received[lane]), m)
      requires forall l :: 0 <= l < LANE_COUNT && l != lane ==> View(l) == ViewAfter(EmptyLane(), received[l])
      modifies this`received
      ensures Valid() && received == old(received)[lane := old(received[lane]) + [m]]
    {
      hide Applied, ViewAfter;
      ViewAfterOne(EmptyLane(), received[lane], m);
      received := received[lane := received[lane] + [m]];
    }

    /** Store each listed word; status and other lanes are untouched. */
    method ApplyDelta(lane: nat, delta: Publication)
      requires Valid() && lane < LANE_COUNT && delta.CkfDelta?
      modifies this`received, buckets
      ensures Valid() && received == old(received)[lane := old(received[lane]) + [delta]]
      ensures View(lane) == Applied(old(View(lane)), delta)
      ensures forall l :: 0 <= l < LANE_COUNT && l != lane ==> View(l) == old(View(l))
    {
      var changed := delta.changed;
      ghost var start := View(lane);
      assert changed[0..] == changed;
      for k := 0 to |changed|
        modifies buckets
        invariant ApplyChanges(View(lane), changed[k..]) == ApplyChanges(start, changed)
        invariant forall i, l :: 0 <= i < BUCKETS_PER_LANE && 0 <= l < LANE_COUNT && l != lane ==>
                    buckets[i, l] == old(buckets[i, l])
      {
        var (i, word) := changed[k];
        ghost var before := View(lane);
        assert changed[k..][0] == changed[k] && changed[k..][1..] == changed[k + 1..];
        if i < buckets.Length0 {
          buckets[i, lane] := word;
          assert View(lane) == before[i := word];
        } else {
          assert View(lane) == before;
        }
      }
      assert changed[|changed|..] == [];
      Log(lane, delta);
    }

    method RetireLane(lane: nat)
      requires Valid() && lane < LANE_COUNT
      modifies active
      ensures Valid() && !active[lane] && forall l :: 0 <= l < LANE_COUNT && l != lane ==> active[l] == old(active[l])
    {
      active[lane] := false;
    }

    method AssignLane(lane: nat, region: RegionId)
      requires Valid() && lane < LANE_COUNT
      modifies this`laneRegions
      ensures Valid() && laneRegions == old(laneRegions)[lane := region]
    {
      laneRegions := laneRegions[lane := region];
    }

    method UnassignLane(lane: nat)
      requires Valid() && lane < LANE_COUNT
      modifies this`laneRegions
      ensures Valid() && laneRegions == old(laneRegions) - {lane}
    {
      laneRegions := laneRegions - {lane};
    }

    /**
     A publication received from a region, a snapshot with the bucket count its header
     announces: applied to the region's lane, dropped when there is none or when the
     snapshot does not have as many words as announced.
     */
    method Receive(region: RegionId, m: Publication, numBuckets: nat) returns (lane: Option<nat>)
      requires Valid() && (m.CkfSnapshot? ==> |m.words| <= BUCKETS_PER_LANE)
      modifies this`received, buckets, active
      ensures Valid()
      ensures lane.None? <==> region !in laneRegions.Values || (m.CkfSnapshot? && |m.words| != numBuckets)
      ensures lane.Some? ==> lane.value in laneRegions && laneRegions[lane.value] == region
      ensures lane.Some? ==> received == old(received)[lane.value := old(received[lane.value]) + [m]]
      ensures lane.None? ==> received == old(received)
      ensures lane.Some? ==> View(lane.value) == Applied(old(View(lane.value)), m)
      ensures lane.Some? ==> active[lane.value] == (m.CkfSnapshot? || old(active[lane.value]))
      ensures forall l :: 0 <= l < LANE_COUNT && lane != Some(l) ==>
              View(l) == old(View(l)) && active[l] == old(active[l])
    {
      hide Applied, ViewAfter;
      lane := LaneOf(region);
      if lane.Some? {
        if m.CkfSnapshot? {
          if |m.words| != numBuckets {
            return None;
          }
          InstallSnapshot(lane.value, m);
        } else {
          ApplyDelta(lane.value, m);
        }
      }
    }

    /** Length of the longest hitting prefix on an active lane of the region, and 0 otherwise. */
    method EstimateOverlap(hashes: seq<Hash>, region: RegionId) returns (overlap: nat, lane: Option<nat>)
      requires Valid()
      ensures lane.None? <==> region !in laneRegions.Values
      ensures lane.Some? ==> lane.value in laneRegions && laneRegions[lane.value] == region
      ensures lane.Some? && active[lane.value] ==> IsPrefixOverlap(addr, View(lane.value), hashes, overlap)
      ensures lane.None? || !active[lane.value] ==> overlap == 0
    {
      overlap := 0;
      lane := LaneOf(region);
      if lane.None? || !active[lane.value] {
        return;
      }
      hide BucketContains;
      for k := 0 to |hashes|
        invariant overlap == k
        invariant forall i :: 0 <= i < k ==> Hits(addr, View(lane.value), hashes[i])
      {
        var fp := addr.probe(hashes[k]).0;
        var packed := buckets[addr.probe(hashes[k]).1, lane.value];
        if !BucketContains(packed, fp) {
          return;
        }
        overlap := overlap + 1;
      }
    }
  }
}
