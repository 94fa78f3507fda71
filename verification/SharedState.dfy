/**
 The in-memory lease lock (shared_state.rs): per key a holder and an expiry second. An
 expired lease may be taken over, and a holder may refresh its own.
 */
module SharedState {
  import opened Arithmetic

  datatype Lease = Lease(holder: string, expiry: nat)

  type Locks = map<string, Lease>

  /** `now + ttl`, saturating. */
  function Expiry(now: nat, ttl: nat): nat { Min(now + ttl, U64_MAX) }

  datatype Request =
    | TryLock(key: string, holder: string, ttl: nat, now: nat)
    | Unlock(key: string, holder: string)

  /** Whether a request to lock is granted. */
  predicate Grants(locks: Locks, r: Request)
    requires r.TryLock?
  {
    r.key in locks ==> locks[r.key].expiry <= r.now || locks[r.key].holder == r.holder
  }

  function After(locks: Locks, r: Request): Locks {
    match r
    case TryLock(key, holder, ttl, now) =>
      if Grants(locks, r) then locks[key := Lease(holder, Expiry(now, ttl))] else locks
    case Unlock(key, holder) =>
      if key in locks && locks[key].holder == holder then locks - {key} else locks
  }

  class LocalSharedState {
    var locks: Locks

    constructor ()
      ensures locks == map[]
    {
      locks := map[];
    }

    method AcquireLock(key: string, holder: string, ttl: nat, now: nat) returns (acquired: bool)
      modifies this
      ensures acquired == Grants(old(locks), TryLock(key, holder, ttl, now))
      ensures locks == After(old(locks), TryLock(key, holder, ttl, now))
    {
      var expiry := Expiry(now, ttl);
      if key in locks {
        var lease := locks[key];
        if lease.expiry <= now {
          locks := locks[key := Lease(holder, expiry)];
          return true;
        } else if lease.holder == holder {
          locks := locks[key := Lease(holder, expiry)];
          return true;
        } else {
          return false;
        }
      }
      locks := locks[key := Lease(holder, expiry)];
      return true;
    }

    method ReleaseLock(key: string, holder: string)
      modifies this
      ensures locks == After(old(locks), Unlock(key, holder))
    {
      if key in locks && locks[key].holder == holder {
        locks := locks - {key};
      }
    }
  }

  // ---------- runs ----------

  function LocksAfter(rs: seq<Request>, k: nat): Locks
    requires k <= |rs|
  {
    if k == 0 then map[] else After(LocksAfter(rs, k - 1), rs[k - 1])
  }

  predicate Granted(rs: seq<Request>, i: nat)
    requires i < |rs|
  {
    rs[i].TryLock? && Grants(LocksAfter(rs, i), rs[i])
  }

  /** Request `k` neither refreshes nor releases the lease `h` holds on `key`. */
  predicate LeavesAlone(r: Request, key: string, h: string) {
    !(r.key == key && r.holder == h)
  }

  /**
   After `h` acquires a key at request `i`, and as long as `h` itself leaves it alone and
   no later request is made at or past the expiry, the lease stands unchanged.
   */
  lemma {:induction false} LeaseStands(rs: seq<Request>, i: nat, k: nat)
    requires i < k <= |rs| && Granted(rs, i)
    requires forall m :: i < m < k ==> LeavesAlone(rs[m], rs[i].key, rs[i].holder)
    requires forall m :: i < m < k && rs[m].TryLock? && rs[m].key == rs[i].key ==>
             rs[m].now < Expiry(rs[i].now, rs[i].ttl)
    ensures rs[i].key in LocksAfter(rs, k)
    ensures LocksAfter(rs, k)[rs[i].key] == Lease(rs[i].holder, Expiry(rs[i].now, rs[i].ttl))
  {
    if k > i + 1 { LeaseStands(rs, i, k - 1); }
  }

  /** Request times do not decrease. */
  predicate ClockOrdered(rs: seq<Request>) {
    forall i, j :: 0 <= i <= j < |rs| && rs[i].TryLock? && rs[j].TryLock? ==> rs[i].now <= rs[j].now
  }

  /**
   Exclusion: if `h` acquires a key and does not touch it again, another holder's request
   for the key is refused before the lease has run its full time (or the clock its range),
   and, if it is the first at or past the expiry, granted.
   */
  lemma LeaseExcludes(rs: seq<Request>, i: nat, j: nat)
    requires i < j < |rs| && ClockOrdered(rs) && Granted(rs, i)
    requires rs[j].TryLock? && rs[j].key == rs[i].key && rs[j].holder != rs[i].holder
    requires forall m :: i < m < j ==> LeavesAlone(rs[m], rs[i].key, rs[i].holder)
    ensures rs[j].now < rs[i].now + rs[i].ttl && rs[j].now < U64_MAX ==> !Granted(rs, j)
    ensures FirstAtExpiry(rs, i, j) ==> (Granted(rs, j) <==> rs[j].now >= Expiry(rs[i].now, rs[i].ttl))
  {
    hide LocksAfter;
    if rs[j].now < Expiry(rs[i].now, rs[i].ttl) || FirstAtExpiry(rs, i, j) {
      assert forall m :: i < m < j && rs[m].TryLock? && rs[m].key == rs[i].key ==> rs[m].now <= rs[j].now;
      LeaseStands(rs, i, j);
    }
  }

  /** Every earlier request for the key came before the expiry of the lease granted at `i`. */
  predicate FirstAtExpiry(rs: seq<Request>, i: nat, j: nat)
    requires i < j < |rs| && rs[i].TryLock?
  {
    forall m :: i < m < j && rs[m].TryLock? && rs[m].key == rs[i].key ==> rs[m].now < Expiry(rs[i].now, rs[i].ttl)
  }

  /** The holder of a key after the first `k` requests, if any. */
  predicate HeldBy(rs: seq<Request>, k: nat, key: string, h: string)
    requires k <= |rs|
  {
    key in LocksAfter(rs, k) && LocksAfter(rs, k)[key].holder == h
  }

  /** Request `i` is the unlock of `key` by its holder. */
  predicate JustUnlocked(rs: seq<Request>, i: nat, key: string)
    requires i < |rs|
  {
    rs[i].Unlock? && rs[i].key == key && HeldBy(rs, i, key, rs[i].holder)
  }

  /** A key nobody has locked, or whose holder has just unlocked it, goes to whoever asks first. */
  lemma FreeKeyGranted(rs: seq<Request>, j: nat)
    requires j < |rs| && rs[j].TryLock?
    ensures j == 0 ==> Granted(rs, j)
    ensures j > 0 && JustUnlocked(rs, j - 1, rs[j].key) ==> Granted(rs, j)
  {}

  /** An unlock by anyone else leaves every lease as it was; so does one for another key. */
  lemma OwnUnlockOnly(rs: seq<Request>, k: nat, key: string)
    requires k < |rs| && rs[k].Unlock? && key in LocksAfter(rs, k)
    ensures key !in LocksAfter(rs, k + 1) <==> rs[k].key == key && HeldBy(rs, k, key, rs[k].holder)
    ensures key in LocksAfter(rs, k + 1) ==> LocksAfter(rs, k + 1)[key] == LocksAfter(rs, k)[key]
  {}

  /** The holder's own retry is granted at any time and starts its lease afresh. */
  lemma RetryRefreshes(rs: seq<Request>, k: nat)
    requires k < |rs| && rs[k].TryLock? && HeldBy(rs, k, rs[k].key, rs[k].holder)
    ensures Granted(rs, k)
    ensures LocksAfter(rs, k + 1)[rs[k].key] == Lease(rs[k].holder, Min(rs[k].now + rs[k].ttl, U64_MAX))
  {}
}
