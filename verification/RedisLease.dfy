/**
  The Redis key behind a lock and the LockManager operations on it (src/lib/lockManager.ts), in place.
  The functions say what each command does to the key; LockProtocol.dfy interleaves them.
 */
module RedisLease {
  import opened Prelude

  /** The value stands for the uuid of the instance that set the key. */
  datatype Lease = Lease(value: int, expiresAt: nat)

  datatype Redis = Redis(now: nat, lease: Option<Lease>)

  /** An expired key is gone for every command. */
  function Visible(r: Redis): Option<Lease> {
    if r.lease.Some? && r.now < r.lease.value.expiresAt then r.lease else None
  }

  predicate HeldBy(r: Redis, value: int) {
    Visible(r).Some? && Visible(r).value.value == value
  }

  /** SET key value PX ttl NX. */
  function SetNx(r: Redis, value: int, ttl: nat): Redis {
    if Visible(r).None? then r.(lease := Some(Lease(value, r.now + ttl))) else r
  }

  /** The renewal script: compare the value and, if it matches, PEXPIRE. */
  function PExpireIf(r: Redis, value: int, ttl: nat): Redis {
    if HeldBy(r, value) then r.(lease := Some(Lease(value, r.now + ttl))) else r
  }

  /** DEL key, whoever holds it. */
  function Del(r: Redis): Redis {
    r.(lease := None)
  }

  /** The renewal with its aftermath: a failed one deletes the key. */
  function Renewed(r: Redis, value: int, ttl: nat): Redis {
    if HeldBy(r, value) then PExpireIf(r, value, ttl) else Del(r)
  }

  /** The key is free, or carries the instance's own value already. */
  predicate MayEnter(r: Redis, value: int) {
    Visible(r).None? || HeldBy(r, value)
  }

  /** The key when the callback starts, or when the instance has been turned away. */
  function Entered(r: Redis, value: int, ttl: nat): Redis {
    if MayEnter(r, value) then Renewed(SetNx(r, value, ttl), value, ttl) else r
  }

  class RedisServer {
    var now: nat
    var lease: Option<Lease>

    ghost function State(): Redis
      reads this
    {
      Redis(now, lease)
    }

    method Set(value: int, ttl: nat) returns (ok: bool)
      modifies this`lease
      ensures ok <==> old(lease).None? || old(lease).value.expiresAt <= now
      ensures lease == if ok then Some(Lease(value, now + ttl)) else old(lease)
      ensures State() == SetNx(old(State()), value, ttl)
    {
      ok := lease.None? || now >= lease.value.expiresAt;
      if ok { lease := Some(Lease(value, now + ttl)); }
    }

    method Get() returns (value: Option<int>)
      ensures forall v :: value == Some(v) <==> lease.Some? && lease.value.value == v && now < lease.value.expiresAt
      ensures forall v :: value == Some(v) <==> HeldBy(State(), v)
    {
      value := if lease.Some? && now < lease.value.expiresAt then Some(lease.value.value) else None;
    }

    method EvalRenewal(value: int, ttl: nat) returns (renewed: bool)
      modifies this`lease
      ensures renewed <==> old(lease).Some? && old(lease).value.value == value && now < old(lease).value.expiresAt
      ensures lease == if renewed then Some(Lease(value, now + ttl)) else old(lease)
      ensures State() == PExpireIf(old(State()), value, ttl)
    {
      var current := Get();
      renewed := current == Some(value);
      if renewed { lease := Some(Lease(value, now + ttl)); }
    }

    method Delete()
      modifies this`lease
      ensures lease == None && State() == Del(old(State()))
    {
      lease := None;
    }
  }

  class LockManager {
    const redis: RedisServer
    const lockValue: int
    const lockTTL: nat
    var renewalInterval: Option<nat>
    var connected: bool

    constructor (redis: RedisServer, lockValue: int, lockTTL: nat := 2000)
      ensures this.redis == redis && this.lockValue == lockValue && this.lockTTL == lockTTL
      ensures renewalInterval == None && connected
    {
      this.redis, this.lockValue, this.lockTTL := redis, lockValue, lockTTL;
      renewalInterval, connected := None, true;
    }

    method AcquireLock() returns (hasLock: bool)
      modifies redis`lease
      ensures hasLock <==> Visible(old(redis.State())).None?
      ensures redis.State() == SetNx(old(redis.State()), lockValue, lockTTL)
    {
      hasLock := redis.Set(lockValue, lockTTL);
    }

    method IsCurrentLock() returns (current: bool)
      ensures current <==> HeldBy(redis.State(), lockValue)
    {
      var value := redis.Get();
      current := value == Some(lockValue);
    }

    method RenewHoldTTL(ttl: nat) returns (renewed: bool)
      modifies redis`lease
      ensures renewed <==> HeldBy(old(redis.State()), lockValue)
      ensures redis.State() == PExpireIf(old(redis.State()), lockValue, ttl)
    {
      renewed := redis.EvalRenewal(lockValue, ttl);
    }

    method Close()
      modifies this
      ensures renewalInterval == None && !connected && redis.State() == old(redis.State())
    {
      StopRenewal(false);
      connected := false;
    }

    /** Deletes the key without looking at its value. */
    method ReleaseLock()
      modifies this, redis`lease
      ensures redis.State() == Del(old(redis.State()))
      ensures renewalInterval == None && !connected
    {
      redis.Delete();
      renewalInterval := None;
      connected := false;
    }

    method StopRenewal(releaseLock: bool)
      modifies this
      modifies if releaseLock then {redis} else {}
      ensures renewalInterval == None
      ensures connected == (old(connected) && !releaseLock)
      ensures releaseLock ==> redis.State() == Del(old(redis.State()))
    {
      renewalInterval := None;
      if releaseLock { ReleaseLock(); }
    }

    /** Renews once and sets the interval; a failed renewal deletes the key, although it belongs to somebody else. */
    method StartRenewal(ttl: nat) returns (renewed: bool)
      modifies this, redis
      ensures renewed <==> HeldBy(old(redis.State()), lockValue)
      ensures redis.State() == Renewed(old(redis.State()), lockValue, ttl)
      ensures renewalInterval == Some(ttl / 2) && connected == (old(connected) && renewed)
    {
      StopRenewal(false);
      renewed := RenewHoldTTL(ttl);
      if !renewed { StopRenewal(true); }
      renewalInterval := Some(ttl / 2);
    }

    /** What the interval runs: a renewal, and when it fails the interval ends and the key is deleted. */
    method FireInterval(ttl: nat) returns (renewed: bool)
      modifies this, redis
      ensures renewed <==> HeldBy(old(redis.State()), lockValue)
      ensures redis.State() == Renewed(old(redis.State()), lockValue, ttl)
      ensures renewalInterval == (if renewed then old(renewalInterval) else None)
      ensures connected == (old(connected) && renewed)
    {
      renewed := RenewHoldTTL(ttl);
      if !renewed { StopRenewal(true); }
    }

    /** executeWithLock up to the callback. */
    method Enter() returns (entered: bool)
      modifies this, redis
      ensures entered <==> MayEnter(old(redis.State()), lockValue)
      ensures redis.State() == Entered(old(redis.State()), lockValue, lockTTL)
      ensures renewalInterval == if entered then Some(lockTTL / 2) else None
    {
      entered := AcquireLock();
      if !entered {
        entered := IsCurrentLock();
      }
      if entered {
        var _ := StartRenewal(lockTTL);
      } else {
        Close();
      }
    }

    /** executeWithLock after the callback. */
    method Leave(holdLock: bool)
      modifies this, redis
      ensures redis.State() == if holdLock then Renewed(old(redis.State()), lockValue, lockTTL)
              else Del(old(redis.State()))
      ensures renewalInterval == if holdLock then Some(lockTTL / 2) else None
    {
      if holdLock {
        var _ := StartRenewal(lockTTL);
      } else {
        StopRenewal(true);
      }
    }
  }
}
