/**
 The in-memory rate limiter: a store from key to a mutable record, created
 lazily, and the admission step that updates a record in place. Every method
 is proved against the value-level decision in module `Decision`. Calls are
 sequential (the Go limiter holds one lock for the whole call) and each call
 is given the current time `now`.
 */
module RateLimiter {
  import opened Decision

  /** One key's rate-limit record; the decision updates its fields in place. */
  class RateLimitData {
    const ip: string
    var lastAllowedTime: int
    var requestCount: int
    var blocked: bool
    var blockedUntil: int

    /** The record as first stored for a key seen at time `now`. */
    constructor (ip: string, now: int)
      ensures View() == NewRecord(ip, now)
    {
      this.ip := ip;
      lastAllowedTime := now;
      requestCount := 0;
      blocked := false;
      blockedUntil := 0;
    }

    /** The current field values. */
    function View(): Record
      reads this
    {
      Record(ip, lastAllowedTime, requestCount, blocked, blockedUntil)
    }
  }

  /** What statistics for a key report: nothing for an unseen key, otherwise
      the count against the quota, the block state and the window's age. */
  datatype Stats =
    | NoData(ip: string)
    | Summary(ip: string, requestCount: int, maxCount: int, blocked: bool,
              blockedUntil: int, timeInWindow: int)

  class InMemoryRateLimiter {
    var store: map<string, RateLimitData>
    const maxCount: int
    const interval: int
    /** The store's contents as values. */
    ghost var entries: map<string, Record>
    /** The records the store holds. */
    ghost var Repr: set<RateLimitData>

    /** `entries` mirrors the store; each record is filed under its own key
        (so records of distinct keys are distinct objects) and keeps the
        record invariant. */
    ghost predicate Valid()
      reads this, Repr
    {
      && store.Keys == entries.Keys
      && forall k | k in store ::
           && store[k] in Repr
           && store[k].ip == k
           && store[k].View() == entries[k]
           && Consistent(entries[k], maxCount)
    }

    /** A limiter with an empty store and the given quota and window. */
    constructor (maxCount: int, interval: int)
      ensures Valid() && store == map[] && entries == map[] && Repr == {}
      ensures this.maxCount == maxCount && this.interval == interval
    {
      store := map[];
      entries := map[];
      Repr := {};
      this.maxCount := maxCount;
      this.interval := interval;
    }

    /** Decides one request for `key` at time `now`. Only `key`'s record
        changes; it is created first if the key is new. */
    method IsAllowed(key: string, now: int) returns (allowed: bool)
      requires Valid()
      modifies this, Repr
      ensures Valid() && old(Repr) <= Repr && fresh(Repr - old(Repr))
      ensures key in store && store == old(store)[key := store[key]]
      ensures key in old(store) ==> store[key] == old(store[key])
      ensures key !in old(store) ==> fresh(store[key])
      ensures var o := Process(Lookup(old(entries), key, now), now, maxCount, interval);
        entries == old(entries)[key := o.rec] && allowed == o.allowed
    {
      var data := GetRateLimitData(key, now);
      ghost var o := Process(Lookup(old(entries), key, now), now, maxCount, interval);
      ProcessKeepsConsistent(data.View(), now, maxCount, interval);
      allowed := ProcessRequest(data, now);
      entries := old(entries)[key := o.rec];
      forall k | k in store
        ensures store[k] in Repr && store[k].ip == k && store[k].View() == entries[k]
        ensures Consistent(entries[k], maxCount)
      {
        if k != key {
          assert store[k].ip != data.ip;
        }
      }
    }

    /** The record stored for `key`, inserting a fresh one dated `now` when
        the key has not been seen; nothing else in the store changes. */
    method GetRateLimitData(key: string, now: int) returns (data: RateLimitData)
      requires Valid()
      modifies this
      ensures Valid() && old(Repr) <= Repr && fresh(Repr - old(Repr))
      ensures store == old(store)[key := data]
      ensures key in old(store) ==> data == old(store[key])
      ensures key !in old(store) ==> fresh(data)
      ensures data.View() == Lookup(old(entries), key, now)
      ensures entries == old(entries)[key := data.View()]
    {
      if key in store {
        data := store[key];
        return;
      }
      data := new RateLimitData(key, now);
      store := store[key := data];
      entries := entries[key := data.View()];
      Repr := Repr + {data};
    }

    /** Applies one decision to `data` in place, at time `now`. */
    method ProcessRequest(data: RateLimitData, now: int) returns (allowed: bool)
      modifies data
      ensures var o := Process(old(data.View()), now, maxCount, interval);
        data.View() == o.rec && allowed == o.allowed
    {
      if data.blocked {
        if now < data.blockedUntil {
          return false;
        }
        data.blocked := false;
      }
      if now - data.lastAllowedTime > interval {
        data.requestCount := 0;
        data.lastAllowedTime := now;
      }
      data.requestCount := data.requestCount + 1;
      if data.requestCount > maxCount {
        data.blocked := true;
        data.blockedUntil := now + interval;
        return false;
      }
      return true;
    }

    /** Statistics for `key` at time `now`, read without changing anything:
        an unseen key yields `NoData` and gets no record. */
    method GetStats(key: string, now: int) returns (s: Stats)
      requires Valid()
      ensures s.ip == key
      ensures s.NoData? <==> key !in store
      ensures key in store ==>
        var r := store[key];
        && s.requestCount == r.requestCount && s.maxCount == maxCount
        && s.blocked == r.blocked && s.blockedUntil == r.blockedUntil
        && s.timeInWindow == now - r.lastAllowedTime
    {
      if key !in store {
        return NoData(key);
      }
      var data := store[key];
      s := Summary(data.ip, data.requestCount, maxCount, data.blocked,
                   data.blockedUntil, now - data.lastAllowedTime);
    }
  }

  /** Writing a key twice leaves only the second value. */
  lemma OverwriteTwice(m: map<string, Record>, k: string, a: Record, b: Record)
    ensures m[k := a][k := b] == m[k := b]
  {
  }

  /** Three calls for `ip` at the same instant `t`, made when the key is
      either new or past both its lockout and a full window: with a quota of
      two they give true, true, false and leave the key blocked until one
      interval after `t`, in a window that starts at `t`. */
  method CallThrice(limiter: InMemoryRateLimiter, ip: string, t: int) returns (verdicts: seq<bool>)
    requires limiter.Valid() && limiter.maxCount == 2 && limiter.interval >= 0
    requires ip in limiter.entries ==>
      var r := limiter.entries[ip];
      r.blocked && r.blockedUntil <= t && t - r.lastAllowedTime > limiter.interval
    modifies limiter, limiter.Repr
    ensures limiter.Valid() && fresh(limiter.Repr - old(limiter.Repr))
    ensures verdicts == [true, true, false]
    ensures limiter.entries
         == old(limiter.entries)[ip := Record(ip, t, 3, true, t + limiter.interval)]
  {
    ghost var before := limiter.entries;
    ghost var r := Lookup(before, ip, t);
    ghost var once := r.(blocked := false, lastAllowedTime := t, requestCount := 1);
    var a := limiter.IsAllowed(ip, t);
    assert a && limiter.entries == before[ip := once];
    ghost var after1 := limiter.entries;
    var b := limiter.IsAllowed(ip, t);
    assert b && limiter.entries == after1[ip := once.(requestCount := 2)];
    OverwriteTwice(before, ip, once, once.(requestCount := 2));
    ghost var after2 := limiter.entries;
    var c := limiter.IsAllowed(ip, t);
    assert !c && limiter.entries == after2[ip := Record(ip, t, 3, true, t + limiter.interval)];
    OverwriteTwice(before, ip, once.(requestCount := 2), Record(ip, t, 3, true, t + limiter.interval));
    verdicts := [a, b, c];
  }

  /** The block-and-reset flow with a quota of 2 and a 5-second window: three
      calls at one instant give true, true, false; once the lockout and a full
      window have passed the same pattern repeats, twice. */
  method BlockAndResetFlow() returns (verdicts: seq<bool>)
    ensures verdicts == [true, true, false, true, true, false, true, true, false]
  {
    var interval := 5_000_000_000;
    var ip := "test-ip-2";
    var limiter := new InMemoryRateLimiter(2, interval);
    var first := CallThrice(limiter, ip, 0);
    var second := CallThrice(limiter, ip, interval + 1);
    var third := CallThrice(limiter, ip, 2 * interval + 2);
    verdicts := first + second + third;
  }
}
