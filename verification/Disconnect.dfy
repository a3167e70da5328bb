/** The sliding window of recent disconnects (src/status/disconnect.rs). Instants are nanoseconds of
    a monotone clock; keys stand for random UUIDs. */
module Disconnect {
  import opened Wrappers

  type Instant = nat
  type Key = string

  const MAX_DISCONNECTS: nat := 3
  const TTL: nat := 5 * 60 * 1_000_000_000

  datatype Event = Event(id: Key, at: Instant)

  /** `Instant::elapsed`, which saturates at zero. */
  function Elapsed(now: Instant, t: Instant): nat { SaturatingSub(now, t) }

  predicate IsRecent(now: Instant, t: Instant) { Elapsed(now, t) < TTL }

  /** A disconnect is recent for exactly 300 seconds. */
  lemma {:induction false} RecentForFiveMinutes(now: Instant, t: Instant)
    ensures IsRecent(now, t) <==> now < t + 300_000_000_000
  {
  }

  /** How many of all past disconnects are younger than five minutes. */
  function RecentCount(history: seq<Event>, now: Instant): nat {
    if history == [] then 0
    else
      var n := |history| - 1;
      RecentCount(history[..n], now) + if IsRecent(now, history[n].at) then 1 else 0
  }

  /** The recent disconnects by key. */
  function RecentMap(history: seq<Event>, now: Instant): map<Key, Instant> {
    if history == [] then map[]
    else
      var n := |history| - 1;
      var m := RecentMap(history[..n], now);
      if IsRecent(now, history[n].at) then m[history[n].id := history[n].at] else m
  }

  predicate Used(history: seq<Event>, id: Key) {
    exists i :: 0 <= i < |history| && history[i].id == id
  }

  predicate DistinctIds(history: seq<Event>) {
    forall i, j :: 0 <= i < j < |history| ==> history[i].id != history[j].id
  }

  /** Only keys of the history occur, so with distinct keys the map has one entry for each recent
      disconnect. */
  lemma {:induction false} RecentMapCounts(history: seq<Event>, now: Instant)
    requires DistinctIds(history)
    ensures forall k :: k in RecentMap(history, now) ==> Used(history, k)
    ensures |RecentMap(history, now)| == RecentCount(history, now)
  {
    if history != [] {
      var n := |history| - 1;
      RecentMapCounts(history[..n], now);
      assert forall k :: Used(history[..n], k) ==> Used(history, k);
      assert Used(history, history[n].id);
      assert !Used(history[..n], history[n].id);
    }
  }

  function Retained(m: map<Key, Instant>, now: Instant): map<Key, Instant> {
    map k | k in m && IsRecent(now, m[k]) :: m[k]
  }

  lemma {:induction false} RetainedInsert(m: map<Key, Instant>, k: Key, t: Instant, now: Instant)
    requires k !in m
    ensures Retained(m[k := t], now) == if IsRecent(now, t) then Retained(m, now)[k := t] else Retained(m, now)
  {
  }

  /** Eviction loses nothing that could count later: evicting early and then again gives what a
      single eviction of the whole history gives. */
  lemma {:induction false} EvictionLosesNothing(history: seq<Event>, early: Instant, late: Instant)
    requires early <= late && DistinctIds(history)
    ensures Retained(RecentMap(history, early), late) == RecentMap(history, late)
  {
    if history != [] {
      var n := |history| - 1;
      var h := history[..n];
      EvictionLosesNothing(h, early, late);
      RecentMapCounts(h, early);
      assert !Used(h, history[n].id);
      RetainedInsert(RecentMap(h, early), history[n].id, history[n].at, late);
    }
  }

  /** As time passes without disconnects the count can only fall. */
  lemma {:induction false} CountFalls(history: seq<Event>, early: Instant, late: Instant)
    requires early <= late
    ensures RecentCount(history, late) <= RecentCount(history, early)
  {
    if history != [] { CountFalls(history[..|history| - 1], early, late); }
  }

  /** The times of the (at most three) youngest disconnects, youngest first. */
  function Youngest(history: seq<Event>): (r: seq<Instant>)
    ensures |r| == if |history| < 3 then |history| else 3
  {
    if history == [] then []
    else
      var n := |history| - 1;
      var all := Ranked(Youngest(history[..n]), history[n].at);
      if |all| > 3 then all[..3] else all
  }

  /** `ts` with `t` at its place in descending order. */
  function Ranked(ts: seq<Instant>, t: Instant): (r: seq<Instant>)
    ensures |r| == |ts| + 1
  {
    if ts == [] || ts[0] <= t then [t] + ts else [ts[0]] + Ranked(ts[1..], t)
  }

  predicate Descending(ts: seq<Instant>) { forall i, j :: 0 <= i < j < |ts| ==> ts[i] >= ts[j] }

  lemma {:induction false} RankedDescends(ts: seq<Instant>, t: Instant)
    requires Descending(ts)
    ensures Descending(Ranked(ts, t))
    ensures forall x :: x in Ranked(ts, t) ==> x in ts || x == t
  {
    if ts != [] && ts[0] > t {
      RankedDescends(ts[1..], t);
      var r := Ranked(ts[1..], t);
      forall j | 0 <= j < |r|
        ensures ts[0] >= r[j]
      {
        assert r[j] in r;
      }
    }
  }

  /** What stands at the `k`-th place after one more time is ranked. */
  lemma {:induction false} RankedAt(ts: seq<Instant>, t: Instant, k: nat)
    requires Descending(ts) && 0 < k <= |ts| + 1
    ensures Ranked(ts, t)[k - 1] ==
            if k <= |ts| && ts[k - 1] > t then ts[k - 1]
            else if k == 1 || ts[k - 2] > t then t else ts[k - 2]
  {
    if ts != [] && ts[0] > t && k > 1 { RankedAt(ts[1..], t, k - 1); }
  }

  lemma {:induction false} YoungestDescends(history: seq<Event>)
    ensures Descending(Youngest(history))
  {
    if history != [] {
      var n := |history| - 1;
      YoungestDescends(history[..n]);
      RankedDescends(Youngest(history[..n]), history[n].at);
    }
  }

  /** There are `k` recent disconnects exactly when the `k`-th youngest is recent. */
  lemma {:induction false} YoungestRecent(history: seq<Event>, now: Instant, k: nat)
    requires 0 < k <= 3
    ensures RecentCount(history, now) >= k <==> |history| >= k && IsRecent(now, Youngest(history)[k - 1])
  {
    if history != [] {
      var n := |history| - 1;
      var ts, t := Youngest(history[..n]), history[n].at;
      YoungestRecent(history[..n], now, k);
      if k > 1 { YoungestRecent(history[..n], now, k - 1); }
      YoungestDescends(history[..n]);
      if k <= |history| {
        RankedAt(ts, t, k);
        assert Youngest(history)[k - 1] == Ranked(ts, t)[k - 1];
      }
      hide Youngest;
      hide Ranked;
    }
  }

  /** One more disconnect, no older than the evaluation. */
  lemma {:induction false} NewEvent(history: seq<Event>, e: Event, now: Instant)
    requires DistinctIds(history) && !Used(history, e.id) && e.at >= now
    ensures DistinctIds(history + [e])
    ensures RecentMap(history + [e], now) == RecentMap(history, now)[e.id := e.at]
    ensures RecentCount(history + [e], now) == RecentCount(history, now) + 1
  {
    var all := history + [e];
    assert all[..|history|] == history;
    forall i, j | 0 <= i < j < |all|
      ensures all[i].id != all[j].id
    {
      assert all[i] == history[i];
      assert j == |history| ==> all[j].id == e.id;
    }
  }

  class DisconnectTracker {
    var entries: map<Key, Instant>
    ghost var history: seq<Event>
    ghost var evictedAt: Instant

    ghost predicate Valid()
      reads this
    {
      && DistinctIds(history)
      && entries == RecentMap(history, evictedAt)
    }

    constructor ()
      ensures Valid() && history == [] && evictedAt == 0
    {
      entries, history, evictedAt := map[], [], 0;
    }

    method EvictExpired(now: Instant)
      requires Valid() && now >= evictedAt
      modifies this
      ensures Valid() && history == old(history) && evictedAt == now
    {
      EvictionLosesNothing(history, evictedAt, now);
      entries := map k | k in entries && IsRecent(now, entries[k]) :: entries[k];
      evictedAt := now;
    }

    /** Records a disconnect; the clock is read for the eviction and again for the new entry. The
        answer says whether three disconnects, this one included, are recent. */
    method Record(evictNow: Instant, insertNow: Instant, id: Key) returns (tooMany: bool)
      requires Valid() && evictedAt <= evictNow <= insertNow && !Used(history, id)
      modifies this
      ensures Valid() && evictedAt == evictNow
      ensures history == old(history) + [Event(id, insertNow)]
      ensures tooMany <==> RecentCount(history, evictNow) >= MAX_DISCONNECTS
      ensures RecentCount(history, evictNow) == RecentCount(old(history), evictNow) + 1
    {
      EvictExpired(evictNow);
      NewEvent(history, Event(id, insertNow), evictNow);
      history := history + [Event(id, insertNow)];
      hide RecentMap;
      hide RecentCount;
      entries := entries[id := insertNow];
      RecentMapCounts(history, evictNow);
      tooMany := |entries| >= MAX_DISCONNECTS;
    }

    method Count(now: Instant) returns (n: nat)
      requires Valid() && now >= evictedAt
      modifies this
      ensures Valid() && history == old(history) && evictedAt == now
      ensures n == RecentCount(history, now)
    {
      EvictExpired(now);
      RecentMapCounts(history, now);
      n := |entries|;
    }
  }
}
