/** Duplicate suppression: one rate limiter per packet hash, and the pass that throws limiters away
    when there are too many. */
module Seen {
  import opened RateLimiter
  import Crc32
  import ShiftRegister
  import opened Wrappers

  /** A 32-bit packet hash. */
  type hash = h: int | 0 <= h < 0x1_0000_0000

  function HashOf(p: seq<bv8>): hash {
    Crc32.Crc(p) as int
  }

  method CalcCrc32(p: seq<bv8>) returns (h: hash)
    ensures h == HashOf(p)
  {
    hide Crc32.Crc;
    var crc := Crc32.Crc32Buf(p);
    h := crc as int;
  }

  /** What is known about every packet hash. */
  type History = map<hash, Bucket>

  function Lookup(m: History, h: hash): Option<Bucket> {
    if h in m then Some(m[h]) else None
  }

  function Checked(maxPerDt: int, dt: real, m: History, h: hash, now: real): (r: (bool, History))
    requires dt > 0.0
  {
    var n := Next(maxPerDt, dt, Lookup(m, h), Check(now));
    (n.0, m[h := n.1.value])
  }

  /** A time in whole seconds, cut off towards zero. */
  function Seconds(t: real): int {
    if t < 0.0 then -((-t).Floor) else t.Floor
  }

  /** A hash, and the second in which it was last checked. */
  datatype Entry = Entry(hash: hash, time: int)

  predicate DistinctHashes(s: seq<Entry>) {
    forall i, j :: 0 <= i < j < |s| ==> s[i].hash != s[j].hash
  }

  predicate NewestFirst(s: seq<Entry>) {
    forall i, j :: 0 <= i < j < |s| ==> s[i].time >= s[j].time
  }

  /** What is left of a full history. */
  function Kept(maxN: nat): nat {
    maxN - maxN / 10
  }

  lemma KeptIs(maxN: nat)
    ensures Kept(maxN) == maxN - maxN / 10
  {
  }

  /** The entries list each hash of the history once. */
  ghost predicate Lists(entries: seq<Entry>, m: History) {
    && DistinctHashes(entries)
    && (forall e :: e in entries ==> e.hash in m && e.time == Seconds(m[e.hash].lastTs))
    && (forall h :: h in m ==> Entry(h, Seconds(m[h].lastTs)) in entries)
  }

  function Hashes(entries: seq<Entry>): set<hash> {
    set e | e in entries :: e.hash
  }

  /** What an eviction pass may remove: it leaves exactly Kept(maxN), none of them checked in a later
      second than one that is removed. */
  ghost predicate IsPass(maxN: nat, m: History, removed: set<hash>) {
    && removed <= m.Keys && |m - removed| == Kept(maxN)
    && forall r, k :: r in removed && k in m && k !in removed ==> Seconds(m[r].lastTs) >= Seconds(m[k].lastTs)
  }

  lemma WholeSeconds(t: real)
    ensures if t >= 0.0 then Seconds(t) as real <= t < Seconds(t) as real + 1.0
            else Seconds(t) as real - 1.0 < t <= Seconds(t) as real
  {
  }

  /** In real time: nine tenths stay, and whatever goes had been checked later than a second before
      anything that stays. */
  lemma PassInTime(maxN: nat, m: History, removed: set<hash>, r: hash, k: hash)
    requires IsPass(maxN, m, removed) && r in removed && k in m && k !in removed
    requires m[r].lastTs >= 0.0 && m[k].lastTs >= 0.0
    ensures |m - removed| == maxN - maxN / 10
    ensures m[r].lastTs > m[k].lastTs - 1.0
  {
    WholeSeconds(m[r].lastTs);
    WholeSeconds(m[k].lastTs);
  }

  /** Every hash has a limiter of its own, all with the same settings. */
  ghost predicate OneEach(limiters: map<hash, RateLimiter>, maxPerDt: int, dt: real) {
    && (forall h :: h in limiters ==> limiters[h].maxPerDt == maxPerDt && limiters[h].dt == dt)
    && (forall g, h :: g in limiters && h in limiters && g != h ==> limiters[g] != limiters[h])
  }

  ghost function BucketsOf(limiters: map<hash, RateLimiter>): History
    reads limiters.Values`allowance, limiters.Values`lastTs
  {
    map h | h in limiters :: limiters[h].State()
  }

  lemma FewerBuckets(limiters: map<hash, RateLimiter>, removed: set<hash>)
    ensures BucketsOf(limiters - removed) == BucketsOf(limiters) - removed
  {
  }

  lemma BucketsAre(limiters: map<hash, RateLimiter>)
    ensures BucketsOf(limiters).Keys == limiters.Keys
    ensures forall h :: h in limiters ==> BucketsOf(limiters)[h] == limiters[h].State()
  {
  }

  lemma OneBucketSet(limiters: map<hash, RateLimiter>, h: hash, m: History)
    requires h in limiters && limiters.Keys == m.Keys + {h}
    requires forall g :: g in limiters && g != h ==> limiters[g].State() == m[g]
    ensures BucketsOf(limiters) == m[h := limiters[h].State()]
  {
  }

  lemma OneAdded(limiters: map<hash, RateLimiter>, h: hash, r: RateLimiter, maxPerDt: int, dt: real)
    requires OneEach(limiters, maxPerDt, dt) && r.maxPerDt == maxPerDt && r.dt == dt
    requires forall g :: g in limiters ==> limiters[g] != r
    ensures OneEach(limiters[h := r], maxPerDt, dt)
  {
  }

  lemma SomeRemoved(limiters: map<hash, RateLimiter>, removed: set<hash>, maxPerDt: int, dt: real)
    requires OneEach(limiters, maxPerDt, dt)
    ensures OneEach(limiters - removed, maxPerDt, dt)
  {
  }

  lemma OthersDiffer(limiters: map<hash, RateLimiter>, h: hash, maxPerDt: int, dt: real)
    requires OneEach(limiters, maxPerDt, dt) && h in limiters
    ensures limiters[h].maxPerDt == maxPerDt && limiters[h].dt == dt
    ensures forall g :: g in limiters && g != h ==> limiters[g] != limiters[h]
  {
  }

  class Seen {
    const maxPerDt: int
    const dt: real
    const maxN: nat
    var history: map<hash, RateLimiter>

    ghost predicate Valid()
      reads this
    {
      dt > 0.0 && OneEach(history, maxPerDt, dt)
    }

    ghost function Limiters(): set<object>
      reads this
    {
      history.Values
    }

    ghost function Buckets(): History
      reads this`history, history.Values`allowance, history.Values`lastTs
    {
      BucketsOf(history)
    }

    constructor (maxPerDt: int, dt: real, maxN: nat)
      requires dt > 0.0
      ensures Valid() && Buckets() == map[] && Limiters() == {}
      ensures this.maxPerDt == maxPerDt && this.dt == dt && this.maxN == maxN
    {
      this.maxPerDt := maxPerDt;
      this.dt := dt;
      this.maxN := maxN;
      history := map[];
    }

    method Check(p: seq<bv8>, now: real) returns (rc: bool, hash: hash)
      requires Valid()
      modifies this`history, Limiters()
      ensures Valid() && fresh(Limiters() - old(Limiters()))
      ensures hash == HashOf(p)
      ensures (rc, Buckets()) == Checked(maxPerDt, dt, old(Buckets()), hash, now)
    {
      hide HashOf, Step, OneEach, BucketsOf;
      hash := CalcCrc32(p);
      ghost var m := Buckets();
      BucketsAre(history);
      var r;
      if hash !in history {
        r := new RateLimiter(maxPerDt, dt);
        OneAdded(history, hash, r, maxPerDt, dt);
        history := history[hash := r];
      } else {
        r := history[hash];
      }
      OthersDiffer(history, hash, maxPerDt, dt);
      rc := r.Check(now);
      OneBucketSet(history, hash, m);
    }

    /** One pass over a history that has become full. */
    method Evict() returns (ghost removed: set<hash>)
      requires Valid() && |history| >= maxN
      modifies this`history
      ensures Valid() && history == old(history) - removed
      ensures IsPass(maxN, old(Buckets()), removed) && Buckets() == old(Buckets()) - removed
    {
      hide Lists, NewestFirst, IsPass, OneEach, Kept, BucketsOf, Hashes;
      ghost var m, limiters := Buckets(), history;
      var entries := Sorted();
      assert Buckets() == m;
      assert m.Keys == history.Keys by { BucketsAre(history); }
      var lowerBound := |history| - maxN + maxN / 10;
      assert |history| - lowerBound == Kept(maxN) by { KeptIs(maxN); }
      removed := EraseFirst(entries, lowerBound, m);
      assert BucketsOf(limiters) == m;
      assert IsPass(maxN, m, removed) by {
        SameSize(limiters, m, removed);
        NewestRemoved(maxN, m, entries, lowerBound);
      }
      assert OneEach(history, maxPerDt, dt) by { SomeRemoved(limiters, removed, maxPerDt, dt); }
      assert Buckets() == m - removed by { FewerBuckets(limiters, removed); }
    }

    /** Erases the first entries' limiters: every index and every lookup is in range. */
    method EraseFirst(entries: seq<Entry>, bound: nat, ghost m: History) returns (ghost removed: set<hash>)
      requires Lists(entries, m) && m.Keys == history.Keys && bound <= |entries|
      modifies this`history
      ensures removed == Hashes(entries[..bound])
      ensures history == old(history) - removed && |history| == old(|history|) - bound
    {
      hide Lists, Hashes;
      removed := {};
      NoHashes(entries);
      ghost var limiters := history;
      var i := 0;
      while i < bound
        invariant 0 <= i <= bound && removed == Hashes(entries[..i])
        invariant history == limiters - removed && |history| == |limiters| - i
      {
        var cur := entries[i].hash;
        NextHash(entries, m, i);
        WithoutOne(limiters, removed, cur);
        assert cur in history;
        removed := removed + {cur};
        history := history - {cur};
        i := i + 1;
      }
    }

    /** All limiters, latest first. */
    method Sorted() returns (entries: seq<Entry>)
      ensures |entries| == |history| && Lists(entries, Buckets()) && NewestFirst(entries)
    {
      hide Lists, NewestFirst;
      var collected := Collect();
      entries := SortNewestFirst(collected);
      SameList(collected, entries, Buckets());
    }

    /** The hashes and times of all limiters. */
    method Collect() returns (entries: seq<Entry>)
      ensures |entries| == |history| && Lists(entries, Buckets())
    {
      entries := [];
      var left := history.Keys;
      while left != {}
        invariant left <= history.Keys && |entries| + |left| == |history|
        invariant forall e :: e in entries ==>
                    e.hash in history && e.hash !in left && e.time == Seconds(history[e.hash].lastTs)
        invariant DistinctHashes(entries)
        invariant forall h :: h in history ==> h in left || Entry(h, Seconds(history[h].lastTs)) in entries
      {
        var h :| h in left;
        entries := entries + [Entry(h, Seconds(history[h].lastTs))];
        left := left - {h};
      }
    }
  }

  lemma NoHashes(entries: seq<Entry>)
    ensures Hashes(entries[..0]) == {}
  {
  }

  /** The next entry's hash is still there to be removed. */
  lemma NextHash(entries: seq<Entry>, m: History, i: nat)
    requires Lists(entries, m) && i < |entries|
    ensures entries[i].hash in m && entries[i].hash !in Hashes(entries[..i])
    ensures Hashes(entries[..i + 1]) == Hashes(entries[..i]) + {entries[i].hash}
  {
    assert entries[i] in entries;
    assert entries[..i + 1] == entries[..i] + [entries[i]];
    assert forall j :: 0 <= j < i ==> entries[j].hash != entries[i].hash;
  }

  lemma FirstHashes(entries: seq<Entry>, bound: nat)
    requires bound <= |entries|
    ensures forall j :: 0 <= j < bound ==> entries[j].hash in Hashes(entries[..bound])
  {
    forall j | 0 <= j < bound ensures entries[j].hash in Hashes(entries[..bound]) {
      assert entries[..bound][j] in entries[..bound];
    }
  }

  /** Removing the first entries, in order of time, is what a pass may do. */
  lemma NewestRemoved(maxN: nat, m: History, entries: seq<Entry>, bound: nat)
    requires Lists(entries, m) && NewestFirst(entries) && bound <= |entries|
    requires |m - Hashes(entries[..bound])| == Kept(maxN)
    ensures IsPass(maxN, m, Hashes(entries[..bound]))
  {
    hide Kept;
    var removed := Hashes(entries[..bound]);
    FirstHashes(entries, bound);
    forall r | r in removed
      ensures r in m
      ensures forall k :: k in m && k !in removed ==> Seconds(m[r].lastTs) >= Seconds(m[k].lastTs)
    {
      var e :| e in entries[..bound] && e.hash == r;
      var i :| 0 <= i < bound && entries[i] == e;
      assert entries[i] in entries;
      forall k | k in m && k !in removed ensures Seconds(m[r].lastTs) >= Seconds(m[k].lastTs) {
        var j :| 0 <= j < |entries| && entries[j] == Entry(k, Seconds(m[k].lastTs));
        assert entries[i].time >= entries[j].time;
      }
    }
  }

  lemma WithoutOne<K, V>(m: map<K, V>, removed: set<K>, k: K)
    requires k in m && k !in removed
    ensures (m - removed) - {k} == m - (removed + {k})
    ensures k in m - removed && |m - (removed + {k})| == |m - removed| - 1
  {
    assert (m - (removed + {k})).Keys == (m - removed).Keys - {k};
  }

  lemma SameSize<K, V, W>(m: map<K, V>, n: map<K, W>, removed: set<K>)
    requires m.Keys == n.Keys
    ensures |m - removed| == |n - removed|
  {
    assert (m - removed).Keys == (n - removed).Keys;
  }

  lemma CountOne(s: seq<Entry>, p: nat)
    requires DistinctHashes(s) && p < |s|
    ensures multiset(s)[s[p]] == 1
  {
    assert s == s[..p] + ([s[p]] + s[p + 1..]);
    assert multiset(s) == multiset(s[..p]) + multiset{s[p]} + multiset(s[p + 1..]);
    assert s[p] !in s[..p] && s[p] !in s[p + 1..];
  }

  lemma CountTwo(s: seq<Entry>, i: nat, j: nat)
    requires i < j < |s| && s[i] == s[j]
    ensures multiset(s)[s[i]] >= 2
  {
    assert s == s[..j] + ([s[j]] + s[j + 1..]);
    assert multiset(s) == multiset(s[..j]) + multiset{s[j]} + multiset(s[j + 1..]);
    assert s[..j][i] in s[..j];
  }

  /** Reordering keeps the entries, and keeps their hashes apart. */
  lemma SameEntries(a: seq<Entry>, b: seq<Entry>)
    requires multiset(a) == multiset(b) && DistinctHashes(a)
    ensures |a| == |b| && DistinctHashes(b) && forall e :: e in a <==> e in b
  {
    assert |multiset(a)| == |multiset(b)|;
    forall e ensures e in a <==> e in b {
      assert e in multiset(a) <==> e in multiset(b);
    }
    forall i, j | 0 <= i < j < |b| ensures b[i].hash != b[j].hash {
      assert b[i] in a && b[j] in a;
      var p :| 0 <= p < |a| && a[p] == b[i];
      var q :| 0 <= q < |a| && a[q] == b[j];
      CountOne(a, p);
      if b[i] == b[j] {
        CountTwo(b, i, j);
      } else if p < q {
        assert a[p].hash != a[q].hash;
      } else {
        assert a[q].hash != a[p].hash;
      }
    }
  }

  lemma SameList(a: seq<Entry>, b: seq<Entry>, m: History)
    requires multiset(a) == multiset(b) && Lists(a, m)
    ensures |a| == |b| && Lists(b, m)
  {
    SameEntries(a, b);
  }

  /** Sorts by time, latest first.  Nothing else is promised: entries of the same second can come out
      in any order. */
  method SortNewestFirst(entries: seq<Entry>) returns (r: seq<Entry>)
    ensures multiset(r) == multiset(entries) && NewestFirst(r)
  {
    r := [];
    for n := 0 to |entries|
      invariant multiset(r) == multiset(entries[..n]) && NewestFirst(r)
    {
      assert entries[..n + 1] == entries[..n] + [entries[n]];
      r := InsertByTime(r, entries[n]);
    }
    assert entries[..|entries|] == entries;
  }

  method InsertByTime(r: seq<Entry>, e: Entry) returns (s: seq<Entry>)
    requires NewestFirst(r)
    ensures multiset(s) == multiset(r) + multiset{e} && NewestFirst(s)
  {
    var k := 0;
    while k < |r| && r[k].time >= e.time
      invariant 0 <= k <= |r| && forall i :: 0 <= i < k ==> r[i].time >= e.time
    {
      k := k + 1;
    }
    InsertedOrder(r, k, e);
    InsertedOnce(r, k, e);
    s := r[..k] + [e] + r[k..];
  }

  lemma InsertedOrder(r: seq<Entry>, k: nat, e: Entry)
    requires NewestFirst(r) && k <= |r| && (forall i :: 0 <= i < k ==> r[i].time >= e.time)
    requires k < |r| ==> r[k].time < e.time
    ensures NewestFirst(r[..k] + [e] + r[k..])
  {
    var s := r[..k] + [e] + r[k..];
    assert forall i :: k <= i < |r| ==> r[i].time <= e.time;
    forall i, j | 0 <= i < j < |s| ensures s[i].time >= s[j].time {
      var x := if i < k then r[i] else if i == k then e else r[i - 1];
      var y := if j < k then r[j] else if j == k then e else r[j - 1];
      assert s[i] == x && s[j] == y;
    }
  }

  lemma InsertedOnce(r: seq<Entry>, k: nat, e: Entry)
    requires k <= |r|
    ensures multiset(r[..k] + [e] + r[k..]) == multiset(r) + multiset{e}
  {
    assert r == r[..k] + r[k..];
  }

  // ----- whole runs, packet by packet and pass by pass

  datatype Happening = Packet(data: seq<bv8>, now: real) | Pass(removed: set<hash>)

  function HistoryNext(maxPerDt: int, dt: real, m: History, e: Happening): History
    requires dt > 0.0
  {
    match e
    case Packet(data, now) => Checked(maxPerDt, dt, m, HashOf(data), now).1
    case Pass(removed) => m - removed
  }

  function HistoryAfter(maxPerDt: int, dt: real, m: History, run: seq<Happening>): History
    requires dt > 0.0
    decreases |run|
  {
    if run == [] then m else HistoryAfter(maxPerDt, dt, HistoryNext(maxPerDt, dt, m, run[0]), run[1..])
  }

  /** How many packets of this hash are let through. */
  function LetThrough(maxPerDt: int, dt: real, m: History, run: seq<Happening>, h: hash): nat
    requires dt > 0.0
    decreases |run|
  {
    if run == [] then 0
    else
      var passes := run[0].Packet? && HashOf(run[0].data) == h && Checked(maxPerDt, dt, m, h, run[0].now).0;
      (if passes then 1 else 0) + LetThrough(maxPerDt, dt, HistoryNext(maxPerDt, dt, m, run[0]), run[1..], h)
  }

  /** What a run is for one hash. */
  function EventsFor(e: Happening, h: hash): seq<Event> {
    match e
    case Packet(data, now) => if HashOf(data) == h then [Check(now)] else []
    case Pass(removed) => if h in removed then [Evicted] else []
  }

  function ForHash(run: seq<Happening>, h: hash): seq<Event>
    decreases |run|
  {
    if run == [] then [] else EventsFor(run[0], h) + ForHash(run[1..], h)
  }

  predicate InOrder(t: real, run: seq<Happening>)
    decreases |run|
  {
    run == [] ||
    if run[0].Pass? then InOrder(t, run[1..]) else t <= run[0].now && InOrder(run[0].now, run[1..])
  }

  function Last(t: real, run: seq<Happening>): real
    decreases |run|
  {
    if run == [] then t else Last(if run[0].Pass? then t else run[0].now, run[1..])
  }

  lemma OneHappening(maxPerDt: int, dt: real, m: History, e: Happening, h: hash)
    requires dt > 0.0
    ensures Lookup(HistoryNext(maxPerDt, dt, m, e), h)
            == if EventsFor(e, h) == [] then Lookup(m, h) else Next(maxPerDt, dt, Lookup(m, h), EventsFor(e, h)[0]).1
  {
    hide HashOf, Step;
  }

  lemma LeadingEvent(rate: int, per: real, s: Option<Bucket>, e: Event, run: seq<Event>)
    requires per > 0.0
    ensures var n := Next(rate, per, s, e);
            && After(rate, per, s, [e] + run) == After(rate, per, n.1, run)
            && Accepted(rate, per, s, [e] + run) == (if n.0 then 1 else 0) + Accepted(rate, per, n.1, run)
  {
    hide Next;
    assert ([e] + run)[1..] == run;
  }

  /** Each hash is limited on its own: what happens to it in a run of packets and passes is what one
      limiter does with its own checks and evictions. */
  lemma {:induction false} OwnLimiter(maxPerDt: int, dt: real, m: History, run: seq<Happening>, h: hash)
    requires dt > 0.0
    ensures Lookup(HistoryAfter(maxPerDt, dt, m, run), h) == After(maxPerDt, dt, Lookup(m, h), ForHash(run, h))
    ensures LetThrough(maxPerDt, dt, m, run, h) == Accepted(maxPerDt, dt, Lookup(m, h), ForHash(run, h))
    decreases |run|
  {
    hide HashOf, Lookup, HistoryNext, Next;
    if run != [] {
      var next := HistoryNext(maxPerDt, dt, m, run[0]);
      OneHappening(maxPerDt, dt, m, run[0], h);
      OwnLimiter(maxPerDt, dt, next, run[1..], h);
      var e := EventsFor(run[0], h);
      if e == [] {
        assert e + ForHash(run[1..], h) == ForHash(run[1..], h);
      } else {
        assert e == [e[0]];
        LeadingEvent(maxPerDt, dt, Lookup(m, h), e[0], ForHash(run[1..], h));
        EvictionPassesNothing(maxPerDt, dt, Lookup(m, h));
      }
    }
  }

  lemma EvictionPassesNothing(rate: int, per: real, s: Option<Bucket>)
    requires per > 0.0
    ensures !Next(rate, per, s, Evicted).0
  {
  }

  lemma {:induction false} StillChronological(t: real, u: real, run: seq<Happening>, h: hash)
    requires t <= u && InOrder(u, run)
    ensures Chronological(t, ForHash(run, h)) && End(t, ForHash(run, h)) <= Last(u, run)
    decreases |run|
  {
    hide HashOf;
    if run != [] {
      var e := EventsFor(run[0], h);
      var rest := ForHash(run[1..], h);
      if run[0].Pass? {
        StillChronological(t, u, run[1..], h);
      } else if e == [] {
        StillChronological(t, run[0].now, run[1..], h);
      } else {
        StillChronological(run[0].now, run[0].now, run[1..], h);
      }
      if e == [] {
        assert e + rest == rest;
      } else {
        assert (e + rest)[0] == e[0] && (e + rest)[1..] == rest;
      }
    }
  }

  /** The limit seen from outside: of all packets with one hash in any window of any run, at most one
      allowance, one more for every time the hash is evicted, and what the window earns get through. */
  lemma HashWindowBound(maxPerDt: int, dt: real, before: seq<Happening>, start: real, window: seq<Happening>, h: hash)
    requires dt > 0.0 && maxPerDt >= 0
    requires InOrder(0.0, before) && Last(0.0, before) <= start && InOrder(start, window)
    ensures LetThrough(maxPerDt, dt, HistoryAfter(maxPerDt, dt, map[], before), window, h) as real
            <= Allowances(1 + Evictions(ForHash(window, h)), maxPerDt) + Gain(maxPerDt, dt, Last(start, window) - start)
  {
    hide HashOf, Gain, Allowances, After, Accepted, LetThrough, HistoryAfter, Lookup, InOrder;
    var m := HistoryAfter(maxPerDt, dt, map[], before);
    NothingKnown(h);
    OwnLimiter(maxPerDt, dt, map[], before, h);
    OwnLimiter(maxPerDt, dt, m, window, h);
    StillChronological(0.0, 0.0, before, h);
    StillChronological(start, start, window, h);
    WindowBound(maxPerDt, dt, ForHash(before, h), start, ForHash(window, h));
    GainMonotone(maxPerDt, dt, End(start, ForHash(window, h)) - start, Last(start, window) - start);
  }

  lemma NothingKnown(h: hash)
    ensures Lookup(map[], h) == None
  {
  }

  /** Packets of equal length that differ only within four consecutive bytes never share a limiter:
      seeing one does not change what becomes of the other. */
  lemma NearTwinsAreSeparate(maxPerDt: int, dt: real, m: History, p: seq<bv8>, q: seq<bv8>, at: nat, n: nat, now: real,
                             run: seq<Happening>)
    requires dt > 0.0 && n <= 4 && ShiftRegister.BytesDifferWithin(p, q, at, n)
    ensures HashOf(p) != HashOf(q)
    ensures LetThrough(maxPerDt, dt, m, [Packet(q, now)] + run, HashOf(p)) == LetThrough(maxPerDt, dt, m, run, HashOf(p))
  {
    hide Crc32.Crc, Accepted, Step;
    Crc32.FourBytesChangeHash(p, q, at, n);
    SameCrc(p, q);
    var h := HashOf(p);
    OwnLimiter(maxPerDt, dt, m, run, h);
    OwnLimiter(maxPerDt, dt, m, [Packet(q, now)] + run, h);
    Skipped(q, now, run, h);
  }

  lemma SameCrc(p: seq<bv8>, q: seq<bv8>)
    ensures HashOf(p) == HashOf(q) ==> Crc32.Crc(p) == Crc32.Crc(q)
  {
    hide Crc32.Crc;
    var a, b := Crc32.Crc(p), Crc32.Crc(q);
    assert (a as int) as bv32 == a && (b as int) as bv32 == b;
  }

  lemma Skipped(q: seq<bv8>, now: real, run: seq<Happening>, h: hash)
    requires HashOf(q) != h
    ensures ForHash([Packet(q, now)] + run, h) == ForHash(run, h)
  {
    hide HashOf;
    assert ([Packet(q, now)] + run)[1..] == run;
    assert [] + ForHash(run, h) == ForHash(run, h);
  }

  /** A pass takes the limiters used last, not those unused for longest: the one packet seen in the
      latest second is forgotten exactly when anything is, and its next copy then gets through. */
  lemma NewestIsForgotten(maxPerDt: int, dt: real, maxN: nat, m: History, removed: set<hash>, h: hash, now: real)
    requires dt > 0.0 && maxPerDt >= 1 && IsPass(maxN, m, removed)
    requires h in m && forall g :: g in m && g != h ==> Seconds(m[g].lastTs) < Seconds(m[h].lastTs)
    ensures h in removed <==> |m| > Kept(maxN)
    ensures h in removed ==> (Checked(maxPerDt, dt, m - removed, h, now).0 <==> dt / maxPerDt as real <= now)
  {
    hide Seconds, Step, Gain, Kept;
    assert m - {} == m;
    if h in removed {
      Fewer(m, removed, h);
    } else {
      assert removed == {};
    }
    UnknownIsAccepted(maxPerDt, dt, now);
  }

  lemma Fewer(m: History, removed: set<hash>, h: hash)
    requires removed <= m.Keys && h in removed
    ensures |m - removed| < |m|
  {
    assert (m - removed).Keys == m.Keys - removed;
    assert |m.Keys - removed| == |m.Keys| - |removed|;
    assert |removed| > 0;
  }
}
