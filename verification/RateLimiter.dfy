/**
 The sliding-window rate limiter (services/ingest/auth.py): the class, and what it guarantees over whole runs.

 A call reads the clock and only then takes the lock, so a call is two moments: the reading that is stored and the
 moment the locked step runs. A run is the sequence of locked steps in the order of the lock. Sequential use is the
 case where the two moments coincide.
 */
module RateLimiting {

  // ---------------------------------------------------------------------------------------------------------
  // The locked step
  // ---------------------------------------------------------------------------------------------------------

  /** Drop readings from the left while they are a window old. */
  function Prune(hits: seq<real>, now: real, window: real): (r: seq<real>)
    ensures |r| <= |hits| && r == hits[|hits| - |r|..]
    ensures r != [] ==> now - r[0] < window
  {
    if hits != [] && now - hits[0] >= window then Prune(hits[1..], now, window) else hits
  }

  predicate Admits(limit: int, window: real, hits: seq<real>, now: real) {
    |Prune(hits, now, window)| < limit
  }

  function After(limit: int, window: real, hits: seq<real>, now: real): seq<real> {
    if Admits(limit, window, hits, now) then Prune(hits, now, window) + [now] else Prune(hits, now, window)
  }

  /** The deque of a key; asking for a key that is not there gives an empty one. */
  function DequeOf(hits: map<string, seq<real>>, key: string): seq<real> {
    if key in hits then hits[key] else []
  }

  // ---------------------------------------------------------------------------------------------------------
  // Runs
  // ---------------------------------------------------------------------------------------------------------

  /** One call: its key, what it read from the clock, and when its locked step ran. */
  datatype Call = Call(key: string, read: real, locked: real)

  /** The limiter's state after a run. */
  function HitsAfter(limit: int, window: real, calls: seq<Call>): map<string, seq<real>> {
    if calls == [] then map[]
    else
      var hits := HitsAfter(limit, window, calls[..|calls| - 1]);
      var c := calls[|calls| - 1];
      hits[c.key := After(limit, window, DequeOf(hits, c.key), c.read)]
  }

  /** Whether call `i` of a run is admitted. */
  predicate Admitted(limit: int, window: real, calls: seq<Call>, i: nat)
    requires i < |calls|
  {
    Admits(limit, window, DequeOf(HitsAfter(limit, window, calls[..i]), calls[i].key), calls[i].read)
  }

  lemma OneMoreCall(limit: int, window: real, calls: seq<Call>, c: Call)
    ensures var hits := HitsAfter(limit, window, calls);
            && HitsAfter(limit, window, calls + [c])
               == hits[c.key := After(limit, window, DequeOf(hits, c.key), c.read)]
            && (Admitted(limit, window, calls + [c], |calls|)
                <==> Admits(limit, window, DequeOf(hits, c.key), c.read))
  {
    assert (calls + [c])[..|calls|] == calls;
  }

  lemma LockedStep(limit: int, window: real, hits: seq<real>, now: real, deque: seq<real>)
    requires deque == Prune(hits, now, window)
    ensures Admits(limit, window, hits, now) <==> |deque| < limit
    ensures After(limit, window, hits, now) == if |deque| < limit then deque + [now] else deque
  {
  }

  /** The limiter. `log` is the history of calls, which the code does not keep: `hits` is what it keeps instead. */
  class RateLimiter {
    const limit: int
    const window: real
    var hits: map<string, seq<real>>
    ghost var log: seq<Call>

    ghost predicate Valid()
      reads this
    {
      hits == HitsAfter(limit, window, log)
    }

    constructor (limit: int, window: real)
      ensures this.limit == limit && this.window == window && log == [] && Valid()
    {
      this.limit := limit;
      this.window := window;
      hits := map[];
      log := [];
    }

    /** One call that read `now` from the clock; `locked` is the moment it holds the lock. */
    method Allow(key: string, now: real, ghost locked: real) returns (ok: bool)
      requires Valid()
      modifies this
      ensures Valid() && log == old(log) + [Call(key, now, locked)]
      ensures ok == Admitted(limit, window, log, |old(log)|)
    {
      ghost var before := DequeOf(hits, key);
      var deque := DequeOf(hits, key);
      while deque != [] && now - deque[0] >= window
        invariant Prune(deque, now, window) == Prune(before, now, window)
        decreases |deque|
      {
        deque := deque[1..];
      }
      LockedStep(limit, window, before, now, deque);
      hide HitsAfter, Admitted, Admits, After, DequeOf, Prune;
      OneMoreCall(limit, window, log, Call(key, now, locked));
      log := log + [Call(key, now, locked)];
      if |deque| >= limit {
        hits := hits[key := deque];
        return false;
      }
      hits := hits[key := deque + [now]];
      return true;
    }
  }

  /** The admitted calls of one key, in order. */
  function Admissions(limit: int, window: real, calls: seq<Call>, key: string): seq<Call> {
    if calls == [] then []
    else
      var n := |calls| - 1;
      var before := Admissions(limit, window, calls[..n], key);
      if calls[n].key == key && Admitted(limit, window, calls, n) then before + [calls[n]] else before
  }

  function OfKey(calls: seq<Call>, key: string): seq<Call> {
    if calls == [] then []
    else
      var n := |calls| - 1;
      var before := OfKey(calls[..n], key);
      if calls[n].key == key then before + [calls[n]] else before
  }

  /** The deque of a key after a run. */
  function DequeAfter(limit: int, window: real, calls: seq<Call>, key: string): seq<real> {
    DequeOf(HitsAfter(limit, window, calls), key)
  }

  // One more call, seen from one key.
  lemma DequeStep(limit: int, window: real, calls: seq<Call>, key: string)
    requires calls != []
    ensures var n := |calls| - 1;
            var before := DequeAfter(limit, window, calls[..n], key);
            DequeAfter(limit, window, calls, key) ==
            if calls[n].key == key then After(limit, window, before, calls[n].read) else before
  {
  }

  lemma AdmissionsStep(limit: int, window: real, calls: seq<Call>, key: string)
    requires calls != []
    ensures var n := |calls| - 1;
            var before := Admissions(limit, window, calls[..n], key);
            Admissions(limit, window, calls, key) ==
            if calls[n].key == key && Admits(limit, window, DequeAfter(limit, window, calls[..n], key), calls[n].read)
            then before + [calls[n]] else before
  {
  }

  /** Calls for other keys change nothing: a key's deque and admissions are those of its own calls alone. */
  lemma {:induction false} OtherKeysIgnored(limit: int, window: real, calls: seq<Call>, key: string)
    ensures DequeAfter(limit, window, calls, key) == DequeAfter(limit, window, OfKey(calls, key), key)
    ensures Admissions(limit, window, calls, key) == Admissions(limit, window, OfKey(calls, key), key)
  {
    hide DequeAfter, Admissions, After, Admits;
    if calls != [] {
      var n := |calls| - 1;
      OtherKeysIgnored(limit, window, calls[..n], key);
      DequeStep(limit, window, calls, key);
      AdmissionsStep(limit, window, calls, key);
      if calls[n].key == key {
        var own := OfKey(calls, key);
        assert own[..|own| - 1] == OfKey(calls[..n], key);
        DequeStep(limit, window, own, key);
        AdmissionsStep(limit, window, own, key);
      }
    }
  }

  // ---------------------------------------------------------------------------------------------------------
  // The deque against the history
  // ---------------------------------------------------------------------------------------------------------

  /** Lock order is time order, and at most `delay` passes between reading the clock and taking the lock. */
  ghost predicate Timely(calls: seq<Call>, delay: real) {
    && (forall i :: 0 <= i < |calls| ==> calls[i].read <= calls[i].locked <= calls[i].read + delay)
    && forall i, j :: 0 <= i <= j < |calls| ==> calls[i].locked <= calls[j].locked
  }

  function Readings(calls: seq<Call>): (r: seq<real>)
    ensures |r| == |calls| && forall i :: 0 <= i < |r| ==> r[i] == calls[i].read
  {
    seq(|calls|, i requires 0 <= i < |calls| => calls[i].read)
  }

  function Most(limit: int): nat {
    if limit > 0 then limit else 0
  }

  /**
   The deque holds the readings of the most recent admissions, at most `limit` of them; each admission no longer in
   it had its locked step at least `window - delay` ago.
   */
  ghost predicate Remembers(limit: int, window: real, delay: real, deque: seq<real>, admitted: seq<Call>, now: real) {
    && |deque| <= |admitted| && |deque| <= Most(limit)
    && deque == Readings(admitted)[|admitted| - |deque|..]
    && forall i :: 0 <= i < |admitted| - |deque| ==> now - admitted[i].locked >= window - delay
  }

  // Pruning keeps a suffix, and what it drops is old.
  lemma {:induction false} PruneDrops(hits: seq<real>, now: real, window: real)
    ensures forall i :: 0 <= i < |hits| - |Prune(hits, now, window)| ==> now - hits[i] >= window
  {
    if hits != [] && now - hits[0] >= window {
      PruneDrops(hits[1..], now, window);
      forall i | 0 <= i < |hits| - |Prune(hits, now, window)|
        ensures now - hits[i] >= window
      {
        if i > 0 {
          assert hits[i] == hits[1..][i - 1];
        }
      }
    }
  }

  /** `c` comes no earlier than any of the calls, and within the delay. */
  ghost predicate Follows(calls: seq<Call>, c: Call, delay: real) {
    && c.read <= c.locked <= c.read + delay
    && forall a :: a in calls ==> a.locked <= c.locked
  }

  lemma TimelyStep(calls: seq<Call>, delay: real)
    requires Timely(calls, delay) && calls != []
    ensures Timely(calls[..|calls| - 1], delay) && Follows(calls[..|calls| - 1], calls[|calls| - 1], delay)
  {
  }

  lemma TimelyAppend(calls: seq<Call>, c: Call, delay: real)
    requires Timely(calls, delay) && Follows(calls, c, delay)
    ensures Timely(calls + [c], delay)
  {
  }

  lemma {:induction false} AdmissionsAmong(limit: int, window: real, calls: seq<Call>, key: string, c: Call)
    requires c in Admissions(limit, window, calls, key)
    ensures c in calls
  {
    hide Admissions;
    if calls == [] {
      NoAdmissions(limit, window, key);
    } else {
      AdmissionsStep(limit, window, calls, key);
      if c != calls[|calls| - 1] {
        AdmissionsAmong(limit, window, calls[..|calls| - 1], key, c);
      }
    }
  }

  lemma {:induction false} AdmissionsOrdered(limit: int, window: real, delay: real, calls: seq<Call>, key: string)
    requires Timely(calls, delay)
    ensures Timely(Admissions(limit, window, calls, key), delay)
  {
    hide Admissions, Timely;
    if calls == [] {
      NoAdmissions(limit, window, key);
    } else {
      var n := |calls| - 1;
      var before := Admissions(limit, window, calls[..n], key);
      TimelyStep(calls, delay);
      AdmissionsStep(limit, window, calls, key);
      AdmissionsOrdered(limit, window, delay, calls[..n], key);
      forall a | a in before
        ensures a in calls[..n]
      {
        AdmissionsAmong(limit, window, calls[..n], key, a);
      }
      assert Follows(before, calls[n], delay);
      TimelyAppend(before, calls[n], delay);
    }
  }

  lemma NoAdmissions(limit: int, window: real, key: string)
    ensures Admissions(limit, window, [], key) == []
  {
  }

  lemma PrunedRemembers(limit: int, window: real, delay: real, deque: seq<real>, admitted: seq<Call>, before: real, c: Call)
    requires Remembers(limit, window, delay, deque, admitted, before)
    requires Timely(admitted, delay) && before <= c.locked && c.read <= c.locked
    ensures Remembers(limit, window, delay, Prune(deque, c.read, window), admitted, c.locked)
  {
    hide Prune;
    var kept := Prune(deque, c.read, window);
    PruneDrops(deque, c.read, window);
    var earlier, dropped := |admitted| - |deque|, |admitted| - |kept|;
    SuffixOfSuffix(Readings(admitted), earlier, dropped - earlier);
    forall i | 0 <= i < dropped
      ensures c.locked - admitted[i].locked >= window - delay
    {
      if i >= earlier {
        assert deque[i - earlier] == admitted[i].read;
      }
    }
  }

  lemma SuffixOfSuffix(s: seq<real>, i: nat, j: nat)
    requires i + j <= |s|
    ensures s[i..][j..] == s[i + j..]
  {
  }

  lemma AdmittedRemembers(limit: int, window: real, delay: real, deque: seq<real>, admitted: seq<Call>, c: Call)
    requires Remembers(limit, window, delay, deque, admitted, c.locked) && |deque| < limit
    ensures Remembers(limit, window, delay, deque + [c.read], admitted + [c], c.locked)
  {
    assert Readings(admitted + [c]) == Readings(admitted) + [c.read];
  }

  /** The lock time of the last call of a run, which cannot be later than that of a call that follows. */
  function LastLocked(calls: seq<Call>, next: Call): real {
    if calls == [] then next.locked else calls[|calls| - 1].locked
  }

  /** What the deque of a key is, after any run whose calls take at most `delay` from clock to lock. */
  lemma {:induction false} DequeRemembers(limit: int, window: real, delay: real, calls: seq<Call>, key: string, next: Call)
    requires Timely(calls, delay)
    ensures Remembers(limit, window, delay, DequeAfter(limit, window, calls, key),
                      Admissions(limit, window, calls, key), LastLocked(calls, next))
  {
    hide DequeAfter, Admissions, Remembers;
    if calls == [] {
      NothingRemembered(limit, window, delay, key, next);
    } else {
      var n := |calls| - 1;
      var c := calls[n];
      var deque := DequeAfter(limit, window, calls[..n], key);
      var admitted := Admissions(limit, window, calls[..n], key);
      DequeStep(limit, window, calls, key);
      AdmissionsStep(limit, window, calls, key);
      DequeRemembers(limit, window, delay, calls[..n], key, c);
      AdmissionsOrdered(limit, window, delay, calls[..n], key);
      StillRemembers(limit, window, delay, deque, admitted, LastLocked(calls[..n], c), c.locked);
      if c.key == key {
        PrunedRemembers(limit, window, delay, deque, admitted, c.locked, c);
        if Admits(limit, window, deque, c.read) {
          AdmittedRemembers(limit, window, delay, Prune(deque, c.read, window), admitted, c);
        }
      }
    }
  }

  lemma NothingRemembered(limit: int, window: real, delay: real, key: string, next: Call)
    ensures Remembers(limit, window, delay, DequeAfter(limit, window, [], key),
                      Admissions(limit, window, [], key), LastLocked([], next))
  {
  }

  lemma StillRemembers(limit: int, window: real, delay: real, deque: seq<real>, admitted: seq<Call>, before: real, now: real)
    requires Remembers(limit, window, delay, deque, admitted, before) && before <= now
    ensures Remembers(limit, window, delay, deque, admitted, now)
  {
  }

  // ---------------------------------------------------------------------------------------------------------
  // Safety: the bound under interleaving
  // ---------------------------------------------------------------------------------------------------------

  /** How many of the calls ran their locked step at a time in `[from, to)`. */
  function CountIn(calls: seq<Call>, from: real, to: real): nat {
    if calls == [] then 0
    else
      var n := |calls| - 1;
      CountIn(calls[..n], from, to) + if from <= calls[n].locked < to then 1 else 0
  }

  /** Calls `limit` apart are at least `gap` apart in time. */
  ghost predicate Spaced(calls: seq<Call>, limit: nat, gap: real) {
    forall i :: 0 <= i < |calls| - limit ==> calls[i + limit].locked - calls[i].locked >= gap
  }

  lemma {:induction false} AdmissionsSpaced(limit: int, window: real, delay: real, calls: seq<Call>, key: string)
    requires Timely(calls, delay)
    ensures Spaced(Admissions(limit, window, calls, key), Most(limit), window - delay)
  {
    hide DequeAfter, Admissions, Remembers;
    if calls == [] {
      NoAdmissions(limit, window, key);
    } else {
      var n := |calls| - 1;
      var c := calls[n];
      var deque := DequeAfter(limit, window, calls[..n], key);
      var admitted := Admissions(limit, window, calls[..n], key);
      AdmissionsStep(limit, window, calls, key);
      AdmissionsSpaced(limit, window, delay, calls[..n], key);
      DequeRemembers(limit, window, delay, calls[..n], key, c);
      AdmissionsOrdered(limit, window, delay, calls[..n], key);
      PrunedRemembers(limit, window, delay, deque, admitted, LastLocked(calls[..n], c), c);
      if Admits(limit, window, deque, c.read) {
        OneMoreSpaced(limit, window, delay, Prune(deque, c.read, window), admitted, c);
      }
    }
  }

  lemma OneMoreSpaced(limit: int, window: real, delay: real, deque: seq<real>, admitted: seq<Call>, c: Call)
    requires Remembers(limit, window, delay, deque, admitted, c.locked) && |deque| < limit
    requires Spaced(admitted, limit, window - delay)
    ensures Spaced(admitted + [c], limit, window - delay)
  {
  }

  lemma {:induction false} CountNone(calls: seq<Call>, from: real, to: real)
    requires forall i :: 0 <= i < |calls| ==> calls[i].locked < from
    ensures CountIn(calls, from, to) == 0
  {
    if calls != [] {
      CountNone(calls[..|calls| - 1], from, to);
    }
  }

  lemma {:induction false} CountTail(calls: seq<Call>, from: real, to: real, k: nat)
    requires k <= |calls|
    ensures CountIn(calls, from, to) <= CountIn(calls[..k], from, to) + |calls| - k
  {
    if k == |calls| {
      assert calls[..k] == calls;
    } else {
      assert calls[..|calls| - 1][..k] == calls[..k];
      CountTail(calls[..|calls| - 1], from, to, k);
    }
  }

  lemma CountStep(calls: seq<Call>, from: real, to: real)
    requires calls != []
    ensures var n := |calls| - 1;
            CountIn(calls, from, to) == CountIn(calls[..n], from, to) + if from <= calls[n].locked < to then 1 else 0
  {
  }

  lemma {:induction false} SpacedCount(calls: seq<Call>, delay: real, limit: nat, gap: real, from: real)
    requires Timely(calls, delay) && Spaced(calls, limit, gap)
    ensures CountIn(calls, from, from + gap) <= limit
  {
    hide CountIn;
    if calls == [] {
      CountNone([], from, from + gap);
    } else {
      var n := |calls| - 1;
      if from <= calls[n].locked < from + gap && n >= limit {
        var k := n - limit + 1;
        assert calls[n - limit].locked <= calls[(n - limit) + limit].locked - gap;
        CountNone(calls[..k], from, from + gap);
        CountTail(calls, from, from + gap, k);
      } else if n >= limit {
        SpacedCount(calls[..n], delay, limit, gap, from);
        CountStep(calls, from, from + gap);
      } else {
        CountNone([], from, from + gap);
        CountTail(calls, from, from + gap, 0);
      }
    }
  }

  /**
   Whatever the interleaving: if no call takes longer than `delay` from reading the clock to its locked step, then
   of one key at most `limit` calls are admitted in any interval of length `window - delay` of lock time.
   */
  lemma InterleavedBound(limit: int, window: real, delay: real, calls: seq<Call>, key: string, from: real)
    requires Timely(calls, delay)
    ensures CountIn(Admissions(limit, window, calls, key), from, from + (window - delay)) <= Most(limit)
  {
    hide Admissions, Timely, CountIn, Spaced;
    AdmissionsOrdered(limit, window, delay, calls, key);
    AdmissionsSpaced(limit, window, delay, calls, key);
    SpacedCount(Admissions(limit, window, calls, key), delay, Most(limit), window - delay, from);
  }

  // ---------------------------------------------------------------------------------------------------------
  // The bound cannot be improved
  // ---------------------------------------------------------------------------------------------------------

  /** `n` identical calls. */
  function Crowd(n: nat, c: Call): (r: seq<Call>)
    ensures |r| == n && forall i :: 0 <= i < n ==> r[i] == c
  {
    if n == 0 then [] else Crowd(n - 1, c) + [c]
  }

  lemma {:induction false} PruneAll(hits: seq<real>, now: real, window: real)
    requires forall i :: 0 <= i < |hits| ==> now - hits[i] >= window
    ensures Prune(hits, now, window) == []
  {
    if hits != [] {
      PruneAll(hits[1..], now, window);
    }
  }

  lemma AdmitsRoom(limit: int, window: real, hits: seq<real>, now: real)
    requires |Prune(hits, now, window)| < limit
    ensures Admits(limit, window, hits, now)
    ensures After(limit, window, hits, now) == Prune(hits, now, window) + [now]
  {
  }

  lemma NoDeque(limit: int, window: real, key: string)
    ensures DequeAfter(limit, window, [], key) == []
  {
  }

  // One more call of the key that finds room.
  lemma AdmittedNext(limit: int, window: real, calls: seq<Call>, c: Call)
    requires |Prune(DequeAfter(limit, window, calls, c.key), c.read, window)| < limit
    ensures Admissions(limit, window, calls + [c], c.key) == Admissions(limit, window, calls, c.key) + [c]
    ensures DequeAfter(limit, window, calls + [c], c.key)
         == Prune(DequeAfter(limit, window, calls, c.key), c.read, window) + [c.read]
  {
    hide Admissions, DequeAfter, Admits, After, Prune;
    assert (calls + [c])[..|calls|] == calls;
    DequeStep(limit, window, calls + [c], c.key);
    AdmissionsStep(limit, window, calls + [c], c.key);
    AdmitsRoom(limit, window, DequeAfter(limit, window, calls, c.key), c.read);
  }

  /** As many identical calls as the limit allows are all admitted. */
  lemma {:induction false} CrowdAdmitted(limit: int, window: real, n: nat, c: Call)
    requires n <= limit
    ensures Admissions(limit, window, Crowd(n, c), c.key) == Crowd(n, c)
    ensures var deque := DequeAfter(limit, window, Crowd(n, c), c.key);
            |deque| <= n && forall i :: 0 <= i < |deque| ==> deque[i] == c.read
  {
    hide Admissions, DequeAfter, Prune;
    if n == 0 {
      NoAdmissions(limit, window, c.key);
      NoDeque(limit, window, c.key);
    } else {
      CrowdAdmitted(limit, window, n - 1, c);
      AdmittedNext(limit, window, Crowd(n - 1, c), c);
    }
  }

  /** A full crowd, and one more call as soon as its reading is a window later. */
  function Overflow(limit: nat, window: real, delay: real, key: string): seq<Call> {
    var later := if window > 0.0 then window else 0.0;
    Crowd(limit, Call(key, 0.0, delay)) + [Call(key, later, if later > delay then later else delay)]
  }

  lemma OverflowAdmitted(limit: nat, window: real, delay: real, key: string)
    requires limit >= 1
    ensures Admissions(limit, window, Overflow(limit, window, delay, key), key) == Overflow(limit, window, delay, key)
  {
    hide Admissions, DequeAfter, Prune;
    var c := Call(key, 0.0, delay);
    var calls := Overflow(limit, window, delay, key);
    CrowdAdmitted(limit, window, limit, c);
    PruneAll(DequeAfter(limit, window, Crowd(limit, c), key), calls[limit].read, window);
    AdmittedNext(limit, window, Crowd(limit, c), calls[limit]);
  }

  lemma OverflowTimely(limit: nat, window: real, delay: real, key: string)
    requires delay >= 0.0
    ensures Timely(Overflow(limit, window, delay, key), delay)
  {
  }

  lemma {:induction false} CountAll(calls: seq<Call>, from: real, to: real)
    requires forall i :: 0 <= i < |calls| ==> from <= calls[i].locked < to
    ensures CountIn(calls, from, to) == |calls|
  {
    if calls != [] {
      CountAll(calls[..|calls| - 1], from, to);
    }
  }

  /** Of every key, every interval of lock time of this length holds at most the limit, on all runs with this delay. */
  ghost predicate Bounded(limit: int, window: real, delay: real, length: real) {
    forall calls, key, from :: Timely(calls, delay) ==> WithinBound(limit, window, calls, key, from, length)
  }

  predicate WithinBound(limit: int, window: real, calls: seq<Call>, key: string, from: real, length: real) {
    CountIn(Admissions(limit, window, calls, key), from, from + length) <= Most(limit)
  }

  lemma Exceeded(limit: int, window: real, delay: real, length: real)
    requires limit >= 1 && delay >= 0.0 && length > 0.0 && length > window - delay
    ensures !Bounded(limit, window, delay, length)
  {
    hide Admissions, CountIn, Timely;
    var calls := Overflow(limit, window, delay, "");
    OverflowTimely(limit, window, delay, "");
    OverflowAdmitted(limit, window, delay, "");
    CountAll(calls, delay, delay + length);
    assert !WithinBound(limit, window, calls, "", delay, length);
  }

  lemma {:induction false} CountFewer(calls: seq<Call>, from: real, to: real, to': real)
    requires to <= to'
    ensures CountIn(calls, from, to) <= CountIn(calls, from, to')
  {
    if calls != [] {
      CountFewer(calls[..|calls| - 1], from, to, to');
    }
  }

  lemma BoundedShort(limit: int, window: real, delay: real, length: real)
    requires length <= window - delay
    ensures Bounded(limit, window, delay, length)
  {
    hide Admissions, CountIn, Timely;
    forall calls, key, from | Timely(calls, delay)
      ensures WithinBound(limit, window, calls, key, from, length)
    {
      InterleavedBound(limit, window, delay, calls, key, from);
      CountFewer(Admissions(limit, window, calls, key), from, from + length, from + (window - delay));
    }
  }

  lemma {:induction false} NeverAdmits(limit: int, window: real, calls: seq<Call>, key: string)
    requires limit <= 0
    ensures Admissions(limit, window, calls, key) == []
  {
    if calls != [] {
      NeverAdmits(limit, window, calls[..|calls| - 1], key);
    }
  }

  lemma NoRun(calls: seq<Call>, delay: real)
    requires Timely(calls, delay)
    ensures calls != [] ==> delay >= 0.0
  {
    if calls != [] {
      assert calls[0].read <= calls[0].locked <= calls[0].read + delay;
    }
  }

  lemma BoundedTrivially(limit: int, window: real, delay: real, length: real)
    requires limit <= 0 || delay < 0.0 || length <= 0.0
    ensures Bounded(limit, window, delay, length)
  {
    hide Admissions, CountIn;
    forall calls, key, from | Timely(calls, delay)
      ensures WithinBound(limit, window, calls, key, from, length)
    {
      var admitted := Admissions(limit, window, calls, key);
      if limit <= 0 {
        NeverAdmits(limit, window, calls, key);
        CountNone(admitted, from, from + length);
      } else if length <= 0.0 {
        EmptyInterval(admitted, from, from + length);
      } else {
        NoRun(calls, delay);
        NoAdmissions(limit, window, key);
        CountNone(admitted, from, from + length);
      }
    }
  }

  lemma {:induction false} EmptyInterval(calls: seq<Call>, from: real, to: real)
    requires to <= from
    ensures CountIn(calls, from, to) == 0
  {
    if calls != [] {
      EmptyInterval(calls[..|calls| - 1], from, to);
    }
  }

  /**
   The limit holds in every interval of a length, on all runs in which no call waits longer than `delay`, exactly when
   the length is at most `window - delay`: any longer interval can hold one admission more. (It holds trivially where
   nothing is admitted, where no call is that fast, and in an interval without length.)
   */
  lemma InterleavedBoundTight(limit: int, window: real, delay: real, length: real)
    ensures Bounded(limit, window, delay, length)
       <==> limit <= 0 || delay < 0.0 || length <= 0.0 || length <= window - delay
  {
    hide Bounded;
    if limit <= 0 || delay < 0.0 || length <= 0.0 {
      BoundedTrivially(limit, window, delay, length);
    } else if length <= window - delay {
      BoundedShort(limit, window, delay, length);
    } else {
      Exceeded(limit, window, delay, length);
    }
  }

  // ---------------------------------------------------------------------------------------------------------
  // Interleavings of concurrent calls
  // ---------------------------------------------------------------------------------------------------------

  /** The two moments of a call; `id` tells the calls apart. */
  datatype Action = ReadClock(id: nat, key: string, at: real) | TakeLock(id: nat, at: real)

  datatype Reading = Reading(key: string, read: real)

  /** Calls that have read the clock and still wait for the lock. */
  function Waiting(trace: seq<Action>): map<nat, Reading> {
    if trace == [] then map[]
    else
      var before := Waiting(trace[..|trace| - 1]);
      match trace[|trace| - 1]
      case ReadClock(id, key, at) => before[id := Reading(key, at)]
      case TakeLock(id, _) => before - {id}
  }

  /** The locked steps of a trace, in lock order. */
  function CallsOf(trace: seq<Action>): seq<Call> {
    if trace == [] then []
    else
      var n := |trace| - 1;
      var before := CallsOf(trace[..n]);
      match trace[n]
      case ReadClock(_, _, _) => before
      case TakeLock(id, at) =>
        var waiting := Waiting(trace[..n]);
        if id in waiting then before + [Call(waiting[id].key, waiting[id].read, at)] else before
  }

  /** Any interleaving in which time does not run backwards and a reading waits at most `delay` for the lock. */
  ghost predicate Interleaving(trace: seq<Action>, delay: real) {
    && (forall i, j :: 0 <= i <= j < |trace| ==> trace[i].at <= trace[j].at)
    && forall i :: 0 <= i < |trace| && trace[i].TakeLock? ==>
         && trace[i].id in Waiting(trace[..i])
         && trace[i].at <= Waiting(trace[..i])[trace[i].id].read + delay
  }

  lemma {:induction false} WaitingSince(trace: seq<Action>, delay: real, id: nat)
    requires Interleaving(trace, delay) && id in Waiting(trace)
    ensures trace != [] && Waiting(trace)[id].read <= trace[|trace| - 1].at
  {
    var n := |trace| - 1;
    if trace[n].TakeLock? || trace[n].id != id {
      PrefixInterleaves(trace, delay);
      WaitingSince(trace[..n], delay, id);
    }
  }

  lemma PrefixInterleaves(trace: seq<Action>, delay: real)
    requires Interleaving(trace, delay) && trace != []
    ensures Interleaving(trace[..|trace| - 1], delay)
  {
    var short := trace[..|trace| - 1];
    forall i | 0 <= i < |short| && short[i].TakeLock?
      ensures short[i].id in Waiting(short[..i]) && short[i].at <= Waiting(short[..i])[short[i].id].read + delay
    {
      assert short[..i] == trace[..i] && short[i] == trace[i];
    }
  }

  lemma {:induction false} InterleavingTimely(trace: seq<Action>, delay: real)
    requires Interleaving(trace, delay)
    ensures Timely(CallsOf(trace), delay)
    ensures forall c :: c in CallsOf(trace) ==> trace != [] && c.locked <= trace[|trace| - 1].at
  {
    if trace != [] {
      var n := |trace| - 1;
      PrefixInterleaves(trace, delay);
      InterleavingTimely(trace[..n], delay);
      if trace[n].TakeLock? {
        var id := trace[n].id;
        WaitingSince(trace[..n], delay, id);
        var r := Waiting(trace[..n])[id];
        TimelyAppend(CallsOf(trace[..n]), Call(r.key, r.read, trace[n].at), delay);
      }
    }
  }

  /** The bound, for every interleaving of clock readings and locked steps. */
  lemma TraceBound(limit: int, window: real, delay: real, trace: seq<Action>, key: string, from: real)
    requires Interleaving(trace, delay)
    ensures CountIn(Admissions(limit, window, CallsOf(trace), key), from, from + (window - delay)) <= Most(limit)
  {
    InterleavingTimely(trace, delay);
    InterleavedBound(limit, window, delay, CallsOf(trace), key, from);
  }

  // ---------------------------------------------------------------------------------------------------------
  // Sequential use: the deque is a view of the full history
  // ---------------------------------------------------------------------------------------------------------

  /** A clock that does not run backwards, read under the lock. */
  ghost predicate Sequential(calls: seq<Call>) {
    Timely(calls, 0.0)
  }

  /** The readings of `admitted` less than a window old, from a history that is never trimmed. */
  function Recent(admitted: seq<Call>, now: real, window: real): seq<real> {
    if admitted == [] then []
    else
      var n := |admitted| - 1;
      var before := Recent(admitted[..n], now, window);
      if now - admitted[n].read < window then before + [admitted[n].read] else before
  }

  lemma ReadingsStep(admitted: seq<Call>, c: Call, k: nat)
    requires k <= |admitted|
    ensures Readings(admitted + [c])[k..] == Readings(admitted)[k..] + [c.read]
  {
  }

  lemma {:induction false} RecentIsSuffix(admitted: seq<Call>, now: real, window: real, k: nat)
    requires k <= |admitted|
    requires forall i :: 0 <= i < k ==> now - admitted[i].read >= window
    requires forall i :: k <= i < |admitted| ==> now - admitted[i].read < window
    ensures Recent(admitted, now, window) == Readings(admitted)[k..]
  {
    if admitted != [] {
      hide Readings;
      var n := |admitted| - 1;
      assert admitted == admitted[..n] + [admitted[n]];
      if k <= n {
        RecentIsSuffix(admitted[..n], now, window, k);
        ReadingsStep(admitted[..n], admitted[n], k);
      } else {
        RecentIsSuffix(admitted[..n], now, window, n);
        assert Readings(admitted)[k..] == [] && Readings(admitted[..n])[n..] == [];
      }
    }
  }

  /**
   Pruning leaves exactly the past admissions of the key that are less than a window old, of which there are never
   more than the limit; so a call is admitted exactly when the whole history holds fewer than the limit of them.
   */
  lemma DequeIsRecentHistory(limit: int, window: real, calls: seq<Call>, c: Call)
    requires Sequential(calls + [c])
    ensures var recent := Recent(Admissions(limit, window, calls, c.key), c.read, window);
            && Prune(DequeAfter(limit, window, calls, c.key), c.read, window) == recent
            && |recent| <= Most(limit)
            && (forall i, j :: 0 <= i <= j < |recent| ==> recent[i] <= recent[j])
            && (Admitted(limit, window, calls + [c], |calls|) <==> |recent| < limit)
  {
    hide Admissions, Timely;
    TimelyStep(calls + [c], 0.0);
    assert (calls + [c])[..|calls|] == calls;
    AdmissionsOrdered(limit, window, 0.0, calls, c.key);
    DequeRemembers(limit, window, 0.0, calls, c.key, c);
    var deque, admitted := DequeAfter(limit, window, calls, c.key), Admissions(limit, window, calls, c.key);
    PrunedRemembers(limit, window, 0.0, deque, admitted, LastLocked(calls, c), c);
    PrunedIsRecent(limit, window, deque, admitted, c);
  }

  lemma PrunedIsRecent(limit: int, window: real, deque: seq<real>, admitted: seq<Call>, c: Call)
    requires Timely(admitted, 0.0) && c.read == c.locked
    requires Remembers(limit, window, 0.0, Prune(deque, c.read, window), admitted, c.locked)
    ensures var kept := Prune(deque, c.read, window);
            && kept == Recent(admitted, c.read, window)
            && (forall i, j :: 0 <= i <= j < |kept| ==> kept[i] <= kept[j])
  {
    hide Recent;
    var kept := Prune(deque, c.read, window);
    var k := |admitted| - |kept|;
    SuffixSorted(admitted, k);
    if kept != [] {
      assert kept[0] == admitted[k].read;
    }
    RecentIsSuffix(admitted, c.read, window, k);
  }

  lemma SuffixSorted(admitted: seq<Call>, k: nat)
    requires Timely(admitted, 0.0) && k <= |admitted|
    ensures var s := Readings(admitted)[k..];
            && (forall i, j :: 0 <= i <= j < |s| ==> s[i] <= s[j])
            && forall i :: k <= i < |admitted| ==> admitted[k].read <= admitted[i].read
  {
    forall i, j | 0 <= i <= j < |admitted| - k
      ensures Readings(admitted)[k..][i] <= Readings(admitted)[k..][j]
    {
      assert admitted[k + i].locked <= admitted[k + j].locked;
    }
  }

  /** With a clock read under the lock, no interval of one window's length holds more than the limit of admissions. */
  lemma SequentialBound(limit: int, window: real, calls: seq<Call>, key: string, from: real)
    requires Sequential(calls)
    ensures CountIn(Admissions(limit, window, calls, key), from, from + window) <= Most(limit)
  {
    hide Admissions, CountIn, Timely;
    InterleavedBound(limit, window, 0.0, calls, key, from);
    assert window - 0.0 == window;
  }

  // ---------------------------------------------------------------------------------------------------------
  // Optimality
  // ---------------------------------------------------------------------------------------------------------

  /** The calls of one key that some other selection admits. */
  function Picked(calls: seq<Call>, pick: seq<bool>, key: string): seq<Call>
    requires |pick| == |calls|
  {
    if calls == [] then []
    else
      var n := |calls| - 1;
      var before := Picked(calls[..n], pick[..n], key);
      if pick[n] && calls[n].key == key then before + [calls[n]] else before
  }

  /** The selection keeps the limit in every half-open window. */
  ghost predicate WithinLimit(limit: int, window: real, calls: seq<Call>, pick: seq<bool>, key: string)
    requires |pick| == |calls|
  {
    forall from :: InWindow(Picked(calls, pick, key), from, window) <= Most(limit)
  }

  /** Calls in the half-open window that starts at `from`. */
  function InWindow(calls: seq<Call>, from: real, window: real): nat {
    CountIn(calls, from, from + window)
  }

  lemma PickedStep(calls: seq<Call>, pick: seq<bool>, key: string, k: nat)
    requires |pick| == |calls| && k < |calls|
    ensures var before := Picked(calls[..k], pick[..k], key);
            Picked(calls[..k + 1], pick[..k + 1], key) ==
            if pick[k] && calls[k].key == key then before + [calls[k]] else before
  {
    assert calls[..k + 1][..k] == calls[..k] && pick[..k + 1][..k] == pick[..k];
  }

  lemma CountAppend(calls: seq<Call>, c: Call, from: real, to: real)
    ensures CountIn(calls + [c], from, to) == CountIn(calls, from, to) + if from <= c.locked < to then 1 else 0
  {
    assert (calls + [c])[..|calls|] == calls;
  }

  lemma {:induction false} PrefixCount(calls: seq<Call>, pick: seq<bool>, key: string, k: nat, from: real, to: real)
    requires |pick| == |calls| && k <= |calls|
    ensures CountIn(Picked(calls[..k], pick[..k], key), from, to) <= CountIn(Picked(calls, pick, key), from, to)
    decreases |calls| - k
  {
    if k == |calls| {
      assert calls[..k] == calls && pick[..k] == pick;
    } else {
      PickedStep(calls, pick, key, k);
      CountAppend(Picked(calls[..k], pick[..k], key), calls[k], from, to);
      PrefixCount(calls, pick, key, k + 1, from, to);
    }
  }

  // Between calls `m` and `k`, all within one interval, a selection gains no more than it has in the interval.
  lemma {:induction false} PickedGain(calls: seq<Call>, pick: seq<bool>, key: string, m: nat, k: nat, from: real, to: real)
    requires |pick| == |calls| && m <= k <= |calls|
    requires forall i :: m <= i < k ==> from <= calls[i].locked < to
    ensures |Picked(calls[..k], pick[..k], key)|
         <= |Picked(calls[..m], pick[..m], key)| + CountIn(Picked(calls[..k], pick[..k], key), from, to)
    decreases k
  {
    if k > m {
      PickedGain(calls, pick, key, m, k - 1, from, to);
      PickedStep(calls, pick, key, k - 1);
      CountAppend(Picked(calls[..k - 1], pick[..k - 1], key), calls[k - 1], from, to);
    }
  }

  // The limiter's recent admissions were all gained after call `m`, when everything before `m` is a window old.
  lemma {:induction false} RecentGain(limit: int, window: real, calls: seq<Call>, key: string, m: nat, k: nat, now: real)
    requires m <= k <= |calls|
    requires forall i :: 0 <= i < m ==> now - calls[i].read >= window
    ensures |Recent(Admissions(limit, window, calls[..k], key), now, window)|
            <= |Admissions(limit, window, calls[..k], key)| - |Admissions(limit, window, calls[..m], key)|
    decreases k
  {
    hide Admissions, Recent;
    if k == 0 {
      assert calls[..0] == [];
      NoAdmissions(limit, window, key);
      NothingRecent(now, window);
    } else {
      var before := Admissions(limit, window, calls[..k - 1], key);
      assert calls[..k][..k - 1] == calls[..k - 1];
      AdmissionsStep(limit, window, calls[..k], key);
      RecentAppend(before, calls[k - 1], now, window);
      RecentGain(limit, window, calls, key, if k > m then m else k - 1, k - 1, now);
    }
  }

  lemma NothingRecent(now: real, window: real)
    ensures Recent([], now, window) == []
  {
  }

  lemma RecentAppend(admitted: seq<Call>, c: Call, now: real, window: real)
    ensures Recent(admitted + [c], now, window)
         == Recent(admitted, now, window) + if now - c.read < window then [c.read] else []
  {
    assert (admitted + [c])[..|admitted|] == admitted;
  }

  /** The first call less than a window before call `n`. */
  function FirstWithin(calls: seq<Call>, n: nat, window: real): (m: nat)
    requires n < |calls| && Sequential(calls) && window > 0.0
    ensures m <= n && calls[n].read - calls[m].read < window
    ensures forall i :: 0 <= i < m ==> calls[n].read - calls[i].read >= window
  {
    FirstWithinFrom(calls, n, n, window)
  }

  function FirstWithinFrom(calls: seq<Call>, n: nat, k: nat, window: real): (m: nat)
    requires k <= n < |calls| && Sequential(calls) && calls[n].read - calls[k].read < window
    ensures m <= k && calls[n].read - calls[m].read < window
    ensures forall i :: 0 <= i < m ==> calls[n].read - calls[i].read >= window
  {
    if k > 0 && calls[n].read - calls[k - 1].read < window then FirstWithinFrom(calls, n, k - 1, window)
    else
      assert forall i :: 0 <= i < k ==> calls[i].read <= calls[k - 1].read;
      k
  }

  lemma SequentialPrefix(calls: seq<Call>, k: nat)
    requires Sequential(calls) && k <= |calls|
    ensures Sequential(calls[..k])
  {
  }

  // A refused call finds a full window of admissions, all gained since the window's first call; over the same calls
  // another selection cannot have gained more.
  lemma Refused(limit: int, window: real, calls: seq<Call>, pick: seq<bool>, k: nat)
    requires Sequential(calls) && (window > 0.0 || limit > 0)
    requires |pick| == |calls| && k < |calls| && WithinLimit(limit, window, calls, pick, calls[k].key)
    requires !Admits(limit, window, DequeAfter(limit, window, calls[..k], calls[k].key), calls[k].read)
    ensures window > 0.0
    ensures var key, m := calls[k].key, FirstWithin(calls, k, window);
            && |Picked(calls[..k + 1], pick[..k + 1], key)| <= |Picked(calls[..m], pick[..m], key)| + Most(limit)
            && |Admissions(limit, window, calls[..m], key)| + Most(limit) <= |Admissions(limit, window, calls[..k], key)|
  {
    hide Admissions, Picked, Recent, Admits, DequeAfter;
    var c := calls[k];
    RefusedIsFull(limit, window, calls, k);
    if window <= 0.0 {
      RecentGain(limit, window, calls, c.key, k, k, c.read);
      assert false;
    }
    var m := FirstWithin(calls, k, window);
    RecentGain(limit, window, calls, c.key, m, k, c.read);
    PickedGain(calls, pick, c.key, m, k + 1, calls[m].locked, calls[m].locked + window);
    PrefixCount(calls, pick, c.key, k + 1, calls[m].locked, calls[m].locked + window);
    assert InWindow(Picked(calls, pick, c.key), calls[m].locked, window) <= Most(limit);
  }

  lemma RefusedIsFull(limit: int, window: real, calls: seq<Call>, k: nat)
    requires Sequential(calls) && k < |calls|
    requires !Admits(limit, window, DequeAfter(limit, window, calls[..k], calls[k].key), calls[k].read)
    ensures |Recent(Admissions(limit, window, calls[..k], calls[k].key), calls[k].read, window)| >= Most(limit)
  {
    hide Admissions, Recent, Timely, DequeAfter;
    assert calls[..k + 1] == calls[..k] + [calls[k]];
    SequentialPrefix(calls, k + 1);
    DequeIsRecentHistory(limit, window, calls[..k], calls[k]);
  }

  /** Without a window of positive length and without a limit there is nothing to be optimal about. */
  lemma NoWindowNoOptimality(limit: int, window: real, key: string, at: real)
    requires window <= 0.0 && limit <= 0
    ensures var calls, pick := [Call(key, at, at)], [true];
            && Sequential(calls) && WithinLimit(limit, window, calls, pick, key)
            && |Picked(calls, pick, key)| == 1 && Admissions(limit, window, calls, key) == []
  {
    hide Admissions, Picked, HitsAfter, CountIn;
    var c := Call(key, at, at);
    OnePicked(c);
    NeverAdmits(limit, window, [c], key);
    forall from
      ensures InWindow([c], from, window) == 0
    {
      EmptyInterval([c], from, from + window);
    }
  }

  lemma OnePicked(c: Call)
    ensures Picked([c], [true], c.key) == [c]
  {
    hide Picked;
    assert [c][..0] == [] && [c][..1] == [c] && [true][..0] == [] && [true][..1] == [true];
    PickedStep([c], [true], c.key, 0);
    NonePicked(c.key);
  }

  lemma NonePicked(key: string)
    ensures Picked([], [], key) == []
  {
  }

  /**
   No selection that keeps the limit does better: at every prefix of the run the limiter has admitted at least as
   many calls of the key as any other selection of the same calls.
   */
  lemma {:induction false} AdmitsMost(limit: int, window: real, calls: seq<Call>, pick: seq<bool>, key: string, n: nat)
    requires Sequential(calls) && (window > 0.0 || limit > 0)
    requires |pick| == |calls| && n <= |calls| && WithinLimit(limit, window, calls, pick, key)
    ensures |Picked(calls[..n], pick[..n], key)| <= |Admissions(limit, window, calls[..n], key)|
    decreases n
  {
    if n > 0 {
      hide Admissions, Picked, Recent;
      var k := n - 1;
      assert calls[..n][..k] == calls[..k];
      PickedStep(calls, pick, key, k);
      AdmissionsStep(limit, window, calls[..n], key);
      AdmitsMost(limit, window, calls, pick, key, k);
      if calls[k].key == key && !Admits(limit, window, DequeAfter(limit, window, calls[..k], key), calls[k].read) {
        Refused(limit, window, calls, pick, k);
        if window > 0.0 {
          AdmitsMost(limit, window, calls, pick, key, FirstWithin(calls, k, window));
        }
      }
    } else {
      assert calls[..0] == [] && pick[..0] == [];
    }
  }

  /** At every prefix of every sequential run, no selection within the limit has admitted more than the limiter. */
  ghost predicate Optimal(limit: int, window: real) {
    forall calls: seq<Call>, pick: seq<bool>, key, n: nat ::
      Sequential(calls) && |pick| == |calls| && n <= |calls| && WithinLimit(limit, window, calls, pick, key) ==>
        |Picked(calls[..n], pick[..n], key)| <= |Admissions(limit, window, calls[..n], key)|
  }

  /** The limiter is optimal exactly when its window has a length or its limit admits something. */
  lemma OptimalIff(limit: int, window: real)
    ensures Optimal(limit, window) <==> window > 0.0 || limit > 0
  {
    hide Admissions, Picked, WithinLimit, Timely;
    if window > 0.0 || limit > 0 {
      forall calls: seq<Call>, pick: seq<bool>, key, n: nat
        | Sequential(calls) && |pick| == |calls| && n <= |calls| && WithinLimit(limit, window, calls, pick, key)
        ensures |Picked(calls[..n], pick[..n], key)| <= |Admissions(limit, window, calls[..n], key)|
      {
        AdmitsMost(limit, window, calls, pick, key, n);
      }
    } else {
      NoWindowNoOptimality(limit, window, "", 0.0);
      var calls, pick := [Call("", 0.0, 0.0)], [true];
      assert calls[..1] == calls && pick[..1] == pick;
    }
  }
}
