/**
 The sliding-window limiter. It keeps one queue of admission times for each client and forgets the
 ones that have left the window; the reference limiter below forgets nothing.
 Clock readings are parameters, taken in the order in which the lock is granted.
 */
module RateLimiter {
  import opened Prelude

  datatype Config = Config(maxRequests: int, window: real)

  datatype Answer = Answer(allowed: bool, remaining: int, retryAfter: int)

  datatype Request = Ask(key: string, cost: int, now: real) | Reset

  type Table = map<string, seq<real>>

  /** Conversion of a float to an integer, which drops the fraction. */
  function Truncate(x: real): int {
    if x >= 0.0 then x.Floor else -((-x).Floor)
  }

  function Get(t: Table, key: string): seq<real> {
    if key in t then t[key] else []
  }

  function Repeat(x: real, n: int): (r: seq<real>)
    ensures |r| == Max(0, n) && forall i :: 0 <= i < |r| ==> r[i] == x
  {
    if n <= 0 then [] else [x] + Repeat(x, n - 1)
  }

  /** Dropping expired times from the front of the queue. */
  function Prune(q: seq<real>, cutoff: real): seq<real> {
    if q != [] && q[0] < cutoff then Prune(q[1..], cutoff) else q
  }

  /** The answer, given the times the limiter believes are in the window. */
  function Decide(l: Config, live: seq<real>, cost: int, now: real): Answer {
    if |live| + cost > l.maxRequests then
      var oldest := if live != [] then live[0] else now;
      Answer(false, 0, Max(1, Truncate(oldest + l.window - now) + 1))
    else
      Answer(true, Max(0, l.maxRequests - |live| - Max(0, cost)), 0)
  }

  function Admit(l: Config, live: seq<real>, cost: int, now: real): seq<real> {
    if Decide(l, live, cost, now).allowed then live + Repeat(now, cost) else live
  }

  function Serve(l: Config, t: Table, r: Request): Table {
    match r
    case Ask(key, cost, now) => t[key := Admit(l, Prune(Get(t, key), now - l.window), cost, now)]
    case Reset => map[]
  }

  class SlidingWindowRateLimiter {
    const config: Config
    var requests: Table

    constructor (maxRequests: int, window: real)
      ensures config == Config(maxRequests, window) && requests == map[]
    {
      config, requests := Config(maxRequests, window), map[];
    }

    method IsAllowed(key: string, cost: int, now: real) returns (answer: Answer)
      modifies this
      ensures requests == Serve(config, old(requests), Ask(key, cost, now))
      ensures answer == Decide(config, Prune(Get(old(requests), key), now - config.window), cost, now)
    {
      var cutoff := now - config.window;
      var q := Get(requests, key);
      while q != [] && q[0] < cutoff
        invariant Prune(q, cutoff) == Prune(Get(old(requests), key), cutoff)
        decreases |q|
      {
        q := q[1..];
      }
      ghost var live := q;
      requests := requests[key := q];
      if |q| + cost > config.maxRequests {
        var oldest := if q != [] then q[0] else now;
        return Answer(false, 0, Max(1, Truncate(oldest + config.window - now) + 1));
      }
      var i := 0;
      while i < cost
        invariant 0 <= i <= Max(0, cost)
        invariant q == live + Repeat(now, i)
      {
        assert Repeat(now, i) + [now] == Repeat(now, i + 1);
        q := q + [now];
        i := i + 1;
      }
      assert Repeat(now, i) == Repeat(now, cost);
      requests := requests[key := q];
      answer := Answer(true, Max(0, config.maxRequests - |q|), 0);
    }

    method ResetAll()
      modifies this
      ensures requests == Serve(config, old(requests), Reset)
    {
      requests := map[];
    }
  }

  // ----- The reference: every admission since the last reset, never forgotten -----

  /** The admissions at or after the cutoff. */
  function Recent(h: seq<real>, cutoff: real): seq<real> {
    if h == [] then []
    else (if h[0] < cutoff then [] else [h[0]]) + Recent(h[1..], cutoff)
  }

  function ServeInFull(l: Config, t: Table, r: Request): Table {
    match r
    case Ask(key, cost, now) =>
      var h := Get(t, key);
      t[key := if Decide(l, Recent(h, now - l.window), cost, now).allowed then h + Repeat(now, cost) else h]
    case Reset => map[]
  }

  function TableAt(l: Config, rs: seq<Request>, n: nat): Table
    requires n <= |rs|
  {
    if n == 0 then map[] else Serve(l, TableAt(l, rs, n - 1), rs[n - 1])
  }

  function HistoryAt(l: Config, rs: seq<Request>, n: nat): Table
    requires n <= |rs|
  {
    if n == 0 then map[] else ServeInFull(l, HistoryAt(l, rs, n - 1), rs[n - 1])
  }

  /** What the limiter answers to request n of a run. */
  function AnswerAt(l: Config, rs: seq<Request>, n: nat): Answer
    requires n < |rs| && rs[n].Ask?
  {
    Decide(l, Prune(Get(TableAt(l, rs, n), rs[n].key), rs[n].now - l.window), rs[n].cost, rs[n].now)
  }

  /** What counting the whole history answers. */
  function FullAnswerAt(l: Config, rs: seq<Request>, n: nat): Answer
    requires n < |rs| && rs[n].Ask?
  {
    Decide(l, Recent(Get(HistoryAt(l, rs, n), rs[n].key), rs[n].now - l.window), rs[n].cost, rs[n].now)
  }

  ghost predicate ClockNeverRunsBack(rs: seq<Request>) {
    forall i, j :: 0 <= i < j < |rs| && rs[i].Ask? && rs[j].Ask? ==> rs[i].now <= rs[j].now
  }

  ghost predicate Sorted(h: seq<real>) {
    forall i, j :: 0 <= i < j < |h| ==> h[i] <= h[j]
  }

  lemma {:induction false} PruneIsRecent(h: seq<real>, cutoff: real)
    requires Sorted(h)
    ensures Prune(h, cutoff) == Recent(h, cutoff)
  {
    if h != [] {
      if h[0] < cutoff {
        PruneIsRecent(h[1..], cutoff);
      } else {
        RecentAll(h, cutoff);
      }
    }
  }

  lemma {:induction false} RecentAll(h: seq<real>, cutoff: real)
    requires forall i :: 0 <= i < |h| ==> cutoff <= h[i]
    ensures Recent(h, cutoff) == h
  {
    if h != [] {
      RecentAll(h[1..], cutoff);
    }
  }

  lemma {:induction false} PruneTwice(h: seq<real>, early: real, late: real)
    requires early <= late
    ensures Prune(Prune(h, early), late) == Prune(h, late)
  {
    if h != [] && h[0] < early {
      PruneTwice(h[1..], early, late);
    }
  }

  lemma {:induction false} PruneAppend(h: seq<real>, cutoff: real, more: seq<real>)
    requires forall i :: 0 <= i < |more| ==> cutoff <= more[i]
    ensures Prune(h + more, cutoff) == Prune(h, cutoff) + more
  {
    if h == [] {
      assert h + more == more;
    } else if h[0] < cutoff {
      PruneAppend(h[1..], cutoff, more);
      assert (h + more)[1..] == h[1..] + more;
    }
  }

  /** The queue is what is left of the history after pruning at some cutoff already passed. */
  ghost predicate Tracks(l: Config, q: seq<real>, h: seq<real>, clock: real) {
    && Sorted(h) && (forall i :: 0 <= i < |h| ==> h[i] <= clock)
    && (|| q == h
        || (exists c :: c <= clock - l.window && q == Prune(h, c))
        || (l.window < 0.0 && forall i :: 0 <= i < |q| ==> q[i] <= clock))
  }

  lemma {:induction false} PruneExpired(q: seq<real>, cutoff: real)
    requires forall i :: 0 <= i < |q| ==> q[i] < cutoff
    ensures Prune(q, cutoff) == []
  {
    if q != [] {
      PruneExpired(q[1..], cutoff);
    }
  }

  lemma {:induction false} TracksPruned(l: Config, q: seq<real>, h: seq<real>, clock: real, now: real)
    requires Tracks(l, q, h, clock) && clock <= now
    ensures Prune(q, now - l.window) == Recent(h, now - l.window)
  {
    PruneIsRecent(h, now - l.window);
    if l.window < 0.0 && forall i :: 0 <= i < |q| ==> q[i] <= clock {
      PruneExpired(q, now - l.window);
      PruneExpired(h, now - l.window);
    } else if q != h {
      var c :| c <= clock - l.window && q == Prune(h, c);
      PruneTwice(h, c, now - l.window);
    }
  }

  lemma {:induction false} TracksLater(l: Config, q: seq<real>, h: seq<real>, clock: real, later: real)
    requires Tracks(l, q, h, clock) && clock <= later
    ensures Tracks(l, q, h, later)
  {
  }

  lemma {:induction false} TracksGrown(l: Config, h: seq<real>, now: real, more: seq<real>)
    requires Sorted(h) && forall i :: 0 <= i < |h| ==> h[i] <= now
    requires forall i :: 0 <= i < |more| ==> more[i] == now
    ensures Tracks(l, Prune(h, now - l.window) + more, h + more, now)
  {
    if l.window < 0.0 {
      PruneExpired(h, now - l.window);
      assert [] + more == more;
    } else {
      PruneAppend(h, now - l.window, more);
    }
  }

  lemma {:induction false} TracksServed(l: Config, q: seq<real>, h: seq<real>, clock: real, cost: int, now: real)
    requires Tracks(l, q, h, clock) && clock <= now
    ensures var cutoff := now - l.window;
            var h' := if Decide(l, Recent(h, cutoff), cost, now).allowed then h + Repeat(now, cost) else h;
            Tracks(l, Admit(l, Prune(q, cutoff), cost, now), h', now)
  {
    var cutoff := now - l.window;
    var live := Prune(h, cutoff);
    assert Prune(q, cutoff) == Recent(h, cutoff) == live by {
      TracksPruned(l, q, h, clock, now);
      PruneIsRecent(h, cutoff);
    }
    if Decide(l, live, cost, now).allowed {
      TracksGrown(l, h, now, Repeat(now, cost));
    } else {
      assert Tracks(l, live, h, now);
    }
  }

  /** The latest clock reading among the first n requests, or a bound below all of them. */
  ghost predicate ClockBound(rs: seq<Request>, n: nat, clock: real)
    requires n <= |rs|
  {
    && (forall i :: 0 <= i < n && rs[i].Ask? ==> rs[i].now <= clock)
    && (forall i :: n <= i < |rs| && rs[i].Ask? ==> clock <= rs[i].now)
  }

  ghost predicate TablesTrack(l: Config, t: Table, full: Table, clock: real) {
    forall key :: Tracks(l, Get(t, key), Get(full, key), clock)
  }

  lemma {:induction false} AskTracks(l: Config, t: Table, full: Table, r: Request, before: real, key: string)
    requires r.Ask? && Tracks(l, Get(t, key), Get(full, key), before) && before <= r.now
    ensures Tracks(l, Get(Serve(l, t, r), key), Get(ServeInFull(l, full, r), key), r.now)
  {
    hide Tracks, Prune, Recent, Repeat;
    var q, h := Get(t, key), Get(full, key);
    if r.key == key {
      var live := Recent(h, r.now - l.window);
      TracksServed(l, q, h, before, r.cost, r.now);
      assert Get(Serve(l, t, r), key) == Admit(l, Prune(q, r.now - l.window), r.cost, r.now);
      assert Get(ServeInFull(l, full, r), key)
          == if Decide(l, live, r.cost, r.now).allowed then h + Repeat(r.now, r.cost) else h;
    } else {
      assert Get(Serve(l, t, r), key) == Get(t, key) && Get(ServeInFull(l, full, r), key) == Get(full, key);
      TracksLater(l, Get(t, key), Get(full, key), before, r.now);
    }
  }

  /** One request keeps every queue in step with its history. */
  lemma {:induction false} ServeTracks(l: Config, t: Table, full: Table, r: Request, before: real, clock: real)
    requires TablesTrack(l, t, full, before) && before <= clock
    requires r.Ask? ==> before <= r.now <= clock
    ensures TablesTrack(l, Serve(l, t, r), ServeInFull(l, full, r), clock)
  {
    forall key ensures Tracks(l, Get(Serve(l, t, r), key), Get(ServeInFull(l, full, r), key), clock) {
      assert Tracks(l, Get(t, key), Get(full, key), before);
      if r.Ask? {
        AskTracks(l, t, full, r, before, key);
        TracksLater(l, Get(Serve(l, t, r), key), Get(ServeInFull(l, full, r), key), r.now, clock);
      }
    }
  }

  lemma {:induction false} TableTracksHistory(l: Config, rs: seq<Request>, n: nat, clock: real)
    requires n <= |rs| && ClockNeverRunsBack(rs) && ClockBound(rs, n, clock)
    ensures TablesTrack(l, TableAt(l, rs, n), HistoryAt(l, rs, n), clock)
  {
    if n != 0 {
      var before := PreviousClock(rs, n, clock);
      TableTracksHistory(l, rs, n - 1, before);
      ServeTracks(l, TableAt(l, rs, n - 1), HistoryAt(l, rs, n - 1), rs[n - 1], before, clock);
    }
  }

  lemma {:induction false} PreviousClock(rs: seq<Request>, n: nat, clock: real) returns (before: real)
    requires 0 < n <= |rs| && ClockNeverRunsBack(rs) && ClockBound(rs, n, clock)
    ensures before <= clock && ClockBound(rs, n - 1, before)
  {
    if rs[n - 1].Ask? {
      before := rs[n - 1].now;
    } else {
      before := clock;
    }
  }

  /** With a clock that never runs back, forgetting expired admissions changes no answer. */
  lemma {:induction false} PrunedQueueAnswersAsFullHistory(l: Config, rs: seq<Request>, n: nat)
    requires n < |rs| && rs[n].Ask? && ClockNeverRunsBack(rs)
    ensures AnswerAt(l, rs, n) == FullAnswerAt(l, rs, n)
  {
    TableTracksHistory(l, rs, n, rs[n].now);
    var key := rs[n].key;
    assert Tracks(l, Get(TableAt(l, rs, n), key), Get(HistoryAt(l, rs, n), key), rs[n].now);
    TracksPruned(l, Get(TableAt(l, rs, n), key), Get(HistoryAt(l, rs, n), key), rs[n].now, rs[n].now);
  }
}
