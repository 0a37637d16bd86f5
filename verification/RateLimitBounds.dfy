/**
 What the limiter promises about the requests it admits: how many a window can hold, and how long a
 refused caller has to wait.
 */
module RateLimitBounds {
  import opened RateLimiter

  // ----- The admissions actually made -----

  /** What the limiter itself admits, by its own answers, since the last reset. */
  function AdmittedAt(l: Config, rs: seq<Request>, n: nat): Table
    requires n <= |rs|
  {
    if n == 0 then map[]
    else
      var t := AdmittedAt(l, rs, n - 1);
      match rs[n - 1]
      case Ask(key, cost, now) =>
        t[key := Get(t, key) + if AnswerAt(l, rs, n - 1).allowed then Repeat(now, cost) else []]
      case Reset => map[]
  }

  /** With a clock that never runs back, the admissions made are those of the full history. */
  lemma {:induction false} AdmittedIsHistory(l: Config, rs: seq<Request>, n: nat)
    requires n <= |rs| && ClockNeverRunsBack(rs)
    ensures AdmittedAt(l, rs, n) == HistoryAt(l, rs, n)
  {
    hide Decide, Prune, Recent, TableAt;
    if n != 0 {
      AdmittedIsHistory(l, rs, n - 1);
      if rs[n - 1].Ask? {
        PrunedQueueAnswersAsFullHistory(l, rs, n - 1);
        assert Get(HistoryAt(l, rs, n - 1), rs[n - 1].key) + [] == Get(HistoryAt(l, rs, n - 1), rs[n - 1].key);
      }
    }
  }

  /** What one request does to the queue of its key and to the admissions made. */
  lemma {:induction false} AskSteps(l: Config, rs: seq<Request>, n: nat)
    requires n < |rs| && rs[n].Ask?
    ensures var live := Prune(Get(TableAt(l, rs, n), rs[n].key), rs[n].now - l.window);
            var more := if AnswerAt(l, rs, n).allowed then Repeat(rs[n].now, rs[n].cost) else [];
            && Get(TableAt(l, rs, n + 1), rs[n].key) == live + more
            && Get(AdmittedAt(l, rs, n + 1), rs[n].key) == Get(AdmittedAt(l, rs, n), rs[n].key) + more
            && (AnswerAt(l, rs, n).allowed <==> |live| + rs[n].cost <= l.maxRequests)
  {
    hide Prune, Repeat;
    assert TableAt(l, rs, n + 1) == Serve(l, TableAt(l, rs, n), rs[n]);
  }

  lemma {:induction false} OthersStay(l: Config, rs: seq<Request>, n: nat, key: string)
    requires n < |rs| && rs[n].Ask? && rs[n].key != key
    ensures Get(TableAt(l, rs, n + 1), key) == Get(TableAt(l, rs, n), key)
    ensures Get(AdmittedAt(l, rs, n + 1), key) == Get(AdmittedAt(l, rs, n), key)
  {
    hide Prune, Repeat, Decide;
    assert TableAt(l, rs, n + 1) == Serve(l, TableAt(l, rs, n), rs[n]);
  }

  // ----- What has been dropped from a queue -----

  predicate AskOf(rs: seq<Request>, i: int, key: string) {
    0 <= i < |rs| && rs[i].Ask? && rs[i].key == key
  }

  /** The value is a clock reading of an earlier request of the key. */
  ghost predicate ReadBefore(rs: seq<Request>, key: string, n: int, v: real) {
    exists i :: i < n && AskOf(rs, i, key) && rs[i].now == v
  }

  /** It is, and a later reading before n left it behind the window. */
  ghost predicate DroppedBefore(rs: seq<Request>, key: string, window: real, n: int, v: real) {
    exists i, j :: i < j < n && AskOf(rs, i, key) && AskOf(rs, j, key) && rs[i].now == v && v < rs[j].now - window
  }

  lemma {:induction false} PruneDrops(q: seq<real>, cutoff: real) returns (e: nat)
    ensures e <= |q| && Prune(q, cutoff) == q[e..] && forall x :: 0 <= x < e ==> q[x] < cutoff
  {
    if q != [] && q[0] < cutoff {
      var f := PruneDrops(q[1..], cutoff);
      e := f + 1;
      assert q[e..] == q[1..][f..];
      assert forall x :: 1 <= x < e ==> q[x] == q[1..][x - 1];
    } else {
      e := 0;
    }
  }

  /** The queue is the rest of the admissions made, after d dropped ones. */
  ghost predicate Follows(l: Config, rs: seq<Request>, key: string, n: nat, q: seq<real>, h: seq<real>, d: nat) {
    && d <= |h| && q == h[d..]
    && (forall x :: 0 <= x < |h| ==> ReadBefore(rs, key, n, h[x]))
    && (forall x :: 0 <= x < d ==> DroppedBefore(rs, key, l.window, n, h[x]))
  }

  lemma {:induction false} FollowsLater(l: Config, rs: seq<Request>, key: string, n: nat, q: seq<real>, h: seq<real>,
                                        d: nat)
    requires Follows(l, rs, key, n, q, h, d)
    ensures Follows(l, rs, key, n + 1, q, h, d)
  {
    forall x | 0 <= x < |h| ensures ReadBefore(rs, key, n + 1, h[x]) {
      assert ReadBefore(rs, key, n, h[x]);
    }
    forall x | 0 <= x < d ensures DroppedBefore(rs, key, l.window, n + 1, h[x]) {
      assert DroppedBefore(rs, key, l.window, n, h[x]);
    }
  }

  lemma {:induction false} FollowsPruned(l: Config, rs: seq<Request>, n: nat, key: string, q: seq<real>, h: seq<real>,
                                         d: nat)
    returns (e: nat)
    requires AskOf(rs, n, key) && Follows(l, rs, key, n, q, h, d)
    ensures Follows(l, rs, key, n + 1, Prune(q, rs[n].now - l.window), h, e)
  {
    FollowsLater(l, rs, key, n, q, h, d);
    var f := PruneDrops(q, rs[n].now - l.window);
    e := d + f;
    forall x | d <= x < e ensures DroppedBefore(rs, key, l.window, n + 1, h[x]) {
      assert h[x] == q[x - d] && ReadBefore(rs, key, n, h[x]);
    }
  }

  lemma {:induction false} FollowsGrown(l: Config, rs: seq<Request>, n: nat, key: string, q: seq<real>, h: seq<real>,
                                        d: nat, more: seq<real>)
    requires AskOf(rs, n, key) && Follows(l, rs, key, n + 1, q, h, d)
    requires forall x :: 0 <= x < |more| ==> more[x] == rs[n].now
    ensures Follows(l, rs, key, n + 1, q + more, h + more, d)
  {
    forall x | 0 <= x < |h + more| ensures ReadBefore(rs, key, n + 1, (h + more)[x]) {
      if x < |h| {
        assert ReadBefore(rs, key, n + 1, h[x]);
      }
    }
    forall x | 0 <= x < d ensures DroppedBefore(rs, key, l.window, n + 1, (h + more)[x]) {
      assert DroppedBefore(rs, key, l.window, n + 1, h[x]);
    }
  }

  lemma {:induction false} QueueFollows(l: Config, rs: seq<Request>, n: nat, key: string) returns (d: nat)
    requires n <= |rs|
    ensures Follows(l, rs, key, n, Get(TableAt(l, rs, n), key), Get(AdmittedAt(l, rs, n), key), d)
  {
    hide Follows, Prune, Decide, Repeat, AnswerAt, TableAt, AdmittedAt;
    if n == 0 {
      d := NothingFollows(l, rs, key, 0);
      NothingAtFirst(l, rs, 0);
    } else if rs[n - 1].Reset? {
      d := NothingFollows(l, rs, key, n);
      NothingAtFirst(l, rs, n);
    } else {
      d := QueueFollows(l, rs, n - 1, key);
      var q, h := Get(TableAt(l, rs, n - 1), key), Get(AdmittedAt(l, rs, n - 1), key);
      if rs[n - 1].key == key {
        var live := Prune(q, rs[n - 1].now - l.window);
        var more := if AnswerAt(l, rs, n - 1).allowed then Repeat(rs[n - 1].now, rs[n - 1].cost) else [];
        d := FollowsPruned(l, rs, n - 1, key, q, h, d);
        RepeatIs(rs[n - 1].now, rs[n - 1].cost);
        FollowsGrown(l, rs, n - 1, key, live, h, d, more);
        AskSteps(l, rs, n - 1);
      } else {
        FollowsLater(l, rs, key, n - 1, q, h, d);
        OthersStay(l, rs, n - 1, key);
      }
    }
  }

  lemma {:induction false} NothingAtFirst(l: Config, rs: seq<Request>, n: nat)
    requires n <= |rs| && (n == 0 || rs[n - 1].Reset?)
    ensures TableAt(l, rs, n) == AdmittedAt(l, rs, n) == map[]
  {
  }

  lemma {:induction false} RepeatIs(x: real, n: int)
    ensures forall i :: 0 <= i < |Repeat(x, n)| ==> Repeat(x, n)[i] == x
  {
  }

  lemma {:induction false} NothingFollows(l: Config, rs: seq<Request>, key: string, n: nat) returns (d: nat)
    ensures Follows(l, rs, key, n, [], [], d)
  {
    d := 0;
  }

  // ----- No window ever holds more than the limit -----

  /** How many admissions fall in the closed interval from a to b. */
  function CountIn(h: seq<real>, a: real, b: real): (c: nat)
    ensures c <= |h|
  {
    if h == [] then 0 else CountIn(h[..|h| - 1], a, b) + if a <= h[|h| - 1] <= b then 1 else 0
  }

  lemma {:induction false} CountConcat(h: seq<real>, more: seq<real>, a: real, b: real)
    ensures CountIn(h + more, a, b) == CountIn(h, a, b) + CountIn(more, a, b)
    decreases |more|
  {
    if more == [] {
      assert h + more == h;
    } else {
      CountConcat(h, more[..|more| - 1], a, b);
      assert (h + more)[..|h + more| - 1] == h + more[..|more| - 1];
    }
  }

  lemma {:induction false} CountNone(h: seq<real>, a: real, b: real)
    requires forall x :: 0 <= x < |h| ==> !(a <= h[x] <= b)
    ensures CountIn(h, a, b) == 0
  {
    if h != [] {
      CountNone(h[..|h| - 1], a, b);
    }
  }

  function Distance(a: real, b: real): real {
    if a < b then b - a else a - b
  }

  /** Reading j drops reading i, which is still in a window with the later reading k. */
  ghost predicate Misled(rs: seq<Request>, key: string, window: real, n: int) {
    exists i, j, k :: && i < j < k < n && AskOf(rs, i, key) && AskOf(rs, j, key) && AskOf(rs, k, key)
                      && rs[i].now < rs[j].now - window && Distance(rs[i].now, rs[k].now) <= window
  }

  /** What a queue has dropped is out of every window the present reading is in. */
  lemma {:induction false} DroppedIsOutside(l: Config, rs: seq<Request>, key: string, n: nat, v: real, a: real)
    requires AskOf(rs, n, key) && DroppedBefore(rs, key, l.window, n + 1, v) && !Misled(rs, key, l.window, n + 1)
    requires a <= rs[n].now <= a + l.window
    ensures !(a <= v <= a + l.window)
  {
    var i, j :| i < j < n + 1 && AskOf(rs, i, key) && AskOf(rs, j, key) && rs[i].now == v && v < rs[j].now - l.window;
    if a <= v <= a + l.window && j < n {
      MisledBy(rs, key, l.window, i, j, n);
    }
  }

  lemma {:induction false} MisledBy(rs: seq<Request>, key: string, window: real, i: int, j: int, k: int)
    requires i < j < k && AskOf(rs, i, key) && AskOf(rs, j, key) && AskOf(rs, k, key)
    requires rs[i].now < rs[j].now - window && Distance(rs[i].now, rs[k].now) <= window
    ensures Misled(rs, key, window, k + 1)
  {
  }

  lemma {:induction false} AdmissionFits(l: Config, rs: seq<Request>, n: nat, key: string, q: seq<real>, h: seq<real>,
                                         d: nat, more: seq<real>, a: real)
    requires AskOf(rs, n, key) && !Misled(rs, key, l.window, n + 1) && Follows(l, rs, key, n + 1, q, h, d)
    requires |q| + |more| <= l.maxRequests && forall x :: 0 <= x < |more| ==> more[x] == rs[n].now
    requires CountIn(h, a, a + l.window) <= l.maxRequests
    ensures CountIn(h + more, a, a + l.window) <= l.maxRequests
  {
    hide Misled, CountIn;
    CountConcat(h, more, a, a + l.window);
    if a <= rs[n].now <= a + l.window {
      assert h == h[..d] + h[d..];
      CountConcat(h[..d], h[d..], a, a + l.window);
      forall x | 0 <= x < d ensures !(a <= h[..d][x] <= a + l.window) {
        DroppedIsOutside(l, rs, key, n, h[x], a);
      }
      CountNone(h[..d], a, a + l.window);
    } else {
      CountNone(more, a, a + l.window);
    }
  }

  /** As long as no reading misleads the queue, no closed interval as long as the window holds more
      admitted units of one key than the limit. */
  lemma {:induction false} FitsUnlessMisled(l: Config, rs: seq<Request>, n: nat, key: string, a: real)
    requires n <= |rs| && 0 <= l.maxRequests && !Misled(rs, key, l.window, n)
    ensures CountIn(Get(AdmittedAt(l, rs, n), key), a, a + l.window) <= l.maxRequests
  {
    hide Follows, Prune, Misled, Repeat, TableAt, AdmittedAt, CountIn;
    if n == 0 || rs[n - 1].Reset? {
      NothingAtFirst(l, rs, n);
      CountNone([], a, a + l.window);
    } else {
      EarlierNotMisled(rs, key, l.window, n);
      FitsUnlessMisled(l, rs, n - 1, key, a);
      if rs[n - 1].key == key {
        var q, h := Get(TableAt(l, rs, n - 1), key), Get(AdmittedAt(l, rs, n - 1), key);
        var d := QueueFollows(l, rs, n - 1, key);
        d := FollowsPruned(l, rs, n - 1, key, q, h, d);
        AskFits(l, rs, n - 1, key, d, a);
      } else {
        OthersStay(l, rs, n - 1, key);
      }
    }
  }

  lemma {:induction false} EarlierNotMisled(rs: seq<Request>, key: string, window: real, n: nat)
    requires 0 < n && !Misled(rs, key, window, n)
    ensures !Misled(rs, key, window, n - 1)
  {
  }

  lemma {:induction false} AskFits(l: Config, rs: seq<Request>, n: nat, key: string, d: nat, a: real)
    requires AskOf(rs, n, key) && !Misled(rs, key, l.window, n + 1) && 0 <= l.maxRequests
    requires var q, h := Get(TableAt(l, rs, n), key), Get(AdmittedAt(l, rs, n), key);
             Follows(l, rs, key, n + 1, Prune(q, rs[n].now - l.window), h, d)
             && CountIn(h, a, a + l.window) <= l.maxRequests
    ensures CountIn(Get(AdmittedAt(l, rs, n + 1), key), a, a + l.window) <= l.maxRequests
  {
    hide Follows, Prune, Misled, CountIn, TableAt, AdmittedAt, AnswerAt;
    var h, live := Get(AdmittedAt(l, rs, n), key), Prune(Get(TableAt(l, rs, n), key), rs[n].now - l.window);
    AskSteps(l, rs, n);
    if AnswerAt(l, rs, n).allowed && rs[n].cost > 0 {
      AdmissionFits(l, rs, n, key, live, h, d, Repeat(rs[n].now, rs[n].cost), a);
    } else {
      assert h + [] == h;
    }
  }

  /** Over every run with a clock that never runs back, no closed interval as long as the window holds
      more units of one key, admitted since the last reset, than the limit. */
  lemma {:induction false} WindowNeverOverfull(l: Config, rs: seq<Request>, n: nat, key: string, a: real)
    requires n <= |rs| && 0 <= l.maxRequests && ClockNeverRunsBack(rs)
    ensures CountIn(Get(AdmittedAt(l, rs, n), key), a, a + l.window) <= l.maxRequests
  {
    FitsUnlessMisled(l, rs, n, key, a);
  }

  // ----- How long to wait -----

  lemma {:induction false} RecentAppend(h: seq<real>, x: real, cutoff: real)
    ensures Recent(h + [x], cutoff) == Recent(h, cutoff) + if x < cutoff then [] else [x]
  {
    if h == [] {
      assert h + [x] == [x] && [x][1..] == [];
    } else {
      RecentAppend(h[1..], x, cutoff);
      assert (h + [x])[1..] == h[1..] + [x];
    }
  }

  lemma {:induction false} RecentIsCount(h: seq<real>, cutoff: real, b: real)
    requires forall i :: 0 <= i < |h| ==> h[i] <= b
    ensures |Recent(h, cutoff)| == CountIn(h, cutoff, b)
  {
    if h != [] {
      RecentIsCount(h[..|h| - 1], cutoff, b);
      assert h == h[..|h| - 1] + [h[|h| - 1]];
      RecentAppend(h[..|h| - 1], h[|h| - 1], cutoff);
    }
  }

  lemma {:induction false} PruneLeaves(q: seq<real>, cutoff: real, d: nat)
    requires Sorted(q) && 1 <= d <= |q|
    ensures |Prune(q, cutoff)| <= |q|
    ensures |Prune(q, cutoff)| <= |q| - d <==> q[d - 1] < cutoff
  {
    var e := PruneDrops(q, cutoff);
    if e < |q| {
      PruneStops(q, cutoff, e);
    }
  }

  lemma {:induction false} PruneStops(q: seq<real>, cutoff: real, e: nat)
    requires e < |q| && Prune(q, cutoff) == q[e..]
    ensures cutoff <= q[e]
  {
    PrunedFront(q, cutoff);
    assert q[e..][0] == q[e];
  }

  lemma {:induction false} PrunedFront(q: seq<real>, cutoff: real)
    ensures Prune(q, cutoff) != [] ==> cutoff <= Prune(q, cutoff)[0]
  {
    if q != [] && q[0] < cutoff {
      PrunedFront(q[1..], cutoff);
    }
  }

  /** The admissions that fill the window at a request. */
  function LiveAt(l: Config, rs: seq<Request>, n: nat): seq<real>
    requires n < |rs| && rs[n].Ask?
  {
    Prune(Get(TableAt(l, rs, n), rs[n].key), rs[n].now - l.window)
  }

  /** Between two requests nothing of key is admitted and no reset happens. */
  ghost predicate Quiet(l: Config, rs: seq<Request>, n: nat, m: nat, key: string)
    requires n <= m <= |rs|
  {
    forall j :: n <= j < m ==> rs[j].Ask? && (rs[j].key == key ==> !AnswerAt(l, rs, j).allowed)
  }

  lemma {:induction false} QuietKeepsAdmissions(l: Config, rs: seq<Request>, n: nat, m: nat, key: string)
    requires n <= m <= |rs| && Quiet(l, rs, n, m, key)
    ensures Get(AdmittedAt(l, rs, m), key) == Get(AdmittedAt(l, rs, n), key)
    decreases m
  {
    hide AnswerAt, TableAt, AdmittedAt, Prune, Repeat;
    if n < m {
      QuietKeepsAdmissions(l, rs, n, m - 1, key);
      if rs[m - 1].key == key {
        AskSteps(l, rs, m - 1);
        assert Get(AdmittedAt(l, rs, m - 1), key) + [] == Get(AdmittedAt(l, rs, m - 1), key);
      } else {
        OthersStay(l, rs, m - 1, key);
      }
    }
  }

  /** What fills the window is the recent part of the admissions made. */
  lemma {:induction false} LiveIsRecent(l: Config, rs: seq<Request>, n: nat)
    requires n < |rs| && rs[n].Ask? && ClockNeverRunsBack(rs)
    ensures var h := Get(AdmittedAt(l, rs, n), rs[n].key);
            && LiveAt(l, rs, n) == Recent(h, rs[n].now - l.window) == Prune(h, rs[n].now - l.window)
            && Sorted(h) && forall i :: 0 <= i < |h| ==> h[i] <= rs[n].now
  {
    hide Prune, Recent, TableAt, HistoryAt, AdmittedAt;
    var key, now := rs[n].key, rs[n].now;
    var h := Get(HistoryAt(l, rs, n), key);
    AdmittedIsHistory(l, rs, n);
    TableTracksHistory(l, rs, n, now);
    assert Tracks(l, Get(TableAt(l, rs, n), key), h, now);
    TracksPruned(l, Get(TableAt(l, rs, n), key), h, now, now);
    PruneIsRecent(h, now - l.window);
  }

  lemma {:induction false} PruneSorted(q: seq<real>, cutoff: real)
    requires Sorted(q)
    ensures Sorted(Prune(q, cutoff))
  {
    var e := PruneDrops(q, cutoff);
  }

  /**
   A request refused at n and repeated at m, with nothing of its key admitted in between, is admitted
   exactly when as many of the live admissions have left the window as its cost exceeds the room.
   */
  lemma {:induction false} WaitIsOverIff(l: Config, rs: seq<Request>, n: nat, m: nat)
    requires n < m < |rs| && ClockNeverRunsBack(rs)
    requires rs[n].Ask? && rs[m].Ask? && rs[n].key == rs[m].key && rs[n].cost == rs[m].cost
    requires 1 <= rs[n].cost <= l.maxRequests
    requires !AnswerAt(l, rs, n).allowed && Quiet(l, rs, n, m, rs[n].key)
    ensures var live := LiveAt(l, rs, n);
            var excess := |live| + rs[n].cost - l.maxRequests;
            && 1 <= excess <= |live|
            && (AnswerAt(l, rs, m).allowed <==> live[excess - 1] + l.window < rs[m].now)
  {
    hide Recent, Prune, TableAt, AdmittedAt;
    var live, later := LiveAt(l, rs, n), rs[m].now - l.window;
    LiveIsRecent(l, rs, n);
    LiveIsRecent(l, rs, m);
    QuietKeepsAdmissions(l, rs, n, m, rs[n].key);
    var h := Get(AdmittedAt(l, rs, n), rs[n].key);
    PruneTwice(h, rs[n].now - l.window, later);
    PruneSorted(h, rs[n].now - l.window);
    PruneLeaves(live, later, |live| + rs[n].cost - l.maxRequests);
  }

  /** With these admissions live and no others, a request of this cost is admitted at that time. */
  predicate AdmittedLater(l: Config, live: seq<real>, cost: int, later: real) {
    Decide(l, Prune(live, later - l.window), cost, later).allowed
  }

  /** The answer's retryAfter is enough for every later repetition exactly when the last admission that
      has to leave does so before it. For a cost of 1 in a full window that is the oldest one. */
  lemma {:induction false} RetryAfterSufficesIff(l: Config, live: seq<real>, cost: int, now: real)
    requires Sorted(live) && 1 <= cost <= l.maxRequests && !Decide(l, live, cost, now).allowed
    ensures var retry := Decide(l, live, cost, now).retryAfter as real;
            var excess := |live| + cost - l.maxRequests;
            && 1 <= excess <= |live|
            && ((forall later :: now + retry <= later ==> AdmittedLater(l, live, cost, later))
                <==> live[excess - 1] + l.window < now + retry)
  {
    var excess := |live| + cost - l.maxRequests;
    var retry := Decide(l, live, cost, now).retryAfter as real;
    forall later: real ensures AdmittedLater(l, live, cost, later) <==> live[excess - 1] + l.window < later {
      PruneLeaves(live, later - l.window, excess);
    }
    assert AdmittedLater(l, live, cost, now + retry) <==> live[excess - 1] + l.window < now + retry;
  }

  /**
   A request of cost 1 refused at n and repeated at m, with nothing of its key admitted in between:
   it is admitted if it waited at least retryAfter seconds, and refused again if it waited at most
   retryAfter - 1. So retryAfter is the least whole number of seconds that is sure to be enough.
   */
  lemma {:induction false} RetryAfterIsEnoughAndTight(l: Config, rs: seq<Request>, n: nat, m: nat)
    requires n < m < |rs| && ClockNeverRunsBack(rs) && 1 <= l.maxRequests
    requires rs[n].Ask? && rs[m].Ask? && rs[n].key == rs[m].key && rs[n].cost == rs[m].cost == 1
    requires !AnswerAt(l, rs, n).allowed && Quiet(l, rs, n, m, rs[n].key)
    ensures var retry := AnswerAt(l, rs, n).retryAfter;
            && (rs[m].now >= rs[n].now + retry as real ==> AnswerAt(l, rs, m).allowed)
            && (rs[m].now <= rs[n].now + (retry - 1) as real ==> !AnswerAt(l, rs, m).allowed)
  {
    hide Recent, Prune, TableAt, AdmittedAt, Decide;
    var live, now := LiveAt(l, rs, n), rs[n].now;
    WaitIsOverIff(l, rs, n, m);
    LiveFits(l, rs, n);
    FullWindowAnswer(l, live, now);
    assert AnswerAt(l, rs, n) == Decide(l, live, 1, now);
  }

  lemma {:induction false} FullWindowAnswer(l: Config, live: seq<real>, now: real)
    requires |live| == l.maxRequests >= 1 && now - l.window <= live[0]
    ensures var retry := Decide(l, live, 1, now).retryAfter;
            now + (retry - 1) as real <= live[0] + l.window < now + retry as real
  {
    var spare := live[0] + l.window - now;
    assert Decide(l, live, 1, now).retryAfter == spare.Floor + 1;
  }

  /** The live admissions are at most the limit, and none has left the window. */
  lemma {:induction false} LiveFits(l: Config, rs: seq<Request>, n: nat)
    requires n < |rs| && rs[n].Ask? && ClockNeverRunsBack(rs) && 0 <= l.maxRequests
    ensures |LiveAt(l, rs, n)| <= l.maxRequests
    ensures LiveAt(l, rs, n) != [] ==> rs[n].now - l.window <= LiveAt(l, rs, n)[0]
  {
    hide Recent, Prune, TableAt, AdmittedAt;
    var h, now := Get(AdmittedAt(l, rs, n), rs[n].key), rs[n].now;
    LiveIsRecent(l, rs, n);
    RecentIsCount(h, now - l.window, now);
    WindowNeverOverfull(l, rs, n, rs[n].key, now - l.window);
    assert now - l.window + l.window == now;
    PrunedFront(Get(TableAt(l, rs, n), rs[n].key), now - l.window);
  }

  // ----- What remains -----

  /** A request of a key, and right after it another at the same reading. */
  ghost predicate AskedAgain(rs: seq<Request>, n: nat) {
    && n + 1 < |rs| && rs[n].Ask? && rs[n + 1].Ask?
    && rs[n + 1].key == rs[n].key && rs[n + 1].now == rs[n].now && rs[n + 1].cost >= 1
  }

  /** Some admission stands in the window before the request, or those of the request itself stay in it. */
  predicate WindowKeeps(l: Config, rs: seq<Request>, n: nat)
    requires n < |rs| && rs[n].Ask?
  {
    0.0 <= l.window || LiveAt(l, rs, n) != [] || rs[n].cost <= 0
  }

  lemma {:induction false} PrunedAgain(q: seq<real>, more: seq<real>, cutoff: real)
    requires Prune(q, cutoff) != [] || more == [] || cutoff <= more[0]
    ensures Prune(Prune(q, cutoff) + more, cutoff) == Prune(q, cutoff) + more
  {
    PrunedFront(q, cutoff);
    assert Prune(q, cutoff) == [] ==> Prune(q, cutoff) + more == more;
  }

  lemma {:induction false} NextQueue(l: Config, rs: seq<Request>, n: nat)
    requires AskedAgain(rs, n)
    ensures var more := if AnswerAt(l, rs, n).allowed then Repeat(rs[n].now, rs[n].cost) else [];
            LiveAt(l, rs, n + 1) == Prune(LiveAt(l, rs, n) + more, rs[n].now - l.window)
  {
    hide TableAt, AnswerAt, Repeat, Prune;
    AskSteps(l, rs, n);
  }

  lemma {:induction false} LiveAgain(l: Config, rs: seq<Request>, n: nat)
    requires AskedAgain(rs, n)
    ensures var more := if AnswerAt(l, rs, n).allowed then Repeat(rs[n].now, rs[n].cost) else [];
            && (WindowKeeps(l, rs, n) || !AnswerAt(l, rs, n).allowed ==>
                  LiveAt(l, rs, n + 1) == LiveAt(l, rs, n) + more)
            && (!WindowKeeps(l, rs, n) ==> LiveAt(l, rs, n + 1) == [])
  {
    hide TableAt, AnswerAt, Prune;
    var more := if AnswerAt(l, rs, n).allowed then Repeat(rs[n].now, rs[n].cost) else [];
    var q, cutoff := Get(TableAt(l, rs, n), rs[n].key), rs[n].now - l.window;
    NextQueue(l, rs, n);
    if WindowKeeps(l, rs, n) || !AnswerAt(l, rs, n).allowed {
      PrunedAgain(q, more, cutoff);
    } else {
      assert LiveAt(l, rs, n) + more == more;
      PruneExpired(more, cutoff);
    }
  }

  /**
   What the answer says remains. After an admission, another request of the key at the same reading is
   admitted if and only if its cost is at most what remains. The exception is a window of negative length,
   which holds nothing: there the whole limit is free again.
   */
  lemma {:induction false} RemainingIsWhatIsLeft(l: Config, rs: seq<Request>, n: nat)
    requires AskedAgain(rs, n) && AnswerAt(l, rs, n).allowed
    ensures AnswerAt(l, rs, n + 1).allowed
       <==> rs[n + 1].cost <= if WindowKeeps(l, rs, n) then AnswerAt(l, rs, n).remaining else l.maxRequests
  {
    hide TableAt, Prune;
    LiveAgain(l, rs, n);
    assert |Repeat(rs[n].now, rs[n].cost)| == if rs[n].cost < 0 then 0 else rs[n].cost;
  }

  /** After a refusal nothing is said to remain; but another request at the same reading is admitted if its cost
      fits, as it may when the window is not full. */
  lemma {:induction false} RemainingAfterRefusal(l: Config, rs: seq<Request>, n: nat)
    requires AskedAgain(rs, n) && !AnswerAt(l, rs, n).allowed
    ensures AnswerAt(l, rs, n).remaining == 0
    ensures AnswerAt(l, rs, n + 1).allowed <==> |LiveAt(l, rs, n)| + rs[n + 1].cost <= l.maxRequests
  {
    hide TableAt, Prune;
    LiveAgain(l, rs, n);
    assert LiveAt(l, rs, n) + [] == LiveAt(l, rs, n);
  }

  /** retryAfter of a refusal is the least whole number of seconds, and at least one, that goes beyond the time
      until the oldest live admission leaves the window; with none, beyond the length of the window. */
  lemma {:induction false} RetryAfterRounds(l: Config, rs: seq<Request>, n: nat)
    requires n < |rs| && rs[n].Ask? && !AnswerAt(l, rs, n).allowed
    ensures var live, retry := LiveAt(l, rs, n), AnswerAt(l, rs, n).retryAfter;
            var wait := if live == [] then l.window else live[0] + l.window - rs[n].now;
            && retry >= 1 && wait < retry as real && (retry == 1 || (retry - 1) as real <= wait)
  {
    hide TableAt, Prune;
    var live := LiveAt(l, rs, n);
    var wait := if live == [] then l.window else live[0] + l.window - rs[n].now;
    assert rs[n].now + l.window - rs[n].now == l.window;
    if wait < 0.0 {
      assert Truncate(wait) <= 0;
    }
  }
}
