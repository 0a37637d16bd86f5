/**
 Which clock readings the limiter can be trusted with. The clock is read before the lock is taken, so
 the readings of successive requests may run back. Runs here are of one key, one request for each reading.
 */
module ClockReadings {
  import opened RateLimiter
  import opened RateLimitBounds
  import opened ResetWindows

  function Asks(ns: seq<real>, costs: seq<int>): (rs: seq<Request>)
    requires |costs| == |ns|
    ensures |rs| == |ns| && forall i :: 0 <= i < |ns| ==> rs[i] == Ask("k", costs[i], ns[i])
  {
    seq(|ns|, i requires 0 <= i < |ns| => Ask("k", costs[i], ns[i]))
  }

  function Ones(n: nat): (costs: seq<int>)
    ensures |costs| == n && forall i :: 0 <= i < n ==> costs[i] == 1
  {
    seq(n, _ => 1)
  }

  // ----- When forgetting changes no answer -----

  ghost predicate AtMost(ns: seq<real>, last: real) {
    forall i :: 0 <= i < |ns| ==> ns[i] <= last
  }

  /** After one request of cost 1 at each of these readings, one more at the last reading gets the answer
      that counting the whole history gives. */
  ghost predicate AgreesAt(l: Config, ns: seq<real>, last: real) {
    var rs := Asks(ns + [last], Ones(|ns| + 1));
    AnswerAt(l, rs, |ns|) == FullAnswerAt(l, rs, |ns|)
  }

  /** Nothing has been dropped, and everything admitted. */
  ghost predicate KeepsAll(l: Config, ns: seq<real>) {
    && (forall i, j :: 0 <= i < |ns| && 0 <= j < |ns| ==> ns[j] - l.window <= ns[i])
    && |ns| <= l.maxRequests
  }

  lemma {:induction false} PruneKeeps(q: seq<real>, cutoff: real)
    requires forall x :: 0 <= x < |q| ==> cutoff <= q[x]
    ensures Prune(q, cutoff) == q && Recent(q, cutoff) == q
  {
    RecentAll(q, cutoff);
  }

  lemma {:induction false} AllKept(l: Config, ns: seq<real>, rs: seq<Request>, n: nat)
    requires n <= |ns| <= |rs| && KeepsAll(l, ns) && forall i :: 0 <= i < |ns| ==> rs[i] == Ask("k", 1, ns[i])
    ensures Get(TableAt(l, rs, n), "k") == Get(HistoryAt(l, rs, n), "k") == ns[..n]
  {
    hide Prune, Recent, Serve, ServeInFull;
    if n != 0 {
      AllKept(l, ns, rs, n - 1);
      PruneKeeps(ns[..n - 1], ns[n - 1] - l.window);
      assert Repeat(ns[n - 1], 1) == [ns[n - 1]];
      assert ns[..n] == ns[..n - 1] + [ns[n - 1]];
      OneKept(l, TableAt(l, rs, n - 1), HistoryAt(l, rs, n - 1), rs[n - 1], ns[..n - 1]);
    }
  }

  lemma {:induction false} OneKept(l: Config, t: Table, full: Table, r: Request, h: seq<real>)
    requires r.Ask? && r.key == "k" && r.cost == 1 && |h| < l.maxRequests
    requires Get(t, "k") == Get(full, "k") == h
    requires Prune(h, r.now - l.window) == Recent(h, r.now - l.window) == h
    ensures Get(Serve(l, t, r), "k") == Get(ServeInFull(l, full, r), "k") == h + Repeat(r.now, 1)
  {
    hide Prune, Recent, Repeat;
  }

  lemma {:induction false} FirstDescent(ns: seq<real>) returns (i: nat)
    requires !Sorted(ns)
    ensures i + 1 < |ns| && ns[i + 1] < ns[i] && Sorted(ns[..i + 1])
  {
    if Sorted(ns[..|ns| - 1]) {
      i := |ns| - 2;
      forall x, y | 0 <= x < y < |ns| && ns[i] <= ns[i + 1] ensures ns[x] <= ns[y] {
        assert x < |ns| - 1 ==> ns[..|ns| - 1][x] <= ns[..|ns| - 1][i] || x == i;
        assert y < |ns| - 1 ==> ns[..|ns| - 1][x] <= ns[..|ns| - 1][y];
      }
    } else {
      i := FirstDescent(ns[..|ns| - 1]);
      assert ns[..|ns| - 1][..i + 1] == ns[..i + 1];
    }
  }

  lemma {:induction false} StuckBehind(h: seq<real>, x: real)
    requires h != [] && Sorted(h) && x < h[|h| - 1]
    ensures |Prune(h + [x], h[|h| - 1])| == |Recent(h + [x], h[|h| - 1])| + 1
    ensures |Recent(h + [x], h[|h| - 1])| <= |h|
  {
    var cutoff := h[|h| - 1];
    PruneIsRecent(h, cutoff);
    RecentAppend(h, x, cutoff);
    var e := PruneDrops(h, cutoff);
    assert e < |h|;
    PruneBehind(h, x, cutoff);
  }

  lemma {:induction false} PruneBehind(h: seq<real>, x: real, cutoff: real)
    requires Prune(h, cutoff) != []
    ensures Prune(h + [x], cutoff) == Prune(h, cutoff) + [x]
  {
    if h[0] < cutoff {
      PruneBehind(h[1..], x, cutoff);
      assert (h + [x])[1..] == h[1..] + [x];
    }
  }

  /** At a descent, a request one window after the higher reading tells the two limiters apart: the queue
      keeps the lower reading behind the higher one. */
  lemma {:induction false} DescentShows(ns: seq<real>, i: nat) returns (l: Config)
    requires i + 1 < |ns| && ns[i + 1] < ns[i] && Sorted(ns[..i + 1])
    ensures AtMost(ns[..i + 2], ns[i] + l.window) && !AgreesAt(l, ns[..i + 2], ns[i] + l.window)
  {
    hide AgreesAt;
    var h, low := ns[..i + 1], if ns[i + 1] < ns[0] then ns[i + 1] else ns[0];
    l := Config(i + 3, ns[i] - low);
    assert ns[..i + 2] == h + [ns[i + 1]];
    forall x | 0 <= x <= i ensures low <= h[x] <= ns[i] {
      assert x > 0 ==> h[0] <= h[x];
      assert x < i ==> h[x] <= h[i];
    }
    DescentTells(l, h, ns[i + 1]);
  }

  lemma {:induction false} DescentTells(l: Config, h: seq<real>, x: real)
    requires h != [] && Sorted(h) && x < h[|h| - 1]
    requires KeepsAll(l, h + [x]) && |h| + 2 <= l.maxRequests
    ensures !AgreesAt(l, h + [x], h[|h| - 1] + l.window)
  {
    hide KeepsAll, Prune, Recent, TableAt, HistoryAt, Decide;
    var head, last := h + [x], h[|h| - 1] + l.window;
    var rs := Asks(head + [last], Ones(|head| + 1));
    AllKept(l, head, rs, |head|);
    assert head[..|head|] == head && rs[|head|] == Ask("k", 1, last) && last - l.window == h[|h| - 1];
    StuckBehind(h, x);
    OneMoreCounts(l, Prune(head, h[|h| - 1]), Recent(head, h[|h| - 1]), last);
  }

  lemma {:induction false} OneMoreCounts(l: Config, q: seq<real>, h: seq<real>, now: real)
    requires |q| == |h| + 1 <= l.maxRequests - 1
    ensures Decide(l, q, 1, now) != Decide(l, h, 1, now)
  {
  }

  /**
   The readings are nondecreasing if and only if, whatever the limit and the window, a further request
   after any of them, at a reading that is not earlier, is answered as counting the whole history would.
   */
  lemma {:induction false} AnswersAgreeIff(ns: seq<real>)
    ensures Sorted(ns) <==>
            forall l: Config, m: nat, last: real :: m <= |ns| && AtMost(ns[..m], last) ==> AgreesAt(l, ns[..m], last)
  {
    if Sorted(ns) {
      forall l: Config, m: nat, last: real | m <= |ns| && AtMost(ns[..m], last) ensures AgreesAt(l, ns[..m], last) {
        var rs := Asks(ns[..m] + [last], Ones(m + 1));
        PrunedQueueAnswersAsFullHistory(l, rs, m);
      }
    } else {
      var i := FirstDescent(ns);
      var l := DescentShows(ns, i);
    }
  }

  /** With a cost of 1 throughout: at 5 the admission at 0 is forgotten, though it is in the window. */
  lemma {:induction false} ClockRunningBackForgets()
    ensures var l := Config(2, 10.0);
            var rs := [Ask("k", 1, 0.0), Ask("k", 1, 20.0), Ask("k", 1, 5.0)];
            AnswerAt(l, rs, 2).allowed && !FullAnswerAt(l, rs, 2).allowed
  {
    var l, rs := Config(2, 10.0), [Ask("k", 1, 0.0), Ask("k", 1, 20.0), Ask("k", 1, 5.0)];
    assert Repeat(0.0, 1) == [0.0] && Repeat(20.0, 1) == [20.0];
    assert Prune([0.0], 10.0) == [] == Recent([0.0], 10.0);
    RecentAll([0.0, 20.0], -5.0);
    assert Get(TableAt(l, rs, 1), "k") == [0.0] == Get(HistoryAt(l, rs, 1), "k");
    assert Get(TableAt(l, rs, 2), "k") == [20.0] && Get(HistoryAt(l, rs, 2), "k") == [0.0] + [20.0];
  }

  // ----- When no window is overfull -----

  /** Reading j is higher than reading i by more than reading k is away from it. For a window of a length
      between the two, j drops i, and k is in one window with i. */
  predicate Misleading(ni: real, nj: real, nk: real) {
    Distance(ni, nk) < nj - ni
  }

  /** No reading drops an earlier one that is still in a window with a later one. */
  ghost predicate NeverMisleading(ns: seq<real>) {
    forall i, j, k :: 0 <= i < j < k < |ns| ==> !Misleading(ns[i], ns[j], ns[k])
  }

  /** With these costs, the window that starts at a holds no more admitted units than the limit. */
  ghost predicate FitsFrom(l: Config, ns: seq<real>, costs: seq<int>, a: real)
    requires |costs| == |ns|
  {
    CountIn(Get(AdmittedAt(l, Asks(ns, costs), |ns|), "k"), a, a + l.window) <= l.maxRequests
  }

  /** Without resets everything admitted has been admitted since the last one. */
  lemma {:induction false} AllSinceReset(l: Config, rs: seq<Request>, n: nat, key: string)
    requires n <= |rs| && forall i :: 0 <= i < |rs| ==> rs[i].Ask?
    ensures AllAdmitted(l, rs, n, key) == Get(AdmittedAt(l, rs, n), key)
  {
    hide AdmittedAt, AllReset;
    var before := SinceReset(l, rs, n, key);
    if before != [] {
      NothingReset(rs, key, n, before);
    }
  }

  lemma {:induction false} NothingReset(rs: seq<Request>, key: string, n: nat, h: seq<real>)
    requires h != [] && forall i :: 0 <= i < |rs| ==> rs[i].Ask?
    ensures !AllReset(rs, key, n, h)
  {
    assert !ResetSince(rs, key, n, h[0]);
  }

  /** Misled once, the limiter overfills a window. */
  lemma {:induction false} MisleadingOverfills(ns: seq<real>, i: nat, j: nat, k: nat)
    requires i < j < k < |ns| && Misleading(ns[i], ns[j], ns[k])
    ensures !FitsFrom(Config(1, Distance(ns[i], ns[k])), ns, Probe(|ns|, i, k), if ns[i] < ns[k] then ns[i] else ns[k])
  {
    hide AdmittedAt, AllAdmitted, CountIn;
    var rs, costs, l := Asks(ns, Ones(|ns|)), Probe(|ns|, i, k), Config(1, Distance(ns[i], ns[k]));
    LapseOverfills(rs, "k", l.window, i, j, k);
    assert Costing(rs, costs) == Asks(ns, costs);
    AllSinceReset(l, Asks(ns, costs), |ns|, "k");
  }

  lemma {:induction false} MisledReadings(ns: seq<real>, rs: seq<Request>, window: real)
    requires |rs| == |ns| && forall i :: 0 <= i < |ns| ==> rs[i].Ask? && rs[i].now == ns[i]
    requires Misled(rs, "k", window, |ns|)
    ensures !NeverMisleading(ns)
  {
    var i, j, k :| && i < j < k < |ns| && AskOf(rs, i, "k") && AskOf(rs, j, "k") && AskOf(rs, k, "k")
                   && rs[i].now < rs[j].now - window && Distance(rs[i].now, rs[k].now) <= window;
    assert Misleading(ns[i], ns[j], ns[k]);
  }

  /**
   No window is overfull, whatever the limit, the window and the costs, if and only if no reading is
   followed by a higher one that makes the limiter forget it and then by one that is nearer to it.
   */
  lemma {:induction false} WindowsFitIff(ns: seq<real>)
    ensures NeverMisleading(ns) <==>
            forall l: Config, costs: seq<int>, a: real ::
              |costs| == |ns| && 0 <= l.maxRequests ==> FitsFrom(l, ns, costs, a)
  {
    hide Misled, FitsFrom;
    if NeverMisleading(ns) {
      forall l: Config, costs: seq<int>, a: real | |costs| == |ns| && 0 <= l.maxRequests
        ensures FitsFrom(l, ns, costs, a)
      {
        Fits(l, ns, costs, a);
      }
    } else {
      var i, j, k :| 0 <= i < j < k < |ns| && Misleading(ns[i], ns[j], ns[k]);
      MisleadingOverfills(ns, i, j, k);
    }
  }

  lemma {:induction false} Fits(l: Config, ns: seq<real>, costs: seq<int>, a: real)
    requires NeverMisleading(ns) && |costs| == |ns| && 0 <= l.maxRequests
    ensures FitsFrom(l, ns, costs, a)
  {
    hide Misled, CountIn, AdmittedAt;
    if Misled(Asks(ns, costs), "k", l.window, |ns|) {
      MisledReadings(ns, Asks(ns, costs), l.window);
    }
    FitsUnlessMisled(l, Asks(ns, costs), |ns|, "k", a);
  }
}
