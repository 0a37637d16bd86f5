/**
 Windows over everything the limiter has admitted for a key, resets or not. Two things make it forget an
 admission: a reset, and a clock reading that leaves the admission behind the window.
 */
module ResetWindows {
  import opened RateLimiter
  import opened RateLimitBounds

  /** Every unit admitted for a key by the first n requests, whatever has been reset since. */
  function AllAdmitted(l: Config, rs: seq<Request>, n: nat, key: string): seq<real>
    requires n <= |rs|
  {
    if n == 0 then []
    else
      AllAdmitted(l, rs, n - 1, key)
      + if AskOf(rs, n - 1, key) && AnswerAt(l, rs, n - 1).allowed then Repeat(rs[n - 1].now, rs[n - 1].cost) else []
  }

  /** The value is a reading of a request of the key that a later reset, before n, made the limiter forget. */
  ghost predicate ResetSince(rs: seq<Request>, key: string, n: int, v: real) {
    exists i, j :: i < j < n <= |rs| && AskOf(rs, i, key) && rs[i].now == v && rs[j].Reset?
  }

  ghost predicate AllReset(rs: seq<Request>, key: string, n: int, h: seq<real>) {
    forall x :: 0 <= x < |h| ==> ResetSince(rs, key, n, h[x])
  }

  lemma {:induction false} ResetLater(rs: seq<Request>, key: string, n: nat, h: seq<real>)
    requires n < |rs| && AllReset(rs, key, n, h)
    ensures AllReset(rs, key, n + 1, h)
  {
    forall x | 0 <= x < |h| ensures ResetSince(rs, key, n + 1, h[x]) {
      assert ResetSince(rs, key, n, h[x]);
    }
  }

  lemma {:induction false} ReadThenReset(l: Config, rs: seq<Request>, n: nat, key: string)
    requires n < |rs| && rs[n].Reset?
    ensures AllReset(rs, key, n + 1, Get(AdmittedAt(l, rs, n), key))
  {
    hide Follows, TableAt, AdmittedAt;
    var d := QueueFollows(l, rs, n, key);
    FollowsReads(l, rs, key, n, Get(TableAt(l, rs, n), key), Get(AdmittedAt(l, rs, n), key), d);
  }

  lemma {:induction false} FollowsReads(l: Config, rs: seq<Request>, key: string, n: nat,
                                        q: seq<real>, h: seq<real>, d: nat)
    requires Follows(l, rs, key, n, q, h, d)
    ensures forall x :: 0 <= x < |h| ==> ReadBefore(rs, key, n, h[x])
  {
  }

  /** All admissions are those made before the last reset, followed by those made since. */
  lemma {:induction false} SinceReset(l: Config, rs: seq<Request>, n: nat, key: string) returns (before: seq<real>)
    requires n <= |rs|
    ensures AllAdmitted(l, rs, n, key) == before + Get(AdmittedAt(l, rs, n), key) && AllReset(rs, key, n, before)
  {
    hide AnswerAt, TableAt, AdmittedAt, AllReset, Repeat, Prune;
    if n == 0 {
      before := [];
      NothingAtFirst(l, rs, 0);
      NoneReset(rs, key);
    } else {
      before := SinceReset(l, rs, n - 1, key);
      var since := Get(AdmittedAt(l, rs, n - 1), key);
      ResetLater(rs, key, n - 1, before);
      if rs[n - 1].Reset? {
        NothingAtFirst(l, rs, n);
        ReadThenReset(l, rs, n - 1, key);
        BothReset(rs, key, n, before, since);
        before := before + since;
      } else if rs[n - 1].key == key {
        AskSteps(l, rs, n - 1);
      } else {
        OthersStay(l, rs, n - 1, key);
      }
    }
  }

  lemma {:induction false} NoneReset(rs: seq<Request>, key: string)
    ensures AllReset(rs, key, 0, [])
  {
  }

  lemma {:induction false} BothReset(rs: seq<Request>, key: string, n: nat, a: seq<real>, b: seq<real>)
    requires AllReset(rs, key, n, a) && AllReset(rs, key, n, b)
    ensures AllReset(rs, key, n, a + b)
  {
  }

  /** What one request of the key admits is added. */
  lemma {:induction false} AllSteps(l: Config, rs: seq<Request>, n: nat, key: string)
    requires n < |rs|
    ensures !AskOf(rs, n, key) ==> AllAdmitted(l, rs, n + 1, key) == AllAdmitted(l, rs, n, key)
    ensures AskOf(rs, n, key) ==>
              exists more :: && AllAdmitted(l, rs, n + 1, key) == AllAdmitted(l, rs, n, key) + more
                             && Get(AdmittedAt(l, rs, n + 1), key) == Get(AdmittedAt(l, rs, n), key) + more
                             && forall x :: 0 <= x < |more| ==> more[x] == rs[n].now
  {
    hide Prune, AdmittedAt, TableAt, AnswerAt;
    if AskOf(rs, n, key) {
      AskSteps(l, rs, n);
      var more := if AnswerAt(l, rs, n).allowed then Repeat(rs[n].now, rs[n].cost) else [];
      assert AllAdmitted(l, rs, n + 1, key) == AllAdmitted(l, rs, n, key) + more;
    }
  }

  // ----- When no window is overfull -----

  /** Request j makes the limiter forget what request i of the key admitted. */
  predicate Forgets(rs: seq<Request>, key: string, window: real, i: int, j: int)
    requires AskOf(rs, i, key)
  {
    && i < j < |rs|
    && (rs[j].Reset? || (rs[j].key == key && rs[i].now < rs[j].now - window))
  }

  /** Of two requests of the key that one window can hold, the first was forgotten before the second. */
  ghost predicate Lapses(rs: seq<Request>, key: string, window: real, n: int) {
    exists i, j, k :: && i < j < k < n && AskOf(rs, i, key) && AskOf(rs, k, key)
                      && Forgets(rs, key, window, i, j) && Distance(rs[i].now, rs[k].now) <= window
  }

  lemma {:induction false} LapseBy(rs: seq<Request>, key: string, window: real, i: int, j: int, k: int)
    requires i < j < k && AskOf(rs, i, key) && AskOf(rs, k, key)
    requires Forgets(rs, key, window, i, j) && Distance(rs[i].now, rs[k].now) <= window
    ensures Lapses(rs, key, window, k + 1)
  {
  }

  lemma {:induction false} ResetIsOutside(rs: seq<Request>, key: string, n: nat, window: real, v: real, a: real)
    requires AskOf(rs, n, key) && ResetSince(rs, key, n + 1, v) && !Lapses(rs, key, window, n + 1)
    requires a <= rs[n].now <= a + window
    ensures !(a <= v <= a + window)
  {
    var i, j :| i < j < n + 1 && AskOf(rs, i, key) && rs[i].now == v && rs[j].Reset?;
    if a <= v <= a + window {
      LapseBy(rs, key, window, i, j, n);
    }
  }

  lemma {:induction false} NotMisled(rs: seq<Request>, key: string, window: real, n: nat)
    requires !Lapses(rs, key, window, n)
    ensures !Misled(rs, key, window, n)
    ensures 0 < n ==> !Lapses(rs, key, window, n - 1)
  {
    if Misled(rs, key, window, n) {
      var i, j, k :| && i < j < k < n && AskOf(rs, i, key) && AskOf(rs, j, key) && AskOf(rs, k, key)
                     && rs[i].now < rs[j].now - window && Distance(rs[i].now, rs[k].now) <= window;
      assert Forgets(rs, key, window, i, j);
    }
  }

  /** As long as nothing is forgotten too early, no closed interval as long as the window holds more admitted
      units of the key than the limit, whatever has been reset. */
  lemma {:induction false} FitsUnlessLapsing(l: Config, rs: seq<Request>, n: nat, key: string, a: real)
    requires n <= |rs| && 0 <= l.maxRequests && !Lapses(rs, key, l.window, n)
    ensures CountIn(AllAdmitted(l, rs, n, key), a, a + l.window) <= l.maxRequests
  {
    hide Lapses, Misled, CountIn, AdmittedAt, AllAdmitted, ResetSince;
    if n == 0 {
      NothingAdmitted(l, rs, key, a);
    } else {
      NotMisled(rs, key, l.window, n);
      AllSteps(l, rs, n - 1, key);
      if AskOf(rs, n - 1, key) && a <= rs[n - 1].now <= a + l.window {
        var before := SinceReset(l, rs, n, key);
        CountConcat(before, Get(AdmittedAt(l, rs, n), key), a, a + l.window);
        forall x | 0 <= x < |before| ensures !(a <= before[x] <= a + l.window) {
          ResetIsOutside(rs, key, n - 1, l.window, before[x], a);
        }
        CountNone(before, a, a + l.window);
        FitsUnlessMisled(l, rs, n, key, a);
      } else {
        FitsUnlessLapsing(l, rs, n - 1, key, a);
        OutsideCountsNothing(l, rs, n - 1, key, a);
      }
    }
  }

  lemma {:induction false} NothingAdmitted(l: Config, rs: seq<Request>, key: string, a: real)
    ensures CountIn(AllAdmitted(l, rs, 0, key), a, a + l.window) == 0
  {
  }

  lemma {:induction false} OutsideCountsNothing(l: Config, rs: seq<Request>, n: nat, key: string, a: real)
    requires n < |rs| && !(AskOf(rs, n, key) && a <= rs[n].now <= a + l.window)
    ensures CountIn(AllAdmitted(l, rs, n + 1, key), a, a + l.window)
         == CountIn(AllAdmitted(l, rs, n, key), a, a + l.window)
  {
    hide CountIn, AdmittedAt, AllAdmitted;
    AllSteps(l, rs, n, key);
    if AskOf(rs, n, key) {
      var more :| && AllAdmitted(l, rs, n + 1, key) == AllAdmitted(l, rs, n, key) + more
                  && forall x :: 0 <= x < |more| ==> more[x] == rs[n].now;
      CountConcat(AllAdmitted(l, rs, n, key), more, a, a + l.window);
      CountNone(more, a, a + l.window);
    }
  }

  // ----- And when one is -----

  /** The same requests at other costs. */
  function Costing(rs: seq<Request>, costs: seq<int>): (r: seq<Request>)
    requires |costs| == |rs|
    ensures |r| == |rs|
    ensures forall i :: 0 <= i < |rs| ==> (rs[i].Reset? <==> r[i].Reset?)
    ensures forall i :: 0 <= i < |rs| && rs[i].Ask? ==> r[i] == Ask(rs[i].key, costs[i], rs[i].now)
  {
    seq(|rs|, i requires 0 <= i < |rs| => if rs[i].Ask? then Ask(rs[i].key, costs[i], rs[i].now) else Reset)
  }

  /** Cost 1 at the requests i and k, and nothing asked for by the others. */
  function Probe(n: nat, i: int, k: int): (costs: seq<int>)
    ensures |costs| == n && forall x :: 0 <= x < n ==> costs[x] == if x == i || x == k then 1 else 0
  {
    seq(n, x => if x == i || x == k then 1 else 0)
  }

  lemma {:induction false} SameLapses(rs: seq<Request>, costs: seq<int>, key: string, window: real, n: int)
    requires |costs| == |rs| && Lapses(Costing(rs, costs), key, window, n)
    ensures Lapses(rs, key, window, n)
  {
    var other := Costing(rs, costs);
    var i, j, k :| && i < j < k < n && AskOf(other, i, key) && AskOf(other, k, key)
                   && Forgets(other, key, window, i, j) && Distance(other[i].now, other[k].now) <= window;
    assert AskOf(rs, i, key) && AskOf(rs, k, key) && Forgets(rs, key, window, i, j);
  }

  /** The queue of the probe and its admissions after n requests. */
  ghost predicate Probed(ni: real, nk: real, i: int, j: int, k: int, n: nat, q: seq<real>, h: seq<real>) {
    && h == (if n <= i then [] else if n <= k then [ni] else [ni, nk])
    && (n <= i ==> q == []) && (n <= j ==> q == [] || q == [ni]) && (j < n <= k ==> q == [])
  }

  lemma {:induction false} PruneShort(x: real, cutoff: real)
    ensures Prune([], cutoff) == [] && Prune([x], cutoff) == if x < cutoff then [] else [x]
    ensures Repeat(x, 1) == [x] && Repeat(x, 0) == []
  {
  }

  lemma {:induction false} ProbedAsk(ni: real, nk: real, window: real, i: nat, j: int, k: int, n: nat, now: real,
                                     q: seq<real>, h: seq<real>)
    requires i < j < k && Probed(ni, nk, i, j, k, n, q, h)
    requires (n == i ==> now == ni) && (n == k ==> now == nk) && (n == j ==> ni < now - window)
    ensures var cost, live := if n == i || n == k then 1 else 0, Prune(q, now - window);
            var more := if |live| + cost <= 1 then Repeat(now, cost) else [];
            Probed(ni, nk, i, j, k, n + 1, live + more, h + more)
  {
    hide Prune, Repeat;
    PruneShort(ni, now - window);
    PruneShort(now, 0.0);
  }

  lemma {:induction false} ProbedRest(ni: real, nk: real, i: nat, j: int, k: int, n: nat, q: seq<real>, h: seq<real>)
    requires i < j < k && Probed(ni, nk, i, j, k, n, q, h) && n != i && n != k
    ensures n != j ==> Probed(ni, nk, i, j, k, n + 1, q, h)
    ensures Probed(ni, nk, i, j, k, n + 1, [], h)
  {
  }

  lemma {:induction false} ProbeNext(l: Config, rs: seq<Request>, key: string, i: int, j: int, k: int, n: nat)
    requires n < |rs| && i < j < k && AskOf(rs, i, key) && AskOf(rs, k, key) && Forgets(rs, key, l.window, i, j)
    requires l.maxRequests == 1
    requires forall x :: 0 <= x < |rs| && rs[x].Ask? ==> rs[x].cost == if x == i || x == k then 1 else 0
    requires Probed(rs[i].now, rs[k].now, i, j, k, n, Get(TableAt(l, rs, n), key), AllAdmitted(l, rs, n, key))
    ensures Probed(rs[i].now, rs[k].now, i, j, k, n + 1,
                   Get(TableAt(l, rs, n + 1), key), AllAdmitted(l, rs, n + 1, key))
  {
    hide TableAt, AdmittedAt, Prune, Repeat, AnswerAt, Probed, AllAdmitted;
    var q, h := Get(TableAt(l, rs, n), key), AllAdmitted(l, rs, n, key);
    AddedNext(l, rs, n, key);
    if rs[n].Reset? {
      NothingAtFirst(l, rs, n + 1);
      ProbedRest(rs[i].now, rs[k].now, i, j, k, n, q, h);
    } else if rs[n].key != key {
      OthersStay(l, rs, n, key);
      ProbedRest(rs[i].now, rs[k].now, i, j, k, n, q, h);
    } else {
      AskSteps(l, rs, n);
      ProbedAsk(rs[i].now, rs[k].now, l.window, i, j, k, n, rs[n].now, q, h);
    }
  }

  lemma {:induction false} AddedNext(l: Config, rs: seq<Request>, n: nat, key: string)
    requires n < |rs|
    ensures AllAdmitted(l, rs, n + 1, key) == AllAdmitted(l, rs, n, key)
              + if AskOf(rs, n, key) && AnswerAt(l, rs, n).allowed then Repeat(rs[n].now, rs[n].cost) else []
    ensures !AskOf(rs, n, key) ==> AllAdmitted(l, rs, n + 1, key) == AllAdmitted(l, rs, n, key)
  {
    hide AnswerAt, Repeat;
  }

  lemma {:induction false} ProbeRuns(l: Config, rs: seq<Request>, key: string, i: int, j: int, k: int, n: nat)
    requires n <= |rs| && i < j < k && AskOf(rs, i, key) && AskOf(rs, k, key) && Forgets(rs, key, l.window, i, j)
    requires l.maxRequests == 1
    requires forall x :: 0 <= x < |rs| && rs[x].Ask? ==> rs[x].cost == if x == i || x == k then 1 else 0
    ensures Probed(rs[i].now, rs[k].now, i, j, k, n, Get(TableAt(l, rs, n), key), AllAdmitted(l, rs, n, key))
  {
    hide AllAdmitted, TableAt, Probed;
    if n == 0 {
      ProbeAtFirst(l, rs, key, i, j, k);
    } else {
      ProbeRuns(l, rs, key, i, j, k, n - 1);
      ProbeNext(l, rs, key, i, j, k, n - 1);
    }
  }

  lemma {:induction false} ProbeAtFirst(l: Config, rs: seq<Request>, key: string, i: int, j: int, k: int)
    requires 0 <= i < j < k < |rs| && rs[i].Ask? && rs[k].Ask?
    ensures Probed(rs[i].now, rs[k].now, i, j, k, 0, Get(TableAt(l, rs, 0), key), AllAdmitted(l, rs, 0, key))
  {
  }

  lemma {:induction false} BothCount(x: real, y: real, a: real, b: real)
    requires a <= x <= b && a <= y <= b
    ensures CountIn([x, y], a, b) == 2
  {
    assert [x, y][..1] == [x] && [x][..0] == [];
  }

  /** All that is admitted in the run fits in the window from a on. */
  ghost predicate FitsAcross(l: Config, rs: seq<Request>, key: string, a: real) {
    CountIn(AllAdmitted(l, rs, |rs|, key), a, a + l.window) <= l.maxRequests
  }

  /** Under a limit of one, the two requests fill a window with two units. */
  lemma {:induction false} LapseOverfills(rs: seq<Request>, key: string, window: real, i: int, j: int, k: int)
    requires i < j < k && AskOf(rs, i, key) && AskOf(rs, k, key) && Forgets(rs, key, window, i, j)
    requires Distance(rs[i].now, rs[k].now) <= window
    ensures !FitsAcross(Config(1, window), Costing(rs, Probe(|rs|, i, k)), key,
                        if rs[i].now < rs[k].now then rs[i].now else rs[k].now)
  {
    hide TableAt, AllAdmitted, CountIn;
    var run, a := Costing(rs, Probe(|rs|, i, k)), if rs[i].now < rs[k].now then rs[i].now else rs[k].now;
    ProbeRuns(Config(1, window), run, key, i, j, k, |rs|);
    BothCount(rs[i].now, rs[k].now, a, a + window);
  }

  /**
   Whatever the limit and the costs, no window of this length is overfull if and only if, of two requests of
   the key that such a window can hold, the first is never forgotten before the second. This is for any
   keys, any resets and any clock readings.
   */
  lemma {:induction false} WindowsFitAcrossResetsIff(rs: seq<Request>, key: string, window: real)
    ensures !Lapses(rs, key, window, |rs|) <==>
            forall l: Config, costs: seq<int>, a: real ::
              |costs| == |rs| && 0 <= l.maxRequests && l.window == window ==> FitsAcross(l, Costing(rs, costs), key, a)
  {
    hide Lapses, Forgets, AllAdmitted, CountIn;
    if !Lapses(rs, key, window, |rs|) {
      forall l: Config, costs: seq<int>, a: real | |costs| == |rs| && 0 <= l.maxRequests && l.window == window
        ensures FitsAcross(l, Costing(rs, costs), key, a)
      {
        if Lapses(Costing(rs, costs), key, window, |rs|) {
          SameLapses(rs, costs, key, window, |rs|);
        }
        FitsUnlessLapsing(l, Costing(rs, costs), |rs|, key, a);
      }
    } else {
      LapseShows(rs, key, window);
    }
  }

  lemma {:induction false} LapseShows(rs: seq<Request>, key: string, window: real)
    requires Lapses(rs, key, window, |rs|)
    ensures exists l: Config, costs: seq<int>, a: real ::
              |costs| == |rs| && 0 <= l.maxRequests && l.window == window && !FitsAcross(l, Costing(rs, costs), key, a)
  {
    hide FitsAcross;
    var i, j, k :| && i < j < k < |rs| && AskOf(rs, i, key) && AskOf(rs, k, key)
                   && Forgets(rs, key, window, i, j) && Distance(rs[i].now, rs[k].now) <= window;
    LapseOverfills(rs, key, window, i, j, k);
  }

  /** Two requests of the key that one window can hold, with a reset between them. */
  predicate ResetBetween(rs: seq<Request>, key: string, window: real, i: int, j: int, k: int) {
    && i < j < k < |rs| && AskOf(rs, i, key) && rs[j].Reset? && AskOf(rs, k, key)
    && rs[k].now - rs[i].now <= window
  }

  /** With a clock that never runs back, resets alone decide: no window is overfull, whatever the limit and the
      costs, if and only if none lies between two requests of the key that one window can hold. */
  lemma {:induction false} ResetsOverfillIff(rs: seq<Request>, key: string, window: real)
    requires ClockNeverRunsBack(rs)
    ensures (exists i, j, k :: ResetBetween(rs, key, window, i, j, k)) <==>
            exists l: Config, costs: seq<int>, a: real ::
              |costs| == |rs| && 0 <= l.maxRequests && l.window == window && !FitsAcross(l, Costing(rs, costs), key, a)
  {
    hide FitsAcross, Lapses;
    WindowsFitAcrossResetsIff(rs, key, window);
    if i, j, k :| ResetBetween(rs, key, window, i, j, k) {
      LapseBy(rs, key, window, i, j, k);
      LapsesLater(rs, key, window, k + 1, |rs|);
    } else if Lapses(rs, key, window, |rs|) {
      OnlyResetsLapse(rs, key, window);
    }
  }

  lemma {:induction false} LapsesLater(rs: seq<Request>, key: string, window: real, n: int, m: int)
    requires n <= m && Lapses(rs, key, window, n)
    ensures Lapses(rs, key, window, m)
  {
  }

  lemma {:induction false} OnlyResetsLapse(rs: seq<Request>, key: string, window: real)
    requires ClockNeverRunsBack(rs) && Lapses(rs, key, window, |rs|)
    ensures exists i, j, k :: ResetBetween(rs, key, window, i, j, k)
  {
    var i, j, k :| && i < j < k < |rs| && AskOf(rs, i, key) && AskOf(rs, k, key)
                   && Forgets(rs, key, window, i, j) && Distance(rs[i].now, rs[k].now) <= window;
    assert rs[j].Ask? ==> rs[j].now <= rs[k].now;
    assert ResetBetween(rs, key, window, i, j, k);
  }

  /** A reset between two requests at the same reading: the window holds two units under a limit of one. */
  lemma {:induction false} ResetRefillsWindow()
    ensures var rs := [Ask("k", 1, 0.0), Reset, Ask("k", 1, 0.0)];
            ClockNeverRunsBack(rs) && CountIn(AllAdmitted(Config(1, 10.0), rs, 3, "k"), 0.0, 10.0) == 2
  {
    hide TableAt, AllAdmitted, CountIn;
    var rs := [Ask("k", 1, 0.0), Reset, Ask("k", 1, 0.0)];
    ProbeRuns(Config(1, 10.0), rs, "k", 0, 1, 2, 3);
    BothCount(0.0, 0.0, 0.0, 10.0);
  }

  // ----- How far resets can fill a window -----

  predicate AskIn(rs: seq<Request>, key: string, a: real, b: real, i: int) {
    AskOf(rs, i, key) && a <= rs[i].now <= b
  }

  /** Some request of the key before j falls in the interval. */
  ghost predicate AskedBefore(rs: seq<Request>, key: string, a: real, b: real, j: int) {
    exists i :: i < j && AskIn(rs, key, a, b, i)
  }

  ghost predicate AskedBetween(rs: seq<Request>, key: string, a: real, b: real, j: int, n: int) {
    exists k :: j < k < n && AskIn(rs, key, a, b, k)
  }

  /** How many of the first n requests are resets that come after a request of the key in the interval. */
  ghost function ResetsAfter(rs: seq<Request>, key: string, a: real, b: real, n: nat): nat
    requires n <= |rs|
  {
    if n == 0 then 0
    else ResetsAfter(rs, key, a, b, n - 1) + if rs[n - 1].Reset? && AskedBefore(rs, key, a, b, n - 1) then 1 else 0
  }

  /** How many of the first n requests are resets that lie between two requests of the key in the interval, the
      second of them before m. */
  ghost function ResetsInside(rs: seq<Request>, key: string, a: real, b: real, n: nat, m: nat): nat
    requires n <= |rs|
  {
    if n == 0 then 0
    else
      ResetsInside(rs, key, a, b, n - 1, m)
      + if rs[n - 1].Reset? && AskedBefore(rs, key, a, b, n - 1) && AskedBetween(rs, key, a, b, n - 1, m) then 1 else 0
  }

  lemma {:induction false} InsideGrows(rs: seq<Request>, key: string, a: real, b: real, n: nat, m: nat)
    requires n <= |rs|
    ensures ResetsInside(rs, key, a, b, n, m) <= ResetsInside(rs, key, a, b, n, m + 1)
  {
    if n > 0 {
      InsideGrows(rs, key, a, b, n - 1, m);
    }
  }

  /** When the last request counted falls in the interval, the resets after its first request are inside. */
  lemma {:induction false} AfterIsInside(rs: seq<Request>, key: string, a: real, b: real, n: nat, last: nat)
    requires n <= last < |rs| && AskIn(rs, key, a, b, last)
    ensures ResetsInside(rs, key, a, b, n, last + 1) == ResetsAfter(rs, key, a, b, n)
  {
    hide AskedBefore;
    if n > 0 {
      AfterIsInside(rs, key, a, b, n - 1, last);
    }
  }

  lemma {:induction false} NothingInside(l: Config, rs: seq<Request>, n: nat, key: string, a: real, b: real)
    requires n <= |rs| && b == a + l.window && forall i :: i < n ==> !AskIn(rs, key, a, b, i)
    ensures CountIn(AllAdmitted(l, rs, n, key), a, a + l.window) == 0
  {
    hide CountIn, AllAdmitted;
    if n == 0 {
      NothingAdmitted(l, rs, key, a);
    } else {
      NothingInside(l, rs, n - 1, key, a, b);
      assert !AskIn(rs, key, a, b, n - 1);
      OutsideCountsNothing(l, rs, n - 1, key, a);
    }
  }

  lemma {:induction false} OneMoreLimit(r: nat, s: nat, limit: int)
    requires s == r + 1
    ensures s * limit == r * limit + limit
  {
  }

  lemma {:induction false} SameGrowth(l: Config, rs: seq<Request>, n: nat, key: string, a: real, b: real)
    requires n < |rs| && rs[n].Ask?
    ensures CountIn(AllAdmitted(l, rs, n + 1, key), a, b) - CountIn(Get(AdmittedAt(l, rs, n + 1), key), a, b)
         == CountIn(AllAdmitted(l, rs, n, key), a, b) - CountIn(Get(AdmittedAt(l, rs, n), key), a, b)
  {
    hide CountIn, AllAdmitted, AdmittedAt;
    var h, since := AllAdmitted(l, rs, n, key), Get(AdmittedAt(l, rs, n), key);
    AllSteps(l, rs, n, key);
    if AskOf(rs, n, key) {
      var more :| && AllAdmitted(l, rs, n + 1, key) == h + more
                  && Get(AdmittedAt(l, rs, n + 1), key) == since + more;
      CountConcat(h, more, a, b);
      CountConcat(since, more, a, b);
    } else {
      OthersStay(l, rs, n, key);
    }
  }

  /** Each reset after the first request in the interval has ended at most one limit's worth. */
  lemma {:induction false} EachResetRefills(l: Config, rs: seq<Request>, n: nat, key: string, a: real)
    requires n <= |rs| && 0 <= l.maxRequests && !Misled(rs, key, l.window, n)
    ensures CountIn(AllAdmitted(l, rs, n, key), a, a + l.window)
         <= ResetsAfter(rs, key, a, a + l.window, n) * l.maxRequests
            + CountIn(Get(AdmittedAt(l, rs, n), key), a, a + l.window)
  {
    hide CountIn, AllAdmitted, AdmittedAt, Misled, AskedBefore;
    var b := a + l.window;
    if n == 0 {
      NothingAdmitted(l, rs, key, a);
    } else {
      var early, late := ResetsAfter(rs, key, a, b, n - 1), ResetsAfter(rs, key, a, b, n);
      EarlierNotMisled(rs, key, l.window, n);
      EachResetRefills(l, rs, n - 1, key, a);
      if rs[n - 1].Ask? {
        SameGrowth(l, rs, n - 1, key, a, b);
      } else if AskedBefore(rs, key, a, b, n - 1) {
        AllSteps(l, rs, n - 1, key);
        FitsUnlessMisled(l, rs, n - 1, key, a);
        OneMoreLimit(early, late, l.maxRequests);
      } else {
        AllSteps(l, rs, n - 1, key);
        NotAskedBefore(rs, key, a, b, n - 1);
        NothingInside(l, rs, n - 1, key, a, b);
        assert late * l.maxRequests >= 0;
      }
    }
  }

  lemma {:induction false} NotAskedBefore(rs: seq<Request>, key: string, a: real, b: real, n: int)
    requires !AskedBefore(rs, key, a, b, n)
    ensures forall i :: i < n ==> !AskIn(rs, key, a, b, i)
  {
  }

  /** A window with r resets between its requests of the key holds at most r + 1 times the limit. */
  lemma {:induction false} WindowAcrossResets(l: Config, rs: seq<Request>, n: nat, key: string, a: real)
    requires n <= |rs| && 0 <= l.maxRequests && !Misled(rs, key, l.window, n)
    ensures CountIn(AllAdmitted(l, rs, n, key), a, a + l.window)
         <= (ResetsInside(rs, key, a, a + l.window, n, n) + 1) * l.maxRequests
  {
    hide CountIn, AllAdmitted, AdmittedAt, Misled, AskedBefore, AskedBetween;
    var b := a + l.window;
    var inside := ResetsInside(rs, key, a, b, n, n);
    if n == 0 {
      NothingAdmitted(l, rs, key, a);
    } else if AskIn(rs, key, a, b, n - 1) {
      EachResetRefills(l, rs, n, key, a);
      FitsUnlessMisled(l, rs, n, key, a);
      AfterIsInside(rs, key, a, b, n - 1, n - 1);
      OneMoreLimit(inside, inside + 1, l.maxRequests);
    } else {
      EarlierNotMisled(rs, key, l.window, n);
      WindowAcrossResets(l, rs, n - 1, key, a);
      OutsideCountsNothing(l, rs, n - 1, key, a);
      InsideGrows(rs, key, a, b, n - 1, n - 1);
      MoreLimits(ResetsInside(rs, key, a, b, n - 1, n - 1), inside, l.maxRequests);
    }
  }

  lemma {:induction false} MoreLimits(r: nat, s: nat, limit: nat)
    requires r <= s
    ensures (r + 1) * limit <= (s + 1) * limit
  {
  }
}
