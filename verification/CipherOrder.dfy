/**
 The order of the C detector's reports. Those made by calls come first, in the order of the calls; then the
 handles left over, then the contexts left over, each in the order in which they came to be tracked.
 */
module CipherOrder {
  import opened Prelude
  import opened OrderedDict
  import opened CipherLinkage
  import opened CipherHistory

  // ----- Since when a name has been tracked -----

  /** The first recognised fetch into v, or the end of the file. */
  function FirstFetch(h: seq<Call>, v: string, from: nat): (k: nat)
    requires from <= |h|
    ensures from <= k <= |h| && forall m :: from <= m < k ==> !Fetches(h[m], v)
    ensures k < |h| ==> Fetches(h[k], v)
    decreases |h| - from
  {
    if from == |h| || Fetches(h[from], v) then from else FirstFetch(h, v, from + 1)
  }

  /** The first resolvable Init on c, before call n, since the last unresolvable one. */
  function BoundSince(h: seq<Call>, n: nat, c: string): (k: nat)
    requires n <= |h|
    ensures k <= n && (CtxAt(h, n, c).Some? ==> k < n)
    ensures CtxAt(h, n, c).Some? ==> Inits(h[k], c)
    ensures CtxAt(h, n, c).Some? ==> forall m :: k <= m < n && Inits(h[m], c) ==> ResolvedAt(h, m).Some?
    ensures CtxAt(h, n, c).Some? ==> LatestInit(h, k, c).None? || ResolvedAt(h, LatestInit(h, k, c).value).None?
    decreases n
  {
    match LatestInit(h, n, c)
    case None => n
    case Some(i) => if CtxAt(h, i, c).Some? then BoundSince(h, i, c) else i
  }

  // ----- The keys of the dictionaries come in that order -----

  /** The keys are in ascending order of their ranks. */
  ghost predicate Ascending(keys: seq<string>, rank: string -> int) {
    forall i, j :: 0 <= i < j < |keys| ==> rank(keys[i]) < rank(keys[j])
  }

  lemma {:induction false} WithoutAscending(keys: seq<string>, k: string, rank: string -> int)
    requires Ascending(keys, rank)
    ensures Ascending(Without(keys, k), rank)
  {
    if keys != [] {
      WithoutAscending(keys[1..], k, rank);
      var rest := Without(keys[1..], k);
      forall j | 0 <= j < |rest| ensures rank(keys[0]) < rank(rest[j]) {
        assert rest[j] in keys[1..];
        var m :| 0 <= m < |keys[1..]| && keys[1..][m] == rest[j];
        assert keys[m + 1] == rest[j];
      }
    }
  }

  lemma {:induction false} AscendingAppend(keys: seq<string>, k: string, rank: string -> int)
    requires Ascending(keys, rank) && forall o :: o in keys ==> rank(o) < rank(k)
    ensures Ascending(keys + [k], rank)
  {
  }

  lemma {:induction false} SameRanks(keys: seq<string>, rank: string -> int, other: string -> int)
    requires Ascending(keys, rank) && forall k :: k in keys ==> rank(k) == other(k)
    ensures Ascending(keys, other)
  {
  }

  function FetchRank(h: seq<Call>): string -> int {
    v => FirstFetch(h, v, 0)
  }

  function BoundRank(h: seq<Call>, n: nat): string -> int
    requires n <= |h|
  {
    c => BoundSince(h, n, c)
  }

  ghost predicate KeysInOrder(h: seq<Call>, n: nat, s: State)
    requires n <= |h|
  {
    Ascending(s.vars.keys, FetchRank(h)) && Ascending(s.ctxs.keys, BoundRank(h, n))
  }

  lemma {:induction false} FetchedBefore(h: seq<Call>, n: nat, v: string)
    requires n <= |h|
    ensures VarAt(h, n, v).Some? <==> FirstFetch(h, v, 0) < n
    ensures n < |h| && Fetches(h[n], v) && VarAt(h, n, v).None? ==> FirstFetch(h, v, 0) == n
  {
  }

  lemma {:induction false} VarKeysStep(h: seq<Call>, n: nat, s: State)
    requires n < |h| && Agrees(h, n, s) && Ascending(s.vars.keys, FetchRank(h))
    ensures Ascending(Step(s, n, h[n]).vars.keys, FetchRank(h))
  {
    hide VarAt, CtxAt, EmittedUpTo, FirstFetch;
    var call := h[n];
    if call.Fetch? && call.target.Some? && call.recognised.Some? {
      var v := call.target.value;
      FetchedBefore(h, n, v);
      if Lookup(s.vars, v).None? {
        forall o | o in s.vars.keys ensures FirstFetch(h, o, 0) < n {
          assert Lookup(s.vars, o) == VarAt(h, n, o);
          FetchedBefore(h, n, o);
        }
        AscendingAppend(s.vars.keys, v, FetchRank(h));
      }
    }
  }

  lemma {:induction false} BoundStep(h: seq<Call>, n: nat, c: string)
    requires n < |h|
    ensures !Inits(h[n], c) ==>
              BoundSince(h, n + 1, c) == if LatestInit(h, n, c).None? then n + 1 else BoundSince(h, n, c)
    ensures Inits(h[n], c) ==> BoundSince(h, n + 1, c) == if CtxAt(h, n, c).Some? then BoundSince(h, n, c) else n
  {
    hide CtxAt;
  }

  /** A context that is tracked before and after the call keeps its rank. */
  lemma {:induction false} RankKept(h: seq<Call>, n: nat, c: string)
    requires n < |h| && CtxAt(h, n, c).Some?
    ensures BoundSince(h, n + 1, c) == BoundSince(h, n, c) < n
  {
    hide ResolvedAt;
    BoundStep(h, n, c);
  }

  lemma {:induction false} CtxKeysStep(h: seq<Call>, n: nat, s: State)
    requires n < |h| && Agrees(h, n, s) && Ascending(s.ctxs.keys, BoundRank(h, n))
    ensures Ascending(Step(s, n, h[n]).ctxs.keys, BoundRank(h, n + 1))
  {
    hide VarAt, CtxAt, EmittedUpTo, BoundSince, ResolvedAt;
    var call, keys := h[n], s.ctxs.keys;
    forall c | c in keys ensures BoundRank(h, n)(c) == BoundRank(h, n + 1)(c) < n {
      assert Lookup(s.ctxs, c) == CtxAt(h, n, c);
      RankKept(h, n, c);
    }
    SameRanks(keys, BoundRank(h, n), BoundRank(h, n + 1));
    if call.CipherInit? && call.ctx.Some? {
      var c := call.ctx.value;
      BoundStep(h, n, c);
      WithoutAscending(keys, c, BoundRank(h, n + 1));
      if Lookup(s.ctxs, c).None? {
        AscendingAppend(keys, c, BoundRank(h, n + 1));
      }
    }
  }

  lemma {:induction false} KeysStayInOrder(h: seq<Call>, n: nat)
    requires n <= |h|
    ensures KeysInOrder(h, n, Run(h, n))
  {
    if n != 0 {
      hide Agrees, Step, Ascending;
      KeysStayInOrder(h, n - 1);
      LinkageRefinesHistory(h, n - 1);
      VarKeysStep(h, n - 1, Run(h, n - 1));
      CtxKeysStep(h, n - 1, Run(h, n - 1));
    }
  }

  // ----- What the end of the file adds -----

  /** The history of v ends with a handle that was never used. */
  predicate HandleLeft(h: seq<Call>, v: string) {
    VarAt(h, |h|, v).Some? && !VarAt(h, |h|, v).value.consumed
  }

  /** The history of c ends with a binding under which nothing was transformed. */
  predicate ContextLeft(h: seq<Call>, c: string) {
    CtxAt(h, |h|, c).Some? && !CtxAt(h, |h|, c).value.consumed
  }

  /** The variables with a handle left over, in the order in which they were first fetched into. */
  ghost predicate HandlesInOrder(h: seq<Call>, vs: seq<string>) {
    && (forall v :: v in vs <==> HandleLeft(h, v))
    && forall i, j :: 0 <= i < j < |vs| ==> FirstFetch(h, vs[i], 0) < FirstFetch(h, vs[j], 0)
  }

  /** The contexts with a binding left over, in the order of the Inits since which they have been bound. */
  ghost predicate ContextsInOrder(h: seq<Call>, cs: seq<string>) {
    && (forall c :: c in cs <==> ContextLeft(h, c))
    && forall i, j :: 0 <= i < j < |cs| ==> BoundSince(h, |h|, cs[i]) < BoundSince(h, |h|, cs[j])
  }

  function HandleReports(h: seq<Call>, vs: seq<string>): seq<Report>
    requires forall v :: v in vs ==> HandleLeft(h, v)
  {
    if vs == [] then []
    else
      assert HandleLeft(h, vs[0]);
      [HandleFallback(VarAt(h, |h|, vs[0]).value.at, VarAt(h, |h|, vs[0]).value.info)] + HandleReports(h, vs[1..])
  }

  function ContextReports(h: seq<Call>, cs: seq<string>): seq<Report>
    requires forall c :: c in cs ==> ContextLeft(h, c)
  {
    if cs == [] then []
    else
      assert ContextLeft(h, cs[0]);
      var b := CtxAt(h, |h|, cs[0]).value;
      [ContextFallback(b.at, b.direction, b.info)] + ContextReports(h, cs[1..])
  }

  lemma {:induction false} AscendingTail(k: string, vs: seq<string>, keys: seq<string>, rank: string -> int)
    requires keys != [] && k == keys[0] && Ascending(keys, rank) && Ascending(vs, rank)
    requires forall v :: v in vs ==> v in keys[1..]
    ensures Ascending([k] + vs, rank)
  {
    forall j | 0 <= j < |vs| ensures rank(k) < rank(vs[j]) {
      assert vs[j] in keys[1..];
      var m :| 0 <= m < |keys[1..]| && keys[1..][m] == vs[j];
      assert keys[m + 1] == vs[j];
    }
  }

  lemma {:induction false} FlushedHandles(h: seq<Call>, s: State, keys: seq<string>) returns (vs: seq<string>)
    requires Agrees(h, |h|, s) && Ascending(keys, FetchRank(h)) && forall k :: k in keys ==> k in s.vars.entries
    ensures Ascending(vs, FetchRank(h)) && forall v :: v in vs <==> v in keys && HandleLeft(h, v)
    ensures FlushVars(keys, s.vars.entries) == HandleReports(h, vs)
  {
    hide VarAt, CtxAt, EmittedUpTo, FirstFetch;
    if keys == [] {
      vs := [];
    } else {
      var k := keys[0];
      vs := FlushedHandles(h, s, keys[1..]);
      assert Lookup(s.vars, k) == VarAt(h, |h|, k);
      assert forall v :: v in keys <==> v == k || v in keys[1..];
      if HandleLeft(h, k) {
        AscendingTail(k, vs, keys, FetchRank(h));
        assert ([k] + vs)[1..] == vs;
        vs := [k] + vs;
      }
    }
  }

  lemma {:induction false} FlushedContexts(h: seq<Call>, s: State, keys: seq<string>) returns (cs: seq<string>)
    requires Agrees(h, |h|, s) && Ascending(keys, BoundRank(h, |h|)) && forall k :: k in keys ==> k in s.ctxs.entries
    ensures Ascending(cs, BoundRank(h, |h|)) && forall c :: c in cs <==> c in keys && ContextLeft(h, c)
    ensures FlushCtxs(keys, s.ctxs.entries) == ContextReports(h, cs)
  {
    hide VarAt, CtxAt, EmittedUpTo, BoundSince;
    if keys == [] {
      cs := [];
    } else {
      var k := keys[0];
      cs := FlushedContexts(h, s, keys[1..]);
      assert Lookup(s.ctxs, k) == CtxAt(h, |h|, k);
      assert forall c :: c in keys <==> c == k || c in keys[1..];
      if ContextLeft(h, k) {
        AscendingTail(k, cs, keys, BoundRank(h, |h|));
        assert ([k] + cs)[1..] == cs;
        cs := [k] + cs;
      }
    }
  }

  /**
   The whole report list, in order: what the calls emit, call by call; then the handles left over, in the
   order in which their variables were first fetched into; then the contexts left over, in the order of the
   Inits since which they have been bound.
   */
  lemma {:induction false} ReportsInOrder(h: seq<Call>) returns (vs: seq<string>, cs: seq<string>)
    ensures HandlesInOrder(h, vs) && ContextsInOrder(h, cs)
    ensures Detect(h) == EmittedUpTo(h, |h|) + HandleReports(h, vs) + ContextReports(h, cs)
  {
    hide VarAt, CtxAt, EmittedUpTo, BoundSince, FirstFetch, FlushVars, FlushCtxs, HandleReports, ContextReports;
    var s := Run(h, |h|);
    LinkageRefinesHistory(h, |h|);
    KeysStayInOrder(h, |h|);
    vs := FlushedHandles(h, s, s.vars.keys);
    cs := FlushedContexts(h, s, s.ctxs.keys);
    forall v ensures v in vs <==> HandleLeft(h, v) {
      assert Lookup(s.vars, v) == VarAt(h, |h|, v);
    }
    forall c ensures c in cs <==> ContextLeft(h, c) {
      assert Lookup(s.ctxs, c) == CtxAt(h, |h|, c);
    }
    forall i, j | 0 <= i < j < |vs| ensures FirstFetch(h, vs[i], 0) < FirstFetch(h, vs[j], 0) {
      assert FetchRank(h)(vs[i]) < FetchRank(h)(vs[j]);
    }
    forall i, j | 0 <= i < j < |cs| ensures BoundSince(h, |h|, cs[i]) < BoundSince(h, |h|, cs[j]) {
      assert BoundRank(h, |h|)(cs[i]) < BoundRank(h, |h|)(cs[j]);
    }
  }

  lemma {:induction false} HandleReportAt(h: seq<Call>, vs: seq<string>, i: nat)
    requires i < |vs| && forall v :: v in vs ==> HandleLeft(h, v)
    ensures |HandleReports(h, vs)| == |vs| && HandleLeft(h, vs[i])
    ensures HandleReports(h, vs)[i] == HandleFallback(VarAt(h, |h|, vs[i]).value.at, VarAt(h, |h|, vs[i]).value.info)
  {
    hide VarAt;
    assert HandleLeft(h, vs[i]);
    if |vs| > 1 {
      HandleReportAt(h, vs[1..], if i == 0 then 0 else i - 1);
    }
  }

  lemma {:induction false} ContextReportAt(h: seq<Call>, cs: seq<string>, i: nat)
    requires i < |cs| && forall c :: c in cs ==> ContextLeft(h, c)
    ensures |ContextReports(h, cs)| == |cs| && ContextLeft(h, cs[i])
    ensures var b := CtxAt(h, |h|, cs[i]).value;
            ContextReports(h, cs)[i] == ContextFallback(b.at, b.direction, b.info)
  {
    hide CtxAt;
    assert ContextLeft(h, cs[i]);
    if |cs| > 1 {
      ContextReportAt(h, cs[1..], if i == 0 then 0 else i - 1);
    }
  }

  /** Of two variables with handles left over, the one fetched into first is reported first. */
  lemma {:induction false} EarlierHandleFirst(h: seq<Call>, u: string, v: string) returns (a: nat, b: nat)
    requires HandleLeft(h, u) && HandleLeft(h, v) && FirstFetch(h, u, 0) < FirstFetch(h, v, 0)
    ensures a < b < |Detect(h)|
    ensures Detect(h)[a] == HandleFallback(VarAt(h, |h|, u).value.at, VarAt(h, |h|, u).value.info)
    ensures Detect(h)[b] == HandleFallback(VarAt(h, |h|, v).value.at, VarAt(h, |h|, v).value.info)
  {
    hide VarAt, CtxAt, EmittedUpTo, BoundSince, FirstFetch, Detect, HandleReports, ContextReports;
    var vs, cs := ReportsInOrder(h);
    assert u in vs && v in vs;
    var i :| 0 <= i < |vs| && vs[i] == u;
    var j :| 0 <= j < |vs| && vs[j] == v;
    HandleReportAt(h, vs, i);
    HandleReportAt(h, vs, j);
    a, b := |EmittedUpTo(h, |h|)| + i, |EmittedUpTo(h, |h|)| + j;
  }

  /** Of two contexts with bindings left over, the one bound for longer is reported first. */
  lemma {:induction false} EarlierContextFirst(h: seq<Call>, c: string, d: string) returns (a: nat, b: nat)
    requires ContextLeft(h, c) && ContextLeft(h, d) && BoundSince(h, |h|, c) < BoundSince(h, |h|, d)
    ensures a < b < |Detect(h)|
    ensures Detect(h)[a].ContextFallback? && Detect(h)[a].at == CtxAt(h, |h|, c).value.at
    ensures Detect(h)[b].ContextFallback? && Detect(h)[b].at == CtxAt(h, |h|, d).value.at
  {
    hide VarAt, CtxAt, EmittedUpTo, BoundSince, FirstFetch, Detect, HandleReports, ContextReports;
    var vs, cs := ReportsInOrder(h);
    assert c in cs && d in cs;
    var i :| 0 <= i < |cs| && cs[i] == c;
    var j :| 0 <= j < |cs| && cs[j] == d;
    ContextReportAt(h, cs, i);
    ContextReportAt(h, cs, j);
    var before := |EmittedUpTo(h, |h|)| + |HandleReports(h, vs)|;
    a, b := before + i, before + j;
  }
}
