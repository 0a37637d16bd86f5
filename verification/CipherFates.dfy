/**
 What becomes of each fetched handle and of each Init by the end of the file: nothing is reported
 twice, and nothing is lost except the bindings that an unresolvable re-init throws away.
 */
module CipherFates {
  import opened Prelude
  import opened OrderedDict
  import opened CipherLinkage
  import opened CipherHistory

  // ----- Handles -----

  /** The next fetch into v after call i, or the end of the file. */
  function NextFetch(h: seq<Call>, i: nat, v: string): (k: nat)
    requires i < |h|
    ensures i < k <= |h|
    ensures forall m :: i < m < k ==> !Fetches(h[m], v)
    ensures k < |h| ==> Fetches(h[k], v)
    decreases |h| - i
  {
    if i + 1 == |h| || Fetches(h[i + 1], v) then i + 1 else NextFetch(h, i + 1, v)
  }

  predicate ConsumedFetch(h: seq<Call>, i: nat, v: string)
    requires i < |h|
  {
    UsedBetween(h, v, i, NextFetch(h, i, v))
  }

  predicate RecognisedFetch(h: seq<Call>, i: nat, info: CipherInfo) {
    i < |h| && h[i].Fetch? && h[i].target.Some? && h[i].recognised == Some(info)
  }

  lemma {:induction false} HandleFallbackOnlyIf(h: seq<Call>, i: nat, info: CipherInfo)
    requires HandleFallback(i, info) in Detect(h)
    ensures RecognisedFetch(h, i, info) && !ConsumedFetch(h, i, h[i].target.value)
  {
    hide Detect, UsedBetween;
    var r := HandleFallback(i, info);
    InDetect(h, r);
    if k :| 0 <= k < |h| && r in Emitted(h, k) {
      var v := h[k].target.value;
      assert LatestFetch(h, k, v) == Some(i);
      assert NextFetch(h, i, v) == k;
    } else {
      var v :| r in VarLeftover(VarAt(h, |h|, v));
      assert LatestFetch(h, |h|, v) == Some(i);
      assert NextFetch(h, i, v) == |h|;
    }
  }

  lemma {:induction false} HandleFallbackIf(h: seq<Call>, i: nat, info: CipherInfo)
    requires RecognisedFetch(h, i, info) && !ConsumedFetch(h, i, h[i].target.value)
    ensures HandleFallback(i, info) in Detect(h)
  {
    var v := h[i].target.value;
    var k := NextFetch(h, i, v);
    assert LatestFetch(h, k, v) == Some(i);
    assert HandleFallback(i, info) in VarLeftover(VarAt(h, k, v));
    assert k < |h| ==> HandleFallback(i, info) in Emitted(h, k);
    InDetect(h, HandleFallback(i, info));
  }

  /** A recognised fetch is reported by fallback exactly when no Init used its handle before the
      variable was fetched into again. */
  lemma {:induction false} HandleFallbackIff(h: seq<Call>, i: nat, info: CipherInfo)
    ensures HandleFallback(i, info) in Detect(h)
            <==> RecognisedFetch(h, i, info) && !ConsumedFetch(h, i, h[i].target.value)
  {
    if HandleFallback(i, info) in Detect(h) {
      HandleFallbackOnlyIf(h, i, info);
    } else if RecognisedFetch(h, i, info) && !ConsumedFetch(h, i, h[i].target.value) {
      HandleFallbackIf(h, i, info);
    }
  }

  // ----- Inits -----

  predicate ResolvedInit(h: seq<Call>, i: nat) {
    i < |h| && h[i].CipherInit? && h[i].ctx.Some? && ResolvedAt(h, i).Some?
  }

  /** The next Init on c after call i, or the end of the file. */
  function NextInit(h: seq<Call>, i: nat, c: string): (k: nat)
    requires i < |h|
    ensures i < k <= |h|
    ensures forall m :: i < m < k ==> !Inits(h[m], c)
    ensures k < |h| ==> Inits(h[k], c)
    decreases |h| - i
  {
    if i + 1 == |h| || Inits(h[i + 1], c) then i + 1 else NextInit(h, i + 1, c)
  }

  /** The Init i is followed by a data-carrying Update in its direction before the next Init. */
  predicate TransformedInit(h: seq<Call>, i: nat)
    requires ResolvedInit(h, i)
  {
    TransformedBetween(h, h[i].ctx.value, h[i].direction, i, NextInit(h, i, h[i].ctx.value))
  }

  /** The Init i saw no transformation and the next Init on its context cannot be resolved: the
      binding is popped without a report. */
  predicate DiscardedInit(h: seq<Call>, i: nat)
    requires ResolvedInit(h, i)
  {
    var k := NextInit(h, i, h[i].ctx.value);
    !TransformedInit(h, i) && k < |h| && ResolvedAt(h, k).None?
  }

  lemma {:induction false} ContextFallbackOnlyIf(h: seq<Call>, i: nat, d: Direction, info: CipherInfo)
    requires ContextFallback(i, d, info) in Detect(h)
    ensures ResolvedInit(h, i) && h[i].direction == d && ResolvedAt(h, i) == Some(info)
    ensures !TransformedInit(h, i) && !DiscardedInit(h, i)
  {
    hide Detect;
    var r := ContextFallback(i, d, info);
    InDetect(h, r);
    if k :| 0 <= k < |h| && r in Emitted(h, k) {
      var c := h[k].ctx.value;
      assert LatestInit(h, k, c) == Some(i);
      assert NextInit(h, i, c) == k;
    } else {
      var c :| r in CtxLeftover(CtxAt(h, |h|, c));
      assert LatestInit(h, |h|, c) == Some(i);
      assert NextInit(h, i, c) == |h|;
    }
  }

  lemma {:induction false} ContextFallbackIf(h: seq<Call>, i: nat)
    requires ResolvedInit(h, i) && !TransformedInit(h, i) && !DiscardedInit(h, i)
    ensures ContextFallback(i, h[i].direction, ResolvedAt(h, i).value) in Detect(h)
  {
    hide Detect;
    var c := h[i].ctx.value;
    var k := NextInit(h, i, c);
    var r := ContextFallback(i, h[i].direction, ResolvedAt(h, i).value);
    assert LatestInit(h, k, c) == Some(i);
    assert r in CtxLeftover(CtxAt(h, k, c));
    assert k < |h| ==> r in Emitted(h, k);
    InDetect(h, r);
  }

  /** A resolved Init is reported by fallback exactly when no transformation followed it and it was
      not thrown away by an unresolvable re-init. */
  lemma {:induction false} ContextFallbackIff(h: seq<Call>, i: nat, d: Direction, info: CipherInfo)
    ensures ContextFallback(i, d, info) in Detect(h) <==>
              && ResolvedInit(h, i) && h[i].direction == d && ResolvedAt(h, i) == Some(info)
              && !TransformedInit(h, i) && !DiscardedInit(h, i)
  {
    if ContextFallback(i, d, info) in Detect(h) {
      ContextFallbackOnlyIf(h, i, d, info);
    } else if && ResolvedInit(h, i) && h[i].direction == d && ResolvedAt(h, i) == Some(info)
              && !TransformedInit(h, i) && !DiscardedInit(h, i) {
      ContextFallbackIf(h, i);
    }
  }

  /** A context is bound to a resolved cipher, and a second Init on it cannot be resolved: the file is reported
      to use no cryptography at all. */
  lemma {:induction false} DiscardedInitGoesUnreported(info: CipherInfo)
    ensures var h := [CipherInit(Some("c"), Encrypt, Getter(Some(info))), CipherInit(Some("c"), Encrypt, Opaque)];
            ResolvedInit(h, 0) && DiscardedInit(h, 0) && Detect(h) == []
  {
    hide Detect;
    var h := [CipherInit(Some("c"), Encrypt, Getter(Some(info))), CipherInit(Some("c"), Encrypt, Opaque)];
    assert NextInit(h, 0, "c") == 1;
    assert forall v :: LatestFetch(h, 2, v) == None;
    assert forall c :: LatestInit(h, 2, c) == if c == "c" then Some(1) else None;
    forall r ensures r !in Detect(h) {
      InDetect(h, r);
    }
    if Detect(h) != [] {
      SomeReport(Detect(h));
    }
  }

  lemma {:induction false} SomeReport(rs: seq<Report>)
    requires rs != []
    ensures exists r :: r in rs
  {
    assert rs[0] in rs;
  }

  /** Update j reports the transformation the Init i set up. */
  predicate ReportsFor(h: seq<Call>, i: nat, j: nat)
    requires ResolvedInit(h, i)
  {
    && i < j < |h| && h[j].Update? && h[j].ctx == h[i].ctx
    && LatestInit(h, j, h[i].ctx.value) == Some(i)
    && Transformation(j, h[i].direction, ResolvedAt(h, i).value) in Detect(h)
  }

  lemma {:induction false} FirstTransformation(h: seq<Call>, c: string, d: Direction, i: nat, n: nat) returns (j: nat)
    requires n <= |h| && TransformedBetween(h, c, d, i, n)
    ensures i < j < n && Transforms(h[j], c, d) && !TransformedBetween(h, c, d, i, j)
    decreases n
  {
    j :| i < j < n && Transforms(h[j], c, d);
    if TransformedBetween(h, c, d, i, j) {
      j := FirstTransformation(h, c, d, i, j);
    }
  }

  /** A resolved Init is reported by an Update exactly when it is transformed, and then by one
      Update only. */
  lemma {:induction false} InitReportedByOneUpdate(h: seq<Call>, i: nat)
    requires ResolvedInit(h, i)
    ensures TransformedInit(h, i) <==> exists j: nat :: ReportsFor(h, i, j)
    ensures forall j: nat, k: nat :: ReportsFor(h, i, j) && ReportsFor(h, i, k) ==> j == k
  {
    var c, d, info := h[i].ctx.value, h[i].direction, ResolvedAt(h, i).value;
    var n := NextInit(h, i, c);
    if TransformedInit(h, i) {
      var j := FirstTransformation(h, c, d, i, n);
      assert LatestInit(h, j, c) == Some(i);
      TransformationIff(h, j, d, info);
      assert ReportsFor(h, i, j);
    }
    forall j: nat | ReportsFor(h, i, j)
      ensures j < n && Transforms(h[j], c, d) && !TransformedBetween(h, c, d, i, j)
    {
      TransformationIff(h, j, d, info);
    }
    forall j: nat, k: nat | ReportsFor(h, i, j) && ReportsFor(h, i, k) ensures j == k {
      assert Transforms(h[j], c, d) && Transforms(h[k], c, d);
    }
  }

  // ----- Nothing is reported twice -----

  ghost predicate EarlierReport(h: seq<Call>, n: nat, r: Report)
    requires n <= |h|
  {
    && r.at < n
    && (r.HandleFallback? ==> exists v :: Fetches(h[r.at], v) && NextFetch(h, r.at, v) < n)
    && (r.ContextFallback? ==> exists c :: Inits(h[r.at], c) && NextInit(h, r.at, c) < n)
  }

  lemma {:induction false} EmittedIsNew(h: seq<Call>, n: nat, r: Report)
    requires n < |h| && r in Emitted(h, n)
    ensures !EarlierReport(h, n, r) && EarlierReport(h, n + 1, r)
  {
    if r.HandleFallback? {
      var v := h[n].target.value;
      assert LatestFetch(h, n, v) == Some(r.at);
      assert NextFetch(h, r.at, v) == n;
      assert Fetches(h[r.at], v) && forall u :: Fetches(h[r.at], u) ==> u == v;
    }
    if r.ContextFallback? {
      var c := h[n].ctx.value;
      assert LatestInit(h, n, c) == Some(r.at);
      assert NextInit(h, r.at, c) == n;
      assert Inits(h[r.at], c) && forall u :: Inits(h[r.at], u) ==> u == c;
    }
  }

  lemma {:induction false} StaysEarlier(h: seq<Call>, n: nat, r: Report)
    requires n < |h| && EarlierReport(h, n, r)
    ensures EarlierReport(h, n + 1, r)
  {
  }

  lemma {:induction false} EmittedDistinct(h: seq<Call>, n: nat)
    requires n <= |h|
    ensures Distinct(EmittedUpTo(h, n))
    ensures forall r :: r in EmittedUpTo(h, n) ==> EarlierReport(h, n, r)
  {
    hide Emitted, EarlierReport;
    if n != 0 {
      var before, now := EmittedUpTo(h, n - 1), Emitted(h, n - 1);
      EmittedDistinct(h, n - 1);
      forall r | r in EmittedUpTo(h, n - 1) ensures EarlierReport(h, n, r) {
        StaysEarlier(h, n - 1, r);
      }
      forall r | r in now ensures r !in before && EarlierReport(h, n, r) {
        EmittedIsNew(h, n - 1, r);
      }
      EmittedAtMostOne(h, n - 1);
      DistinctConcat(before, now);
    }
  }

  lemma {:induction false} FlushVarsDistinct(keys: seq<string>, entries: map<string, VarBinding>)
    requires Distinct(keys)
    requires forall u, v :: u in entries && v in entries && u != v ==> entries[u].at != entries[v].at
    ensures Distinct(FlushVars(keys, entries))
  {
    if keys != [] {
      FlushVarsDistinct(keys[1..], entries);
      forall r | r in FlushVars(keys[1..], entries)
        ensures keys[0] in entries ==> r != VarReport(entries[keys[0]])
      {
        InFlushVars(keys[1..], entries, r);
      }
      DistinctConcat(VarLeftover(if keys[0] in entries then Some(entries[keys[0]]) else None),
                     FlushVars(keys[1..], entries));
    }
  }

  lemma {:induction false} FlushCtxsDistinct(keys: seq<string>, entries: map<string, CtxBinding>)
    requires Distinct(keys)
    requires forall u, v :: u in entries && v in entries && u != v ==> entries[u].at != entries[v].at
    ensures Distinct(FlushCtxs(keys, entries))
  {
    if keys != [] {
      FlushCtxsDistinct(keys[1..], entries);
      forall r | r in FlushCtxs(keys[1..], entries)
        ensures keys[0] in entries ==> r != CtxReport(entries[keys[0]])
      {
        InFlushCtxs(keys[1..], entries, r);
      }
      DistinctConcat(CtxLeftover(if keys[0] in entries then Some(entries[keys[0]]) else None),
                     FlushCtxs(keys[1..], entries));
    }
  }

  lemma {:induction false} HandleFlushIsNew(h: seq<Call>, s: State, r: Report)
    requires Agrees(h, |h|, s) && r in FlushVars(s.vars.keys, s.vars.entries)
    ensures r.HandleFallback? && !EarlierReport(h, |h|, r)
  {
    InFlushVars(s.vars.keys, s.vars.entries, r);
    var v :| v in s.vars.entries && r == VarReport(s.vars.entries[v]);
    assert Lookup(s.vars, v) == VarAt(h, |h|, v);
    assert r == VarReport(s.vars.entries[v]);
    assert r.at == LatestFetch(h, |h|, v).value;
    assert NextFetch(h, r.at, v) == |h|;
    assert forall u :: Fetches(h[r.at], u) ==> u == v;
  }

  lemma {:induction false} ContextFlushIsNew(h: seq<Call>, s: State, r: Report)
    requires Agrees(h, |h|, s) && r in FlushCtxs(s.ctxs.keys, s.ctxs.entries)
    ensures r.ContextFallback? && !EarlierReport(h, |h|, r)
  {
    InFlushCtxs(s.ctxs.keys, s.ctxs.entries, r);
    var c :| c in s.ctxs.entries && r == CtxReport(s.ctxs.entries[c]);
    assert Lookup(s.ctxs, c) == CtxAt(h, |h|, c);
    assert r == CtxReport(s.ctxs.entries[c]);
    assert r.at == LatestInit(h, |h|, c).value;
    assert NextInit(h, r.at, c) == |h|;
    assert forall u :: Inits(h[r.at], u) ==> u == c;
  }

  lemma {:induction false} VarsFlushDistinct(h: seq<Call>, s: State)
    requires Agrees(h, |h|, s)
    ensures Distinct(FlushVars(s.vars.keys, s.vars.entries))
  {
    forall u, v | u in s.vars.entries && v in s.vars.entries && u != v
      ensures s.vars.entries[u].at != s.vars.entries[v].at
    {
      assert Lookup(s.vars, u) == VarAt(h, |h|, u) && Lookup(s.vars, v) == VarAt(h, |h|, v);
    }
    FlushVarsDistinct(s.vars.keys, s.vars.entries);
  }

  lemma {:induction false} CtxsFlushDistinct(h: seq<Call>, s: State)
    requires Agrees(h, |h|, s)
    ensures Distinct(FlushCtxs(s.ctxs.keys, s.ctxs.entries))
  {
    forall u, v | u in s.ctxs.entries && v in s.ctxs.entries && u != v
      ensures s.ctxs.entries[u].at != s.ctxs.entries[v].at
    {
      assert Lookup(s.ctxs, u) == CtxAt(h, |h|, u) && Lookup(s.ctxs, v) == CtxAt(h, |h|, v);
    }
    FlushCtxsDistinct(s.ctxs.keys, s.ctxs.entries);
  }

  lemma {:induction false} FlushDistinct(h: seq<Call>, s: State)
    requires Agrees(h, |h|, s)
    ensures Distinct(Flush(s))
    ensures forall r :: r in Flush(s) ==> !EarlierReport(h, |h|, r)
  {
    VarsFlushDistinct(h, s);
    CtxsFlushDistinct(h, s);
    forall r | r in FlushVars(s.vars.keys, s.vars.entries)
      ensures r.HandleFallback? && !EarlierReport(h, |h|, r)
    {
      HandleFlushIsNew(h, s, r);
    }
    forall r | r in FlushCtxs(s.ctxs.keys, s.ctxs.entries)
      ensures r.ContextFallback? && !EarlierReport(h, |h|, r)
    {
      ContextFlushIsNew(h, s, r);
    }
    DistinctConcat(FlushVars(s.vars.keys, s.vars.entries), FlushCtxs(s.ctxs.keys, s.ctxs.entries));
  }

  /** No two reports of a file are the same; with the equivalences above, each event of interest is
      reported once. */
  lemma {:induction false} NothingReportedTwice(h: seq<Call>)
    ensures Distinct(Detect(h))
  {
    LinkageRefinesHistory(h, |h|);
    EmittedDistinct(h, |h|);
    FlushDistinct(h, Run(h, |h|));
    DistinctConcat(EmittedUpTo(h, |h|), Flush(Run(h, |h|)));
  }

  // ----- Every resolved Init is accounted for -----

  function Transformations(rs: seq<Report>): nat {
    if rs == [] then 0 else Transformations(rs[..|rs| - 1]) + if rs[|rs| - 1].Transformation? then 1 else 0
  }

  function ContextFallbacks(rs: seq<Report>): nat {
    if rs == [] then 0 else ContextFallbacks(rs[..|rs| - 1]) + if rs[|rs| - 1].ContextFallback? then 1 else 0
  }

  function ResolvedInits(h: seq<Call>, n: nat): nat
    requires n <= |h|
  {
    if n == 0 then 0 else ResolvedInits(h, n - 1) + if ResolvedInit(h, n - 1) then 1 else 0
  }

  predicate PopsUnreported(h: seq<Call>, k: nat)
    requires k < |h|
  {
    && h[k].CipherInit? && h[k].ctx.Some? && ResolvedAt(h, k).None?
    && CtxLeftover(CtxAt(h, k, h[k].ctx.value)) != []
  }

  /** How many unconsumed bindings the first n calls pop by an Init that cannot be resolved. */
  function Discards(h: seq<Call>, n: nat): nat
    requires n <= |h|
  {
    if n == 0 then 0 else Discards(h, n - 1) + if PopsUnreported(h, n - 1) then 1 else 0
  }

  function Pending(d: Dict<CtxBinding>): set<string> {
    set c | c in d.entries && !d.entries[c].consumed
  }

  lemma {:induction false} PendingPut(d: Dict<CtxBinding>, c: string, b: CtxBinding)
    ensures |Pending(Put(d, c, b))| + |CtxLeftover(Lookup(d, c))|
         == |Pending(d)| + if b.consumed then 0 else 1
  {
    assert Pending(Put(d, c, b)) == if b.consumed then Pending(d) - {c} else Pending(d) + {c};
  }

  lemma {:induction false} PendingRemove(d: Dict<CtxBinding>, c: string)
    ensures |Pending(Remove(d, c))| + |CtxLeftover(Lookup(d, c))| == |Pending(d)|
  {
    assert Pending(Remove(d, c)) == Pending(d) - {c};
  }

  lemma {:induction false} CountOne(rs: seq<Report>, more: seq<Report>)
    requires |more| <= 1
    ensures Transformations(rs + more) == Transformations(rs) + Transformations(more)
    ensures ContextFallbacks(rs + more) == ContextFallbacks(rs) + ContextFallbacks(more)
  {
    if more == [] {
      assert rs + more == rs;
    } else {
      assert (rs + more)[..|rs + more| - 1] == rs;
      assert more[..0] == [];
    }
  }

  /** One call keeps the balance between Inits resolved, reports made, bindings popped and bindings
      still pending. */
  lemma {:induction false} InitBalance(h: seq<Call>, n: nat, s: State)
    requires n < |h| && Agrees(h, n, s)
    ensures Transformations(Emitted(h, n)) + ContextFallbacks(Emitted(h, n))
            + (if PopsUnreported(h, n) then 1 else 0) + |Pending(Step(s, n, h[n]).ctxs)|
         == |Pending(s.ctxs)| + if ResolvedInit(h, n) then 1 else 0
  {
    var call, e := h[n], Emitted(h, n);
    assert |e| <= 1 && (e != [] ==> e[..0] == []);
    if call.CipherInit? && call.ctx.Some? {
      var c := call.ctx.value;
      assert Lookup(s.ctxs, c) == CtxAt(h, n, c);
      assert Resolve(call.arg, s.vars) == ResolvedAt(h, n);
      if ResolvedAt(h, n).Some? {
        PendingPut(s.ctxs, c, CtxBinding(ResolvedAt(h, n).value, call.direction, false, n));
      } else {
        PendingRemove(s.ctxs, c);
      }
    } else if call.Update? && call.ctx.Some? {
      var c := call.ctx.value;
      assert Lookup(s.ctxs, c) == CtxAt(h, n, c);
      if c in s.ctxs.entries {
        PendingPut(s.ctxs, c, s.ctxs.entries[c].(consumed := true));
      }
    }
  }

  function PendingAt(h: seq<Call>, n: nat): nat
    requires n <= |h|
  {
    |Pending(Run(h, n).ctxs)|
  }

  lemma {:induction false} EmittedAtMostOne(h: seq<Call>, n: nat)
    requires n < |h|
    ensures |Emitted(h, n)| <= 1
  {
  }

  lemma {:induction false} PendingBalance(h: seq<Call>, n: nat)
    requires 0 < n <= |h|
    ensures Transformations(EmittedUpTo(h, n)) + ContextFallbacks(EmittedUpTo(h, n))
            + (if PopsUnreported(h, n - 1) then 1 else 0) + PendingAt(h, n)
         == Transformations(EmittedUpTo(h, n - 1)) + ContextFallbacks(EmittedUpTo(h, n - 1))
            + PendingAt(h, n - 1) + if ResolvedInit(h, n - 1) then 1 else 0
  {
    hide Agrees, Step, Emitted, Transformations, ContextFallbacks, PopsUnreported, ResolvedInit, Pending;
    var s := Run(h, n - 1);
    EmittedAtMostOne(h, n - 1);
    LinkageRefinesHistory(h, n - 1);
    InitBalance(h, n - 1, s);
    CountOne(EmittedUpTo(h, n - 1), Emitted(h, n - 1));
  }

  lemma {:induction false} NothingPendingAtFirst(h: seq<Call>)
    ensures PendingAt(h, 0) == Transformations(EmittedUpTo(h, 0)) == ContextFallbacks(EmittedUpTo(h, 0)) == 0
  {
  }

  lemma {:induction false} InitsConservedSoFar(h: seq<Call>, n: nat)
    requires n <= |h|
    ensures Transformations(EmittedUpTo(h, n)) + ContextFallbacks(EmittedUpTo(h, n))
            + Discards(h, n) + PendingAt(h, n)
         == ResolvedInits(h, n)
  {
    hide EmittedUpTo, PendingAt, PopsUnreported, ResolvedInit, Transformations, ContextFallbacks;
    if n == 0 {
      NothingPendingAtFirst(h);
    } else {
      InitsConservedSoFar(h, n - 1);
      PendingBalance(h, n);
    }
  }

  lemma {:induction false} CountConcat(a: seq<Report>, b: seq<Report>)
    ensures Transformations(a + b) == Transformations(a) + Transformations(b)
    ensures ContextFallbacks(a + b) == ContextFallbacks(a) + ContextFallbacks(b)
  {
    if b == [] {
      assert a + b == a;
    } else {
      CountConcat(a, b[..|b| - 1]);
      assert (a + b)[..|a + b| - 1] == a + b[..|b| - 1];
    }
  }

  lemma {:induction false} FlushVarsCounts(keys: seq<string>, entries: map<string, VarBinding>)
    ensures Transformations(FlushVars(keys, entries)) == ContextFallbacks(FlushVars(keys, entries)) == 0
  {
    if keys != [] {
      FlushVarsCounts(keys[1..], entries);
      CountConcat(VarLeftover(if keys[0] in entries then Some(entries[keys[0]]) else None),
                  FlushVars(keys[1..], entries));
    }
  }

  /** The unconsumed bindings among some keys. */
  function PendingAmong(keys: seq<string>, entries: map<string, CtxBinding>): set<string> {
    set c | c in keys && c in entries && !entries[c].consumed
  }

  lemma {:induction false} PendingFirst(keys: seq<string>, entries: map<string, CtxBinding>)
    requires keys != [] && Distinct(keys)
    ensures |PendingAmong(keys, entries)|
         == |PendingAmong(keys[1..], entries)| + if keys[0] in entries && !entries[keys[0]].consumed then 1 else 0
  {
    var c, rest := keys[0], PendingAmong(keys[1..], entries);
    assert c !in keys[1..] && forall k :: k in keys <==> k == c || k in keys[1..];
    assert PendingAmong(keys, entries) == if c in entries && !entries[c].consumed then rest + {c} else rest;
  }

  lemma {:induction false} FlushCtxsCounts(keys: seq<string>, entries: map<string, CtxBinding>)
    requires Distinct(keys)
    ensures Transformations(FlushCtxs(keys, entries)) == 0
    ensures ContextFallbacks(FlushCtxs(keys, entries)) == |PendingAmong(keys, entries)|
  {
    if keys == [] {
      assert PendingAmong(keys, entries) == {};
    } else {
      FlushCtxsCounts(keys[1..], entries);
      PendingFirst(keys, entries);
      var first := CtxLeftover(if keys[0] in entries then Some(entries[keys[0]]) else None);
      assert first != [] ==> first[..0] == [];
      CountConcat(first, FlushCtxs(keys[1..], entries));
    }
  }

  /**
   Conservation of Inits: every resolved Init ends as one Update report, or as one fallback report,
   or is one of the bindings an unresolvable re-init discards.
   */
  lemma {:induction false} InitsConserved(h: seq<Call>)
    ensures Transformations(Detect(h)) + ContextFallbacks(Detect(h)) + Discards(h, |h|)
         == ResolvedInits(h, |h|)
  {
    var s := Run(h, |h|);
    LinkageRefinesHistory(h, |h|);
    InitsConservedSoFar(h, |h|);
    FlushVarsCounts(s.vars.keys, s.vars.entries);
    FlushCtxsCounts(s.ctxs.keys, s.ctxs.entries);
    assert Pending(s.ctxs) == PendingAmong(s.ctxs.keys, s.ctxs.entries);
    CountConcat(FlushVars(s.vars.keys, s.vars.entries), FlushCtxs(s.ctxs.keys, s.ctxs.entries));
    CountConcat(s.reports, Flush(s));
  }
}
