/**
 What the linkage of CipherLinkage means, said by looking back through the calls instead of by
 keeping dictionaries: which fetch a variable refers to, which Init a context is under, and what
 each of them ends up reported as.
 */
module CipherHistory {
  import opened Prelude
  import opened OrderedDict
  import opened CipherLinkage

  predicate Fetches(call: Call, v: string) {
    call.Fetch? && call.target == Some(v) && call.recognised.Some?
  }

  predicate UsesHandle(call: Call, v: string) {
    call.CipherInit? && call.ctx.Some? && call.arg == Handle(v)
  }

  predicate Inits(call: Call, c: string) {
    call.CipherInit? && call.ctx == Some(c)
  }

  predicate Transforms(call: Call, c: string, d: Direction) {
    call == Update(Some(c), d, false)
  }

  /** The latest recognised fetch into v among the first n calls. */
  function LatestFetch(h: seq<Call>, n: nat, v: string): (r: Option<nat>)
    requires n <= |h|
    ensures r.None? ==> forall k :: 0 <= k < n ==> !Fetches(h[k], v)
    ensures r.Some? ==> r.value < n && Fetches(h[r.value], v) && forall k :: r.value < k < n ==> !Fetches(h[k], v)
  {
    if n == 0 then None
    else if Fetches(h[n - 1], v) then Some(n - 1)
    else LatestFetch(h, n - 1, v)
  }

  /** The latest Init on c among the first n calls, resolvable or not. */
  function LatestInit(h: seq<Call>, n: nat, c: string): (r: Option<nat>)
    requires n <= |h|
    ensures r.None? ==> forall k :: 0 <= k < n ==> !Inits(h[k], c)
    ensures r.Some? ==> r.value < n && Inits(h[r.value], c) && forall k :: r.value < k < n ==> !Inits(h[k], c)
  {
    if n == 0 then None
    else if Inits(h[n - 1], c) then Some(n - 1)
    else LatestInit(h, n - 1, c)
  }

  /** The cipher the Init call i refers to: a known getter, or the handle most recently fetched
      into the variable it names. */
  function ResolvedAt(h: seq<Call>, i: nat): Option<CipherInfo>
    requires i < |h| && h[i].CipherInit?
  {
    match h[i].arg
    case Getter(info) => info
    case Handle(v) => (match LatestFetch(h, i, v) case Some(f) => h[f].recognised case None => None)
    case Opaque => None
  }

  predicate UsedBetween(h: seq<Call>, v: string, i: nat, n: nat)
    requires n <= |h|
  {
    exists j :: i < j < n && UsesHandle(h[j], v)
  }

  predicate TransformedBetween(h: seq<Call>, c: string, d: Direction, i: nat, n: nat)
    requires n <= |h|
  {
    exists j :: i < j < n && Transforms(h[j], c, d)
  }

  /** What the history says about variable v before call n. */
  function VarAt(h: seq<Call>, n: nat, v: string): Option<VarBinding>
    requires n <= |h|
  {
    match LatestFetch(h, n, v)
    case Some(i) => Some(VarBinding(h[i].recognised.value, UsedBetween(h, v, i, n), i))
    case None => None
  }

  /** What the history says about context c before call n. */
  function CtxAt(h: seq<Call>, n: nat, c: string): Option<CtxBinding>
    requires n <= |h|
  {
    match LatestInit(h, n, c)
    case Some(i) =>
      (match ResolvedAt(h, i)
       case Some(info) =>
         Some(CtxBinding(info, h[i].direction, TransformedBetween(h, c, h[i].direction, i, n), i))
       case None => None)
    case None => None
  }

  /** What call n adds to the reports, by the history before it. */
  function Emitted(h: seq<Call>, n: nat): seq<Report>
    requires n < |h|
  {
    match h[n]
    case Fetch(Some(v), Some(_)) => VarLeftover(VarAt(h, n, v))
    case CipherInit(Some(c), _, _) =>
      if ResolvedAt(h, n).Some? then CtxLeftover(CtxAt(h, n, c)) else []
    case Update(Some(c), d, false) =>
      var b := CtxAt(h, n, c);
      if b.Some? && !b.value.consumed && b.value.direction == d then [Transformation(n, d, b.value.info)] else []
    case GetParams(Some(c)) =>
      var b := CtxAt(h, n, c);
      if b.Some? && b.value.direction == Encrypt && IsAead(b.value.info) then [TagRetrieval(n, b.value.info)] else []
    case DecryptFinal(Some(c)) =>
      var b := CtxAt(h, n, c);
      if b.Some? && b.value.direction == Decrypt && IsAead(b.value.info) then [TagVerify(n, b.value.info)] else []
    case SelfContained(true) => [Standalone(n)]
    case _ => []
  }

  function EmittedUpTo(h: seq<Call>, n: nat): seq<Report>
    requires n <= |h|
  {
    if n == 0 then [] else EmittedUpTo(h, n - 1) + Emitted(h, n - 1)
  }

  // ----- The dictionaries agree with the history -----

  ghost predicate Agrees(h: seq<Call>, n: nat, s: State)
    requires n <= |h|
  {
    && Valid(s.vars) && Valid(s.ctxs)
    && (forall v :: Lookup(s.vars, v) == VarAt(h, n, v))
    && (forall c :: Lookup(s.ctxs, c) == CtxAt(h, n, c))
    && s.reports == EmittedUpTo(h, n)
  }

  lemma {:induction false} VarAtStep(h: seq<Call>, n: nat, v: string)
    requires n < |h|
    ensures Fetches(h[n], v) ==> VarAt(h, n + 1, v) == Some(VarBinding(h[n].recognised.value, false, n))
    ensures !Fetches(h[n], v) && UsesHandle(h[n], v) && VarAt(h, n, v).Some?
            ==> VarAt(h, n + 1, v) == Some(VarAt(h, n, v).value.(consumed := true))
    ensures !Fetches(h[n], v) && (!UsesHandle(h[n], v) || VarAt(h, n, v).None?) ==> VarAt(h, n + 1, v) == VarAt(h, n, v)
  {
  }

  lemma {:induction false} CtxAtStep(h: seq<Call>, n: nat, c: string)
    requires n < |h|
    ensures Inits(h[n], c) ==>
              CtxAt(h, n + 1, c) ==
              (match ResolvedAt(h, n)
               case Some(info) => Some(CtxBinding(info, h[n].direction, false, n))
               case None => None)
    ensures !Inits(h[n], c) && CtxAt(h, n, c).Some? && Transforms(h[n], c, CtxAt(h, n, c).value.direction)
            ==> CtxAt(h, n + 1, c) == Some(CtxAt(h, n, c).value.(consumed := true))
    ensures !Inits(h[n], c) && !(CtxAt(h, n, c).Some? && Transforms(h[n], c, CtxAt(h, n, c).value.direction))
            ==> CtxAt(h, n + 1, c) == CtxAt(h, n, c)
  {
  }

  lemma {:induction false} VarsAgree(h: seq<Call>, n: nat, s: State, v: string)
    requires n < |h| && Agrees(h, n, s)
    ensures Lookup(Step(s, n, h[n]).vars, v) == VarAt(h, n + 1, v)
  {
    hide VarAt, EmittedUpTo, CtxAt;
    VarAtStep(h, n, v);
  }

  lemma {:induction false} ResolvesAlike(h: seq<Call>, n: nat, s: State)
    requires n < |h| && Agrees(h, n, s) && h[n].CipherInit?
    ensures Resolve(h[n].arg, s.vars) == ResolvedAt(h, n)
  {
  }

  lemma {:induction false} CtxsAgree(h: seq<Call>, n: nat, s: State, c: string)
    requires n < |h| && Agrees(h, n, s)
    ensures Lookup(Step(s, n, h[n]).ctxs, c) == CtxAt(h, n + 1, c)
  {
    hide VarAt, EmittedUpTo, CtxAt, ResolvedAt;
    if h[n].CipherInit? {
      ResolvesAlike(h, n, s);
    }
    CtxAtStep(h, n, c);
  }

  /** One call keeps the agreement. */
  lemma {:induction false} StepAgrees(h: seq<Call>, n: nat, s: State)
    requires n < |h| && Agrees(h, n, s)
    ensures Agrees(h, n + 1, Step(s, n, h[n]))
  {
    hide VarAt, CtxAt, ResolvedAt;
    var t := Step(s, n, h[n]);
    forall v ensures Lookup(t.vars, v) == VarAt(h, n + 1, v) {
      VarsAgree(h, n, s, v);
    }
    forall c ensures Lookup(t.ctxs, c) == CtxAt(h, n + 1, c) {
      CtxsAgree(h, n, s, c);
    }
    if h[n].CipherInit? {
      ResolvesAlike(h, n, s);
    }
  }

  lemma {:induction false} AgreesAtFirst(h: seq<Call>)
    ensures Agrees(h, 0, Run(h, 0))
  {
  }

  /** For every call sequence, the dictionaries and the reports are what the history says. */
  lemma {:induction false} LinkageRefinesHistory(h: seq<Call>, n: nat)
    requires n <= |h|
    ensures Agrees(h, n, Run(h, n))
  {
    hide Agrees, Step;
    if n != 0 {
      LinkageRefinesHistory(h, n - 1);
      StepAgrees(h, n - 1, Run(h, n - 1));
    } else {
      AgreesAtFirst(h);
    }
  }

  // ----- The reports, one kind at a time -----

  lemma {:induction false} InEmittedUpTo(h: seq<Call>, n: nat, r: Report)
    requires n <= |h|
    ensures r in EmittedUpTo(h, n) <==> exists k :: 0 <= k < n && r in Emitted(h, k)
  {
    hide Emitted;
    if n != 0 {
      InEmittedUpTo(h, n - 1, r);
    }
  }

  lemma {:induction false} InFlushVars(keys: seq<string>, entries: map<string, VarBinding>, r: Report)
    ensures r in FlushVars(keys, entries)
            <==> exists v :: v in keys && v in entries && !entries[v].consumed && r == VarReport(entries[v])
  {
    if keys != [] {
      InFlushVars(keys[1..], entries, r);
      assert forall v :: v in keys <==> v == keys[0] || v in keys[1..];
    }
  }

  lemma {:induction false} InFlushCtxs(keys: seq<string>, entries: map<string, CtxBinding>, r: Report)
    ensures r in FlushCtxs(keys, entries)
            <==> exists c :: c in keys && c in entries && !entries[c].consumed && r == CtxReport(entries[c])
  {
    if keys != [] {
      InFlushCtxs(keys[1..], entries, r);
      assert forall c :: c in keys <==> c == keys[0] || c in keys[1..];
    }
  }

  /** A report comes from one call, or from a handle or context left over at the end. */
  lemma {:induction false} InDetect(h: seq<Call>, r: Report)
    ensures r in Detect(h) <==>
              || (exists k :: 0 <= k < |h| && r in Emitted(h, k))
              || (exists v :: r in VarLeftover(VarAt(h, |h|, v)))
              || (exists c :: r in CtxLeftover(CtxAt(h, |h|, c)))
  {
    var s := Run(h, |h|);
    LinkageRefinesHistory(h, |h|);
    InEmittedUpTo(h, |h|, r);
    InFlushVars(s.vars.keys, s.vars.entries, r);
    InFlushCtxs(s.ctxs.keys, s.ctxs.entries, r);
    assert forall v :: r in VarLeftover(VarAt(h, |h|, v)) <==>
                         v in s.vars.keys && !s.vars.entries[v].consumed && r == VarReport(s.vars.entries[v]) by {
      forall v
        ensures r in VarLeftover(VarAt(h, |h|, v)) <==>
                v in s.vars.keys && !s.vars.entries[v].consumed && r == VarReport(s.vars.entries[v])
      {
        assert Lookup(s.vars, v) == VarAt(h, |h|, v);
      }
    }
    assert forall c :: r in CtxLeftover(CtxAt(h, |h|, c)) <==>
                         c in s.ctxs.keys && !s.ctxs.entries[c].consumed && r == CtxReport(s.ctxs.entries[c]) by {
      forall c
        ensures r in CtxLeftover(CtxAt(h, |h|, c)) <==>
                c in s.ctxs.keys && !s.ctxs.entries[c].consumed && r == CtxReport(s.ctxs.entries[c])
      {
        assert Lookup(s.ctxs, c) == CtxAt(h, |h|, c);
      }
    }
  }

  /** Reports other than fallbacks are made by the call they point at. */
  lemma {:induction false} DirectReport(h: seq<Call>, r: Report)
    requires !r.HandleFallback? && !r.ContextFallback?
    ensures r in Detect(h) <==> r.at < |h| && r in Emitted(h, r.at)
  {
    hide Detect, VarAt, CtxAt, ResolvedAt;
    InDetect(h, r);
  }

  /**
   An Update reports a transformation exactly when its output is not NULL, the latest Init on its
   context was resolvable and in the same direction, and no such Update lies between the two; the
   report carries what that Init referred to.
   */
  lemma {:induction false} TransformationIff(h: seq<Call>, j: nat, d: Direction, info: CipherInfo)
    ensures Transformation(j, d, info) in Detect(h) <==>
              && j < |h|
              && h[j].Update? && h[j].ctx.Some? && h[j].direction == d && !h[j].nullOutput
              && var i := LatestInit(h, j, h[j].ctx.value);
              && i.Some? && h[i.value].direction == d && ResolvedAt(h, i.value) == Some(info)
              && !TransformedBetween(h, h[j].ctx.value, d, i.value, j)
  {
    DirectReport(h, Transformation(j, d, info));
  }

  /** Tag retrieval is reported at every get_params under an encrypting AEAD Init, whether or not
      an Update came between. */
  lemma {:induction false} TagRetrievalIff(h: seq<Call>, j: nat, info: CipherInfo)
    ensures TagRetrieval(j, info) in Detect(h) <==>
              && j < |h|
              && h[j].GetParams? && h[j].ctx.Some? && (info.mode == Some("GCM") || info.mode == Some("CCM"))
              && var i := LatestInit(h, j, h[j].ctx.value);
              && i.Some? && h[i.value].direction == Encrypt && ResolvedAt(h, i.value) == Some(info)
  {
    DirectReport(h, TagRetrieval(j, info));
  }

  /** Tag verification, on the decrypting side. */
  lemma {:induction false} TagVerifyIff(h: seq<Call>, j: nat, info: CipherInfo)
    ensures TagVerify(j, info) in Detect(h) <==>
              && j < |h|
              && h[j].DecryptFinal? && h[j].ctx.Some? && (info.mode == Some("GCM") || info.mode == Some("CCM"))
              && var i := LatestInit(h, j, h[j].ctx.value);
              && i.Some? && h[i.value].direction == Decrypt && ResolvedAt(h, i.value) == Some(info)
  {
    DirectReport(h, TagVerify(j, info));
  }
}
