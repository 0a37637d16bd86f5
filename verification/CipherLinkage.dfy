/**
 The cipher-context linkage of the C detector: handles fetched into variables are bound to
 contexts by the Init calls, and the Update, get_params and Final calls report what the bound
 context does. Calls arrive in source order; each report carries the position of the call whose
 location it shows.
 */
module CipherLinkage {
  import opened Prelude
  import opened OrderedDict

  datatype Family = AES | ThreeDES | DES | Blowfish | RC4 | ChaCha20

  datatype CipherInfo = CipherInfo(family: Family, keySize: Option<nat>, mode: Option<string>)

  datatype Direction = Encrypt | Decrypt

  /** The second argument of an Init call. */
  datatype CipherArg =
    | Getter(info: Option<CipherInfo>)  // a nested call; None when the getter is not a known one
    | Handle(name: string)              // an identifier
    | Opaque                            // anything else, NULL included

  /** One call of the source file. A missing context or target means the call has too few
      arguments there, or something other than an identifier. */
  datatype Call =
    | Fetch(target: Option<string>, recognised: Option<CipherInfo>)
    | CipherInit(ctx: Option<string>, direction: Direction, arg: CipherArg)
    | Update(ctx: Option<string>, direction: Direction, nullOutput: bool)
    | GetParams(ctx: Option<string>)
    | DecryptFinal(ctx: Option<string>)
    | SelfContained(reports: bool)

  datatype Report =
    | Transformation(at: nat, direction: Direction, info: CipherInfo)
    | TagRetrieval(at: nat, info: CipherInfo)
    | TagVerify(at: nat, info: CipherInfo)
    | HandleFallback(at: nat, info: CipherInfo)
    | ContextFallback(at: nat, direction: Direction, info: CipherInfo)
    | Standalone(at: nat)

  datatype VarBinding = VarBinding(info: CipherInfo, consumed: bool, at: nat)
  datatype CtxBinding = CtxBinding(info: CipherInfo, direction: Direction, consumed: bool, at: nat)

  datatype State = State(vars: Dict<VarBinding>, ctxs: Dict<CtxBinding>, reports: seq<Report>)

  predicate IsAead(info: CipherInfo) {
    info.mode == Some("GCM") || info.mode == Some("CCM")
  }

  function VarReport(b: VarBinding): Report {
    HandleFallback(b.at, b.info)
  }

  function CtxReport(b: CtxBinding): Report {
    ContextFallback(b.at, b.direction, b.info)
  }

  function VarLeftover(b: Option<VarBinding>): seq<Report> {
    if b.Some? && !b.value.consumed then [VarReport(b.value)] else []
  }

  function CtxLeftover(b: Option<CtxBinding>): seq<Report> {
    if b.Some? && !b.value.consumed then [CtxReport(b.value)] else []
  }

  // ----- One call at a time -----

  function Resolve(arg: CipherArg, vars: Dict<VarBinding>): Option<CipherInfo> {
    match arg
    case Getter(info) => info
    case Handle(v) => (match Lookup(vars, v) case Some(b) => Some(b.info) case None => None)
    case Opaque => None
  }

  function MarkUsed(arg: CipherArg, vars: Dict<VarBinding>): Dict<VarBinding> {
    if arg.Handle? && arg.name in vars.entries
    then Put(vars, arg.name, vars.entries[arg.name].(consumed := true))
    else vars
  }

  function Step(s: State, at: nat, call: Call): State {
    match call
    case Fetch(Some(v), Some(info)) =>
      s.(vars := Put(s.vars, v, VarBinding(info, false, at)),
         reports := s.reports + VarLeftover(Lookup(s.vars, v)))
    case CipherInit(Some(c), d, arg) =>
      (match Resolve(arg, s.vars)
       case None => s.(vars := MarkUsed(arg, s.vars), ctxs := Remove(s.ctxs, c))
       case Some(info) =>
         State(MarkUsed(arg, s.vars),
               Put(s.ctxs, c, CtxBinding(info, d, false, at)),
               s.reports + CtxLeftover(Lookup(s.ctxs, c))))
    case Update(Some(c), d, nullOutput) =>
      (match Lookup(s.ctxs, c)
       case Some(b) =>
         if b.consumed || b.direction != d || nullOutput then s
         else s.(ctxs := Put(s.ctxs, c, b.(consumed := true)),
                 reports := s.reports + [Transformation(at, d, b.info)])
       case None => s)
    case GetParams(Some(c)) =>
      (match Lookup(s.ctxs, c)
       case Some(b) =>
         if b.direction == Encrypt && IsAead(b.info)
         then s.(reports := s.reports + [TagRetrieval(at, b.info)]) else s
       case None => s)
    case DecryptFinal(Some(c)) =>
      (match Lookup(s.ctxs, c)
       case Some(b) =>
         if b.direction == Decrypt && IsAead(b.info)
         then s.(reports := s.reports + [TagVerify(at, b.info)]) else s
       case None => s)
    case SelfContained(true) => s.(reports := s.reports + [Standalone(at)])
    case _ => s
  }

  function Run(h: seq<Call>, n: nat): State
    requires n <= |h|
  {
    if n == 0 then State(Empty(), Empty(), [])
    else Step(Run(h, n - 1), n - 1, h[n - 1])
  }

  function FlushVars(keys: seq<string>, entries: map<string, VarBinding>): seq<Report> {
    if keys == [] then []
    else VarLeftover(if keys[0] in entries then Some(entries[keys[0]]) else None) + FlushVars(keys[1..], entries)
  }

  function FlushCtxs(keys: seq<string>, entries: map<string, CtxBinding>): seq<Report> {
    if keys == [] then []
    else CtxLeftover(if keys[0] in entries then Some(entries[keys[0]]) else None) + FlushCtxs(keys[1..], entries)
  }

  lemma {:induction false} FlushVarsNone(entries: map<string, VarBinding>)
    ensures FlushVars([], entries) == []
  {
  }

  lemma {:induction false} FlushVarsStep(keys: seq<string>, entries: map<string, VarBinding>, i: nat)
    requires i < |keys|
    ensures FlushVars(keys[i..], entries)
         == VarLeftover(if keys[i] in entries then Some(entries[keys[i]]) else None) + FlushVars(keys[i + 1..], entries)
  {
  }

  lemma {:induction false} FlushCtxsNone(entries: map<string, CtxBinding>)
    ensures FlushCtxs([], entries) == []
  {
  }

  lemma {:induction false} FlushCtxsStep(keys: seq<string>, entries: map<string, CtxBinding>, i: nat)
    requires i < |keys|
    ensures FlushCtxs(keys[i..], entries)
         == CtxLeftover(if keys[i] in entries then Some(entries[keys[i]]) else None) + FlushCtxs(keys[i + 1..], entries)
  {
  }

  function Flush(s: State): seq<Report> {
    FlushVars(s.vars.keys, s.vars.entries) + FlushCtxs(s.ctxs.keys, s.ctxs.entries)
  }

  /** Everything the detector reports for a file whose calls are h. */
  function Detect(h: seq<Call>): seq<Report> {
    Run(h, |h|).reports + Flush(Run(h, |h|))
  }

  // ----- The detector, updating its dictionaries in place -----

  class Detector {
    var cipherVars: Dict<VarBinding>
    var ctxState: Dict<CtxBinding>
    var detections: seq<Report>

    ghost function View(): State
      reads this
    {
      State(cipherVars, ctxState, detections)
    }

    constructor ()
      ensures View() == State(Empty(), Empty(), [])
    {
      cipherVars, ctxState, detections := Empty(), Empty(), [];
    }

    method TrackCipherFetch(at: nat, target: Option<string>, recognised: Option<CipherInfo>)
      modifies this
      ensures View() == Step(old(View()), at, Fetch(target, recognised))
    {
      if recognised == None || target == None {
        return;
      }
      var existing := Lookup(cipherVars, target.value);
      if existing.Some? && !existing.value.consumed {
        detections := detections + [VarReport(existing.value)];
      }
      cipherVars := Put(cipherVars, target.value, VarBinding(recognised.value, false, at));
    }

    method ResolveCipherArg(arg: CipherArg) returns (info: Option<CipherInfo>)
      modifies this`cipherVars
      ensures info == Resolve(arg, old(cipherVars))
      ensures cipherVars == MarkUsed(arg, old(cipherVars))
    {
      match arg {
        case Getter(i) =>
          info := i;
        case Handle(v) =>
          var binding := Lookup(cipherVars, v);
          if binding.None? {
            return None;
          }
          cipherVars := Put(cipherVars, v, binding.value.(consumed := true));
          info := Some(binding.value.info);
        case Opaque =>
          info := None;
      }
    }

    method BindEvpCtx(at: nat, ctx: Option<string>, direction: Direction, arg: CipherArg)
      modifies this
      ensures View() == Step(old(View()), at, CipherInit(ctx, direction, arg))
    {
      if ctx == None {
        return;
      }
      var info := ResolveCipherArg(arg);
      if info == None {
        ctxState := Remove(ctxState, ctx.value);
        return;
      }
      var existing := Lookup(ctxState, ctx.value);
      if existing.Some? && !existing.value.consumed {
        detections := detections + [CtxReport(existing.value)];
      }
      ctxState := Put(ctxState, ctx.value, CtxBinding(info.value, direction, false, at));
    }

    method HandleUpdate(at: nat, ctx: Option<string>, direction: Direction, nullOutput: bool)
      modifies this
      ensures View() == Step(old(View()), at, Update(ctx, direction, nullOutput))
    {
      if ctx == None {
        return;
      }
      var binding := Lookup(ctxState, ctx.value);
      if binding.None? || binding.value.consumed || binding.value.direction != direction || nullOutput {
        return;
      }
      detections := detections + [Transformation(at, direction, binding.value.info)];
      ctxState := Put(ctxState, ctx.value, binding.value.(consumed := true));
    }

    method HandleGetParams(at: nat, ctx: Option<string>)
      modifies this
      ensures View() == Step(old(View()), at, GetParams(ctx))
    {
      if ctx == None {
        return;
      }
      var binding := Lookup(ctxState, ctx.value);
      if binding.None? || binding.value.direction != Encrypt || !IsAead(binding.value.info) {
        return;
      }
      detections := detections + [TagRetrieval(at, binding.value.info)];
    }

    method HandleDecryptFinal(at: nat, ctx: Option<string>)
      modifies this
      ensures View() == Step(old(View()), at, DecryptFinal(ctx))
    {
      if ctx == None {
        return;
      }
      var binding := Lookup(ctxState, ctx.value);
      if binding.None? || binding.value.direction != Decrypt || !IsAead(binding.value.info) {
        return;
      }
      detections := detections + [TagVerify(at, binding.value.info)];
    }

    method FlushHandles()
      modifies this`detections
      ensures detections == old(detections) + FlushVars(cipherVars.keys, cipherVars.entries)
    {
      var i := 0;
      hide FlushVars, VarReport;
      assert cipherVars.keys[i..] == cipherVars.keys;
      while i < |cipherVars.keys|
        invariant i <= |cipherVars.keys|
        invariant detections + FlushVars(cipherVars.keys[i..], cipherVars.entries)
               == old(detections) + FlushVars(cipherVars.keys, cipherVars.entries)
      {
        FlushVarsStep(cipherVars.keys, cipherVars.entries, i);
        var b := Lookup(cipherVars, cipherVars.keys[i]);
        if b.Some? && !b.value.consumed {
          detections := detections + [VarReport(b.value)];
        }
        i := i + 1;
      }
      FlushVarsNone(cipherVars.entries);
      assert cipherVars.keys[i..] == [];
    }

    method FlushContexts()
      modifies this`detections
      ensures detections == old(detections) + FlushCtxs(ctxState.keys, ctxState.entries)
    {
      var i := 0;
      hide FlushCtxs, CtxReport;
      assert ctxState.keys[i..] == ctxState.keys;
      while i < |ctxState.keys|
        invariant i <= |ctxState.keys|
        invariant detections + FlushCtxs(ctxState.keys[i..], ctxState.entries)
               == old(detections) + FlushCtxs(ctxState.keys, ctxState.entries)
      {
        FlushCtxsStep(ctxState.keys, ctxState.entries, i);
        var b := Lookup(ctxState, ctxState.keys[i]);
        if b.Some? && !b.value.consumed {
          detections := detections + [CtxReport(b.value)];
        }
        i := i + 1;
      }
      FlushCtxsNone(ctxState.entries);
      assert ctxState.keys[i..] == [];
    }
  }

  method DetectCode(calls: seq<Call>) returns (detections: seq<Report>)
    ensures detections == Detect(calls)
  {
    var d := new Detector();
    for at := 0 to |calls|
      invariant d.View() == Run(calls, at)
      invariant fresh(d)
    {
      match calls[at] {
        case Fetch(target, recognised) => d.TrackCipherFetch(at, target, recognised);
        case CipherInit(ctx, direction, arg) => d.BindEvpCtx(at, ctx, direction, arg);
        case Update(ctx, direction, nullOutput) => d.HandleUpdate(at, ctx, direction, nullOutput);
        case GetParams(ctx) => d.HandleGetParams(at, ctx);
        case DecryptFinal(ctx) => d.HandleDecryptFinal(at, ctx);
        case SelfContained(reports) =>
          if reports {
            d.detections := d.detections + [Standalone(at)];
          }
      }
    }
    d.FlushHandles();
    d.FlushContexts();
    detections := d.detections;
  }
}
