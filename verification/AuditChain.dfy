/**
 The audit log: each record carries the hash of its own fields and of the record before it. Hashing
 and the writing of details as JSON are parameters; an absent detail is written as an empty one by
 the caller of the log.
 */
module AuditChain {
  import opened Prelude

  datatype Record = Record(actor: string, action: string, entityType: string, entityId: string,
                           detail: string, prevHash: string, recordHash: string, timestamp: int)

  type Hash = string -> string

  function Zeros(): string {
    seq(64, _ => '0')
  }

  function Payload(actor: string, action: string, entityType: string, entityId: string,
                   detail: string, prevHash: string): string {
    actor + ("|" + (action + ("|" + (entityType + ("|" + (entityId + ("|" + (detail + ("|" + prevHash)))))))))
  }

  function RecordPayload(r: Record): string {
    Payload(r.actor, r.action, r.entityType, r.entityId, r.detail, r.prevHash)
  }

  /** The hash the next record must link to. */
  function HeadHash(log: seq<Record>): string {
    if log == [] then Zeros() else log[|log| - 1].recordHash
  }

  predicate Linked(log: seq<Record>, i: nat)
    requires i < |log|
  {
    log[i].prevHash == if i == 0 then Zeros() else log[i - 1].recordHash
  }

  predicate Sealed(hash: Hash, r: Record) {
    r.recordHash == hash(RecordPayload(r))
  }

  predicate Intact(hash: Hash, log: seq<Record>, i: nat)
    requires i < |log|
  {
    Linked(log, i) && Sealed(hash, log[i])
  }

  predicate Verified(hash: Hash, log: seq<Record>) {
    forall i :: 0 <= i < |log| ==> Intact(hash, log, i)
  }

  datatype Fault = BrokenChain(index: nat) | Tampered(index: nat)

  datatype Action = Action(actor: string, action: string, entityType: string, entityId: string,
                           detail: string, now: int)

  // ----- What a log is to hold, said of its records alone -----

  /** The record holds what was audited, each field in its place. */
  predicate Holds(r: Record, a: Action) {
    && r.actor == a.actor && r.action == a.action && r.entityType == a.entityType && r.entityId == a.entityId
    && r.detail == a.detail && r.timestamp == a.now
  }

  /** Record i links to the hash of the record before it, or to 64 zeros when there is none, and is sealed by the
      hash of actor, action, type, id, detail and link, in that order, joined by bars. */
  predicate LinkedAndSealed(hash: Hash, log: seq<Record>, i: nat)
    requires i < |log|
  {
    && (if i > 0 && log[i - 1].recordHash != "" then log[i].prevHash == log[i - 1].recordHash
        else |log[i].prevHash| == 64 && forall k :: 0 <= k < 64 ==> log[i].prevHash[k] == '0')
    && log[i].recordHash == hash(log[i].actor + "|" + log[i].action + "|" + log[i].entityType + "|"
                                 + log[i].entityId + "|" + log[i].detail + "|" + log[i].prevHash)
  }

  lemma {:induction false} JoinedByBars(a: string, b: string, c: string, d: string, e: string, f: string)
    ensures Payload(a, b, c, d, e, f) == a + "|" + b + "|" + c + "|" + d + "|" + e + "|" + f
  {
  }

  /** The log that results from a run of audited actions. */
  function Append(hash: Hash, log: seq<Record>, a: Action): seq<Record> {
    var prev := if HeadHash(log) != "" then HeadHash(log) else Zeros();
    var h := hash(Payload(a.actor, a.action, a.entityType, a.entityId, a.detail, prev));
    log + [Record(a.actor, a.action, a.entityType, a.entityId, a.detail, prev, h, a.now)]
  }

  lemma {:induction false} AppendHolds(hash: Hash, log: seq<Record>, a: Action)
    ensures var after := Append(hash, log, a);
            && |after| == |log| + 1 && log <= after
            && Holds(after[|log|], a) && LinkedAndSealed(hash, after, |log|)
  {
    hide Payload;
    var r := Append(hash, log, a)[|log|];
    JoinedByBars(r.actor, r.action, r.entityType, r.entityId, r.detail, r.prevHash);
  }

  class AuditLog {
    const hash: Hash
    var records: seq<Record>

    constructor (hash: Hash)
      ensures this.hash == hash && records == []
    {
      this.hash := hash;
      records := [];
    }

    method LogAudit(actor: string, action: string, entityType: string, entityId: string, detail: string, now: int)
      modifies this
      ensures records == Append(hash, old(records), Action(actor, action, entityType, entityId, detail, now))
      ensures |records| == |old(records)| + 1 && old(records) <= records
      ensures Holds(records[|records| - 1], Action(actor, action, entityType, entityId, detail, now))
      ensures LinkedAndSealed(hash, records, |records| - 1)
    {
      AppendHolds(hash, records, Action(actor, action, entityType, entityId, detail, now));
      var prevHash := Zeros();
      if |records| > 0 && records[|records| - 1].recordHash != "" {
        prevHash := records[|records| - 1].recordHash;
      }
      var recordHash := hash(Payload(actor, action, entityType, entityId, detail, prevHash));
      records := records + [Record(actor, action, entityType, entityId, detail, prevHash, recordHash, now)];
    }

    /** Verification stops at the first record whose link or hash is wrong. */
    method VerifyIntegrity() returns (valid: bool, fault: Option<Fault>)
      ensures valid <==> Verified(hash, records)
      ensures valid <==> fault == None
      ensures fault.Some? ==>
                && fault.value.index < |records|
                && (forall i :: 0 <= i < fault.value.index ==> Intact(hash, records, i))
                && (if fault.value.BrokenChain? then !Linked(records, fault.value.index)
                    else Linked(records, fault.value.index) && !Sealed(hash, records[fault.value.index]))
    {
      var expectedPrev := Zeros();
      for i := 0 to |records|
        invariant expectedPrev == if i == 0 then Zeros() else records[i - 1].recordHash
        invariant forall j :: 0 <= j < i ==> Intact(hash, records, j)
      {
        if records[i].prevHash != expectedPrev {
          assert !Intact(hash, records, i);
          return false, Some(BrokenChain(i));
        }
        if records[i].recordHash != hash(RecordPayload(records[i])) {
          assert !Intact(hash, records, i);
          return false, Some(Tampered(i));
        }
        expectedPrev := records[i].recordHash;
      }
      return true, None;
    }
  }

  function Build(hash: Hash, actions: seq<Action>): seq<Record> {
    if actions == [] then [] else Append(hash, Build(hash, actions[..|actions| - 1]), actions[|actions| - 1])
  }

  lemma {:induction false} AppendVerifies(hash: Hash, log: seq<Record>, a: Action)
    requires Verified(hash, log) && HeadHash(log) != ""
    ensures Verified(hash, Append(hash, log, a))
  {
    var after := Append(hash, log, a);
    forall i | 0 <= i < |after| ensures Intact(hash, after, i) {
      if i < |log| {
        assert Intact(hash, log, i);
        assert i > 0 ==> after[i - 1] == log[i - 1];
      }
    }
  }

  /** Every log built by the audit function verifies, for a hash that never returns nothing. */
  lemma {:induction false} BuiltLogsVerify(hash: Hash, actions: seq<Action>)
    requires forall s :: hash(s) != ""
    ensures Verified(hash, Build(hash, actions)) && HeadHash(Build(hash, actions)) != ""
    ensures |Build(hash, actions)| == |actions|
  {
    if actions == [] {
      assert |Zeros()| == 64;
    } else {
      BuiltLogsVerify(hash, actions[..|actions| - 1]);
      AppendVerifies(hash, Build(hash, actions[..|actions| - 1]), actions[|actions| - 1]);
    }
  }

  /** A log built from actions holds them one by one, in order, each linked and sealed, whatever the hash. */
  lemma {:induction false} BuiltLogHolds(hash: Hash, actions: seq<Action>, i: nat)
    requires i < |actions|
    ensures var log := Build(hash, actions);
            |log| == |actions| && Holds(log[i], actions[i]) && LinkedAndSealed(hash, log, i)
    decreases |actions|
  {
    hide Append;
    var front, last := actions[..|actions| - 1], actions[|actions| - 1];
    BuiltLength(hash, front);
    AppendHolds(hash, Build(hash, front), last);
    if i < |front| {
      BuiltLogHolds(hash, front, i);
    }
  }

  lemma {:induction false} BuiltLength(hash: Hash, actions: seq<Action>)
    ensures |Build(hash, actions)| == |actions|
  {
    if actions != [] {
      BuiltLength(hash, actions[..|actions| - 1]);
    }
  }

  /** Auditing more leaves the earlier records as they were. */
  lemma {:induction false} EarlierRecordsStay(hash: Hash, actions: seq<Action>, k: nat)
    requires k <= |actions|
    ensures Build(hash, actions[..k]) <= Build(hash, actions)
    decreases |actions|
  {
    if k < |actions| {
      EarlierRecordsStay(hash, actions[..|actions| - 1], k);
      assert actions[..|actions| - 1][..k] == actions[..k];
    } else {
      assert actions[..k] == actions;
    }
  }

  // ----- The joined payload can be split back -----

  predicate NoBar(s: string) {
    '|' !in s
  }

  function FirstBar(s: string): nat {
    if s == "" || s[0] == '|' then 0 else 1 + FirstBar(s[1..])
  }

  function LastBar(s: string): nat {
    if s == "" then 0 else if s[|s| - 1] == '|' then |s| - 1 else LastBar(s[..|s| - 1])
  }

  lemma {:induction false} FirstBarAfter(a: string, x: string)
    requires NoBar(a)
    ensures FirstBar(a + ("|" + x)) == |a|
  {
    var s := a + ("|" + x);
    if a != "" {
      assert a[0] in a && s[1..] == a[1..] + ("|" + x);
      FirstBarAfter(a[1..], x);
    }
  }

  lemma {:induction false} LastBarBefore(x: string, a: string)
    requires NoBar(a)
    ensures LastBar(x + ("|" + a)) == |x|
  {
    var s := x + ("|" + a);
    if a != "" {
      assert a[|a| - 1] in a && s[..|s| - 1] == x + ("|" + a[..|a| - 1]);
      LastBarBefore(x, a[..|a| - 1]);
    }
  }

  /** The first bar of a joined text is where its bar-free first field ends. */
  lemma {:induction false} SplitFirst(a: string, x: string, b: string, y: string)
    requires NoBar(a) && NoBar(b) && a + ("|" + x) == b + ("|" + y)
    ensures a == b && x == y
  {
    var s := a + ("|" + x);
    FirstBarAfter(a, x);
    FirstBarAfter(b, y);
    assert a == s[..|a|] && b == s[..|b|];
    assert x == s[|a| + 1..] && y == s[|b| + 1..];
  }

  /** The last bar of a joined text is where its bar-free last field begins. */
  lemma {:induction false} SplitLast(x: string, a: string, y: string, b: string)
    requires NoBar(a) && NoBar(b) && x + ("|" + a) == y + ("|" + b)
    ensures a == b && x == y
  {
    var s := x + ("|" + a);
    LastBarBefore(x, a);
    LastBarBefore(y, b);
    assert x == s[..|x|] && y == s[..|y|];
    assert a == s[|x| + 1..] && b == s[|y| + 1..];
  }

  /** The fields that can contain anything at all are the detail; the others hold no bar. */
  predicate BarFree(r: Record) {
    NoBar(r.actor) && NoBar(r.action) && NoBar(r.entityType) && NoBar(r.entityId)
  }

  /** Equality of records, timestamps aside. */
  predicate SameRecord(r: Record, q: Record) {
    r == q.(timestamp := r.timestamp)
  }

  lemma {:induction false} PayloadSplitsBack(r: Record, q: Record)
    requires BarFree(r) && BarFree(q) && NoBar(r.prevHash) && NoBar(q.prevHash)
    requires RecordPayload(r) == RecordPayload(q) && r.recordHash == q.recordHash
    ensures SameRecord(r, q)
  {
    var r1, q1 := r.detail + ("|" + r.prevHash), q.detail + ("|" + q.prevHash);
    var r2, q2 := r.entityId + ("|" + r1), q.entityId + ("|" + q1);
    var r3, q3 := r.entityType + ("|" + r2), q.entityType + ("|" + q2);
    var r4, q4 := r.action + ("|" + r3), q.action + ("|" + q3);
    SplitFirst(r.actor, r4, q.actor, q4);
    SplitFirst(r.action, r3, q.action, q3);
    SplitFirst(r.entityType, r2, q.entityType, q2);
    SplitFirst(r.entityId, r1, q.entityId, q1);
    SplitLast(r.detail, r.prevHash, q.detail, q.prevHash);
  }

  // ----- What an equal head hash says about two logs -----

  /** A record of one log and a record of the other have different payloads with the same hash. */
  ghost predicate Collide(hash: Hash, a: seq<Record>, b: seq<Record>) {
    exists r, q :: r in a && q in b && RecordPayload(r) != RecordPayload(q)
                   && hash(RecordPayload(r)) == hash(RecordPayload(q))
  }

  /** A record of the log hashes to the value that stands for the empty log. */
  ghost predicate HitsZeros(hash: Hash, a: seq<Record>) {
    exists r :: r in a && hash(RecordPayload(r)) == Zeros()
  }

  ghost predicate SameLog(a: seq<Record>, b: seq<Record>) {
    |a| == |b| && forall i :: 0 <= i < |a| ==> SameRecord(a[i], b[i])
  }

  lemma {:induction false} LinkNoBar(hash: Hash, log: seq<Record>, i: nat)
    requires Verified(hash, log) && i < |log| && forall s :: NoBar(hash(s))
    ensures NoBar(log[i].prevHash)
  {
    assert Intact(hash, log, i);
    if i > 0 {
      assert Intact(hash, log, i - 1);
    }
  }

  lemma {:induction false} PrefixVerifies(hash: Hash, log: seq<Record>, k: nat)
    requires Verified(hash, log) && k <= |log|
    ensures Verified(hash, log[..k])
  {
    forall i | 0 <= i < k ensures Intact(hash, log[..k], i) {
      assert Intact(hash, log, i);
      assert i > 0 ==> log[..k][i - 1] == log[i - 1];
    }
  }

  lemma {:induction false} HeadOfPrefix(hash: Hash, log: seq<Record>)
    requires Verified(hash, log) && log != []
    ensures HeadHash(log[..|log| - 1]) == log[|log| - 1].prevHash
    ensures HeadHash(log) == hash(RecordPayload(log[|log| - 1]))
  {
    assert Intact(hash, log, |log| - 1);
  }

  lemma {:induction false} EmptyHead(hash: Hash, a: seq<Record>)
    requires Verified(hash, a) && a != [] && HeadHash(a) == Zeros()
    ensures HitsZeros(hash, a)
  {
    HeadOfPrefix(hash, a);
    assert a[|a| - 1] in a;
  }

  lemma {:induction false} SameLogOneMore(a: seq<Record>, b: seq<Record>)
    requires a != [] && b != [] && SameLog(a[..|a| - 1], b[..|b| - 1])
    requires SameRecord(a[|a| - 1], b[|b| - 1])
    ensures SameLog(a, b)
  {
  }

  lemma {:induction false} FaultsOfPrefix(hash: Hash, a: seq<Record>, b: seq<Record>, j: nat, k: nat)
    requires j <= |a| && k <= |b|
    ensures Collide(hash, a[..j], b[..k]) ==> Collide(hash, a, b)
    ensures HitsZeros(hash, a[..j]) ==> HitsZeros(hash, a)
  {
  }

  /**
   Two verified logs with the same head hash are equal record by record, timestamps aside, unless
   records of the two have different payloads with one hash; or, if the logs differ in length, unless
   some record hashes to the value that stands for the empty log.
   */
  lemma {:induction false} HeadHashFixesLog(hash: Hash, a: seq<Record>, b: seq<Record>)
    requires Verified(hash, a) && Verified(hash, b) && HeadHash(a) == HeadHash(b)
    requires (forall r :: r in a ==> BarFree(r)) && (forall r :: r in b ==> BarFree(r))
    requires forall s :: NoBar(hash(s))
    ensures SameLog(a, b) || Collide(hash, a, b) || (|a| != |b| && (HitsZeros(hash, a) || HitsZeros(hash, b)))
    decreases |a|
  {
    if a == [] || b == [] {
      if a != [] {
        EmptyHead(hash, a);
      } else if b != [] {
        EmptyHead(hash, b);
      }
    } else {
      var j, k := |a| - 1, |b| - 1;
      assert a[j] in a && b[k] in b;
      HeadOfPrefix(hash, a);
      HeadOfPrefix(hash, b);
      if RecordPayload(a[j]) == RecordPayload(b[k]) {
        LinkNoBar(hash, a, j);
        LinkNoBar(hash, b, k);
        PayloadSplitsBack(a[j], b[k]);
        PrefixVerifies(hash, a, j);
        PrefixVerifies(hash, b, k);
        HeadHashFixesLog(hash, a[..j], b[..k]);
        FaultsOfPrefix(hash, a, b, j, k);
        FaultsOfPrefix(hash, b, a, k, j);
        if SameLog(a[..j], b[..k]) {
          SameLogOneMore(a, b);
        }
      }
    }
  }

  // ----- What a bar in a field does -----

  /** The other record passes for this one: same link, seal and payload. */
  predicate PassesFor(r: Record, q: Record) {
    q.prevHash == r.prevHash && q.recordHash == r.recordHash && RecordPayload(q) == RecordPayload(r)
  }

  /** Which texts are the writing of a detail. */
  type Writing = string -> bool

  /** No writing of a detail ends in a bar and the writing of another. */
  ghost predicate NoneNested(written: Writing) {
    forall x, v :: written(v) ==> !written(x + ("|" + v))
  }

  ghost predicate ProperTail(x: string, y: string) {
    exists w :: x == w + ("|" + y)
  }

  lemma {:induction false} Regroup(a: string, b: string, c: string)
    ensures (a + ("|" + b)) + ("|" + c) == a + ("|" + (b + ("|" + c)))
  {
  }

  /** Two readings of one text, the first field of the first without a bar. */
  lemma {:induction false} PeelSame(f: string, x: string, g: string, y: string)
    requires NoBar(f) && f + ("|" + x) == g + ("|" + y)
    ensures (f == g && x == y) || ProperTail(x, y)
  {
    var s := f + ("|" + x);
    assert s[|f|] == '|' && s[|g|] == '|';
    if |g| <= |f| {
      assert f == s[..|f|] && g == s[..|g|] && x == s[|f| + 1..] && y == s[|g| + 1..];
    } else {
      var w := g[|f| + 1..];
      assert x == s[|f| + 1..] == w + ("|" + y);
    }
  }

  /** Taking a field off two texts, of which the second is the first or a proper tail of it: what is left is
      again the same, with the same field taken off, or a proper tail. */
  lemma {:induction false} Peel(f: string, x: string, g: string, y: string)
    requires NoBar(f)
    requires f + ("|" + x) == g + ("|" + y) || ProperTail(f + ("|" + x), g + ("|" + y))
    ensures (f == g && x == y) || ProperTail(x, y)
  {
    if f + ("|" + x) == g + ("|" + y) {
      PeelSame(f, x, g, y);
    } else {
      var w :| f + ("|" + x) == w + ("|" + (g + ("|" + y)));
      Regroup(w, g, y);
      assert (w + ("|" + g))[|w|] == '|';
      PeelSame(f, x, w + ("|" + g), y);
    }
  }

  lemma {:induction false} TailIsShorter(x: string, y: string)
    requires ProperTail(x, y)
    ensures |y| < |x|
  {
  }

  lemma {:induction false} LinkComesOff(x: string, y: string, link: string)
    requires x + ("|" + link) == y + ("|" + link)
    ensures x == y
  {
    assert x == (x + ("|" + link))[..|x|] && y == (y + ("|" + link))[..|y|];
  }

  /** The fields before the link, joined. */
  function Fields(r: Record): string {
    r.actor + ("|" + (r.action + ("|" + (r.entityType + ("|" + (r.entityId + ("|" + r.detail)))))))
  }

  lemma {:induction false} PayloadIsFieldsAndLink(r: Record)
    ensures RecordPayload(r) == Fields(r) + ("|" + r.prevHash)
  {
    var d := r.entityId + ("|" + r.detail);
    var t := r.entityType + ("|" + d);
    Regroup(r.entityId, r.detail, r.prevHash);
    Regroup(r.entityType, d, r.prevHash);
    Regroup(r.action, t, r.prevHash);
    Regroup(r.actor, r.action + ("|" + t), r.prevHash);
  }

  lemma {:induction false} SameFields(r: Record, q: Record)
    requires BarFree(r) && Fields(r) == Fields(q)
    ensures ProperTail(r.detail, q.detail)
         || (q.actor == r.actor && q.action == r.action && q.entityType == r.entityType
             && q.entityId == r.entityId && q.detail == r.detail)
  {
    hide ProperTail;
    var r3, q3 := r.entityId + ("|" + r.detail), q.entityId + ("|" + q.detail);
    var r2, q2 := r.entityType + ("|" + r3), q.entityType + ("|" + q3);
    var r1, q1 := r.action + ("|" + r2), q.action + ("|" + q2);
    Peel(r.actor, r1, q.actor, q1);
    Peel(r.action, r2, q.action, q2);
    Peel(r.entityType, r3, q.entityType, q3);
    Peel(r.entityId, r.detail, q.entityId, q.detail);
    if !ProperTail(r.detail, q.detail) {
      if ProperTail(r3, q3) { TailIsShorter(r3, q3); }
      if ProperTail(r2, q2) { TailIsShorter(r2, q2); }
      if ProperTail(r1, q1) { TailIsShorter(r1, q1); }
    }
  }

  lemma {:induction false} NotNested(written: Writing, x: string, y: string)
    requires NoneNested(written) && written(x) && written(y)
    ensures !ProperTail(x, y)
  {
    assert forall w :: x != w + ("|" + y);
  }

  lemma {:induction false} BarFreeFixes(written: Writing, r: Record, q: Record)
    requires NoneNested(written) && written(r.detail) && written(q.detail)
    requires BarFree(r) && PassesFor(r, q)
    ensures SameRecord(r, q)
  {
    PayloadIsFieldsAndLink(r);
    PayloadIsFieldsAndLink(q);
    LinkComesOff(Fields(r), Fields(q), r.prevHash);
    SameFields(r, q);
    NotNested(written, r.detail, q.detail);
  }

  lemma {:induction false} SplitAtBar(s: string) returns (before: string, after: string)
    requires !NoBar(s)
    ensures s == before + ("|" + after) && |before| < |s|
  {
    var i :| 0 <= i < |s| && s[i] == '|';
    before, after := s[..i], s[i + 1..];
    assert s == s[..i] + ([s[i]] + s[i + 1..]);
  }

  /** With a bar in a field, its text can be divided between two fields in another way. */
  lemma {:induction false} Disguise(r: Record) returns (q: Record)
    requires !BarFree(r)
    ensures PassesFor(r, q) && !SameRecord(r, q) && q.detail == r.detail
  {
    var tail := r.detail + ("|" + r.prevHash);
    var r2 := r.entityId + ("|" + tail);
    var r3 := r.entityType + ("|" + r2);
    if !NoBar(r.actor) {
      var a, b := SplitAtBar(r.actor);
      q := r.(actor := a, action := b + ("|" + r.action));
      Regroup(a, b, r.action + ("|" + r3));
      Regroup(b, r.action, r3);
    } else if !NoBar(r.action) {
      var a, b := SplitAtBar(r.action);
      q := r.(action := a, entityType := b + ("|" + r.entityType));
      Regroup(a, b, r3);
      Regroup(b, r.entityType, r2);
    } else if !NoBar(r.entityType) {
      var a, b := SplitAtBar(r.entityType);
      q := r.(entityType := a, entityId := b + ("|" + r.entityId));
      Regroup(a, b, r2);
      Regroup(b, r.entityId, tail);
    } else {
      var a, b := SplitAtBar(r.entityId);
      q := r.(entityType := r.entityType + ("|" + a), entityId := b);
      Regroup(a, b, tail);
      Regroup(r.entityType, a, b + ("|" + tail));
      assert |q.entityType| > |r.entityType|;
    }
  }

  /** The payload, the link and the seal fix a record if and only if neither actor, action, type nor id holds a
      bar: the record and any other whose detail is the writing of one. */
  lemma {:induction false} BarFreeIff(written: Writing, r: Record)
    requires NoneNested(written) && written(r.detail)
    ensures BarFree(r) <==> forall q :: PassesFor(r, q) && written(q.detail) ==> SameRecord(r, q)
  {
    if BarFree(r) {
      forall q | PassesFor(r, q) && written(q.detail) ensures SameRecord(r, q) {
        BarFreeFixes(written, r, q);
      }
    } else {
      var q := Disguise(r);
    }
  }

  /** Record by record, the other log passes for this one. */
  ghost predicate LogPassesFor(a: seq<Record>, b: seq<Record>) {
    |a| == |b| && forall i :: 0 <= i < |a| ==> PassesFor(a[i], b[i])
  }

  /** A log that passes for a verified one is verified, with the same head, under every hash. */
  lemma {:induction false} PassingLogVerifies(hash: Hash, a: seq<Record>, b: seq<Record>)
    requires Verified(hash, a) && LogPassesFor(a, b)
    ensures Verified(hash, b) && HeadHash(a) == HeadHash(b)
  {
    forall i | 0 <= i < |b| ensures Intact(hash, b, i) {
      assert Intact(hash, a, i) && PassesFor(a[i], b[i]);
      assert i > 0 ==> PassesFor(a[i - 1], b[i - 1]);
    }
    if a != [] {
      assert PassesFor(a[|a| - 1], b[|b| - 1]);
    }
  }

  /** With a bar in any field of any record, another log of the same length and head is verified under
      every hash under which this one is. */
  lemma {:induction false} BarInFieldGoesUnnoticed(a: seq<Record>, i: nat) returns (b: seq<Record>)
    requires i < |a| && !BarFree(a[i])
    ensures LogPassesFor(a, b) && !SameLog(a, b) && forall j :: 0 <= j < |a| ==> b[j].detail == a[j].detail
    ensures forall hash: Hash :: Verified(hash, a) ==> Verified(hash, b) && HeadHash(a) == HeadHash(b)
  {
    var q := Disguise(a[i]);
    b := a[i := q];
    assert !SameRecord(a[i], b[i]);
    forall hash: Hash | Verified(hash, a) ensures Verified(hash, b) && HeadHash(a) == HeadHash(b) {
      PassingLogVerifies(hash, a, b);
    }
  }

  ghost predicate DetailsWritten(written: Writing, log: seq<Record>) {
    forall i :: 0 <= i < |log| ==> written(log[i].detail)
  }

  /** No other log whose details are writings of details passes for this one, if and only if none of its
      records has a bar in another field. */
  lemma {:induction false} LogIsFixedIff(written: Writing, a: seq<Record>)
    requires NoneNested(written) && DetailsWritten(written, a)
    ensures (forall r :: r in a ==> BarFree(r))
       <==> forall b :: LogPassesFor(a, b) && DetailsWritten(written, b) ==> SameLog(a, b)
  {
    hide BarFree, NoneNested;
    if forall r :: r in a ==> BarFree(r) {
      forall b, i | LogPassesFor(a, b) && DetailsWritten(written, b) && 0 <= i < |a| ensures SameRecord(a[i], b[i]) {
        BarFreeFixes(written, a[i], b[i]);
      }
    } else {
      var i :| 0 <= i < |a| && !BarFree(a[i]);
      var b := BarInFieldGoesUnnoticed(a, i);
    }
  }

  // ----- Details written as JSON -----

  datatype Mode = Plain | Quoted | Escaped

  /** Outside its strings a JSON text has no bar and no backslash. */
  function Next(m: Mode, c: char): Option<Mode> {
    match m
    case Plain => if c == '"' then Some(Quoted) else if c == '|' || c == '\\' then None else Some(Plain)
    case Quoted => if c == '"' then Some(Plain) else if c == '\\' then Some(Escaped) else Some(Quoted)
    case Escaped => Some(Quoted)
  }

  function Scan(m: Mode, s: string): Option<Mode>
    decreases |s|
  {
    if s == "" then Some(m) else (match Next(m, s[0]) case Some(n) => Scan(n, s[1..]) case None => None)
  }

  /** Bars and backslashes stand in strings only, and every string is closed. */
  predicate Quotes(s: string) {
    Scan(Plain, s) == Some(Plain)
  }

  lemma {:induction false} ScanOn(m: Mode, s: string, t: string)
    ensures Scan(m, s + t) == match Scan(m, s) case Some(n) => Scan(n, t) case None => None
    decreases |s|
  {
    if s == "" {
      assert s + t == t;
    } else {
      assert (s + t)[0] == s[0] && (s + t)[1..] == s[1..] + t;
      match Next(m, s[0]) {
        case Some(n) => ScanOn(n, s[1..], t);
        case None =>
      }
    }
  }

  /** What is a string for one scan is outside of strings for the other. */
  lemma {:induction false} Opposite(s: string)
    ensures !(Scan(Plain, s) == Some(Plain) && Scan(Quoted, s) == Some(Plain))
  {
    if s != "" {
      Opposite(s[1..]);
    }
  }

  /** The writings of details as JSON objects are never nested in this way. */
  lemma {:induction false} JsonIsNotNested()
    ensures NoneNested(s => Quotes(s))
  {
    forall x, v | Quotes(v) ensures !Quotes(x + ("|" + v)) {
      ScanOn(Plain, x, "|" + v);
      assert ("|" + v)[0] == '|' && ("|" + v)[1..] == v;
      Opposite(v);
    }
  }

  /** Timestamps are outside the chain: changing them leaves a log verified. */
  lemma {:induction false} TimestampsAreNotSealed(hash: Hash, a: seq<Record>, b: seq<Record>)
    requires Verified(hash, a) && SameLog(a, b)
    ensures Verified(hash, b)
  {
    forall i | 0 <= i < |b| ensures Intact(hash, b, i) {
      assert Intact(hash, a, i) && SameRecord(a[i], b[i]);
      assert i > 0 ==> SameRecord(a[i - 1], b[i - 1]);
    }
  }
}
