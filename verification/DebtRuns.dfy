/**
 Runs of the debt ledger in which sessions interleave. A patch checks in one session and applies in a
 later one; saves and other patches may come between.
 */
module DebtRuns {
  import opened Prelude
  import opened DebtLedger

  /** A request that has passed its check and not yet been applied. */
  datatype Pending = Pending(key: string, patch: Patch)

  datatype World = World(table: Table, waiting: map<nat, Pending>)

  /** One session. A patch names its request, and the record each of its lookups returns. */
  datatype Session =
    | Save(clusters: seq<Cluster>, target: Option<string>, now: int)
    | Check(request: nat, key: string, patch: Patch, found: Option<string>)
    | Apply(request: nat, found: Option<string>, at: int)

  ghost predicate Finds(t: Table, key: string, found: Option<string>) {
    if found.Some? then Denotes(t, key, found.value) else forall id :: !Denotes(t, key, id)
  }

  /** The check lets the request through. */
  predicate LetThrough(t: Table, s: Session)
    requires s.Check? && (s.found.Some? ==> s.found.value in t)
  {
    s.found.Some? && Guard(t[s.found.value], s.patch) == Done
  }

  ghost predicate Takes(w: World, s: Session, after: World) {
    match s
    case Save(cs, target, now) => Saves(w.table, cs, target, now, after.table) && after.waiting == w.waiting
    case Check(request, key, p, found) =>
      && request !in w.waiting && Finds(w.table, key, found)
      && after == if LetThrough(w.table, s) then w.(waiting := w.waiting[request := Pending(key, p)]) else w
    case Apply(request, found, now) =>
      && request in w.waiting && Finds(w.table, w.waiting[request].key, found)
      && after.waiting == w.waiting - {request}
      && after.table == if found.Some?
                        then w.table[found.value := Patched(w.table[found.value], w.waiting[request].patch, now)]
                        else w.table
  }

  ghost predicate IsRun(ws: seq<World>, ss: seq<Session>) {
    && |ws| == |ss| + 1 && ws[0].waiting == map[]
    && forall i :: 0 <= i < |ss| ==> Takes(ws[i], ss[i], ws[i + 1])
  }

  /** The sessions of a patch are those of the store. */
  lemma {:induction false} SessionsAreTheStores(w: World, s: Session, after: World)
    requires Takes(w, s, after)
    ensures s.Check? ==> after.table == w.table
                         && Checks(w.table, s.key, s.patch,
                                   if s.found.Some? then Guard(w.table[s.found.value], s.patch) else NotFound)
    ensures s.Apply? ==> Applies(w.table, w.waiting[s.request].key, w.waiting[s.request].patch, s.at,
                                 if s.found.Some? then Done else NotFound, after.table)
  {
  }

  // ----- What every interleaving keeps -----

  ghost predicate InsertsJustified(ss: seq<Session>) {
    forall i, c :: 0 <= i < |ss| && ss[i].Save? && c in ss[i].clusters ==> Justified(c.state, c.justification, c.owner)
  }

  ghost predicate AllSelfJustified(w: World) {
    forall request :: request in w.waiting ==> SelfJustified(w.waiting[request].patch)
  }

  lemma {:induction false} SessionKeeps(w: World, s: Session, after: World)
    requires Takes(w, s, after) && Valid(w.table) && AllSelfJustified(w)
    requires s.Save? ==> forall c :: c in s.clusters ==> Justified(c.state, c.justification, c.owner)
    ensures Valid(after.table) && AllSelfJustified(after) && Grows(w.table, after.table)
  {
    hide Valid, Saves, Applies, Checks, Grows;
    SessionsAreTheStores(w, s, after);
    match s {
      case Save(cs, target, now) =>
        SaveKeeps(w.table, cs, target, now, after.table);
      case Check(_, key, p, found) =>
        if LetThrough(w.table, s) {
          CheckJustifies(w.table, key, p);
        }
        GrowsSelf(w.table);
      case Apply(request, found, now) =>
        var p := w.waiting[request];
        ApplyKeeps(w.table, p.key, p.patch, now, if found.Some? then Done else NotFound, after.table);
    }
  }

  lemma {:induction false} GrowsSelf(t: Table)
    ensures Grows(t, t)
  {
  }

  /**
   Over every run, however sessions interleave and whichever records the queries return: content hashes
   stay unique, excluded clusters have a non-blank justification and owner, and identifiers, hashes and
   occurrences stay.
   */
  lemma {:induction false} RunKeeps(ws: seq<World>, ss: seq<Session>, i: nat, j: nat)
    requires IsRun(ws, ss) && InsertsJustified(ss) && Valid(ws[0].table)
    requires i <= j < |ws|
    ensures Valid(ws[j].table) && AllSelfJustified(ws[j]) && Grows(ws[i].table, ws[j].table)
    decreases j
  {
    hide Valid, Takes, Justified, Grows;
    if j == 0 {
      GrowsSelf(ws[0].table);
    } else {
      RunKeeps(ws, ss, if i < j then i else j - 1, j - 1);
      assert Takes(ws[j - 1], ss[j - 1], ws[j - 1 + 1]);
      SessionKeeps(ws[j - 1], ss[j - 1], ws[j]);
      if i < j {
        GrowsTrans(ws[i].table, ws[j - 1].table, ws[j].table);
      } else {
        GrowsSelf(ws[j].table);
      }
    }
  }

  // ----- What becomes of promotions -----

  predicate PromotedIn(t: Table, id: string) {
    id in t && t[id].state == Promoted
  }

  /** Session k applies a patch to the record that does not promote it. */
  predicate Demotes(ws: seq<World>, ss: seq<Session>, id: string, k: int) {
    && 0 <= k < |ss| < |ws| && ss[k].Apply? && ss[k].found == Some(id)
    && ss[k].request in ws[k].waiting && ws[k].waiting[ss[k].request].patch.state != Promoted
  }

  /** Session c let through the patch that session k applies. */
  ghost predicate IsCheckOf(ws: seq<World>, ss: seq<Session>, c: int, k: int) {
    && 0 <= c < k < |ss| < |ws| && ss[c].Check? && ss[k].Apply? && ss[c].request == ss[k].request
    && (ss[c].found.Some? ==> ss[c].found.value in ws[c].table) && LetThrough(ws[c].table, ss[c])
    && forall m :: c < m <= k ==>
         ss[k].request in ws[m].waiting && ws[m].waiting[ss[k].request] == Pending(ss[c].key, ss[c].patch)
  }

  /** The patch that session k applies was checked before i, or against another record. */
  ghost predicate CheckedElsewhere(ws: seq<World>, ss: seq<Session>, id: string, i: int, k: int) {
    exists c :: IsCheckOf(ws, ss, c, k) && (c < i || ss[c].found != Some(id))
  }

  lemma {:induction false} WaitingWasChecked(ws: seq<World>, ss: seq<Session>, request: nat, n: nat) returns (c: nat)
    requires IsRun(ws, ss) && n < |ws| && request in ws[n].waiting
    ensures c < n <= |ss| && ss[c].Check? && ss[c].request == request
    ensures (ss[c].found.Some? ==> ss[c].found.value in ws[c].table) && LetThrough(ws[c].table, ss[c])
    ensures forall m :: c < m <= n ==>
              request in ws[m].waiting && ws[m].waiting[request] == Pending(ss[c].key, ss[c].patch)
  {
    hide Saves;
    assert n > 0;
    var s := ss[n - 1];
    assert Takes(ws[n - 1], s, ws[n - 1 + 1]);
    if s.Check? && s.request == request {
      c := n - 1;
    } else {
      c := WaitingWasChecked(ws, ss, request, n - 1);
    }
  }

  lemma {:induction false} SessionDemotesIff(ws: seq<World>, ss: seq<Session>, id: string, k: nat)
    requires IsRun(ws, ss) && k < |ss| && InsertsJustified(ss) && Valid(ws[0].table) && PromotedIn(ws[k].table, id)
    ensures PromotedIn(ws[k + 1].table, id) <==> !Demotes(ws, ss, id, k)
  {
    hide Valid, Saves;
    RunKeeps(ws, ss, k, k);
    assert Takes(ws[k], ss[k], ws[k + 1]);
    if ss[k].Save? {
      assert forall c :: c in ss[k].clusters ==> Justified(c.state, c.justification, c.owner);
      SaveKeeps(ws[k].table, ss[k].clusters, ss[k].target, ss[k].now, ws[k + 1].table);
    }
  }

  /** A promoted record's demotion was not checked against the record while it was promoted. */
  lemma {:induction false} DemotionCheckedElsewhere(ws: seq<World>, ss: seq<Session>, id: string, i: nat, k: nat)
    requires IsRun(ws, ss) && i <= k && Demotes(ws, ss, id, k)
    requires forall m :: i <= m <= k ==> PromotedIn(ws[m].table, id)
    ensures CheckedElsewhere(ws, ss, id, i, k)
  {
    var c := WaitingWasChecked(ws, ss, ss[k].request, k);
    assert IsCheckOf(ws, ss, c, k);
    CheckedWhileNotPromoted(ws[c].table, ss[c], id);
  }

  lemma {:induction false} CheckedWhileNotPromoted(t: Table, s: Session, id: string)
    requires s.Check? && (s.found.Some? ==> s.found.value in t) && LetThrough(t, s) && s.patch.state != Promoted
    ensures s.found == Some(id) ==> !PromotedIn(t, id)
  {
  }

  /**
   A promotion survives from i to j exactly when no session in between applies to the record a patch that
   does not promote it and that was checked before i, or against another record.
   */
  lemma {:induction false} PromotionSurvivesIff(ws: seq<World>, ss: seq<Session>, id: string, i: nat, j: nat)
    requires IsRun(ws, ss) && InsertsJustified(ss) && Valid(ws[0].table)
    requires i <= j < |ws| && PromotedIn(ws[i].table, id)
    ensures (forall m :: i <= m <= j ==> PromotedIn(ws[m].table, id))
       <==> !exists k :: i <= k < j && Demotes(ws, ss, id, k) && CheckedElsewhere(ws, ss, id, i, k)
    decreases j
  {
    hide Takes, InsertsJustified, Valid, Demotes, CheckedElsewhere, PromotedIn;
    if i < j {
      PromotionSurvivesIff(ws, ss, id, i, j - 1);
      if forall m :: i <= m <= j - 1 ==> PromotedIn(ws[m].table, id) {
        SessionDemotesIff(ws, ss, id, j - 1);
        if Demotes(ws, ss, id, j - 1) {
          DemotionCheckedElsewhere(ws, ss, id, i, j - 1);
        }
      }
    }
  }

  /** Promotions can be lost: whatever the patches, a check of one, the whole of another that promotes, and
      then the application of the first leave the record as the first asked. */
  lemma {:induction false} LateApplyLosesPromotion(t: Table, id: string, p: Patch, q: Patch)
    returns (ws: seq<World>, ss: seq<Session>)
    requires id in t && t[id].state != Promoted && SelfJustified(p) && p.state != Promoted && q.state == Promoted
    ensures IsRun(ws, ss) && |ss| == 4 && ws[0].table == t
    ensures PromotedIn(ws[3].table, id) && id in ws[4].table && ws[4].table[id].state == p.state
  {
    var open := World(t, map[]);
    var first := World(t, map[0 := Pending(id, p)]);
    var both := World(t, map[0 := Pending(id, p), 1 := Pending(id, q)]);
    var promoted := World(t[id := Patched(t[id], q, 1)], map[0 := Pending(id, p)]);
    var late := World(promoted.table[id := Patched(promoted.table[id], p, 2)], map[]);
    ws := [open, first, both, promoted, late];
    ss := [Check(0, id, p, Some(id)), Check(1, id, q, Some(id)), Apply(1, Some(id), 1), Apply(0, Some(id), 2)];
    assert both.waiting - {1} == promoted.waiting && promoted.waiting - {0} == late.waiting;
    assert first.waiting[1 := Pending(id, q)] == both.waiting && open.waiting[0 := Pending(id, p)] == first.waiting;
    assert Takes(ws[0], ss[0], ws[0 + 1]) && Takes(ws[1], ss[1], ws[1 + 1]);
    assert Takes(ws[2], ss[2], ws[2 + 1]) && Takes(ws[3], ss[3], ws[3 + 1]);
  }
}
