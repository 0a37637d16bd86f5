/**
 The stored debt ledger: residue clusters saved by scans and moved between states by guarded patches.
 Where a query may match several records, the database returns any of them. A patch is two sessions,
 one that checks and one that applies, and each session is atomic.
 */
module DebtLedger {
  import opened Prelude

  datatype State = Open | Promoted | Excluded | Accepted

  datatype Occurrence = Occurrence(artifactHash: string, path: string, range: seq<int>)

  /** A cluster as a scan reports it. */
  datatype Cluster = Cluster(id: string, contentHash: string, occurrences: seq<Occurrence>,
                             state: State, justification: Option<string>, owner: Option<string>, seen: int)

  datatype Record = Record(contentHash: string, occurrences: seq<Occurrence>, state: State,
                           justification: Option<string>, owner: Option<string>,
                           targetId: Option<string>, lastSeen: int)

  datatype Patch = Patch(state: State, justification: Option<string>, owner: Option<string>)

  datatype Response = Done | NotFound | NeedsJustification | NeedsOwner | AlreadyPromoted

  type Table = map<string, Record>

  /** White space as the host language strips it from text. */
  predicate IsSpace(c: char) {
    var n := c as int;
    || 9 <= n <= 13 || 28 <= n <= 32 || n == 0x85 || n == 0xA0 || n == 0x1680 || 0x2000 <= n <= 0x200A
    || n == 0x2028 || n == 0x2029 || n == 0x202F || n == 0x205F || n == 0x3000
  }

  function StripLeft(s: string): (r: string)
    ensures |r| <= |s|
  {
    if s != "" && IsSpace(s[0]) then StripLeft(s[1..]) else s
  }

  /** The text without the white space at its ends. */
  function Strip(s: string): string
    decreases |s|
  {
    var t := StripLeft(s);
    if t != "" && IsSpace(t[|t| - 1]) then Strip(t[..|t| - 1]) else t
  }

  /** Present, and not empty once stripped. */
  predicate NonBlank(text: Option<string>) {
    text.Some? && text.value != "" && Strip(text.value) != ""
  }

  predicate HasText(s: string) {
    exists i :: 0 <= i < |s| && !IsSpace(s[i])
  }

  lemma {:induction false} StripLeftKeepsText(s: string)
    ensures HasText(StripLeft(s)) <==> HasText(s)
    ensures StripLeft(s) != "" ==> HasText(s)
  {
    hide IsSpace;
    if s != "" && IsSpace(s[0]) {
      StripLeftKeepsText(s[1..]);
      assert forall i :: 0 <= i < |s| - 1 ==> s[1..][i] == s[i + 1];
      if i :| 0 <= i < |s| && !IsSpace(s[i]) {
        assert s[1..][i - 1] == s[i];
      }
    }
  }

  lemma {:induction false} StripIff(s: string)
    ensures Strip(s) != "" <==> HasText(s)
    decreases |s|
  {
    hide IsSpace;
    var t := StripLeft(s);
    StripLeftKeepsText(s);
    if t != "" && IsSpace(t[|t| - 1]) {
      StripIff(t[..|t| - 1]);
      assert HasText(t) <==> HasText(t[..|t| - 1]) by {
        if i :| 0 <= i < |t| && !IsSpace(t[i]) {
          assert t[..|t| - 1][i] == t[i];
        }
      }
    }
  }

  /** A text is blank exactly when every character of it is white space. */
  lemma {:induction false} NonBlankIff(text: Option<string>)
    ensures NonBlank(text) <==> text.Some? && exists i :: 0 <= i < |text.value| && !IsSpace(text.value[i])
  {
    hide IsSpace;
    if text.Some? {
      StripIff(text.value);
      assert HasText(text.value) <==> exists i :: 0 <= i < |text.value| && !IsSpace(text.value[i]);
    }
  }

  // ----- Merging occurrences -----

  /** Each occurrence once, in the order of its first appearance. */
  function Once(os: seq<Occurrence>): (r: seq<Occurrence>)
    ensures forall o :: o in r <==> o in os
    ensures Distinct(r)
  {
    if os == [] then []
    else
      var front, last := Once(os[..|os| - 1]), os[|os| - 1];
      assert os == os[..|os| - 1] + [last];
      if last in front then front else front + [last]
  }

  lemma {:induction false} OnceOfDistinct(os: seq<Occurrence>, more: seq<Occurrence>)
    requires Distinct(os) && forall o :: o in more ==> o in os
    ensures Once(os + more) == os
    decreases |os| + |more|
  {
    if more != [] {
      var front := os + more[..|more| - 1];
      OnceOfDistinct(os, more[..|more| - 1]);
      assert (os + more)[..|os + more| - 1] == front;
      assert more[|more| - 1] in more;
    } else if os != [] {
      assert os + more == os;
      OnceOfDistinct(os[..|os| - 1], []);
      assert os[..|os| - 1] + [] == os[..|os| - 1];
      assert os[|os| - 1] !in os[..|os| - 1];
    }
  }

  // ----- Saving -----

  predicate Matches(t: Table, id: string, c: Cluster) {
    id in t && (id == c.id || t[id].contentHash == c.contentHash)
  }

  function Merged(r: Record, c: Cluster, target: Option<string>, now: int): Record {
    var known := r.targetId.Some? && r.targetId.value != "";
    r.(occurrences := Once(r.occurrences + c.occurrences), lastSeen := now,
       targetId := if target.Some? && target.value != "" && !known then target else r.targetId)
  }

  function FromCluster(c: Cluster, target: Option<string>): Record {
    Record(c.contentHash, c.occurrences, c.state, c.justification, c.owner, target, c.seen)
  }

  /** One cluster is merged into some matching record, or inserted if none matches. */
  ghost predicate Upserts(t: Table, c: Cluster, target: Option<string>, now: int, after: Table) {
    if exists id :: Matches(t, id, c)
    then exists id :: Matches(t, id, c) && after == t[id := Merged(t[id], c, target, now)]
    else after == t[c.id := FromCluster(c, target)]
  }

  function Front(cs: seq<Cluster>): seq<Cluster>
    requires cs != []
  {
    cs[..|cs| - 1]
  }

  function Last(cs: seq<Cluster>): Cluster
    requires cs != []
  {
    cs[|cs| - 1]
  }

  /** The clusters of a save, one after the other. */
  ghost predicate Saves(t: Table, cs: seq<Cluster>, target: Option<string>, now: int, after: Table) {
    if cs == [] then after == t
    else exists mid: Table :: Saves(t, Front(cs), target, now, mid) && Upserts(mid, Last(cs), target, now, after)
  }

  // ----- Patching -----

  /** The record a key denotes: by identifier, else by content hash. */
  predicate Denotes(t: Table, key: string, id: string) {
    id in t && (id == key || (key !in t && t[id].contentHash == key))
  }

  function Guard(r: Record, p: Patch): Response {
    if p.state == Excluded && !NonBlank(p.justification) then NeedsJustification
    else if p.state == Excluded && !NonBlank(p.owner) then NeedsOwner
    else if r.state == Promoted && p.state != Promoted then AlreadyPromoted
    else Done
  }

  function Patched(r: Record, p: Patch, now: int): Record {
    r.(state := p.state, lastSeen := now,
       justification := if p.justification.Some? then p.justification else r.justification,
       owner := if p.owner.Some? then p.owner else r.owner)
  }

  /** The first session of a patch: look the record up and guard the transition. */
  ghost predicate Checks(t: Table, key: string, p: Patch, response: Response) {
    if exists id :: Denotes(t, key, id) then exists id :: Denotes(t, key, id) && response == Guard(t[id], p)
    else response == NotFound
  }

  /** The second session: look the record up again and change it, whatever has become of it. */
  ghost predicate Applies(t: Table, key: string, p: Patch, now: int, response: Response, after: Table) {
    if exists id :: Denotes(t, key, id)
    then response == Done && exists id :: Denotes(t, key, id) && after == t[id := Patched(t[id], p, now)]
    else response == NotFound && after == t
  }

  /** Both sessions, with none in between. */
  ghost predicate Patches(t: Table, key: string, p: Patch, now: int, response: Response, after: Table) {
    || (response != Done && after == t && Checks(t, key, p, response))
    || (Checks(t, key, p, Done) && Applies(t, key, p, now, response, after))
  }

  class Store {
    var clusters: Table

    constructor ()
      ensures clusters == map[]
    {
      clusters := map[];
    }

    method Upsert(c: Cluster, target: Option<string>, now: int)
      modifies this
      ensures Upserts(old(clusters), c, target, now, clusters)
    {
      if id :| id in clusters && (id == c.id || clusters[id].contentHash == c.contentHash) {
        assert Matches(clusters, id, c);
        clusters := clusters[id := Merged(clusters[id], c, target, now)];
      } else {
        clusters := clusters[c.id := FromCluster(c, target)];
      }
    }

    method SaveCoverage(cs: seq<Cluster>, target: Option<string>, now: int)
      modifies this
      ensures Saves(old(clusters), cs, target, now, clusters)
    {
      for i := 0 to |cs|
        invariant Saves(old(clusters), cs[..i], target, now, clusters)
      {
        ghost var mid := clusters;
        Upsert(cs[i], target, now);
        assert Front(cs[..i + 1]) == cs[..i] && Last(cs[..i + 1]) == cs[i];
        assert Saves(old(clusters), cs[..i], target, now, mid);
      }
      assert cs[..|cs|] == cs;
    }

    method Lookup(key: string) returns (found: Option<string>)
      ensures found.Some? ==> Denotes(clusters, key, found.value)
      ensures found.None? ==> forall id :: !Denotes(clusters, key, id)
    {
      if key in clusters {
        return Some(key);
      }
      if id :| id in clusters && clusters[id].contentHash == key {
        return Some(id);
      }
      found := None;
    }

    method CheckPatch(key: string, p: Patch) returns (response: Response)
      ensures Checks(clusters, key, p, response)
    {
      var found := Lookup(key);
      if found.None? {
        return NotFound;
      }
      if p.state == Excluded {
        if !NonBlank(p.justification) {
          return NeedsJustification;
        }
        if !NonBlank(p.owner) {
          return NeedsOwner;
        }
      }
      if clusters[found.value].state == Promoted && p.state != Promoted {
        return AlreadyPromoted;
      }
      response := Done;
    }

    method ApplyPatch(key: string, p: Patch, now: int) returns (response: Response)
      modifies this
      ensures Applies(old(clusters), key, p, now, response, clusters)
    {
      var found := Lookup(key);
      if found.None? {
        return NotFound;
      }
      clusters := clusters[found.value := Patched(clusters[found.value], p, now)];
      response := Done;
    }

    /** The route, when no other session comes between its two. */
    method PatchResidueCluster(key: string, p: Patch, now: int) returns (response: Response)
      modifies this
      ensures Patches(old(clusters), key, p, now, response, clusters)
    {
      response := CheckPatch(key, p);
      if response == Done {
        response := ApplyPatch(key, p, now);
      }
    }
  }

  // ----- What every step keeps -----

  /** No two records have one content hash. */
  ghost predicate HashesUnique(t: Table) {
    forall a, b :: a in t && b in t && t[a].contentHash == t[b].contentHash ==> a == b
  }

  predicate Justified(state: State, justification: Option<string>, owner: Option<string>) {
    state == Excluded ==> NonBlank(justification) && NonBlank(owner)
  }

  ghost predicate Valid(t: Table) {
    && HashesUnique(t)
    && forall id :: id in t ==> Justified(t[id].state, t[id].justification, t[id].owner)
  }

  /** What was there stays: identifiers, content hashes and occurrences. */
  ghost predicate Grows(t: Table, after: Table) {
    forall id :: id in t ==>
      && id in after && after[id].contentHash == t[id].contentHash
      && forall o :: o in t[id].occurrences ==> o in after[id].occurrences
  }

  ghost predicate KeepsStates(t: Table, after: Table) {
    forall id :: id in t && id in after ==> after[id].state == t[id].state
  }

  lemma {:induction false} GrowsTrans(a: Table, b: Table, c: Table)
    requires Grows(a, b) && Grows(b, c)
    ensures Grows(a, c)
  {
  }

  lemma {:induction false} MergeKeeps(t: Table, id: string, c: Cluster, target: Option<string>, now: int)
    requires Valid(t) && id in t
    ensures var after := t[id := Merged(t[id], c, target, now)];
            Valid(after) && Grows(t, after) && KeepsStates(t, after)
  {
    hide NonBlank;
  }

  lemma {:induction false} InsertKeeps(t: Table, id: string, r: Record)
    requires Valid(t) && id !in t && Justified(r.state, r.justification, r.owner)
    requires forall other :: other in t ==> t[other].contentHash != r.contentHash
    ensures Valid(t[id := r]) && Grows(t, t[id := r]) && KeepsStates(t, t[id := r])
  {
    hide NonBlank;
  }

  lemma {:induction false} UpsertKeeps(t: Table, c: Cluster, target: Option<string>, now: int, after: Table)
    requires Upserts(t, c, target, now, after) && Valid(t) && Justified(c.state, c.justification, c.owner)
    ensures Valid(after) && Grows(t, after) && KeepsStates(t, after)
  {
    hide Valid, Grows, KeepsStates, Merged;
    if exists id :: Matches(t, id, c) {
      var id :| Matches(t, id, c) && after == t[id := Merged(t[id], c, target, now)];
      MergeKeeps(t, id, c, target, now);
    } else {
      forall id | id in t ensures id != c.id && t[id].contentHash != c.contentHash {
        assert !Matches(t, id, c);
      }
      InsertKeeps(t, c.id, FromCluster(c, target));
    }
  }

  lemma {:induction false} SaveKeeps(t: Table, cs: seq<Cluster>, target: Option<string>, now: int, after: Table)
    requires Saves(t, cs, target, now, after) && Valid(t)
    requires forall c :: c in cs ==> Justified(c.state, c.justification, c.owner)
    ensures Valid(after) && Grows(t, after) && KeepsStates(t, after)
    decreases |cs|
  {
    if cs != [] {
      var front, last := Front(cs), Last(cs);
      var mid :| Saves(t, front, target, now, mid) && Upserts(mid, last, target, now, after);
      assert last in cs && forall c :: c in front ==> c in cs;
      SaveKeeps(t, front, target, now, mid);
      UpsertKeeps(mid, last, target, now, after);
      GrowsTrans(t, mid, after);
    }
  }

  /** A patch that the guard could let through: an exclusion is justified and owned. */
  predicate SelfJustified(p: Patch) {
    Justified(p.state, p.justification, p.owner)
  }

  lemma {:induction false} CheckJustifies(t: Table, key: string, p: Patch)
    requires Checks(t, key, p, Done)
    ensures SelfJustified(p)
  {
  }

  /** The second session of a patch that was let through keeps what every step keeps, on any table. */
  lemma {:induction false} ApplyKeeps(t: Table, key: string, p: Patch, now: int, response: Response, after: Table)
    requires Applies(t, key, p, now, response, after) && Valid(t) && SelfJustified(p)
    ensures Valid(after) && Grows(t, after)
  {
  }

  /** What the guard asks for. */
  predicate Admissible(r: Record, p: Patch) {
    && (p.state == Excluded ==> NonBlank(p.justification) && NonBlank(p.owner))
    && (r.state == Promoted ==> p.state == Promoted)
  }

  /** Undisturbed, a patch is answered Done exactly when its record exists and the guard's conditions hold;
      then that record is changed as asked, and otherwise nothing is. */
  lemma {:induction false} PatchTakesEffectIff(t: Table, key: string, p: Patch, now: int, response: Response,
                                               after: Table)
    requires Patches(t, key, p, now, response, after) && HashesUnique(t)
    ensures response == Done <==> exists id :: Denotes(t, key, id) && Admissible(t[id], p)
    ensures response == NotFound <==> forall id :: !Denotes(t, key, id)
    ensures forall id :: Denotes(t, key, id) ==>
              response == if p.state == Excluded && !NonBlank(p.justification) then NeedsJustification
                          else if p.state == Excluded && !NonBlank(p.owner) then NeedsOwner
                          else if t[id].state == Promoted && p.state != Promoted then AlreadyPromoted
                          else Done
    ensures forall id :: Denotes(t, key, id) ==>
              after == if Admissible(t[id], p) then t[id := Patched(t[id], p, now)] else t
    ensures response != Done ==> after == t
  {
    if id :| Denotes(t, key, id) {
      forall other | Denotes(t, key, other) ensures other == id {
        OneDenoted(t, key, id, other);
      }
    }
  }

  lemma {:induction false} OneDenoted(t: Table, key: string, a: string, b: string)
    requires HashesUnique(t) && Denotes(t, key, a) && Denotes(t, key, b)
    ensures a == b
  {
  }

  // ----- Where the stored fields come from -----

  /** Each field of a record after a cluster has been merged into it. */
  ghost predicate MergedFrom(r: Record, c: Cluster, target: Option<string>, now: int, after: Record) {
    && after.contentHash == r.contentHash && after.state == r.state
    && after.justification == r.justification && after.owner == r.owner && after.lastSeen == now
    && (forall o :: o in after.occurrences <==> o in r.occurrences || o in c.occurrences)
    && Distinct(after.occurrences) && (Distinct(r.occurrences) ==> r.occurrences <= after.occurrences)
    && after.targetId == (if r.targetId.Some? && r.targetId.value != "" then r.targetId
                          else if target.Some? && target.value != "" then target
                          else r.targetId)
  }

  /** Each field of a record made from a cluster. */
  predicate InsertedFrom(c: Cluster, target: Option<string>, after: Record) {
    && after.contentHash == c.contentHash && after.occurrences == c.occurrences && after.state == c.state
    && after.justification == c.justification && after.owner == c.owner
    && after.targetId == target && after.lastSeen == c.seen
  }

  /** Each field of a record after a patch: what the patch leaves out stays. */
  predicate PatchedFrom(r: Record, p: Patch, now: int, after: Record) {
    && after.contentHash == r.contentHash && after.occurrences == r.occurrences && after.targetId == r.targetId
    && after.state == p.state && after.lastSeen == now
    && after.justification == (if p.justification.Some? then p.justification else r.justification)
    && after.owner == (if p.owner.Some? then p.owner else r.owner)
  }

  /** The tables agree but for one record. */
  ghost predicate OnlyDiffersAt(t: Table, after: Table, id: string) {
    id in after && after.Keys == t.Keys + {id} && forall other :: other in t && other != id ==> after[other] == t[other]
  }

  lemma {:induction false} OncePrefix(os: seq<Occurrence>, more: seq<Occurrence>)
    requires Distinct(os)
    ensures os <= Once(os + more)
    decreases |more|
  {
    if more == [] {
      OnceOfDistinct(os, []);
    } else {
      OncePrefix(os, more[..|more| - 1]);
      assert (os + more)[..|os + more| - 1] == os + more[..|more| - 1];
    }
  }

  lemma {:induction false} MergedIs(r: Record, c: Cluster, target: Option<string>, now: int)
    ensures MergedFrom(r, c, target, now, Merged(r, c, target, now))
  {
    if Distinct(r.occurrences) {
      OncePrefix(r.occurrences, c.occurrences);
    }
  }

  /** Saving one cluster changes one record: a matching one, into which it is merged field by field, or, if there
      is none, a new one under the cluster's identifier. */
  lemma {:induction false} UpsertChanges(t: Table, c: Cluster, target: Option<string>, now: int, after: Table)
    returns (id: string)
    requires Upserts(t, c, target, now, after)
    ensures OnlyDiffersAt(t, after, id)
    ensures if exists other :: Matches(t, other, c)
            then Matches(t, id, c) && MergedFrom(t[id], c, target, now, after[id])
            else id == c.id && id !in t && InsertedFrom(c, target, after[id])
  {
    hide Merged, MergedFrom;
    if exists other :: Matches(t, other, c) {
      id :| Matches(t, id, c) && after == t[id := Merged(t[id], c, target, now)];
      MergedIs(t[id], c, target, now);
    } else {
      id := c.id;
      assert !Matches(t, id, c);
    }
  }

  /** The second session of a patch changes one record, the one its key denotes then, field by field. */
  lemma {:induction false} ApplyChanges(t: Table, key: string, p: Patch, now: int, response: Response, after: Table)
    returns (id: string)
    requires Applies(t, key, p, now, response, after) && exists other :: Denotes(t, key, other)
    ensures response == Done && Denotes(t, key, id)
    ensures OnlyDiffersAt(t, after, id) && PatchedFrom(t[id], p, now, after[id])
  {
    id :| Denotes(t, key, id) && after == t[id := Patched(t[id], p, now)];
  }
}
