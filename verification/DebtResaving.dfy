/**
 Saving the same clusters again. A cluster may name two records, one by its identifier and one by its
 content hash, and the database then returns either of them.
 */
module DebtResaving {
  import opened Prelude
  import opened DebtLedger

  /** The cluster names one record at most. */
  ghost predicate Unambiguous(t: Table, c: Cluster) {
    forall a, b :: Matches(t, a, c) && Matches(t, b, c) ==> a == b
  }

  /** Some record has the cluster, and every matching record holds its occurrences already. */
  ghost predicate Holds(t: Table, c: Cluster) {
    && (exists id :: Matches(t, id, c))
    && forall id :: Matches(t, id, c) ==> forall o :: o in c.occurrences ==> o in t[id].occurrences
  }

  ghost predicate SameOccurrences(t: Table, after: Table) {
    && t.Keys == after.Keys
    && forall id :: id in t ==>
         && after[id].contentHash == t[id].contentHash
         && forall o :: o in after[id].occurrences <==> o in t[id].occurrences
  }

  lemma {:induction false} UpsertStores(t: Table, c: Cluster, target: Option<string>, now: int, after: Table)
    requires Upserts(t, c, target, now, after) && Unambiguous(t, c)
    ensures Holds(after, c)
  {
    if exists id :: Matches(t, id, c) {
      var id :| Matches(t, id, c) && after == t[id := Merged(t[id], c, target, now)];
      assert Matches(after, id, c);
      forall other | Matches(after, other, c) ensures other == id {
        assert Matches(t, other, c);
      }
    } else {
      assert Matches(after, c.id, c);
      forall other | Matches(after, other, c) ensures other == c.id {
        if other != c.id {
          assert Matches(t, other, c);
        }
      }
    }
  }

  lemma {:induction false} UpsertAgain(t: Table, c: Cluster, target: Option<string>, now: int, after: Table)
    requires Upserts(t, c, target, now, after) && Holds(t, c)
    ensures SameOccurrences(t, after)
  {
  }

  lemma {:induction false} HoldsCarries(t: Table, after: Table, c: Cluster)
    requires Holds(t, c) && SameOccurrences(t, after)
    ensures Holds(after, c)
  {
    var id :| Matches(t, id, c);
    assert Matches(after, id, c);
    forall other | Matches(after, other, c) ensures forall o :: o in c.occurrences ==> o in after[other].occurrences {
      assert Matches(t, other, c);
    }
  }

  /** Saving clusters that the table already holds adds no record and no occurrence. */
  lemma {:induction false} ResavingAddsNothing(t: Table, cs: seq<Cluster>, target: Option<string>, now: int,
                                               after: Table)
    requires Saves(t, cs, target, now, after) && forall c :: c in cs ==> Holds(t, c)
    ensures SameOccurrences(t, after)
    decreases |cs|
  {
    if cs != [] {
      var front, last := Front(cs), Last(cs);
      var mid :| Saves(t, front, target, now, mid) && Upserts(mid, last, target, now, after);
      assert last in cs && forall c :: c in front ==> c in cs;
      ResavingAddsNothing(t, front, target, now, mid);
      HoldsCarries(t, mid, last);
      UpsertAgain(mid, last, target, now, after);
    }
  }

  /** Identifiers and content hashes name clusters alike, among the clusters and in the table. */
  ghost predicate Consistent(t: Table, cs: seq<Cluster>) {
    && (forall c, id :: c in cs && id in t ==> (id == c.id <==> t[id].contentHash == c.contentHash))
    && (forall c, d :: c in cs && d in cs ==> (c.id == d.id <==> c.contentHash == d.contentHash))
  }

  lemma {:induction false} UpsertKeepsConsistent(t: Table, c: Cluster, target: Option<string>, now: int, after: Table,
                                                 cs: seq<Cluster>)
    requires Upserts(t, c, target, now, after) && c in cs && Consistent(t, cs)
    ensures Consistent(after, cs) && Unambiguous(t, c) && Holds(after, c)
    ensures forall id :: id in t ==> id in after && forall o :: o in t[id].occurrences ==> o in after[id].occurrences
  {
    UpsertStores(t, c, target, now, after);
    if exists id :: Matches(t, id, c) {
      var id :| Matches(t, id, c) && after == t[id := Merged(t[id], c, target, now)];
      assert id == c.id;
    } else if c.id in t {
      assert Matches(t, c.id, c);
    }
  }

  lemma {:induction false} HoldsStays(t: Table, after: Table, c: Cluster, cs: seq<Cluster>)
    requires Holds(t, c) && c in cs && Consistent(t, cs) && Consistent(after, cs)
    requires forall id :: id in t ==> id in after && forall o :: o in t[id].occurrences ==> o in after[id].occurrences
    ensures Holds(after, c)
  {
    var id :| Matches(t, id, c);
    assert id == c.id && Matches(after, c.id, c);
    forall other | Matches(after, other, c) ensures forall o :: o in c.occurrences ==> o in after[other].occurrences {
      assert other == c.id;
    }
  }

  lemma {:induction false} StepStores(mid: Table, done: seq<Cluster>, last: Cluster, target: Option<string>, now: int,
                                      after: Table, all: seq<Cluster>)
    requires Upserts(mid, last, target, now, after) && Consistent(mid, all) && last in all
    requires forall c :: c in done ==> c in all && Holds(mid, c)
    ensures Consistent(after, all) && Holds(after, last) && forall c :: c in done ==> Holds(after, c)
  {
    UpsertKeepsConsistent(mid, last, target, now, after, all);
    forall c | c in done ensures Holds(after, c) {
      HoldsStays(mid, after, c, all);
    }
  }

  lemma {:induction false} SaveStores(t: Table, cs: seq<Cluster>, target: Option<string>, now: int, after: Table,
                                      all: seq<Cluster>)
    requires Saves(t, cs, target, now, after) && Consistent(t, all) && forall c :: c in cs ==> c in all
    ensures Consistent(after, all) && forall c :: c in cs ==> Holds(after, c)
    decreases |cs|
  {
    if cs != [] {
      var front, last := Front(cs), Last(cs);
      var mid :| Saves(t, front, target, now, mid) && Upserts(mid, last, target, now, after);
      assert last in cs && forall c :: c in front ==> c in cs;
      SaveStores(t, front, target, now, mid, all);
      StepStores(mid, front, last, target, now, after, all);
      assert cs == front + [last];
    }
  }

  /** Where identifiers and hashes agree, saving the same clusters a second time adds no record and no
      occurrence. */
  lemma {:induction false} SavingTwiceAddsNothing(t: Table, cs: seq<Cluster>, target: Option<string>, now: int,
                                                  later: int, after: Table, again: Table)
    requires Consistent(t, cs) && Saves(t, cs, target, now, after) && Saves(after, cs, target, later, again)
    ensures SameOccurrences(after, again)
  {
    SaveStores(t, cs, target, now, after, cs);
    ResavingAddsNothing(after, cs, target, later, again);
  }

  // ----- Exactly when a second save adds nothing -----

  /** However the queries answer, upserting the cluster twice adds nothing the second time. */
  ghost predicate UpsertSettles(t: Table, c: Cluster, target: Option<string>, now: int, later: int) {
    forall after, again :: Upserts(t, c, target, now, after) && Upserts(after, c, target, later, again)
      ==> SameOccurrences(after, again)
  }

  lemma {:induction false} HoldsSettles(t: Table, c: Cluster, target: Option<string>, now: int, after: Table)
    requires Upserts(t, c, target, now, after) && (Unambiguous(t, c) || Holds(t, c))
    ensures Holds(after, c)
  {
    if Unambiguous(t, c) {
      UpsertStores(t, c, target, now, after);
    } else {
      UpsertAgain(t, c, target, now, after);
      HoldsCarries(t, after, c);
    }
  }

  /** Two matching records, one of which lacks an occurrence: the first upsert can go to the other one, and
      the second to the one that lacks it. */
  lemma {:induction false} AmbiguousUpsertSpreads(t: Table, c: Cluster, target: Option<string>, now: int, later: int,
                                                  o: Occurrence, lacking: string, other: string)
    returns (after: Table, again: Table)
    requires Matches(t, lacking, c) && Matches(t, other, c) && lacking != other
    requires o in c.occurrences && o !in t[lacking].occurrences
    ensures Upserts(t, c, target, now, after) && Upserts(after, c, target, later, again)
    ensures !SameOccurrences(after, again)
  {
    after := t[other := Merged(t[other], c, target, now)];
    again := after[lacking := Merged(after[lacking], c, target, later)];
    assert Matches(after, lacking, c);
    assert o in t[lacking].occurrences + c.occurrences;
    assert o in again[lacking].occurrences && o !in after[lacking].occurrences;
  }

  /** Upserting one cluster twice adds nothing the second time if and only if the cluster names one record
      at most, or every record it names holds its occurrences already. */
  lemma {:induction false} UpsertSettlesIff(t: Table, c: Cluster, target: Option<string>, now: int, later: int)
    ensures UpsertSettles(t, c, target, now, later) <==> Unambiguous(t, c) || Holds(t, c)
  {
    if Unambiguous(t, c) || Holds(t, c) {
      forall after, again | Upserts(t, c, target, now, after) && Upserts(after, c, target, later, again)
        ensures SameOccurrences(after, again)
      {
        HoldsSettles(t, c, target, now, after);
        UpsertAgain(after, c, target, later, again);
      }
    } else {
      var a, b :| Matches(t, a, c) && Matches(t, b, c) && a != b;
      var lacking, o :| Matches(t, lacking, c) && o in c.occurrences && o !in t[lacking].occurrences;
      var after, again := AmbiguousUpsertSpreads(t, c, target, now, later, o, lacking, if lacking == a then b else a);
    }
  }

  // ----- The same for whole saves -----

  /** What is certain of a record before the queries answer: its hash, and occurrences it has in any case. */
  datatype Known = Known(contentHash: string, sure: set<Occurrence>)

  type Knowledge = map<string, Known>

  predicate Names(k: Knowledge, id: string, c: Cluster) {
    id in k && (id == c.id || k[id].contentHash == c.contentHash)
  }

  ghost predicate NamesOnly(k: Knowledge, id: string, c: Cluster) {
    Names(k, id, c) && forall other :: Names(k, other, c) ==> other == id
  }

  function OccurrencesOf(os: seq<Occurrence>): (r: set<Occurrence>)
    ensures forall o :: o in r <==> o in os
  {
    set o | o in os
  }

  /** A cluster adds its occurrences for certain to the one record it names, or to the one inserted for it. */
  ghost function Learn(k: Knowledge, c: Cluster): Knowledge {
    if forall id :: !Names(k, id, c) then k[c.id := Known(c.contentHash, OccurrencesOf(c.occurrences))]
    else if id :| NamesOnly(k, id, c) then k[id := Known(k[id].contentHash, k[id].sure + OccurrencesOf(c.occurrences))]
    else k
  }

  function Knowing(t: Table): Knowledge {
    map id | id in t :: Known(t[id].contentHash, OccurrencesOf(t[id].occurrences))
  }

  /** What the table and the clusters saved tell beforehand. */
  ghost function KnownAfter(t: Table, cs: seq<Cluster>): Knowledge
    decreases |cs|
  {
    if cs == [] then Knowing(t) else Learn(KnownAfter(t, Front(cs)), Last(cs))
  }

  ghost predicate Describes(k: Knowledge, t: Table) {
    && k.Keys == t.Keys
    && forall id :: id in k ==>
         k[id].contentHash == t[id].contentHash && forall o :: o in k[id].sure ==> o in t[id].occurrences
  }

  lemma {:induction false} NamesMatch(k: Knowledge, t: Table, c: Cluster)
    requires Describes(k, t)
    ensures forall id :: Names(k, id, c) <==> Matches(t, id, c)
  {
  }

  lemma {:induction false} MergeTeaches(k: Knowledge, t: Table, c: Cluster, target: Option<string>, now: int,
                                        id: string)
    requires Describes(k, t) && Names(k, id, c)
    ensures Describes(Learn(k, c), t[id := Merged(t[id], c, target, now)])
  {
    assert forall o :: o in t[id].occurrences || o in c.occurrences ==> o in t[id].occurrences + c.occurrences;
  }

  lemma {:induction false} InsertTeaches(k: Knowledge, t: Table, c: Cluster, target: Option<string>)
    requires Describes(k, t) && forall id :: !Names(k, id, c)
    ensures Describes(Learn(k, c), t[c.id := FromCluster(c, target)])
  {
  }

  lemma {:induction false} UpsertTeaches(k: Knowledge, t: Table, c: Cluster, target: Option<string>, now: int,
                                         after: Table)
    requires Describes(k, t) && Upserts(t, c, target, now, after)
    ensures Describes(Learn(k, c), after)
  {
    NamesMatch(k, t, c);
    if exists id :: Matches(t, id, c) {
      var id :| Matches(t, id, c) && after == t[id := Merged(t[id], c, target, now)];
      MergeTeaches(k, t, c, target, now, id);
    } else {
      InsertTeaches(k, t, c, target);
    }
  }

  /** Whatever the queries answer, what is certain beforehand is so afterwards. */
  lemma {:induction false} SaveTeaches(t: Table, cs: seq<Cluster>, target: Option<string>, now: int, after: Table)
    requires Saves(t, cs, target, now, after)
    ensures Describes(KnownAfter(t, cs), after)
    decreases |cs|
  {
    if cs != [] {
      var mid :| Saves(t, Front(cs), target, now, mid) && Upserts(mid, Last(cs), target, now, after);
      SaveTeaches(t, Front(cs), target, now, mid);
      UpsertTeaches(KnownAfter(t, Front(cs)), mid, Last(cs), target, now, after);
    }
  }

  lemma {:induction false} SomeUpsert(t: Table, c: Cluster, target: Option<string>, now: int) returns (after: Table)
    ensures Upserts(t, c, target, now, after)
  {
    if id :| Matches(t, id, c) {
      after := t[id := Merged(t[id], c, target, now)];
    } else {
      after := t[c.id := FromCluster(c, target)];
    }
  }

  lemma {:induction false} SomeSave(t: Table, cs: seq<Cluster>, target: Option<string>, now: int) returns (after: Table)
    ensures Saves(t, cs, target, now, after)
    decreases |cs|
  {
    if cs == [] {
      after := t;
    } else {
      var mid := SomeSave(t, Front(cs), target, now);
      after := SomeUpsert(mid, Last(cs), target, now);
    }
  }

  /** An upsert that does not add an occurrence to a record it is not certain to add it to. */
  lemma {:induction false} AvoidingUpsert(k: Knowledge, t: Table, c: Cluster, target: Option<string>, now: int,
                                          id: string, o: Occurrence)
    returns (after: Table)
    requires Describes(k, t) && id in Learn(k, c) && o !in Learn(k, c)[id].sure
    requires id in t ==> o !in t[id].occurrences
    ensures Upserts(t, c, target, now, after) && id in after && o !in after[id].occurrences
  {
    NamesMatch(k, t, c);
    if other :| Matches(t, other, c) && other != id {
      after := t[other := Merged(t[other], c, target, now)];
    } else if Matches(t, id, c) {
      assert NamesOnly(k, id, c);
      assert forall any :: NamesOnly(k, any, c) ==> any == id;
      after := t[id := Merged(t[id], c, target, now)];
      assert o !in t[id].occurrences + c.occurrences;
    } else {
      after := t[c.id := FromCluster(c, target)];
    }
  }

  lemma {:induction false} LearnKeeps(k: Knowledge, c: Cluster, id: string)
    requires id in k
    ensures id in Learn(k, c) && k[id].sure <= Learn(k, c)[id].sure && Learn(k, c)[id].contentHash == k[id].contentHash
  {
    assert id == c.id ==> Names(k, id, c);
  }

  /** And only that is certain: any other occurrence may be missing. */
  lemma {:induction false} AvoidingSave(t: Table, cs: seq<Cluster>, target: Option<string>, now: int, id: string,
                                        o: Occurrence)
    returns (after: Table)
    requires id in KnownAfter(t, cs) && o !in KnownAfter(t, cs)[id].sure
    ensures Saves(t, cs, target, now, after) && id in after && o !in after[id].occurrences
    decreases |cs|
  {
    hide Learn, Describes, Upserts;
    if cs == [] {
      after := t;
    } else {
      var k, mid := KnownAfter(t, Front(cs)), t;
      if id in k {
        LearnKeeps(k, Last(cs), id);
        mid := AvoidingSave(t, Front(cs), target, now, id, o);
      } else {
        mid := SomeSave(t, Front(cs), target, now);
      }
      SaveTeaches(t, Front(cs), target, now, mid);
      SameNames(k, mid);
      after := AvoidingUpsert(k, mid, Last(cs), target, now, id, o);
    }
  }

  lemma {:induction false} SameNames(k: Knowledge, t: Table)
    requires Describes(k, t)
    ensures forall id :: id in k <==> id in t
  {
  }

  lemma {:induction false} UpsertExtends(t: Table, c: Cluster, target: Option<string>, now: int, after: Table)
    requires Upserts(t, c, target, now, after)
    ensures Grows(t, after)
  {
    assert c.id in t ==> Matches(t, c.id, c);
  }

  lemma {:induction false} SaveExtends(t: Table, cs: seq<Cluster>, target: Option<string>, now: int, after: Table)
    requires Saves(t, cs, target, now, after)
    ensures Grows(t, after)
    decreases |cs|
  {
    if cs != [] {
      var mid :| Saves(t, Front(cs), target, now, mid) && Upserts(mid, Last(cs), target, now, after);
      SaveExtends(t, Front(cs), target, now, mid);
      UpsertExtends(mid, Last(cs), target, now, after);
    }
  }

  /** A save that adds an occurrence of one of its clusters to a record the cluster names. */
  lemma {:induction false} AddingSave(t: Table, cs: seq<Cluster>, target: Option<string>, now: int, c: Cluster,
                                      id: string, o: Occurrence)
    returns (after: Table)
    requires c in cs && Matches(t, id, c) && o in c.occurrences
    ensures Saves(t, cs, target, now, after) && id in after && o in after[id].occurrences
    decreases |cs|
  {
    hide Upserts;
    assert cs == Front(cs) + [Last(cs)];
    if c == Last(cs) {
      var mid := SomeSave(t, Front(cs), target, now);
      SaveExtends(t, Front(cs), target, now, mid);
      after := AddingUpsert(mid, c, target, now, id, o);
    } else {
      var mid := AddingSave(t, Front(cs), target, now, c, id, o);
      after := SomeUpsert(mid, Last(cs), target, now);
      UpsertExtends(mid, Last(cs), target, now, after);
    }
  }

  lemma {:induction false} AddingUpsert(t: Table, c: Cluster, target: Option<string>, now: int, id: string,
                                        o: Occurrence)
    returns (after: Table)
    requires Matches(t, id, c) && o in c.occurrences
    ensures Upserts(t, c, target, now, after) && id in after && o in after[id].occurrences
  {
    after := t[id := Merged(t[id], c, target, now)];
    assert o in t[id].occurrences + c.occurrences;
  }

  lemma {:induction false} SavedIsNamed(t: Table, cs: seq<Cluster>, c: Cluster) returns (id: string)
    requires c in cs
    ensures Names(KnownAfter(t, cs), id, c)
    decreases |cs|
  {
    hide Learn;
    assert cs == Front(cs) + [Last(cs)];
    var k := KnownAfter(t, Front(cs));
    if c == Last(cs) {
      id := LearnNames(k, c);
    } else {
      id := SavedIsNamed(t, Front(cs), c);
      LearnKeeps(k, Last(cs), id);
    }
  }

  lemma {:induction false} LearnNames(k: Knowledge, c: Cluster) returns (id: string)
    ensures Names(Learn(k, c), id, c)
  {
    if any :| Names(k, any, c) {
      id := any;
      LearnKeeps(k, c, id);
    } else {
      id := c.id;
    }
  }

  /** Every record a cluster names is certain to get its occurrences from the save. */
  ghost predicate SureOfAll(t: Table, cs: seq<Cluster>) {
    forall c, id, o ::
      c in cs && Names(KnownAfter(t, cs), id, c) && o in c.occurrences ==> o in KnownAfter(t, cs)[id].sure
  }

  /** However the queries answer, saving the clusters twice adds nothing the second time. */
  ghost predicate SaveSettles(t: Table, cs: seq<Cluster>, target: Option<string>, now: int, later: int) {
    forall after, again :: Saves(t, cs, target, now, after) && Saves(after, cs, target, later, again)
      ==> SameOccurrences(after, again)
  }

  lemma {:induction false} SureMeansHeld(t: Table, cs: seq<Cluster>, target: Option<string>, now: int, after: Table,
                                         c: Cluster)
    requires SureOfAll(t, cs) && Saves(t, cs, target, now, after) && c in cs
    ensures Holds(after, c)
  {
    hide KnownAfter, Saves;
    SaveTeaches(t, cs, target, now, after);
    NamesMatch(KnownAfter(t, cs), after, c);
    var id := SavedIsNamed(t, cs, c);
    assert Matches(after, id, c);
  }

  /** Saving clusters twice adds nothing the second time if and only if every record one of them names is
      certain to have its occurrences after the first. */
  lemma {:induction false} SaveSettlesIff(t: Table, cs: seq<Cluster>, target: Option<string>, now: int, later: int)
    ensures SaveSettles(t, cs, target, now, later) <==> SureOfAll(t, cs)
  {
    hide KnownAfter, Saves, Describes, Holds;
    if SureOfAll(t, cs) {
      forall after, again | Saves(t, cs, target, now, after) && Saves(after, cs, target, later, again)
        ensures SameOccurrences(after, again)
      {
        forall c | c in cs ensures Holds(after, c) {
          SureMeansHeld(t, cs, target, now, after, c);
        }
        ResavingAddsNothing(after, cs, target, later, again);
      }
    } else {
      var c, id, o :| && c in cs && Names(KnownAfter(t, cs), id, c)
                      && o in c.occurrences && o !in KnownAfter(t, cs)[id].sure;
      var after := AvoidingSave(t, cs, target, now, id, o);
      SaveTeaches(t, cs, target, now, after);
      NamesMatch(KnownAfter(t, cs), after, c);
      var again := AddingSave(after, cs, target, later, c, id, o);
    }
  }

  /** A cluster with the identifier of one record and the hash of another can be merged into either, so
      there a second save may add its occurrences to the other one. */
  lemma {:induction false} AmbiguousClusterSpreads(o: Occurrence)
    returns (t: Table, c: Cluster, after: Table, again: Table)
    ensures Valid(t) && Upserts(t, c, None, 1, after) && Upserts(after, c, None, 2, again)
    ensures !SameOccurrences(after, again)
  {
    var a := Record("hash a", [], Open, None, None, None, 0);
    var b := Record("hash b", [], Open, None, None, None, 0);
    t := map["a" := a, "b" := b];
    c := Cluster("a", "hash b", [o], Open, None, None, 0);
    assert "hash a"[5] != "hash b"[5] && "a"[0] != "b"[0];
    after := t["a" := Merged(a, c, None, 1)];
    assert Matches(t, "a", c);
    again := after["b" := Merged(b, c, None, 2)];
    assert Matches(after, "b", c);
    assert o in [] + c.occurrences && o in again["b"].occurrences && o !in after["b"].occurrences;
  }
}
