/** The whole ledger of an artifact, and why its clusters do not depend on the order of the spans. */
module Promotion {
  import opened Prelude
  import opened Spans
  import L = Ledger
  import opened Clusters

  const GAP := 32

  datatype Report = Report(
    totalMass: real, attributedMass: real, excludedMass: real, residueMass: real, coverage: real,
    attributed: seq<Span>, excluded: seq<Span>, residue: seq<Span>,
    clusters: seq<Cluster>, records: seq<L.Record>)

  /** The parts add up to the total, within the tolerance of the check. */
  predicate VerifyInvariant(r: Report) {
    var off := r.attributedMass + r.excludedMass + r.residueMass - r.totalMass;
    -0.000001 < off < 0.000001
  }

  lemma {:induction false} ResidueWellFormed(t: L.Tests, content: string, findings: seq<Span>, suspicion: seq<Span>)
    ensures WellFormed(suspicion) ==> WellFormed(L.Residue(t, content, findings, suspicion))
  {
    L.ResidueIs(t, content, findings, suspicion);
    SelectIn(suspicion, Both(Not(L.ClaimedBy(findings)), Not(L.ExcludedBy(t, content))));
  }

  method ComputeLedger(t: L.Tests, content: string, artifact: string, findings: seq<Span>, suspicion: seq<Span>)
    returns (r: Report)
    ensures VerifyInvariant(r) && r.attributedMass + r.excludedMass + r.residueMass == r.totalMass == Mass(suspicion)
    ensures r.attributed == L.Attributed(findings, suspicion) && r.attributedMass == Mass(r.attributed)
    ensures r.excluded == L.Excluded(t, content, findings, suspicion) && r.excludedMass == Mass(r.excluded)
    ensures r.residue == L.Residue(t, content, findings, suspicion) && r.residueMass == Mass(r.residue)
    ensures r.totalMass > 0.0 ==> r.coverage * r.totalMass == r.attributedMass
    ensures r.totalMass <= 0.0 ==> r.coverage == 1.0
    ensures r.coverage == L.Coverage(findings, suspicion)
    ensures r.clusters == RecordedAll(Groups(r.residue, GAP), content, artifact, t.hash)
    ensures WellFormed(suspicion) ==> Clustered(r.clusters, r.residue, content, artifact, 32, t.hash)
    ensures WellFormed(suspicion) ==> MassOf(r.clusters) == r.residueMass
    ensures |r.records| == |r.excluded|
    ensures forall i :: 0 <= i < |r.records| ==>
              r.records[i].span == r.excluded[i] && L.Verdict(t, content, r.excluded[i]) == Some(r.records[i])
  {
    hide L.Verdict, Groups, RecordedAll, Select, Mass;
    ResidueWellFormed(t, content, findings, suspicion);
    var attributed, unclaimed, _ := L.AttributeClaims(findings, suspicion);
    var excluded, residue, records := L.EvaluateExclusions(t, unclaimed, content);
    var total := Mass(suspicion);
    var coverage := if total > 0.0 then Mass(attributed) / total else 1.0;
    var clusters := ClusterResidueSpans(residue, content, artifact, GAP, t.hash);
    r := Report(total, Mass(attributed), Mass(excluded), Mass(residue), coverage,
                attributed, excluded, residue, clusters, records);
    L.Conservation(t, content, findings, suspicion);
    assert VerifyInvariant(r);
    if WellFormed(suspicion) {
      ClusteredMass(r.clusters, residue, content, artifact, t.hash);
    }
  }

  lemma {:induction false} ClusteredMass(cs: seq<Cluster>, residue: seq<Span>, content: string, artifact: string,
                                         hash: string -> string)
    requires Clustered(cs, residue, content, artifact, GAP, hash)
    ensures MassOf(cs) == Mass(residue)
  {
  }

  // ----- The grouping of given members is unique -----

  ghost predicate SameShape(gs: seq<Group>, hs: seq<Group>) {
    && |gs| == |hs|
    && forall i :: 0 <= i < |gs| ==>
         gs[i].start == hs[i].start && gs[i].end == hs[i].end && multiset(gs[i].spans) == multiset(hs[i].spans)
  }

  function StartsFrom(n: nat): Test {
    (s: Span) => n <= s.start
  }

  function Last(gs: seq<Group>): Group
    requires gs != []
  {
    gs[|gs| - 1]
  }

  function Front(gs: seq<Group>): seq<Group>
    requires gs != []
  {
    gs[..|gs| - 1]
  }

  lemma {:induction false} MembersSplit(gs: seq<Group>)
    requires gs != []
    ensures Members(gs) == Members(Front(gs)) + Last(gs).spans
  {
  }

  lemma {:induction false} FrontGood(gs: seq<Group>, gap: nat)
    requires Good(gs, gap) && gs != []
    ensures Good(Front(gs), gap)
  {
  }

  /** The last group is what starts at its start or later. */
  lemma {:induction false} LastGroupIs(gs: seq<Group>, gap: nat)
    requires Good(gs, gap) && gs != []
    ensures var last := Last(gs);
            && Select(Members(gs), StartsFrom(last.start)) == last.spans
            && last.spans != [] && last.spans[0] in last.spans && last.spans[0].start == last.start
  {
    var front, last := Front(gs), Last(gs);
    assert Tight(last, gap);
    forall s | s in Members(front) ensures s.start < last.start {
      MembersIn(front, s);
      var i :| 0 <= i < |front| && s in front[i].spans;
      assert Tight(gs[i], gap);
      HullHolds(gs[i], s, gap);
    }
    SelectConcat(Members(front), last.spans, StartsFrom(last.start));
    SelectNone(Members(front), StartsFrom(last.start));
    SelectAll(last.spans, StartsFrom(last.start));
  }

  /** A member that starts no earlier than the last group is in the last group. */
  lemma {:induction false} LateMember(gs: seq<Group>, s: Span, gap: nat)
    requires Good(gs, gap) && gs != [] && s in Members(gs) && Last(gs).start <= s.start
    ensures s in Last(gs).spans
  {
    LastGroupIs(gs, gap);
    SelectIn(Members(gs), StartsFrom(Last(gs).start));
  }

  lemma {:induction false} InLastGroup(gs: seq<Group>, s: Span, gap: nat)
    requires Good(gs, gap) && gs != [] && s in Last(gs).spans
    ensures s in Members(gs) && Last(gs).start <= s.start <= s.end <= Last(gs).end
  {
  }

  /** Spans connected to a member of the last group are in the last group. */
  lemma {:induction false} LastIsComponent(gs: seq<Group>, a: Span, b: Span, gap: nat)
    requires Good(gs, gap) && gs != [] && a in Last(gs).spans && b in Members(gs)
    ensures b in Last(gs).spans <==> Connected(Members(gs), a, b, gap)
  {
    InLastGroup(gs, a, gap);
    SameGroupIffConnected(gs, a, b, gap);
    if SameGroup(gs, a, b) {
      var i :| 0 <= i < |gs| && a in gs[i].spans && b in gs[i].spans;
      assert Tight(gs[i], gap);
      HullHolds(gs[i], a, gap);
      assert i == |gs| - 1;
    }
  }

  /** With equal members, the two last groups share a span; so they are the same component. */
  lemma {:induction false} LastGroupsMeet(gs: seq<Group>, hs: seq<Group>, gap: nat) returns (a: Span)
    requires Good(gs, gap) && Good(hs, gap) && gs != [] && hs != []
    requires multiset(Members(gs)) == multiset(Members(hs))
    ensures a in Last(gs).spans && a in Last(hs).spans
  {
    var g, h := Last(gs), Last(hs);
    LastGroupIs(gs, gap);
    LastGroupIs(hs, gap);
    if g.start <= h.start {
      a := h.spans[0];
      InLastGroup(hs, a, gap);
      assert a in multiset(Members(gs));
      LateMember(gs, a, gap);
    } else {
      a := g.spans[0];
      InLastGroup(gs, a, gap);
      assert a in multiset(Members(hs));
      LateMember(hs, a, gap);
    }
  }

  lemma {:induction false} SameMembers(s: seq<Span>, t: seq<Span>)
    requires multiset(s) == multiset(t)
    ensures forall x :: x in s <==> x in t
  {
    forall x ensures x in s <==> x in t {
      assert x in s <==> x in multiset(s);
      assert x in t <==> x in multiset(t);
    }
  }

  lemma {:induction false} LastGroupsEqual(gs: seq<Group>, hs: seq<Group>, gap: nat)
    requires Good(gs, gap) && Good(hs, gap) && gs != [] && hs != []
    requires multiset(Members(gs)) == multiset(Members(hs))
    ensures forall b :: b in Last(gs).spans <==> b in Last(hs).spans
  {
    var a := LastGroupsMeet(gs, hs, gap);
    SameMembers(Members(gs), Members(hs));
    forall b ensures b in Last(gs).spans <==> b in Last(hs).spans {
      if b in Last(gs).spans {
        InLastGroup(gs, b, gap);
      }
      if b in Last(hs).spans {
        InLastGroup(hs, b, gap);
      }
      if b in Members(gs) {
        LastIsComponent(gs, a, b, gap);
        LastIsComponent(hs, a, b, gap);
        PathSameSpans(Members(gs), Members(hs), a, b, gap);
      }
    }
  }

  lemma {:induction false} HullUnique(g: Group, h: Group, gap: nat)
    requires Tight(g, gap) && Tight(h, gap) && forall b :: b in g.spans <==> b in h.spans
    ensures g.start == h.start && g.end == h.end
  {
  }

  lemma {:induction false} GroupsHaveMembers(gs: seq<Group>, gap: nat)
    requires Good(gs, gap) && gs != []
    ensures Members(gs) != [] && Tight(Last(gs), gap)
  {
  }

  lemma {:induction false} ShapeOneMore(gs: seq<Group>, hs: seq<Group>)
    requires gs != [] && hs != [] && SameShape(Front(gs), Front(hs))
    requires Last(gs).start == Last(hs).start && Last(gs).end == Last(hs).end
    requires multiset(Last(gs).spans) == multiset(Last(hs).spans)
    ensures SameShape(gs, hs)
  {
  }

  lemma {:induction false} GroupingIsUnique(gs: seq<Group>, hs: seq<Group>, gap: nat)
    requires Good(gs, gap) && Good(hs, gap) && multiset(Members(gs)) == multiset(Members(hs))
    ensures SameShape(gs, hs)
    decreases |gs|
  {
    if gs != [] && hs != [] {
      LastHull(gs, hs, gap);
      LastContents(gs, hs, gap);
      FrontGood(gs, gap);
      FrontGood(hs, gap);
      GroupingIsUnique(Front(gs), Front(hs), gap);
      ShapeOneMore(gs, hs);
    } else {
      BothEmpty(gs, hs, gap);
    }
  }

  lemma {:induction false} BothEmpty(gs: seq<Group>, hs: seq<Group>, gap: nat)
    requires Good(gs, gap) && Good(hs, gap) && multiset(Members(gs)) == multiset(Members(hs))
    requires gs == [] || hs == []
    ensures gs == hs == []
  {
  }

  lemma {:induction false} LastHull(gs: seq<Group>, hs: seq<Group>, gap: nat)
    requires Good(gs, gap) && Good(hs, gap) && gs != [] && hs != []
    requires multiset(Members(gs)) == multiset(Members(hs))
    ensures Last(gs).start == Last(hs).start && Last(gs).end == Last(hs).end
  {
    LastGroupsEqual(gs, hs, gap);
    GroupsHaveMembers(gs, gap);
    GroupsHaveMembers(hs, gap);
    HullUnique(Last(gs), Last(hs), gap);
  }

  lemma {:induction false} LastContents(gs: seq<Group>, hs: seq<Group>, gap: nat)
    requires Good(gs, gap) && Good(hs, gap) && gs != [] && hs != []
    requires multiset(Members(gs)) == multiset(Members(hs)) && Last(gs).start == Last(hs).start
    ensures multiset(Last(gs).spans) == multiset(Last(hs).spans)
    ensures multiset(Members(Front(gs))) == multiset(Members(Front(hs)))
  {
    LastGroupIs(gs, gap);
    LastGroupIs(hs, gap);
    SelectMultiset(Members(gs), Members(hs), StartsFrom(Last(gs).start));
    MultisetOfMembers(gs);
    MultisetOfMembers(hs);
  }

  lemma {:induction false} MultisetOfMembers(gs: seq<Group>)
    requires gs != []
    ensures multiset(Members(Front(gs))) == multiset(Members(gs)) - multiset(Last(gs).spans)
  {
  }

  /** Ranges and contents of clusters do not depend on the order in which residue spans arrive. */
  lemma {:induction false} OrderDoesNotMatter(s: seq<Span>, t: seq<Span>, gap: nat)
    requires WellFormed(s) && multiset(s) == multiset(t)
    ensures SameShape(Groups(s, gap), Groups(t, gap))
  {
    SameMembers(s, t);
    GroupsAre(s, gap);
    GroupsAre(t, gap);
    GroupingIsUnique(Groups(s, gap), Groups(t, gap), gap);
  }
}
