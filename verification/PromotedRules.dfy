/**
 The rule generated when a residue cluster is promoted: it reports the first occurrence of the cluster's
 bytes in the artifact, and so may report another place than the cluster's own.
 */
module PromotedRules {
  import opened Prelude
  import opened Positions
  import opened Spans
  import L = Ledger
  import opened Clusters
  import opened Promotion

  /** The first position at which the text stands. */
  function Find(content: string, text: string, from: nat): (r: Option<nat>)
    ensures r.Some? ==> from <= r.value && StandsAt(content, r.value, text)
    ensures forall k: nat :: from <= k && (r.Some? ==> k < r.value) ==> !StandsAt(content, k, text)
    decreases |content| - from
  {
    if from > |content| then None
    else if StandsAt(content, from, text) then Some(from)
    else Find(content, text, from + 1)
  }

  /** The span the generated rule reports on the artifact: the first occurrence of the cluster's bytes. */
  function PromotedRule(bytes: string, content: string, artifact: string): Option<Span> {
    match Find(content, bytes, 0)
    case Some(o) => Some(Span(artifact, o, o + |bytes|, "promoted_rule", None, 1.0))
    case None => None
  }

  function Touches(rule: Span): Test {
    s => L.Overlap(s, rule)
  }

  function Without(gs: seq<Group>, i: nat): seq<Group>
    requires i < |gs|
  {
    gs[..i] + gs[i + 1..]
  }

  /** Adding one finding keeps as residue what it does not touch. */
  lemma {:induction false} OneMoreFinding(t: L.Tests, content: string, findings: seq<Span>, rule: Span,
                                          suspicion: seq<Span>)
    ensures L.Residue(t, content, findings + [rule], suspicion)
         == Select(L.Residue(t, content, findings, suspicion), Not(Touches(rule)))
  {
    var left := Both(Not(L.ClaimedBy(findings)), Not(L.ExcludedBy(t, content)));
    var leftMore := Both(Not(L.ClaimedBy(findings + [rule])), Not(L.ExcludedBy(t, content)));
    L.ResidueIs(t, content, findings, suspicion);
    L.ResidueIs(t, content, findings + [rule], suspicion);
    SelectTwice(suspicion, left, Not(Touches(rule)));
    forall s ensures Both(left, Not(Touches(rule)))(s) == leftMore(s) {
      if L.Claimed(findings + [rule], s) {
        var f :| f in findings + [rule] && L.Overlap(s, f);
        assert f in findings || f == rule;
      }
      if L.Claimed(findings, s) {
        var f :| f in findings && L.Overlap(s, f);
        assert f in findings + [rule];
      }
      assert rule in findings + [rule];
    }
    SelectSame(suspicion, Both(left, Not(Touches(rule))), leftMore);
  }

  ghost predicate HoldsOnlyOn(gs: seq<Group>, i: nat, p: Test) {
    forall j, s :: 0 <= j < |gs| && s in gs[j].spans ==> (p(s) <==> j == i)
  }

  lemma {:induction false} SelectLastGroup(gs: seq<Group>, p: Test)
    requires gs != [] && HoldsOnlyOn(gs, |gs| - 1, p)
    ensures Select(Members(gs), p) == Last(gs).spans && Select(Members(gs), Not(p)) == Members(Front(gs))
  {
    var front, last := Front(gs), Last(gs);
    forall s | s in Members(front) ensures !p(s) {
      MembersIn(front, s);
      var j :| 0 <= j < |front| && s in front[j].spans;
      assert s in gs[j].spans;
    }
    SelectConcat(Members(front), last.spans, p);
    SelectConcat(Members(front), last.spans, Not(p));
    SelectAll(last.spans, p);
    SelectNone(last.spans, Not(p));
    SelectNone(Members(front), p);
    SelectAll(Members(front), Not(p));
  }

  lemma {:induction false} MembersWithout(front: seq<Group>, last: Group, i: nat)
    requires i < |front|
    ensures Members(Without(front + [last], i)) == Members(Without(front, i)) + last.spans
  {
    assert Without(front + [last], i) == Without(front, i) + [last];
    MembersOneMore(Without(front, i), last);
  }

  lemma {:induction false} AppendUnselected(members: seq<Span>, spans: seq<Span>, p: Test)
    requires forall s :: s in spans ==> !p(s)
    ensures Select(members + spans, p) == Select(members, p)
    ensures Select(members + spans, Not(p)) == Select(members, Not(p)) + spans
  {
    SelectConcat(members, spans, p);
    SelectConcat(members, spans, Not(p));
    SelectNone(spans, p);
    SelectAll(spans, Not(p));
  }

  /** A test that holds on group i and on no other selects exactly that group. */
  lemma {:induction false} SelectGroup(gs: seq<Group>, i: nat, p: Test)
    requires i < |gs| && HoldsOnlyOn(gs, i, p)
    ensures Select(Members(gs), p) == gs[i].spans
    ensures Select(Members(gs), Not(p)) == Members(Without(gs, i))
    decreases |gs|
  {
    var front, last := Front(gs), Last(gs);
    if i == |front| {
      SelectLastGroup(gs, p);
      assert Without(gs, i) == front;
    } else {
      assert HoldsOnlyOn(front, i, p) by {
        assert forall j :: 0 <= j < |front| ==> front[j] == gs[j];
      }
      SelectGroup(front, i, p);
      assert last == gs[|gs| - 1] && gs == front + [last];
      MembersSplit(gs);
      AppendUnselected(Members(front), last.spans, p);
      MembersWithout(front, last, i);
    }
  }

  lemma {:induction false} WithoutGood(gs: seq<Group>, i: nat, gap: nat)
    requires Good(gs, gap) && i < |gs|
    ensures Good(Without(gs, i), gap)
  {
  }

  // ----- Which findings touch one cluster and no other -----

  /** A span of the artifact that holds at least one byte. An empty one overlaps nothing. */
  predicate Occupied(s: Span, artifact: string) {
    s.artifact == artifact && s.start < s.end
  }

  /** All spans of group i are occupied and begin before the rule ends; the occupied spans of earlier groups end
      before it begins. */
  ghost predicate ReachesOnly(gs: seq<Group>, i: nat, rule: Span)
    requires i < |gs|
  {
    && (forall s :: s in gs[i].spans ==> Occupied(s, rule.artifact) && s.start < rule.end)
    && (forall j, s :: 0 <= j < i && s in gs[j].spans && Occupied(s, rule.artifact) ==> s.end <= rule.start)
  }

  lemma {:induction false} TouchesIff(s: Span, rule: Span)
    requires s.start <= s.end && rule.start <= rule.end
    ensures Touches(rule)(s)
       <==> Occupied(s, rule.artifact) && s.start < rule.end && rule.start < s.end && rule.start < rule.end
  {
  }

  /** A finding that begins and ends no later than a cluster touches the spans of that cluster and no others
      exactly when it reaches them all, and none of an earlier cluster. */
  lemma {:induction false} TouchesOnlyIff(gs: seq<Group>, i: nat, rule: Span, gap: nat)
    requires Good(gs, gap) && i < |gs|
    requires rule.start <= gs[i].start && rule.start <= rule.end <= gs[i].end
    ensures HoldsOnlyOn(gs, i, Touches(rule)) <==> ReachesOnly(gs, i, rule)
  {
    forall j, s | 0 <= j < |gs| && s in gs[j].spans
      ensures gs[j].start <= s.start <= s.end <= gs[j].end
      ensures Touches(rule)(s)
         <==> Occupied(s, rule.artifact) && s.start < rule.end && rule.start < s.end && rule.start < rule.end
    {
      HullHolds(gs[j], s, gap);
      TouchesIff(s, rule);
    }
    var first := gs[i].spans[0];
    assert first in gs[i].spans && first.start == gs[i].start;
    if ReachesOnly(gs, i, rule) {
      forall j, s | 0 <= j < |gs| && s in gs[j].spans ensures Touches(rule)(s) <==> j == i {
        assert j < i && Occupied(s, rule.artifact) ==> s.end <= rule.start;
        assert j > i ==> gs[i].end + gap < gs[j].start;
      }
    } else if HoldsOnlyOn(gs, i, Touches(rule)) {
      assert Touches(rule)(first);
      forall j, s | 0 <= j < i && s in gs[j].spans && Occupied(s, rule.artifact) ensures s.end <= rule.start {
        assert !Touches(rule)(s) && gs[j].end + gap < gs[i].start;
      }
      forall s | s in gs[i].spans ensures Occupied(s, rule.artifact) && s.start < rule.end {
        assert Touches(rule)(s);
      }
    }
  }

  // ----- What such a finding does to the ledger -----

  /** Of the residue spans, exactly those of cluster i have left. */
  ghost predicate ClosesOnly(gs: seq<Group>, i: nat, after: seq<Span>) {
    forall j, s :: 0 <= j < |gs| && s in gs[j].spans ==> (s in after <==> j != i)
  }

  lemma {:induction false} LeftUntouched(residue: seq<Span>, j: nat, s: Span, rule: Span, gap: nat)
    requires WellFormed(residue) && j < |Groups(residue, gap)| && s in Groups(residue, gap)[j].spans
    ensures s in Select(residue, Not(Touches(rule))) <==> !Touches(rule)(s)
  {
    hide Groups, Touches;
    GroupsAre(residue, gap);
    SortSame(residue);
    SelectIn(residue, Not(Touches(rule)));
    MembersIn(Groups(residue, gap), s);
  }

  lemma {:induction false} ClosesIffTouches(residue: seq<Span>, i: nat, rule: Span, gap: nat)
    requires WellFormed(residue) && i < |Groups(residue, gap)|
    ensures ClosesOnly(Groups(residue, gap), i, Select(residue, Not(Touches(rule))))
       <==> HoldsOnlyOn(Groups(residue, gap), i, Touches(rule))
  {
    hide Groups, Touches, Select;
    forall j, s | 0 <= j < |Groups(residue, gap)| && s in Groups(residue, gap)[j].spans
      ensures s in Select(residue, Not(Touches(rule))) <==> !Touches(rule)(s)
    {
      LeftUntouched(residue, j, s, rule, gap);
    }
  }

  /**
   Promotion, on the residue alone: when a rule touches cluster i only, the residue's mass drops by that
   cluster's mass, and the clusters of what is left are the other clusters.
   */
  lemma {:induction false} RuleRemovesItsCluster(residue: seq<Span>, i: nat, rule: Span, gap: nat)
    requires WellFormed(residue) && i < |Groups(residue, gap)| && HoldsOnlyOn(Groups(residue, gap), i, Touches(rule))
    ensures var gs, left := Groups(residue, gap), Select(residue, Not(Touches(rule)));
            Mass(left) == Mass(residue) - Mass(gs[i].spans) && SameShape(Groups(left, gap), Without(gs, i))
  {
    var gs, left := Groups(residue, gap), Select(residue, Not(Touches(rule)));
    GroupsAre(residue, gap);
    SelectGroup(gs, i, Touches(rule));
    SelectMultiset(residue, SortSpans(residue), Touches(rule));
    SelectMultiset(residue, SortSpans(residue), Not(Touches(rule)));
    MassOfMultiset(Select(residue, Touches(rule)), gs[i].spans);
    MassSplits(residue, Touches(rule));
    SelectIn(residue, Not(Touches(rule)));
    SortSame(residue);
    WithoutGood(gs, i, gap);
    GroupsAre(left, gap);
    GroupingIsUnique(Groups(left, gap), Without(gs, i), gap);
  }

  /** The bytes of a range are found, at its own start or before, and are no longer than the range. */
  lemma {:induction false} PromotedRuleFits(content: string, g: Group, artifact: string)
    requires g.start <= g.end
    ensures var bytes := Slice(content, g.start, g.end);
            var rule := PromotedRule(bytes, content, artifact);
            && rule.Some? && rule.value.artifact == artifact
            && Find(content, bytes, 0) == Some(rule.value.start)
            && rule.value.start <= g.start && rule.value.end == rule.value.start + |bytes| <= g.end
  {
    var bytes := Slice(content, g.start, g.end);
    assert StandsAt(content, if g.start < |content| then g.start else 0, bytes);
  }

  /** What leaves the residue by a new finding is attributed. */
  lemma {:induction false} AttributedGains(t: L.Tests, content: string, findings: seq<Span>, rule: Span,
                                           suspicion: seq<Span>)
    requires NonNegative(suspicion)
    ensures Mass(L.Attributed(findings + [rule], suspicion)) - Mass(L.Attributed(findings, suspicion))
         >= Mass(L.Residue(t, content, findings, suspicion)) - Mass(L.Residue(t, content, findings + [rule], suspicion))
  {
    L.Conservation(t, content, findings, suspicion);
    L.Conservation(t, content, findings + [rule], suspicion);
    L.ResidueIs(t, content, findings, suspicion);
    L.ResidueIs(t, content, findings + [rule], suspicion);
    forall s | L.Claimed(findings, s) ensures L.Claimed(findings + [rule], s) {
      var f :| f in findings && L.Overlap(s, f);
      assert f in findings + [rule];
    }
    MassMonotone(suspicion, Both(Not(L.ClaimedBy(findings + [rule])), L.ExcludedBy(t, content)),
                 Both(Not(L.ClaimedBy(findings)), L.ExcludedBy(t, content)));
  }

  /** The rule generated from the bytes of cluster i. */
  function RuleOf(residue: seq<Span>, content: string, artifact: string, i: nat): Option<Span>
    requires i < |Groups(residue, GAP)|
  {
    PromotedRule(Slice(content, Groups(residue, GAP)[i].start, Groups(residue, GAP)[i].end), content, artifact)
  }

  lemma {:induction false} RuleClosesIff(residue: seq<Span>, content: string, artifact: string, i: nat)
    requires WellFormed(residue) && i < |Groups(residue, GAP)|
    ensures RuleOf(residue, content, artifact, i).Some?
    ensures var gs, rule := Groups(residue, GAP), RuleOf(residue, content, artifact, i).value;
            ClosesOnly(gs, i, Select(residue, Not(Touches(rule)))) <==> ReachesOnly(gs, i, rule)
  {
    hide Groups, PromotedRule, Touches, Find;
    var g := Groups(residue, GAP)[i];
    GroupsAre(residue, GAP);
    HullHolds(g, g.spans[0], GAP);
    PromotedRuleFits(content, g, artifact);
    var rule := RuleOf(residue, content, artifact, i).value;
    TouchesOnlyIff(Groups(residue, GAP), i, rule, GAP);
    ClosesIffTouches(residue, i, rule, GAP);
  }

  /**
   Promoting cluster i adds what the generated rule reports, which is the first occurrence of the
   cluster's bytes. Exactly that cluster is closed if and only if its spans hold bytes of the artifact, the
   reported range ends behind every start among them, and it begins behind every end before them. Then the
   residue mass drops by exactly the mass of the cluster, the other clusters are as they were, and the
   attributed mass rises by at least that.
   */
  lemma {:induction false} PromotionClosesExactlyOneClusterIff(t: L.Tests, content: string, artifact: string,
                                                               findings: seq<Span>, suspicion: seq<Span>, i: nat)
    requires WellFormed(suspicion) && NonNegative(suspicion)
    requires i < |Groups(L.Residue(t, content, findings, suspicion), GAP)|
    ensures var residue := L.Residue(t, content, findings, suspicion);
            var gs := Groups(residue, GAP);
            && RuleOf(residue, content, artifact, i).Some?
            && var rule := RuleOf(residue, content, artifact, i).value;
            var after := L.Residue(t, content, findings + [rule], suspicion);
            && (ClosesOnly(gs, i, after) <==> ReachesOnly(gs, i, rule))
            && (ClosesOnly(gs, i, after) ==>
                  && Mass(after) == Mass(residue) - Mass(gs[i].spans)
                  && SameShape(Groups(after, GAP), Without(gs, i))
                  && Mass(L.Attributed(findings + [rule], suspicion))
                     >= Mass(L.Attributed(findings, suspicion)) + Mass(gs[i].spans))
  {
    hide Mass, Groups, SameShape, Without, PromotedRule, Touches, ReachesOnly, ClosesOnly, L.Residue, L.Attributed;
    var residue := L.Residue(t, content, findings, suspicion);
    ResidueWellFormed(t, content, findings, suspicion);
    RuleClosesIff(residue, content, artifact, i);
    var rule := RuleOf(residue, content, artifact, i).value;
    OneMoreFinding(t, content, findings, rule, suspicion);
    if ClosesOnly(Groups(residue, GAP), i, Select(residue, Not(Touches(rule)))) {
      ClosesIffTouches(residue, i, rule, GAP);
      RuleRemovesItsCluster(residue, i, rule, GAP);
      AttributedGains(t, content, findings, rule, suspicion);
    }
  }

  /** A cluster of occupied spans within the artifact, whose bytes occur nowhere earlier, is always closed, and no
      other is. */
  lemma {:induction false} FirstOccurrenceCloses(residue: seq<Span>, content: string, artifact: string, i: nat)
    requires WellFormed(residue) && i < |Groups(residue, GAP)|
    requires var g := Groups(residue, GAP)[i];
             && g.end <= |content| && (forall s :: s in g.spans ==> Occupied(s, artifact))
             && Find(content, Slice(content, g.start, g.end), 0) == Some(g.start)
    ensures RuleOf(residue, content, artifact, i).Some?
    ensures ReachesOnly(Groups(residue, GAP), i, RuleOf(residue, content, artifact, i).value)
  {
    hide Groups, Find, PromotedRule;
    var gs := Groups(residue, GAP);
    GroupsAre(residue, GAP);
    HullHolds(gs[i], gs[i].spans[0], GAP);
    PromotedRuleFits(content, gs[i], artifact);
    OwnPlaceReaches(gs, i, RuleOf(residue, content, artifact, i).value, GAP);
  }

  /** A rule on the range of a cluster reaches it and no earlier one. */
  lemma {:induction false} OwnPlaceReaches(gs: seq<Group>, i: nat, rule: Span, gap: nat)
    requires Good(gs, gap) && i < |gs| && forall s :: s in gs[i].spans ==> Occupied(s, rule.artifact)
    requires rule.start == gs[i].start && rule.end == gs[i].end
    ensures ReachesOnly(gs, i, rule)
  {
    forall j, s | 0 <= j < |gs| && s in gs[j].spans ensures gs[j].start <= s.start <= s.end <= gs[j].end {
      HullHolds(gs[j], s, gap);
    }
  }

  // ----- A promotion that closes its cluster in part -----

  /** Two spans of two bytes side by side, among eight equal bytes. */
  function PartlyClosed(): (Span, Span) {
    (Span("a", 2, 4, "", None, 1.0), Span("a", 4, 6, "", None, 1.0))
  }

  lemma {:induction false} PartlyClosedGroups()
    ensures Groups([PartlyClosed().0, PartlyClosed().1], GAP) == [Group(2, 6, [PartlyClosed().0, PartlyClosed().1])]
  {
    var x, y := PartlyClosed().0, PartlyClosed().1;
    assert [x, y][1..] == [y] && [y][1..] == [];
    assert SortSpans([y]) == [y];
    assert SortSpans([x, y]) == [x] + [y] == [x, y];
    assert Grow([], Single(x), [y], GAP) == Grow([], Join(Single(x), y), [], GAP);
    assert [x] + [y] == [x, y];
  }

  /** The bytes of the cluster occur two bytes earlier; the rule reports that copy, closes the first span of
      the cluster and leaves the second. */
  lemma {:induction false} OverlappingCopyClosesInPart()
    ensures var residue := [PartlyClosed().0, PartlyClosed().1];
            && WellFormed(residue) && |Groups(residue, GAP)| == 1
            && RuleOf(residue, "aaaaaaaa", "a", 0).Some?
            && var rule := RuleOf(residue, "aaaaaaaa", "a", 0).value;
            var after := Select(residue, Not(Touches(rule)));
            PartlyClosed().0 !in after && PartlyClosed().1 in after
  {
    hide Groups;
    var x, y := PartlyClosed().0, PartlyClosed().1;
    PartlyClosedGroups();
    assert StandsAt("aaaaaaaa", 0, "aaaa");
    assert Slice("aaaaaaaa", 2, 6) == "aaaa";
    SelectIn([x, y], Not(Touches(RuleOf([x, y], "aaaaaaaa", "a", 0).value)));
  }
}
