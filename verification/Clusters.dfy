/** Clustering of residue spans: neighbours at most a gap apart end up together. */
module Clusters {
  import opened Prelude
  import opened Positions
  import opened Spans

  /** Spans grouped so far, with the range they cover. */
  datatype Group = Group(start: nat, end: nat, spans: seq<Span>)

  // ----- Sorting by start and end, equal keys staying in order -----

  predicate Before(a: Span, b: Span) {
    a.start < b.start || (a.start == b.start && a.end <= b.end)
  }

  ghost predicate Sorted(s: seq<Span>) {
    forall i, j :: 0 <= i < j < |s| ==> Before(s[i], s[j])
  }

  function Insert(x: Span, s: seq<Span>): (r: seq<Span>)
    ensures multiset(r) == multiset{x} + multiset(s)
  {
    if s == [] || Before(x, s[0]) then [x] + s
    else
      assert s == [s[0]] + s[1..];
      [s[0]] + Insert(x, s[1..])
  }

  function SortSpans(s: seq<Span>): (r: seq<Span>)
    ensures multiset(r) == multiset(s)
  {
    if s == [] then []
    else
      assert s == [s[0]] + s[1..];
      Insert(s[0], SortSpans(s[1..]))
  }

  lemma {:induction false} InsertSorted(x: Span, s: seq<Span>)
    requires Sorted(s)
    ensures Sorted(Insert(x, s))
  {
    if s != [] && !Before(x, s[0]) {
      InsertSorted(x, s[1..]);
      forall y | y in Insert(x, s[1..]) ensures Before(s[0], y) {
        assert y in multiset(Insert(x, s[1..]));
        assert y == x || y in s[1..];
      }
    }
  }

  lemma {:induction false} SortSorts(s: seq<Span>)
    ensures Sorted(SortSpans(s))
  {
    if s != [] {
      SortSorts(s[1..]);
      InsertSorted(s[0], SortSpans(s[1..]));
    }
  }

  lemma {:induction false} SortSame(s: seq<Span>)
    ensures forall x :: x in SortSpans(s) <==> x in s
  {
    forall x ensures x in SortSpans(s) <==> x in s {
      assert x in SortSpans(s) <==> x in multiset(SortSpans(s));
      assert x in s <==> x in multiset(s);
    }
  }

  function HasKeyOf(x: Span): Test {
    (s: Span) => s.start == x.start && s.end == x.end
  }

  /** Sorted, with the spans of equal start and end in the order in which they came. */
  ghost predicate SortedStably(sorted: seq<Span>, spans: seq<Span>) {
    && (forall i, j :: 0 <= i < j < |sorted| ==>
          sorted[i].start < sorted[j].start
          || (sorted[i].start == sorted[j].start && sorted[i].end <= sorted[j].end))
    && forall x :: Select(sorted, HasKeyOf(x)) == Select(spans, HasKeyOf(x))
  }

  lemma {:induction false} SelectFirst(x: Span, s: seq<Span>, p: Test)
    ensures Select([x] + s, p) == (if p(x) then [x] else []) + Select(s, p)
  {
    assert ([x] + s)[1..] == s;
  }

  lemma {:induction false} InsertStable(x: Span, s: seq<Span>, key: Span)
    ensures Select(Insert(x, s), HasKeyOf(key)) == (if HasKeyOf(key)(x) then [x] else []) + Select(s, HasKeyOf(key))
  {
    hide Select;
    SelectFirst(x, s, HasKeyOf(key));
    if s != [] && !Before(x, s[0]) {
      InsertStable(x, s[1..], key);
      SelectFirst(s[0], Insert(x, s[1..]), HasKeyOf(key));
      SelectFirst(s[0], s[1..], HasKeyOf(key));
      assert s == [s[0]] + s[1..];
    }
  }

  lemma {:induction false} SortStable(s: seq<Span>)
    ensures SortedStably(SortSpans(s), s)
  {
    hide Select, Insert;
    SortSorts(s);
    if s != [] {
      SortStable(s[1..]);
      assert s == [s[0]] + s[1..];
      forall x ensures Select(SortSpans(s), HasKeyOf(x)) == Select(s, HasKeyOf(x)) {
        InsertStable(s[0], SortSpans(s[1..]), x);
        SelectFirst(s[0], s[1..], HasKeyOf(x));
      }
    }
  }

  // ----- Grouping -----

  function Single(s: Span): Group {
    Group(s.start, s.end, [s])
  }

  function Join(g: Group, s: Span): Group {
    Group(g.start, Max(g.end, s.end), g.spans + [s])
  }

  /** The groups closed so far, the open one, and the sorted spans still to come. */
  function Grow(done: seq<Group>, cur: Group, rest: seq<Span>, gap: nat): seq<Group>
    decreases |rest|
  {
    if rest == [] then done + [cur]
    else if rest[0].start <= cur.end + gap then Grow(done, Join(cur, rest[0]), rest[1..], gap)
    else Grow(done + [cur], Single(rest[0]), rest[1..], gap)
  }

  function GroupSorted(sorted: seq<Span>, gap: nat): seq<Group> {
    if sorted == [] then [] else Grow([], Single(sorted[0]), sorted[1..], gap)
  }

  function Groups(residue: seq<Span>, gap: nat): seq<Group> {
    GroupSorted(SortSpans(residue), gap)
  }

  datatype Cluster = Cluster(id: string, artifact: string, start: nat, end: nat, mass: real,
                             spans: seq<Span>, preview: string)

  /** What is recorded about a group: the hash of its bytes, its range, its mass and a preview. */
  function Recorded(g: Group, content: string, artifact: string, hash: string -> string): Cluster {
    var bytes := Slice(content, g.start, g.end);
    Cluster(hash(bytes), artifact, g.start, g.end, Mass(g.spans), g.spans, if |bytes| < 60 then bytes else bytes[..60])
  }

  function RecordedAll(gs: seq<Group>, content: string, artifact: string, hash: string -> string): (r: seq<Cluster>)
    ensures |r| == |gs|
  {
    if gs == [] then []
    else RecordedAll(gs[..|gs| - 1], content, artifact, hash) + [Recorded(gs[|gs| - 1], content, artifact, hash)]
  }

  lemma {:induction false} RecordedOneMore(gs: seq<Group>, g: Group, content: string, artifact: string,
                                           hash: string -> string)
    ensures RecordedAll(gs + [g], content, artifact, hash)
         == RecordedAll(gs, content, artifact, hash) + [Recorded(g, content, artifact, hash)]
  {
  }

  // ----- What the groups are -----

  /** Span j reaches back to an earlier one. */
  ghost predicate Reaches(spans: seq<Span>, j: nat, gap: nat)
    requires j < |spans|
  {
    exists k :: 0 <= k < j && spans[j].start <= spans[k].end + gap
  }

  /** Each span but the first reaches back. */
  ghost predicate Chained(spans: seq<Span>, gap: nat) {
    forall j :: 1 <= j < |spans| ==> Reaches(spans, j, gap)
  }

  ghost predicate Attains(spans: seq<Span>, end: nat) {
    exists s :: s in spans && s.end == end
  }

  /** The range of a group is the hull of its spans, which are sorted and chained. */
  ghost predicate Tight(g: Group, gap: nat) {
    && g.spans != [] && Sorted(g.spans) && WellFormed(g.spans) && Chained(g.spans, gap)
    && g.start == g.spans[0].start
    && (forall s :: s in g.spans ==> g.start <= s.start && s.end <= g.end)
    && Attains(g.spans, g.end)
  }

  ghost predicate Separated(gs: seq<Group>, gap: nat) {
    forall i, j :: 0 <= i < j < |gs| ==> gs[i].end + gap < gs[j].start
  }

  ghost predicate AllTight(gs: seq<Group>, gap: nat) {
    forall i :: 0 <= i < |gs| ==> Tight(gs[i], gap)
  }

  function Members(gs: seq<Group>): seq<Span> {
    if gs == [] then [] else Members(gs[..|gs| - 1]) + gs[|gs| - 1].spans
  }

  lemma {:induction false} MembersOneMore(gs: seq<Group>, g: Group)
    ensures Members(gs + [g]) == Members(gs) + g.spans
  {
  }

  lemma {:induction false} JoinChained(spans: seq<Span>, s: Span, end: nat, gap: nat)
    requires Chained(spans, gap) && Attains(spans, end) && s.start <= end + gap
    ensures Chained(spans + [s], gap)
  {
    var more := spans + [s];
    forall i | 1 <= i < |more| ensures Reaches(more, i, gap) {
      if i < |spans| {
        assert Reaches(spans, i, gap);
        var m :| 0 <= m < i && spans[i].start <= spans[m].end + gap;
        assert more[i].start <= more[m].end + gap;
      } else {
        var top :| top in spans && top.end == end;
        var k :| 0 <= k < |spans| && spans[k] == top;
        assert more[i].start <= more[k].end + gap;
      }
    }
  }

  lemma {:induction false} JoinSorted(spans: seq<Span>, s: Span)
    requires Sorted(spans) && forall x :: x in spans ==> Before(x, s)
    ensures Sorted(spans + [s])
  {
  }

  lemma {:induction false} JoinHull(g: Group, s: Span)
    requires forall x :: x in g.spans ==> g.start <= x.start && x.end <= g.end
    requires Attains(g.spans, g.end) && g.start <= s.start
    ensures forall x :: x in Join(g, s).spans ==> g.start <= x.start && x.end <= Join(g, s).end
    ensures Attains(Join(g, s).spans, Join(g, s).end)
  {
  }

  lemma {:induction false} JoinTight(g: Group, s: Span, gap: nat)
    requires Tight(g, gap) && s.start <= s.end && s.start <= g.end + gap
    requires forall x :: x in g.spans ==> Before(x, s)
    ensures Tight(Join(g, s), gap)
  {
    assert g.spans[0] in g.spans;
    JoinChained(g.spans, s, g.end, gap);
    JoinSorted(g.spans, s);
    JoinHull(g, s);
  }

  lemma {:induction false} SingleTight(s: Span, gap: nat)
    requires s.start <= s.end
    ensures Tight(Single(s), gap)
  {
  }

  /** Groups that are tight and separated, the last of them still open. */
  ghost predicate Good(gs: seq<Group>, gap: nat) {
    AllTight(gs, gap) && Separated(gs, gap)
  }

  lemma {:induction false} GoodJoin(done: seq<Group>, cur: Group, joined: Group, gap: nat)
    requires Good(done + [cur], gap) && Tight(joined, gap) && joined.start == cur.start
    ensures Good(done + [joined], gap)
  {
    var before, after := done + [cur], done + [joined];
    forall i | 0 <= i < |after| ensures Tight(after[i], gap) {
      assert Tight(before[i], gap);
    }
    forall i, j | 0 <= i < j < |after| ensures after[i].end + gap < after[j].start {
      assert before[i].end + gap < before[j].start;
    }
  }

  lemma {:induction false} GoodOpen(closed: seq<Group>, next: Group, gap: nat)
    requires Good(closed, gap) && Tight(next, gap)
    requires closed != [] && closed[|closed| - 1].end + gap < next.start
    ensures Good(closed + [next], gap)
  {
  }

  ghost predicate AllBefore(a: seq<Span>, b: seq<Span>) {
    forall x, y :: x in a && y in b ==> Before(x, y)
  }

  lemma {:induction false} HeadBeforeTail(sorted: seq<Span>)
    requires Sorted(sorted) && sorted != []
    ensures Sorted(sorted[1..]) && AllBefore([sorted[0]], sorted[1..])
    ensures forall y :: y in sorted[1..] ==> y in sorted
  {
  }

  lemma {:induction false} StepJoins(done: seq<Group>, cur: Group, rest: seq<Span>, gap: nat)
    requires Good(done + [cur], gap) && Sorted(rest) && WellFormed(rest) && AllBefore(cur.spans, rest)
    requires rest != [] && rest[0].start <= cur.end + gap
    ensures Good(done + [Join(cur, rest[0])], gap)
    ensures Sorted(rest[1..]) && WellFormed(rest[1..]) && AllBefore(Join(cur, rest[0]).spans, rest[1..])
  {
    HeadBeforeTail(rest);
    assert rest[0] in rest;
    assert Tight((done + [cur])[|done|], gap);
    JoinTight(cur, rest[0], gap);
    GoodJoin(done, cur, Join(cur, rest[0]), gap);
  }

  lemma {:induction false} StepOpens(done: seq<Group>, cur: Group, rest: seq<Span>, gap: nat)
    requires Good(done + [cur], gap) && Sorted(rest) && WellFormed(rest)
    requires rest != [] && cur.end + gap < rest[0].start
    ensures Good((done + [cur]) + [Single(rest[0])], gap)
    ensures Sorted(rest[1..]) && WellFormed(rest[1..]) && AllBefore(Single(rest[0]).spans, rest[1..])
  {
    HeadBeforeTail(rest);
    assert rest[0] in rest;
    SingleTight(rest[0], gap);
    GoodOpen(done + [cur], Single(rest[0]), gap);
  }

  lemma {:induction false} GrowGood(done: seq<Group>, cur: Group, rest: seq<Span>, gap: nat)
    requires Good(done + [cur], gap) && Sorted(rest) && WellFormed(rest) && AllBefore(cur.spans, rest)
    ensures Good(Grow(done, cur, rest, gap), gap)
    decreases |rest|
  {
    if rest != [] {
      if rest[0].start <= cur.end + gap {
        StepJoins(done, cur, rest, gap);
        GrowGood(done, Join(cur, rest[0]), rest[1..], gap);
      } else {
        StepOpens(done, cur, rest, gap);
        GrowGood(done + [cur], Single(rest[0]), rest[1..], gap);
      }
    }
  }

  lemma {:induction false} GrowMembers(done: seq<Group>, cur: Group, rest: seq<Span>, gap: nat)
    ensures Members(Grow(done, cur, rest, gap)) == Members(done) + (cur.spans + rest)
    decreases |rest|
  {
    hide Members;
    MembersOneMore(done, cur);
    if rest == [] {
      assert cur.spans + rest == cur.spans;
    } else {
      var s, tail := rest[0], rest[1..];
      assert rest == [s] + tail;
      if s.start <= cur.end + gap {
        GrowMembers(done, Join(cur, s), tail, gap);
        assert Join(cur, s).spans + tail == cur.spans + rest;
      } else {
        GrowMembers(done + [cur], Single(s), tail, gap);
        assert Members(done) + cur.spans + rest == Members(done) + (cur.spans + rest);
      }
    }
  }

  lemma {:induction false} GroupSortedIs(sorted: seq<Span>, gap: nat)
    requires Sorted(sorted) && WellFormed(sorted)
    ensures Good(GroupSorted(sorted, gap), gap) && Members(GroupSorted(sorted, gap)) == sorted
  {
    if sorted != [] {
      var first, rest := sorted[0], sorted[1..];
      assert first in sorted;
      SingleTight(first, gap);
      HeadBeforeTail(sorted);
      assert [] + [Single(first)] == [Single(first)];
      GrowGood([], Single(first), rest, gap);
      GrowMembers([], Single(first), rest, gap);
      assert [] + ([first] + rest) == sorted;
    }
  }

  /** Every range is the hull of its spans, successive ranges are more than the gap apart, and the
      groups together hold the residue spans, sorted. */
  lemma {:induction false} GroupsAre(residue: seq<Span>, gap: nat)
    requires WellFormed(residue)
    ensures Good(Groups(residue, gap), gap) && Members(Groups(residue, gap)) == SortSpans(residue)
  {
    SortSorts(residue);
    SortSame(residue);
    GroupSortedIs(SortSpans(residue), gap);
  }

  lemma {:induction false} MembersMass(gs: seq<Group>)
    ensures Mass(Members(gs)) == TotalMass(gs)
  {
    if gs != [] {
      MembersMass(gs[..|gs| - 1]);
      MassConcat(Members(gs[..|gs| - 1]), gs[|gs| - 1].spans);
    }
  }

  function TotalMass(gs: seq<Group>): real {
    if gs == [] then 0.0 else TotalMass(gs[..|gs| - 1]) + Mass(gs[|gs| - 1].spans)
  }

  /** The masses of the clusters add up to the mass of the residue. */
  lemma {:induction false} ClusterMassesSum(residue: seq<Span>, gap: nat)
    requires WellFormed(residue)
    ensures TotalMass(Groups(residue, gap)) == Mass(residue)
  {
    GroupsAre(residue, gap);
    MembersMass(Groups(residue, gap));
    MassOfMultiset(residue, SortSpans(residue));
  }

  // ----- Connected components -----

  predicate Linked(a: Span, b: Span, gap: nat) {
    a.start <= b.end + gap && b.start <= a.end + gap
  }

  ghost predicate IsPath(spans: seq<Span>, p: seq<Span>, gap: nat) {
    && p != []
    && (forall i :: 0 <= i < |p| ==> p[i] in spans)
    && forall i :: 0 <= i < |p| - 1 ==> Linked(p[i], p[i + 1], gap)
  }

  /** A chain of residue spans, each within the gap of the next, leads from a to b. */
  ghost predicate Connected(spans: seq<Span>, a: Span, b: Span, gap: nat) {
    exists p :: IsPath(spans, p, gap) && p[0] == a && p[|p| - 1] == b
  }

  ghost predicate SameGroup(gs: seq<Group>, a: Span, b: Span) {
    exists i :: 0 <= i < |gs| && a in gs[i].spans && b in gs[i].spans
  }

  lemma {:induction false} ConnectedTrans(spans: seq<Span>, a: Span, b: Span, c: Span, gap: nat)
    requires Connected(spans, a, b, gap) && Connected(spans, b, c, gap)
    ensures Connected(spans, a, c, gap)
  {
    var p :| IsPath(spans, p, gap) && p[0] == a && p[|p| - 1] == b;
    var q :| IsPath(spans, q, gap) && q[0] == b && q[|q| - 1] == c;
    var r := p + q[1..];
    forall i | 0 <= i < |r| - 1 ensures Linked(r[i], r[i + 1], gap) {
      if i == |p| - 1 {
        assert Linked(q[0], q[1], gap);
      } else if i >= |p| {
        assert Linked(q[i - |p| + 1], q[i - |p| + 2], gap);
      }
    }
    assert IsPath(spans, r, gap) && r[0] == a && r[|r| - 1] == c;
  }

  function Reversed(p: seq<Span>): (r: seq<Span>)
    ensures |r| == |p| && forall i :: 0 <= i < |p| ==> r[i] == p[|p| - 1 - i]
  {
    seq(|p|, i requires 0 <= i < |p| => p[|p| - 1 - i])
  }

  lemma {:induction false} ConnectedSym(spans: seq<Span>, a: Span, b: Span, gap: nat)
    requires Connected(spans, a, b, gap)
    ensures Connected(spans, b, a, gap)
  {
    var p :| IsPath(spans, p, gap) && p[0] == a && p[|p| - 1] == b;
    var r := Reversed(p);
    forall i | 0 <= i < |r| - 1 ensures Linked(r[i], r[i + 1], gap) {
      assert Linked(p[|p| - 2 - i], p[|p| - 2 - i + 1], gap);
    }
    assert IsPath(spans, r, gap) && r[0] == b && r[|r| - 1] == a;
  }

  lemma {:induction false} LinkedConnected(spans: seq<Span>, a: Span, b: Span, gap: nat)
    requires a in spans && b in spans && Linked(a, b, gap)
    ensures Connected(spans, a, b, gap)
  {
    var p := [a, b];
    assert IsPath(spans, p, gap) && p[0] == a && p[|p| - 1] == b;
  }

  /** Every span of a group is connected to its first one. */
  lemma {:induction false} ConnectedToFirst(spans: seq<Span>, g: Group, j: nat, gap: nat)
    requires Tight(g, gap) && j < |g.spans| && forall s :: s in g.spans ==> s in spans
    ensures Connected(spans, g.spans[j], g.spans[0], gap)
    decreases j
  {
    if j == 0 {
      assert g.spans[0] in g.spans;
      LinkedConnected(spans, g.spans[0], g.spans[0], gap);
    } else {
      assert Reaches(g.spans, j, gap);
      var k :| 0 <= k < j && g.spans[j].start <= g.spans[k].end + gap;
      assert g.spans[j] in g.spans && g.spans[k] in g.spans;
      assert Before(g.spans[k], g.spans[j]);
      LinkedConnected(spans, g.spans[j], g.spans[k], gap);
      ConnectedToFirst(spans, g, k, gap);
      ConnectedTrans(spans, g.spans[j], g.spans[k], g.spans[0], gap);
    }
  }

  lemma {:induction false} MembersIn(gs: seq<Group>, s: Span)
    ensures s in Members(gs) <==> exists i :: 0 <= i < |gs| && s in gs[i].spans
  {
    if gs != [] {
      var front := gs[..|gs| - 1];
      MembersIn(front, s);
      if i :| 0 <= i < |gs| && s in gs[i].spans {
        assert i < |front| ==> s in front[i].spans;
      }
    }
  }

  lemma {:induction false} HullHolds(g: Group, s: Span, gap: nat)
    requires Tight(g, gap) && s in g.spans
    ensures g.start <= s.start <= s.end <= g.end
  {
  }

  /** A link never leaves its group. */
  lemma {:induction false} LinkStays(gs: seq<Group>, a: Span, b: Span, i: nat, gap: nat)
    requires AllTight(gs, gap) && Separated(gs, gap) && i < |gs| && a in gs[i].spans && b in Members(gs)
    requires Linked(a, b, gap)
    ensures b in gs[i].spans
  {
    MembersIn(gs, b);
    var j :| 0 <= j < |gs| && b in gs[j].spans;
    HullHolds(gs[i], a, gap);
    HullHolds(gs[j], b, gap);
  }

  lemma {:induction false} PathStays(gs: seq<Group>, p: seq<Span>, i: nat, gap: nat)
    requires AllTight(gs, gap) && Separated(gs, gap) && i < |gs|
    requires IsPath(Members(gs), p, gap) && p[0] in gs[i].spans
    ensures p[|p| - 1] in gs[i].spans
    decreases |p|
  {
    if |p| > 1 {
      var front := p[..|p| - 1];
      forall k | 0 <= k < |front| - 1 ensures Linked(front[k], front[k + 1], gap) {
        assert Linked(p[k], p[k + 1], gap);
      }
      PathStays(gs, front, i, gap);
      assert Linked(p[|p| - 2], p[|p| - 2 + 1], gap);
      LinkStays(gs, p[|p| - 2], p[|p| - 1], i, gap);
    }
  }

  lemma {:induction false} SameGroupIffConnected(gs: seq<Group>, a: Span, b: Span, gap: nat)
    requires AllTight(gs, gap) && Separated(gs, gap) && a in Members(gs) && b in Members(gs)
    ensures SameGroup(gs, a, b) <==> Connected(Members(gs), a, b, gap)
  {
    var spans := Members(gs);
    if i :| 0 <= i < |gs| && a in gs[i].spans && b in gs[i].spans {
      var g := gs[i];
      forall s | s in g.spans ensures s in spans {
        MembersIn(gs, s);
      }
      var j :| 0 <= j < |g.spans| && g.spans[j] == a;
      var k :| 0 <= k < |g.spans| && g.spans[k] == b;
      assert Tight(g, gap);
      ConnectedToFirst(spans, g, j, gap);
      ConnectedToFirst(spans, g, k, gap);
      ConnectedSym(spans, b, g.spans[0], gap);
      ConnectedTrans(spans, a, g.spans[0], b, gap);
    }
    if Connected(spans, a, b, gap) {
      var p :| IsPath(spans, p, gap) && p[0] == a && p[|p| - 1] == b;
      MembersIn(gs, a);
      var i :| 0 <= i < |gs| && a in gs[i].spans;
      PathStays(gs, p, i, gap);
    }
  }

  lemma {:induction false} PathSameSpans(s: seq<Span>, t: seq<Span>, a: Span, b: Span, gap: nat)
    requires forall x :: x in s <==> x in t
    ensures Connected(s, a, b, gap) <==> Connected(t, a, b, gap)
  {
  }

  /** Clusters are the connected components of the residue spans under "at most the gap apart". */
  lemma {:induction false} ClustersAreComponents(residue: seq<Span>, a: Span, b: Span, gap: nat)
    requires WellFormed(residue) && a in residue && b in residue
    ensures SameGroup(Groups(residue, gap), a, b) <==> Connected(residue, a, b, gap)
  {
    GroupsAre(residue, gap);
    SortSame(residue);
    SameGroupIffConnected(Groups(residue, gap), a, b, gap);
    PathSameSpans(residue, SortSpans(residue), a, b, gap);
  }

  // ----- What a list of clusters reports -----

  /** The cluster reports the hull of its spans, their mass, the hash of the bytes there and the first 60 of
      them. */
  ghost predicate ReportsItsSpans(c: Cluster, content: string, artifact: string, hash: string -> string) {
    && c.artifact == artifact && c.spans != [] && c.mass == Mass(c.spans)
    && (forall s :: s in c.spans ==> c.start <= s.start && s.end <= c.end)
    && (exists s :: s in c.spans && s.start == c.start) && (exists s :: s in c.spans && s.end == c.end)
    && c.id == hash(Slice(content, c.start, c.end))
    && c.preview <= Slice(content, c.start, c.end)
    && |c.preview| == if |Slice(content, c.start, c.end)| <= 60 then |Slice(content, c.start, c.end)| else 60
  }

  function SpansOf(cs: seq<Cluster>): seq<Span> {
    if cs == [] then [] else SpansOf(cs[..|cs| - 1]) + cs[|cs| - 1].spans
  }

  function MassOf(cs: seq<Cluster>): real {
    if cs == [] then 0.0 else MassOf(cs[..|cs| - 1]) + cs[|cs| - 1].mass
  }

  ghost predicate InOneCluster(cs: seq<Cluster>, a: Span, b: Span) {
    exists c :: c in cs && a in c.spans && b in c.spans
  }

  /** The clusters report all residue spans once, sorted stably, in connected components, and all their mass;
      they are in order, more than the gap apart. */
  ghost predicate Clustered(cs: seq<Cluster>, residue: seq<Span>, content: string, artifact: string, gap: nat,
                            hash: string -> string)
  {
    && (forall c :: c in cs ==> ReportsItsSpans(c, content, artifact, hash))
    && multiset(SpansOf(cs)) == multiset(residue) && SortedStably(SpansOf(cs), residue)
    && MassOf(cs) == Mass(residue)
    && (forall i, j :: 0 <= i < j < |cs| ==> cs[i].end + gap < cs[j].start)
    && (forall a, b :: a in residue && b in residue ==> (InOneCluster(cs, a, b) <==> Connected(residue, a, b, gap)))
  }

  lemma {:induction false} SpansAndMassOneMore(cs: seq<Cluster>, c: Cluster)
    ensures SpansOf(cs + [c]) == SpansOf(cs) + c.spans && MassOf(cs + [c]) == MassOf(cs) + c.mass
  {
    assert (cs + [c])[..|cs + [c]| - 1] == cs;
  }

  lemma {:induction false} RecordedAt(gs: seq<Group>, content: string, artifact: string, hash: string -> string, i: nat)
    requires i < |gs|
    ensures RecordedAll(gs, content, artifact, hash)[i] == Recorded(gs[i], content, artifact, hash)
    decreases |gs|
  {
    hide Recorded;
    if i < |gs| - 1 {
      RecordedAt(gs[..|gs| - 1], content, artifact, hash, i);
    }
  }

  lemma {:induction false} RecordedSums(gs: seq<Group>, content: string, artifact: string, hash: string -> string)
    ensures SpansOf(RecordedAll(gs, content, artifact, hash)) == Members(gs)
    ensures MassOf(RecordedAll(gs, content, artifact, hash)) == TotalMass(gs)
  {
    hide Slice, Mass, SpansOf, MassOf, RecordedAll;
    if gs != [] {
      var front, last := gs[..|gs| - 1], gs[|gs| - 1];
      RecordedSums(front, content, artifact, hash);
      assert gs == front + [last];
      RecordedOneMore(front, last, content, artifact, hash);
      SpansAndMassOneMore(RecordedAll(front, content, artifact, hash), Recorded(last, content, artifact, hash));
    } else {
      NothingRecorded(content, artifact, hash);
    }
  }

  lemma {:induction false} NothingRecorded(content: string, artifact: string, hash: string -> string)
    ensures RecordedAll([], content, artifact, hash) == [] && SpansOf([]) == [] && MassOf([]) == 0.0
  {
  }

  lemma {:induction false} RecordedReports(g: Group, content: string, artifact: string, hash: string -> string,
                                           gap: nat)
    requires Tight(g, gap)
    ensures ReportsItsSpans(Recorded(g, content, artifact, hash), content, artifact, hash)
  {
    assert g.spans[0] in g.spans;
  }

  lemma {:induction false} OneClusterIffOneGroup(gs: seq<Group>, cs: seq<Cluster>, a: Span, b: Span)
    requires |cs| == |gs| && forall i :: 0 <= i < |gs| ==> cs[i].spans == gs[i].spans
    ensures InOneCluster(cs, a, b) <==> SameGroup(gs, a, b)
  {
    if c :| c in cs && a in c.spans && b in c.spans {
      var i :| 0 <= i < |cs| && cs[i] == c;
      assert a in gs[i].spans;
    }
    if i :| 0 <= i < |gs| && a in gs[i].spans && b in gs[i].spans {
      assert cs[i] in cs;
    }
  }

  lemma {:induction false} AllReport(gs: seq<Group>, cs: seq<Cluster>, content: string, artifact: string,
                                     hash: string -> string, gap: nat)
    requires AllTight(gs, gap) && |cs| == |gs|
    requires forall i :: 0 <= i < |gs| ==> cs[i] == Recorded(gs[i], content, artifact, hash)
    ensures forall c :: c in cs ==> ReportsItsSpans(c, content, artifact, hash)
  {
    hide Recorded, Tight, ReportsItsSpans;
    forall c | c in cs ensures ReportsItsSpans(c, content, artifact, hash) {
      var i :| 0 <= i < |cs| && cs[i] == c;
      RecordedReports(gs[i], content, artifact, hash, gap);
    }
  }

  lemma {:induction false} ComponentsReported(residue: seq<Span>, cs: seq<Cluster>, gap: nat)
    requires WellFormed(residue) && |cs| == |Groups(residue, gap)|
    requires forall i :: 0 <= i < |cs| ==> cs[i].spans == Groups(residue, gap)[i].spans
    ensures forall a, b :: a in residue && b in residue ==>
              (InOneCluster(cs, a, b) <==> Connected(residue, a, b, gap))
  {
    hide Groups, Connected, InOneCluster;
    forall a, b | a in residue && b in residue ensures InOneCluster(cs, a, b) <==> Connected(residue, a, b, gap) {
      ClustersAreComponents(residue, a, b, gap);
      OneClusterIffOneGroup(Groups(residue, gap), cs, a, b);
    }
  }

  lemma {:induction false} RecordedAreClustered(residue: seq<Span>, content: string, artifact: string, gap: nat,
                                                hash: string -> string)
    requires WellFormed(residue)
    ensures Clustered(RecordedAll(Groups(residue, gap), content, artifact, hash), residue, content, artifact, gap, hash)
  {
    hide Groups, Connected, InOneCluster, ReportsItsSpans, Slice, Mass, RecordedAll, SpansOf, MassOf, Tight;
    hide SortedStably;
    var gs := Groups(residue, gap);
    var cs := RecordedAll(gs, content, artifact, hash);
    GroupsAre(residue, gap);
    SortStable(residue);
    RecordedSums(gs, content, artifact, hash);
    ClusterMassesSum(residue, gap);
    forall i | 0 <= i < |gs| ensures cs[i] == Recorded(gs[i], content, artifact, hash) {
      RecordedAt(gs, content, artifact, hash, i);
    }
    AllReport(gs, cs, content, artifact, hash, gap);
    ComponentsReported(residue, cs, gap);
  }

  method ClusterResidueSpans(residue: seq<Span>, content: string, artifact: string, gap: nat, hash: string -> string)
    returns (clusters: seq<Cluster>)
    ensures clusters == RecordedAll(Groups(residue, gap), content, artifact, hash)
    ensures WellFormed(residue) ==> Clustered(clusters, residue, content, artifact, gap, hash)
  {
    hide Recorded, Clustered;
    if WellFormed(residue) {
      RecordedAreClustered(residue, content, artifact, gap, hash);
    }
    var sorted := SortSpans(residue);
    if |sorted| == 0 {
      return [];
    }
    clusters := [];
    ghost var done: seq<Group> := [];
    var cur := Single(sorted[0]);
    for i := 1 to |sorted|
      invariant Grow(done, cur, sorted[i..], gap) == GroupSorted(sorted, gap)
      invariant clusters == RecordedAll(done, content, artifact, hash)
    {
      var span := sorted[i];
      assert sorted[i..][0] == span && sorted[i..][1..] == sorted[i + 1..];
      if span.start <= cur.end + gap {
        cur := Join(cur, span);
      } else {
        RecordedOneMore(done, cur, content, artifact, hash);
        clusters := clusters + [Recorded(cur, content, artifact, hash)];
        done := done + [cur];
        cur := Single(span);
      }
    }
    assert sorted[|sorted|..] == [];
    RecordedOneMore(done, cur, content, artifact, hash);
    clusters := clusters + [Recorded(cur, content, artifact, hash)];
  }
}
