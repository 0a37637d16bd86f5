/**
 Greedy matching of detected items against ground truth. Both collections are unordered sets, so
 the loops pick elements arbitrarily; the results hold whatever order they come in.
 */
module BenchmarkMatching {
  import opened Prelude

  datatype Item = Item(file: string, family: string, usage: string, line: int)

  type Rule = (Item, Item) -> bool

  /** When a truth item and a detected item may be paired. Lower-casing is a parameter. */
  predicate Compatible(lower: string -> string, tolerance: int, t: Item, d: Item) {
    && t.file == d.file
    && (t.family == "" || d.family == "" || lower(t.family) == lower(d.family))
    && (|| t.usage == "" || d.usage == ""
        || lower(t.usage) == lower(d.usage)
        || {lower(t.usage), lower(d.usage)} <= {"", "unknown"})
    && (if t.line < d.line then d.line - t.line else t.line - d.line) <= tolerance
  }

  function ScoringRule(lower: string -> string, tolerance: int): Rule {
    (t, d) => Compatible(lower, tolerance, t, d)
  }

  ghost predicate Injective(m: map<Item, Item>) {
    forall t, u :: t in m && u in m && m[t] == m[u] ==> t == u
  }

  /** A one-to-one pairing of truth items with detected items the rule allows. */
  ghost predicate IsMatching(rule: Rule, truth: set<Item>, detected: set<Item>, m: map<Item, Item>) {
    m.Keys <= truth && m.Values <= detected && Injective(m) && forall t :: t in m ==> rule(t, m[t])
  }

  ghost predicate IsMaximal(rule: Rule, truth: set<Item>, detected: set<Item>, m: map<Item, Item>) {
    forall t, d :: t in truth && t !in m && d in detected && d !in m.Values ==> !rule(t, d)
  }

  lemma {:induction false} ValuesCount(m: map<Item, Item>)
    requires Injective(m)
    ensures |m.Values| == |m|
    decreases |m|
  {
    if m != map[] {
      var t :| t in m;
      var rest := m - {t};
      ValuesCount(rest);
      assert m.Keys == rest.Keys + {t};
      forall d | d in m.Values ensures d in rest.Values + {m[t]} {
        var u :| u in m && m[u] == d;
        assert u != t ==> u in rest && rest[u] == d;
      }
      assert m.Values == rest.Values + {m[t]};
    }
  }

  /** An injection from a into b bounds the size of a. */
  lemma {:induction false} InjectionSize(a: set<Item>, b: set<Item>, f: map<Item, Item>)
    requires f.Keys == a && f.Values <= b && Injective(f)
    ensures |a| <= |b|
  {
    ValuesCount(f);
    SubsetSize(f.Values, b);
  }

  /** The inner loop: the first detected item, in some order, that is free and may be paired with t. */
  method FindPartner(rule: Rule, t: Item, detected: set<Item>, matched: set<Item>) returns (partner: Option<Item>)
    ensures partner.Some? ==> partner.value in detected - matched && rule(t, partner.value)
    ensures partner.None? ==> forall d :: d in detected - matched ==> !rule(t, d)
  {
    var rest := detected;
    while rest != {}
      invariant rest <= detected
      invariant forall d :: d in detected - rest && d !in matched ==> !rule(t, d)
      decreases rest
    {
      var d :| d in rest;
      if d !in matched && rule(t, d) {
        return Some(d);
      }
      rest := rest - {d};
    }
    partner := None;
  }

  lemma {:induction false} AddPair(rule: Rule, truth: set<Item>, detected: set<Item>, m: map<Item, Item>, t: Item,
                                   d: Item)
    requires IsMatching(rule, truth, detected, m)
    requires t in truth && t !in m && d in detected && d !in m.Values && rule(t, d)
    ensures IsMatching(rule, truth, detected, m[t := d])
    ensures m[t := d].Values == m.Values + {d} && m[t := d].Keys == m.Keys + {t}
  {
    forall u | u in m ensures m[t := d][u] == m[u] && m[u] in m.Values {}
    assert forall x :: x in m.Values ==> exists u :: u in m && m[t := d][u] == x;
    assert t in m[t := d] && m[t := d][t] == d;
  }

  lemma {:induction false} SplitSize(a: set<Item>, b: set<Item>)
    requires a <= b
    ensures |a| + |b - a| == |b|
  {
  }

  lemma {:induction false} CountsAddUp(truth: set<Item>, detected: set<Item>, m: map<Item, Item>)
    requires m.Keys <= truth && m.Values <= detected && Injective(m)
    ensures |m| + |detected - m.Values| == |detected| && |m| + |truth - m.Keys| == |truth|
  {
    ValuesCount(m);
    SplitSize(m.Values, detected);
    SplitSize(m.Keys, truth);
  }

  /** A pair the benchmark may count: in the same file, within the tolerance, and of the same family and usage but
      for letter case, where neither is blank; usages may also both be unknown. */
  predicate AllowedPair(lower: string -> string, tolerance: int, t: Item, d: Item) {
    && t.file == d.file && -tolerance <= t.line - d.line <= tolerance
    && (t.family != "" && d.family != "" ==> lower(t.family) == lower(d.family))
    && (t.usage != "" && d.usage != "" && lower(t.usage) != lower(d.usage)
        ==> lower(t.usage) in ["", "unknown"] && lower(d.usage) in ["", "unknown"])
  }

  lemma {:induction false} CompatibleIff(lower: string -> string, tolerance: int, t: Item, d: Item)
    ensures ScoringRule(lower, tolerance)(t, d) <==> AllowedPair(lower, tolerance, t, d)
  {
    assert {lower(t.usage), lower(d.usage)} <= {"", "unknown"}
      <==> lower(t.usage) in ["", "unknown"] && lower(d.usage) in ["", "unknown"];
  }

  /** The matcher; the pairing it settles on is returned as a witness. */
  method MatchDetections(lower: string -> string, truth: set<Item>, detected: set<Item>, tolerance: int)
    returns (tp: set<Item>, fp: set<Item>, fn: set<Item>, ghost pairs: map<Item, Item>)
    ensures IsMatching(ScoringRule(lower, tolerance), truth, detected, pairs)
    ensures IsMaximal(ScoringRule(lower, tolerance), truth, detected, pairs)
    ensures forall t :: t in pairs ==> AllowedPair(lower, tolerance, t, pairs[t])
    ensures tp == pairs.Keys && fp == detected - pairs.Values && fn == truth - pairs.Keys
    ensures |tp| + |fp| == |detected| && |tp| + |fn| == |truth|
  {
    hide ScoringRule;
    var rule := ScoringRule(lower, tolerance);
    tp, pairs := {}, map[];
    var matched: set<Item> := {};
    var left := truth;
    while left != {}
      invariant left <= truth && tp !! left
      invariant tp == pairs.Keys && matched == pairs.Values
      invariant IsMatching(rule, truth, detected, pairs)
      invariant IsMaximal(rule, truth - left, detected, pairs)
      decreases left
    {
      var t :| t in left;
      var partner := FindPartner(rule, t, detected, matched);
      if partner.Some? {
        AddPair(rule, truth, detected, pairs, t, partner.value);
        tp, matched, pairs := tp + {t}, matched + {partner.value}, pairs[t := partner.value];
      }
      left := left - {t};
    }
    assert truth - left == truth;
    fp, fn := detected - matched, truth - tp;
    CountsAddUp(truth, detected, pairs);
    forall t | t in pairs ensures AllowedPair(lower, tolerance, t, pairs[t]) {
      CompatibleIff(lower, tolerance, t, pairs[t]);
    }
  }

  /** The pairs of the other matching whose truth item m leaves over. */
  lemma {:induction false} PairsOutside(rule: Rule, truth: set<Item>, detected: set<Item>, m: map<Item, Item>,
                                        other: map<Item, Item>)
    requires IsMatching(rule, truth, detected, m) && IsMaximal(rule, truth, detected, m)
    requires IsMatching(rule, truth, detected, other)
    ensures |other.Keys - m.Keys| <= |m|
  {
    var partners := map t | t in other.Keys - m.Keys :: other[t];
    forall t | t in other.Keys - m.Keys ensures other[t] in m.Values {
      assert t in truth && other[t] in other.Values;
      assert rule(t, other[t]);
    }
    InjectionSize(other.Keys - m.Keys, m.Values, partners);
    ValuesCount(m);
  }

  /** Any maximal matching pairs at least half as many items as any other matching. */
  lemma {:induction false} GreedyAtLeastHalf(rule: Rule, truth: set<Item>, detected: set<Item>, m: map<Item, Item>,
                                             other: map<Item, Item>)
    requires IsMatching(rule, truth, detected, m) && IsMaximal(rule, truth, detected, m)
    requires IsMatching(rule, truth, detected, other)
    ensures |other| <= 2 * |m|
  {
    PairsOutside(rule, truth, detected, m, other);
    SubsetSize(other.Keys * m.Keys, m.Keys);
    assert other.Keys == (other.Keys * m.Keys) + (other.Keys - m.Keys);
  }

  /** Whoever shares one partner shares them all. */
  ghost predicate Rectangular(rule: Rule, truth: set<Item>, detected: set<Item>) {
    forall t, u, d, e :: && t in truth && u in truth && d in detected && e in detected
                         && rule(t, d) && rule(u, d) && rule(u, e)
                         ==> rule(t, e)
  }

  /** Some truth item that could take d is left over by m. */
  ghost predicate Contested(rule: Rule, truth: set<Item>, m: map<Item, Item>, d: Item) {
    exists u :: u in truth && u !in m && rule(u, d)
  }

  lemma {:induction false} SameClass(rule: Rule, truth: set<Item>, detected: set<Item>,
                  m: map<Item, Item>, other: map<Item, Item>, t: Item, u: Item)
    requires Rectangular(rule, truth, detected)
    requires IsMatching(rule, truth, detected, m) && IsMatching(rule, truth, detected, other)
    requires t in other && u in other && u in m && m[u] == other[t]
    requires Contested(rule, truth, m, other[t])
    ensures Contested(rule, truth, m, other[u])
  {
  }

  ghost function Follow(rule: Rule, truth: set<Item>, detected: set<Item>,
                        m: map<Item, Item>, other: map<Item, Item>, t: Item): (p: Item)
    requires IsMatching(rule, truth, detected, m) && IsMaximal(rule, truth, detected, m)
    requires IsMatching(rule, truth, detected, other) && t in other
    ensures p in m
    ensures if Contested(rule, truth, m, other[t]) then m[p] == other[t] else p == t
  {
    assert other[t] in other.Values && t in other.Keys;
    if Contested(rule, truth, m, other[t]) then
      assert other[t] in m.Values;
      var p :| p in m && m[p] == other[t]; p
    else
      t
  }

  /**
   Where the rule is rectangular, greedy matching is as large as any matching. Each pair of the other
   matching is sent to a pair of m: through the detected item where m leaves a rival truth item over,
   and to the truth item itself everywhere else. The two kinds cannot collide.
   */
  lemma {:induction false} GreedyIsOptimal(rule: Rule, truth: set<Item>, detected: set<Item>, m: map<Item, Item>,
                                           other: map<Item, Item>)
    requires Rectangular(rule, truth, detected)
    requires IsMatching(rule, truth, detected, m) && IsMaximal(rule, truth, detected, m)
    requires IsMatching(rule, truth, detected, other)
    ensures |other| <= |m|
  {
    var image := map t | t in other :: Follow(rule, truth, detected, m, other, t);
    forall t, u | t in image && u in image && image[t] == image[u] ensures t == u {
      if Contested(rule, truth, m, other[t]) && !Contested(rule, truth, m, other[u]) {
        SameClass(rule, truth, detected, m, other, t, u);
      } else if !Contested(rule, truth, m, other[t]) && Contested(rule, truth, m, other[u]) {
        SameClass(rule, truth, detected, m, other, u, t);
      }
    }
    InjectionSize(other.Keys, m.Keys, image);
  }

  // ----- Iteration orders -----

  /** An order in which a set can be visited. */
  ghost predicate Visits(order: seq<Item>, items: set<Item>) {
    Distinct(order) && forall x :: x in order <==> x in items
  }

  /** The first detected item in order that is free and may be paired with t. */
  function FirstFree(rule: Rule, t: Item, ds: seq<Item>, matched: set<Item>): (partner: Option<Item>)
    ensures partner.Some? ==> partner.value in ds && partner.value !in matched && rule(t, partner.value)
    ensures partner.None? ==> forall d :: d in ds && d !in matched ==> !rule(t, d)
  {
    if ds == [] then None
    else if ds[0] !in matched && rule(t, ds[0]) then Some(ds[0])
    else FirstFree(rule, t, ds[1..], matched)
  }

  /** The pairs the two loops find when they visit the truth items and the detected items in these orders. */
  function Greedy(rule: Rule, ts: seq<Item>, ds: seq<Item>): map<Item, Item> {
    if ts == [] then map[]
    else
      var before, t := Greedy(rule, ts[..|ts| - 1], ds), ts[|ts| - 1];
      match FirstFree(rule, t, ds, before.Values) case Some(d) => before[t := d] case None => before
  }

  lemma {:induction false} GreedyIsMaximal(rule: Rule, ts: seq<Item>, ds: seq<Item>, truth: set<Item>,
                                           detected: set<Item>)
    requires Visits(ts, truth) && Visits(ds, detected)
    ensures IsMatching(rule, truth, detected, Greedy(rule, ts, ds))
    ensures IsMaximal(rule, truth, detected, Greedy(rule, ts, ds))
  {
    if ts == [] {
      assert truth == {};
    } else {
      var front, t := ts[..|ts| - 1], ts[|ts| - 1];
      var m := Greedy(rule, front, ds);
      assert Visits(front, truth - {t}) by {
        assert ts == front + [t];
      }
      GreedyIsMaximal(rule, front, ds, truth - {t}, detected);
      assert IsMatching(rule, truth, detected, m) && t !in m.Keys;
      var partner := FirstFree(rule, t, ds, m.Values);
      if partner.Some? {
        AddPair(rule, truth, detected, m, t, partner.value);
      }
    }
  }

  lemma {:induction false} SomeOrder(items: set<Item>) returns (order: seq<Item>)
    ensures Visits(order, items)
  {
    if items == {} {
      order := [];
    } else {
      var x :| x in items;
      var rest := SomeOrder(items - {x});
      order := [x] + rest;
    }
  }

  /** The pairs of m for the first n of these truth items. */
  ghost function Among(m: map<Item, Item>, ks: seq<Item>, n: nat): map<Item, Item>
    requires n <= |ks| && forall k :: k in ks ==> k in m
  {
    map t | t in ks[..n] :: m[t]
  }

  lemma {:induction false} FirstFreeIs(rule: Rule, t: Item, ds: seq<Item>, matched: set<Item>, i: nat)
    requires i < |ds| && ds[i] !in matched && rule(t, ds[i]) && forall j :: 0 <= j < i ==> ds[j] in matched
    ensures FirstFree(rule, t, ds, matched) == Some(ds[i])
  {
    if i > 0 {
      assert ds[0] in matched;
      FirstFreeIs(rule, t, ds[1..], matched, i - 1);
    }
  }

  /** With the partners of the first truth items in front, in the same order, each gets its partner. */
  lemma {:induction false} PairsInFront(rule: Rule, m: map<Item, Item>, ks: seq<Item>, ds: seq<Item>, n: nat)
    requires n <= |ks| <= |ds| && Distinct(ks) && Injective(m) && forall t :: t in m ==> rule(t, m[t])
    requires forall i :: 0 <= i < |ks| ==> ks[i] in m && ds[i] == m[ks[i]]
    ensures Greedy(rule, ks[..n], ds) == Among(m, ks, n)
  {
    if n > 0 {
      var before, t := Among(m, ks, n - 1), ks[n - 1];
      assert ks[..n][..n - 1] == ks[..n - 1] && ks[..n] == ks[..n - 1] + [t];
      PairsInFront(rule, m, ks, ds, n - 1);
      forall j | 0 <= j < n - 1 ensures ds[j] in before.Values {
        assert ks[j] in ks[..n - 1] && before[ks[j]] == ds[j];
      }
      forall u | u in before ensures before[u] != ds[n - 1] {
        assert u in ks[..n - 1];
      }
      FirstFreeIs(rule, t, ds, before.Values, n - 1);
    }
  }

  lemma {:induction false} NothingFree(rule: Rule, ts: seq<Item>, ds: seq<Item>, n: nat, m: map<Item, Item>)
    requires n <= |ts| && Greedy(rule, ts[..n], ds) == m
    requires forall t, d :: t in ts[n..] && d in ds && d !in m.Values ==> !rule(t, d)
    ensures Greedy(rule, ts, ds) == m
    decreases |ts|
  {
    if n < |ts| {
      var front, t := ts[..|ts| - 1], ts[|ts| - 1];
      assert front[..n] == ts[..n] && ts[n..] == front[n..] + [t];
      NothingFree(rule, front, ds, n, m);
    } else {
      assert ts[..n] == ts;
    }
  }

  lemma {:induction false} VisitsConcat(a: seq<Item>, x: set<Item>, b: seq<Item>, y: set<Item>)
    requires Visits(a, x) && Visits(b, y) && x !! y
    ensures Visits(a + b, x + y)
  {
    DistinctConcat(a, b);
  }

  lemma {:induction false} PartnersVisit(m: map<Item, Item>, ks: seq<Item>, ps: seq<Item>)
    requires Visits(ks, m.Keys) && Injective(m) && |ps| == |ks|
    requires forall i :: 0 <= i < |ks| ==> ks[i] in m && ps[i] == m[ks[i]]
    ensures Visits(ps, m.Values)
  {
    forall d | d in m.Values ensures d in ps {
      var t :| t in m && m[t] == d;
      assert t in ks;
      var i :| 0 <= i < |ks| && ks[i] == t;
      assert ps[i] == d;
    }
  }

  /** Visiting the pairs of m first, in the same order on both sides, finds m. */
  lemma {:induction false} PairsFirst(rule: Rule, m: map<Item, Item>, ks: seq<Item>, tail: seq<Item>,
                                      ps: seq<Item>, rest: seq<Item>)
    requires Distinct(ks) && (forall t :: t in ks <==> t in m) && Injective(m) && |ps| == |ks|
    requires forall i :: 0 <= i < |ks| ==> rule(ks[i], m[ks[i]]) && ps[i] == m[ks[i]]
    requires forall t, d :: t in tail && d in ps + rest && d !in m.Values ==> !rule(t, d)
    ensures Greedy(rule, ks + tail, ps + rest) == m
  {
    hide Greedy;
    PairsInFront(rule, m, ks, ps + rest, |ks|);
    assert (ks + tail)[..|ks|] == ks[..|ks|] == ks && (ks + tail)[|ks|..] == tail;
    assert Among(m, ks, |ks|) == m;
    NothingFree(rule, ks + tail, ps + rest, |ks|, m);
  }

  lemma {:induction false} MaximalHasOrder(rule: Rule, truth: set<Item>, detected: set<Item>, m: map<Item, Item>)
    returns (ts: seq<Item>, ds: seq<Item>)
    requires IsMatching(rule, truth, detected, m) && IsMaximal(rule, truth, detected, m)
    ensures Visits(ts, truth) && Visits(ds, detected) && Greedy(rule, ts, ds) == m
  {
    hide Greedy;
    var ks := SomeOrder(m.Keys);
    var tail := SomeOrder(truth - m.Keys);
    var rest := SomeOrder(detected - m.Values);
    var ps := seq(|ks|, i requires 0 <= i < |ks| => (assert ks[i] in ks; m[ks[i]]));
    ts, ds := ks + tail, ps + rest;
    PartnersVisit(m, ks, ps);
    PairsFirst(rule, m, ks, tail, ps, rest);
    hide Visits;
    VisitsConcat(ks, m.Keys, tail, truth - m.Keys);
    VisitsConcat(ps, m.Values, rest, detected - m.Values);
    assert m.Keys + (truth - m.Keys) == truth && m.Values + (detected - m.Values) == detected;
  }

  /** What the greedy loops can find is exactly the maximal matchings: each order finds one, and each is found
      by some order. */
  lemma {:induction false} MaximalIffSomeOrder(rule: Rule, truth: set<Item>, detected: set<Item>, m: map<Item, Item>)
    ensures IsMatching(rule, truth, detected, m) && IsMaximal(rule, truth, detected, m)
       <==> exists ts, ds :: Visits(ts, truth) && Visits(ds, detected) && Greedy(rule, ts, ds) == m
  {
    hide Visits, Greedy, IsMatching, IsMaximal;
    if IsMatching(rule, truth, detected, m) && IsMaximal(rule, truth, detected, m) {
      var ts, ds := MaximalHasOrder(rule, truth, detected, m);
    } else if ts, ds :| Visits(ts, truth) && Visits(ds, detected) && Greedy(rule, ts, ds) == m {
      GreedyIsMaximal(rule, ts, ds, truth, detected);
    }
  }

  /** Every order finds as many pairs as is possible. */
  ghost predicate OrderIsIrrelevant(rule: Rule, truth: set<Item>, detected: set<Item>) {
    forall ts, ds, other ::
      Visits(ts, truth) && Visits(ds, detected) && IsMatching(rule, truth, detected, other)
      ==> |other| <= |Greedy(rule, ts, ds)|
  }

  lemma {:induction false} FirstTaken(rule: Rule, x: Item, p: Item, q: Item)
    requires rule(x, p) && rule(x, q)
    ensures Greedy(rule, [x], [p, q]) == map[x := p] && map[x := p].Values == {p}
  {
    var none: map<Item, Item>, m := map[], map[x := p];
    assert [x][..0] == [] && none.Values == {};
    assert m.Keys == {x} && m.Values == {p};
  }

  /** Where x can take either partner and y only p, the order of the partners decides whether y gets one. */
  lemma {:induction false} OrderDecides(rule: Rule, x: Item, y: Item, p: Item, q: Item)
    requires rule(x, p) && rule(x, q) && rule(y, p) && !rule(y, q)
    ensures Greedy(rule, [x, y], [p, q]) == map[x := p] && Greedy(rule, [x, y], [q, p]) == map[x := q, y := p]
    ensures x != y && p != q
  {
    assert [x, y][..1] == [x];
    FirstTaken(rule, x, p, q);
    FirstTaken(rule, x, q, p);
    assert FirstFree(rule, y, [p, q], {p}) == None;
    FirstFreeIs(rule, y, [q, p], {q}, 1);
  }

  lemma {:induction false} CrossedPairLoses(rule: Rule, t: Item, u: Item, d: Item, e: Item)
    requires rule(t, d) && rule(u, d) && rule(u, e) && !rule(t, e)
    ensures !OrderIsIrrelevant(rule, {t, u}, {d, e})
  {
    hide Greedy, IsMatching;
    OrderDecides(rule, u, t, d, e);
    assert Visits([u, t], {t, u}) && Visits([d, e], {d, e}) && Visits([e, d], {d, e});
    GreedyIsMaximal(rule, [u, t], [e, d], {t, u}, {d, e});
    assert |map[u := d]| == 1 && |map[u := e, t := d]| == 2;
  }

  /** No iteration order costs a pair, whichever of the items are present, if and only if items that share one
      partner share them all. */
  lemma {:induction false} OrderIsIrrelevantIff(rule: Rule, truth: set<Item>, detected: set<Item>)
    ensures Rectangular(rule, truth, detected)
       <==> forall present, found :: present <= truth && found <= detected ==> OrderIsIrrelevant(rule, present, found)
  {
    hide Greedy, Visits;
    if Rectangular(rule, truth, detected) {
      forall present, found, ts, ds, other |
        && present <= truth && found <= detected
        && Visits(ts, present) && Visits(ds, found) && IsMatching(rule, present, found, other)
        ensures |other| <= |Greedy(rule, ts, ds)|
      {
        assert Rectangular(rule, present, found);
        GreedyIsMaximal(rule, ts, ds, present, found);
        GreedyIsOptimal(rule, present, found, Greedy(rule, ts, ds), other);
      }
    } else {
      var t, u, d, e :| t in truth && u in truth && d in detected && e in detected
                        && rule(t, d) && rule(u, d) && rule(u, e) && !rule(t, e);
      CrossedPairLoses(rule, t, u, d, e);
      assert {t, u} <= truth && {d, e} <= detected;
    }
  }

  ghost predicate Filled(items: set<Item>) {
    forall x :: x in items ==> x.family != "" && x.usage != ""
  }

  lemma {:induction false} ExactMeansSameKey(lower: string -> string, t: Item, d: Item)
    requires t.family != "" && t.usage != "" && d.family != "" && d.usage != ""
    requires forall s :: lower(s) == "" ==> s == ""
    ensures Compatible(lower, 0, t, d) <==>
              && t.file == d.file && t.line == d.line
              && lower(t.family) == lower(d.family) && lower(t.usage) == lower(d.usage)
  {
  }

  /** With no line tolerance and no blank field, compatibility is equality of a key, so every
      iteration order finds as many pairs as any matching does. */
  lemma {:induction false} ExactScoringIsOptimal(lower: string -> string, truth: set<Item>, detected: set<Item>,
                              m: map<Item, Item>, other: map<Item, Item>)
    requires Filled(truth) && Filled(detected)
    requires forall s :: lower(s) == "" ==> s == ""
    requires IsMatching(ScoringRule(lower, 0), truth, detected, m)
    requires IsMaximal(ScoringRule(lower, 0), truth, detected, m)
    requires IsMatching(ScoringRule(lower, 0), truth, detected, other)
    ensures |other| <= |m|
  {
    var rule := ScoringRule(lower, 0);
    forall t, u, d, e | && t in truth && u in truth && d in detected && e in detected
                        && rule(t, d) && rule(u, d) && rule(u, e)
      ensures rule(t, e)
    {
      ExactMeansSameKey(lower, t, d);
      ExactMeansSameKey(lower, u, d);
      ExactMeansSameKey(lower, u, e);
      ExactMeansSameKey(lower, t, e);
    }
    GreedyIsOptimal(rule, truth, detected, m, other);
  }

  /** A blank family breaks this: visiting the same items in another order finds a single pair instead of two,
      so the factor of two above cannot be improved. */
  lemma {:induction false} BlankFieldLosesAPair(lower: string -> string) returns (ts: seq<Item>, ds: seq<Item>)
    requires lower("AES") != lower("RSA")
    ensures |ts| == |ds| == 2
    ensures var rule := ScoringRule(lower, 0);
            |Greedy(rule, ts, ds)| == 1 && |Greedy(rule, ts, [ds[1], ds[0]])| == 2
  {
    hide Greedy;
    var blank, aes, rsa := Item("f.c", "", "sign", 1), Item("f.c", "AES", "sign", 1), Item("f.c", "RSA", "sign", 1);
    ts, ds := [blank, rsa], [rsa, aes];
    OrderDecides(ScoringRule(lower, 0), blank, rsa, rsa, aes);
  }
}
