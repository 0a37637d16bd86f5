/** Evidence spans, selection from a list of them, and their mass. */
module Spans {
  import opened Prelude

  datatype Span = Span(artifact: string, start: nat, end: nat, rule: string,
                       signal: Option<string>, magnitude: real)

  type Test = Span -> bool

  /** Construction of a span is refused when it ends before it starts. */
  predicate WellFormed(spans: seq<Span>) {
    forall s :: s in spans ==> s.start <= s.end
  }

  function Not(p: Test): Test {
    s => !p(s)
  }

  function Both(p: Test, q: Test): Test {
    s => p(s) && q(s)
  }

  function Select(spans: seq<Span>, keep: Test): seq<Span> {
    if spans == [] then []
    else (if keep(spans[0]) then [spans[0]] else []) + Select(spans[1..], keep)
  }

  function Mass(spans: seq<Span>): real {
    if spans == [] then 0.0 else spans[0].magnitude + Mass(spans[1..])
  }

  predicate NonNegative(spans: seq<Span>) {
    forall i :: 0 <= i < |spans| ==> spans[i].magnitude >= 0.0
  }

  lemma {:induction false} SelectIn(spans: seq<Span>, keep: Test)
    ensures forall s :: s in Select(spans, keep) <==> s in spans && keep(s)
  {
    if spans != [] {
      SelectIn(spans[1..], keep);
      assert forall s :: s in spans <==> s == spans[0] || s in spans[1..];
    }
  }

  lemma {:induction false} SelectConcat(a: seq<Span>, b: seq<Span>, keep: Test)
    ensures Select(a + b, keep) == Select(a, keep) + Select(b, keep)
  {
    if a == [] {
      assert a + b == b;
    } else {
      SelectConcat(a[1..], b, keep);
      assert (a + b)[1..] == a[1..] + b && (a + b)[0] == a[0];
      var head := if keep(a[0]) then [a[0]] else [];
      assert head + (Select(a[1..], keep) + Select(b, keep)) == (head + Select(a[1..], keep)) + Select(b, keep);
    }
  }

  lemma {:induction false} SelectSame(spans: seq<Span>, p: Test, q: Test)
    requires forall s :: s in spans ==> p(s) == q(s)
    ensures Select(spans, p) == Select(spans, q)
  {
    if spans != [] {
      assert spans[0] in spans;
      SelectSame(spans[1..], p, q);
    }
  }

  lemma {:induction false} SelectAll(spans: seq<Span>, keep: Test)
    requires forall s :: s in spans ==> keep(s)
    ensures Select(spans, keep) == spans
  {
    if spans != [] {
      assert spans[0] in spans;
      SelectAll(spans[1..], keep);
    }
  }

  lemma {:induction false} SelectNone(spans: seq<Span>, keep: Test)
    requires forall s :: s in spans ==> !keep(s)
    ensures Select(spans, keep) == []
  {
    if spans != [] {
      assert spans[0] in spans;
      SelectNone(spans[1..], keep);
    }
  }

  lemma {:induction false} SelectTwice(spans: seq<Span>, p: Test, q: Test)
    ensures Select(Select(spans, p), q) == Select(spans, Both(p, q))
  {
    if spans != [] {
      SelectTwice(spans[1..], p, q);
      SelectConcat(if p(spans[0]) then [spans[0]] else [], Select(spans[1..], p), q);
      assert [spans[0]][1..] == [];
    }
  }

  /** A selection and its complement hold each occurrence once. */
  lemma {:induction false} SelectSplits(spans: seq<Span>, keep: Test)
    ensures multiset(Select(spans, keep)) + multiset(Select(spans, Not(keep))) == multiset(spans)
  {
    if spans != [] {
      SelectSplits(spans[1..], keep);
      assert spans == [spans[0]] + spans[1..];
    }
  }

  lemma {:induction false} SelectMultiset(a: seq<Span>, b: seq<Span>, keep: Test)
    requires multiset(a) == multiset(b)
    ensures multiset(Select(a, keep)) == multiset(Select(b, keep))
  {
    forall s ensures multiset(Select(a, keep))[s] == multiset(Select(b, keep))[s] {
      SelectCount(a, keep, s);
      SelectCount(b, keep, s);
    }
  }

  lemma {:induction false} SelectCount(spans: seq<Span>, keep: Test, s: Span)
    ensures multiset(Select(spans, keep))[s] == if keep(s) then multiset(spans)[s] else 0
  {
    if spans != [] {
      SelectCount(spans[1..], keep, s);
      assert spans == [spans[0]] + spans[1..];
    }
  }

  lemma {:induction false} MassConcat(a: seq<Span>, b: seq<Span>)
    ensures Mass(a + b) == Mass(a) + Mass(b)
  {
    if a == [] {
      assert a + b == b;
    } else {
      MassConcat(a[1..], b);
      assert (a + b)[1..] == a[1..] + b;
    }
  }

  /** Taking out one occurrence of x. */
  lemma {:induction false} TakeOut(b: seq<Span>, x: Span) returns (rest: seq<Span>)
    requires x in b
    ensures multiset(b) == multiset{x} + multiset(rest) && Mass(b) == x.magnitude + Mass(rest)
  {
    var k :| 0 <= k < |b| && b[k] == x;
    var front, back := b[..k], b[k + 1..];
    rest := front + back;
    assert b == front + ([x] + back);
    MassConcat(front, [x] + back);
    MassConcat(front, back);
    assert ([x] + back)[1..] == back;
  }

  /** Mass does not depend on order. */
  lemma {:induction false} MassOfMultiset(a: seq<Span>, b: seq<Span>)
    requires multiset(a) == multiset(b)
    ensures Mass(a) == Mass(b)
    decreases |a|
  {
    if a == [] {
      assert |multiset(b)| == |b|;
    } else {
      assert a[0] in multiset(a);
      var rest := TakeOut(b, a[0]);
      assert a == [a[0]] + a[1..];
      assert multiset(a) == multiset{a[0]} + multiset(a[1..]);
      assert multiset(a[1..]) == multiset(b) - multiset{a[0]} == multiset(rest);
      MassOfMultiset(a[1..], rest);
    }
  }

  lemma {:induction false} MassSplits(spans: seq<Span>, keep: Test)
    ensures Mass(spans) == Mass(Select(spans, keep)) + Mass(Select(spans, Not(keep)))
  {
    if spans != [] {
      MassSplits(spans[1..], keep);
      var head := [spans[0]];
      assert head[1..] == [] && Mass(head) == spans[0].magnitude;
      MassConcat(head, Select(spans[1..], keep));
      MassConcat(head, Select(spans[1..], Not(keep)));
      assert [] + Select(spans[1..], keep) == Select(spans[1..], keep);
      assert [] + Select(spans[1..], Not(keep)) == Select(spans[1..], Not(keep));
    }
  }

  lemma {:induction false} MassNonNegative(spans: seq<Span>)
    requires NonNegative(spans)
    ensures Mass(spans) >= 0.0
  {
    if spans != [] {
      MassNonNegative(spans[1..]);
    }
  }

  lemma {:induction false} SelectNonNegative(spans: seq<Span>, keep: Test)
    requires NonNegative(spans)
    ensures NonNegative(Select(spans, keep))
  {
    SelectIn(spans, keep);
    forall i | 0 <= i < |Select(spans, keep)| ensures Select(spans, keep)[i].magnitude >= 0.0 {
      assert Select(spans, keep)[i] in spans;
    }
  }

  /** Selecting more weighs at least as much. */
  lemma {:induction false} MassMonotone(spans: seq<Span>, p: Test, q: Test)
    requires NonNegative(spans) && forall s :: s in spans && p(s) ==> q(s)
    ensures Mass(Select(spans, p)) <= Mass(Select(spans, q))
  {
    var chosen := Select(spans, q);
    SelectTwice(spans, q, p);
    SelectSame(spans, Both(q, p), p);
    MassSplits(chosen, p);
    SelectNonNegative(spans, q);
    SelectNonNegative(chosen, Not(p));
    MassNonNegative(Select(chosen, Not(p)));
  }
}
