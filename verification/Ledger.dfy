/**
 The conservation ledger of one artifact: suspicion spans are attributed to findings that overlap
 them, excluded by a falsifiable predicate, or left as residue.
 */
module Ledger {
  import opened Prelude
  import opened Positions
  import opened Spans

  // ----- Claims -----

  predicate Overlap(a: Span, b: Span) {
    && a.artifact == b.artifact
    && (if a.start < b.start then b.start else a.start) < (if a.end < b.end then a.end else b.end)
  }

  predicate Claimed(findings: seq<Span>, s: Span) {
    exists f :: f in findings && Overlap(s, f)
  }

  function ClaimedBy(findings: seq<Span>): Test {
    s => Claimed(findings, s)
  }

  function Overlapping(s: Span): Test {
    f => Overlap(s, f)
  }

  method AttributeClaims(findings: seq<Span>, suspicion: seq<Span>)
    returns (attributed: seq<Span>, unclaimed: seq<Span>, overlaps: map<Span, seq<Span>>)
    ensures attributed == Select(suspicion, ClaimedBy(findings))
    ensures unclaimed == Select(suspicion, Not(ClaimedBy(findings)))
    ensures forall s :: s in overlaps <==> s in attributed
    ensures forall s :: s in overlaps ==> overlaps[s] == Select(findings, Overlapping(s))
  {
    attributed, unclaimed, overlaps := [], [], map[];
    for i := 0 to |suspicion|
      invariant attributed == Select(suspicion[..i], ClaimedBy(findings))
      invariant unclaimed == Select(suspicion[..i], Not(ClaimedBy(findings)))
      invariant forall s :: s in overlaps <==> s in attributed
      invariant forall s :: s in overlaps ==> overlaps[s] == Select(findings, Overlapping(s))
    {
      var span := suspicion[i];
      var matching: seq<Span> := [];
      for j := 0 to |findings|
        invariant matching == Select(findings[..j], Overlapping(span))
      {
        SelectOneMore(findings, j, Overlapping(span));
        if Overlap(span, findings[j]) {
          matching := matching + [findings[j]];
        }
      }
      assert findings[..|findings|] == findings;
      SelectIn(findings, Overlapping(span));
      SelectOneMore(suspicion, i, ClaimedBy(findings));
      SelectOneMore(suspicion, i, Not(ClaimedBy(findings)));
      if |matching| > 0 {
        assert matching[0] in matching;
        attributed := attributed + [span];
        overlaps := overlaps[span := matching];
      } else {
        assert forall f :: f in findings ==> !Overlap(span, f);
        unclaimed := unclaimed + [span];
      }
    }
    assert suspicion[..|suspicion|] == suspicion;
  }

  lemma {:induction false} NothingSelected(keep: Test)
    ensures Select([], keep) == []
  {
  }

  lemma {:induction false} SelectOneMore(spans: seq<Span>, i: nat, keep: Test)
    requires i < |spans|
    ensures Select(spans[..i + 1], keep) == Select(spans[..i], keep) + if keep(spans[i]) then [spans[i]] else []
  {
    assert spans[..i + 1] == spans[..i] + [spans[i]];
    SelectConcat(spans[..i], [spans[i]], keep);
    assert [spans[i]][1..] == [];
  }

  // ----- Exclusions -----

  datatype Record = Record(span: Span, predicateId: string, reason: string, contentHash: string)

  /** The content tests, each a function of the bytes of a span; most give the reason when they apply. */
  datatype Tests = Tests(
    hash: string -> string,
    benignHashes: map<string, string>,            // what the table with this hash is
    registry: seq<(string, string, string)>,      // bytes of a benign table, their hash and what it is
    identityTable: string -> bool,
    mediaOrText: string -> Option<string>,
    crcArray: string -> Option<string>,
    asciiNotDer: string -> Option<string>,
    quoteBleed: string -> Option<string>,
    benignArx: string -> Option<string>
  )

  predicate OccursIn(needle: string, hay: string) {
    exists i: nat :: i <= |hay| && StandsAt(hay, i, needle)
  }

  /** The hash and the description of the first registered table that holds the slice or is held by it. */
  function FirstInRegistry(registry: seq<(string, string, string)>, slice: string): Option<(string, string)> {
    if registry == [] then None
    else if OccursIn(registry[0].0, slice) || OccursIn(slice, registry[0].0) then Some((registry[0].1, registry[0].2))
    else FirstInRegistry(registry[1..], slice)
  }

  /** The reason, if the span has one of the signals and the test applies to its bytes. */
  function Applying(s: Span, signals: seq<string>, test: string -> Option<string>, slice: string): Option<string> {
    if s.signal.Some? && s.signal.value in signals then test(slice) else None
  }

  const IDENTITY_REASON := "256-byte sequence is identity mapping bytes(range(256)), not a cryptographic S-box"

  /** The first exclusion predicate that applies to a span, tried in the order of the code. */
  function Verdict(t: Tests, content: string, s: Span): (r: Option<Record>)
    ensures r.Some? ==> r.value.span == s
  {
    var slice := Slice(content, s.start, s.end);
    var h := t.hash(slice);
    var table := if h in t.benignHashes then Some((h, t.benignHashes[h])) else FirstInRegistry(t.registry, slice);
    var media := Applying(s, ["framing.base64_blob", "framing.pem_envelope"], t.mediaOrText, slice);
    var crc := Applying(s, ["literals.numeric_array"], t.crcArray, slice);
    var ascii := Applying(s, ["framing.asn1_der"], t.asciiNotDer, slice);
    var bleed := Applying(s, ["literals.high_entropy_string"], t.quoteBleed, slice);
    var arx := Applying(s, ["arx.source_composite"], t.benignArx, slice);
    if table.Some? then
      Some(Record(s, "benign_table_registry", "Content matches registered benign table: " + table.value.1,
                  table.value.0))
    else if s.signal == Some("table.bijection_256") && t.identityTable(slice) then
      Some(Record(s, "identity_byte_mapping", IDENTITY_REASON, h))
    else if media.Some? then Some(Record(s, "media_or_text_payload", media.value, h))
    else if crc.Some? then Some(Record(s, "benign_crc_table", crc.value, h))
    else if ascii.Some? then Some(Record(s, "ascii_text_not_der", ascii.value, h))
    else if bleed.Some? then Some(Record(s, "source_quote_bleed", bleed.value, h))
    else if arx.Some? then Some(Record(s, "benign_arx", arx.value, h))
    else None
  }

  function ExcludedBy(t: Tests, content: string): Test {
    s => Verdict(t, content, s).Some?
  }

  // ----- The verdict is the first predicate that applies -----

  /** The slice holds the bytes of the table, or is held by them. */
  predicate Shares(table: (string, string, string), slice: string) {
    OccursIn(table.0, slice) || OccursIn(slice, table.0)
  }

  /** The first registered table that shares bytes with the slice, if there is one. */
  lemma {:induction false} FirstInRegistryIs(registry: seq<(string, string, string)>, slice: string)
    ensures FirstInRegistry(registry, slice) == None
       <==> forall i :: 0 <= i < |registry| ==> !Shares(registry[i], slice)
    ensures forall i :: 0 <= i < |registry| && Shares(registry[i], slice)
                        && (forall j :: 0 <= j < i ==> !Shares(registry[j], slice))
                        ==> FirstInRegistry(registry, slice) == Some((registry[i].1, registry[i].2))
  {
    hide OccursIn;
    if registry != [] {
      var rest := registry[1..];
      FirstInRegistryIs(rest, slice);
      assert forall i :: 0 <= i < |rest| ==> rest[i] == registry[i + 1];
      forall i | 0 <= i < |registry| && Shares(registry[i], slice)
                 && (forall j :: 0 <= j < i ==> !Shares(registry[j], slice))
        ensures FirstInRegistry(registry, slice) == Some((registry[i].1, registry[i].2))
      {
        if i > 0 {
          assert !Shares(registry[0], slice);
          assert forall j :: 0 <= j < i - 1 ==> rest[j] == registry[j + 1];
        }
      }
    }
  }

  /** One exclusion predicate: its name, and what it says of a span when it applies. */
  datatype Attempt = Attempt(id: string, reason: Option<string>)

  /** The reason, when the signal is one of these. */
  function On(s: Span, signals: set<string>, reason: Option<string>): Option<string> {
    if s.signal.Some? && s.signal.value in signals then reason else None
  }

  /** The predicates after the registry of benign tables, in their order. */
  function Attempts(t: Tests, s: Span, slice: string): seq<Attempt> {
    [Attempt("identity_byte_mapping",
             On(s, {"table.bijection_256"}, if t.identityTable(slice) then Some(IDENTITY_REASON) else None)),
     Attempt("media_or_text_payload", On(s, {"framing.base64_blob", "framing.pem_envelope"}, t.mediaOrText(slice))),
     Attempt("benign_crc_table", On(s, {"literals.numeric_array"}, t.crcArray(slice))),
     Attempt("ascii_text_not_der", On(s, {"framing.asn1_der"}, t.asciiNotDer(slice))),
     Attempt("source_quote_bleed", On(s, {"literals.high_entropy_string"}, t.quoteBleed(slice))),
     Attempt("benign_arx", On(s, {"arx.source_composite"}, t.benignArx(slice)))]
  }

  /** Predicate k applies and none before it does. */
  ghost predicate FirstApplies(tries: seq<Attempt>, k: int) {
    0 <= k < |tries| && tries[k].reason.Some? && forall j :: 0 <= j < k ==> tries[j].reason.None?
  }

  lemma {:induction false} AttemptsDecide(t: Tests, content: string, s: Span)
    requires var slice := Slice(content, s.start, s.end);
             t.hash(slice) !in t.benignHashes && FirstInRegistry(t.registry, slice) == None
    ensures var slice := Slice(content, s.start, s.end);
            var tries, verdict := Attempts(t, s, slice), Verdict(t, content, s);
            && (verdict == None <==> forall k :: 0 <= k < |tries| ==> tries[k].reason.None?)
            && forall k :: FirstApplies(tries, k) ==>
                 verdict == Some(Record(s, tries[k].id, tries[k].reason.value, t.hash(slice)))
  {
    hide OccursIn, Slice, FirstInRegistry;
    var slice := Slice(content, s.start, s.end);
    var tries := Attempts(t, s, slice);
    assert |tries| == 6;
    var first, second, third := tries[0].reason, tries[1].reason, tries[2].reason;
    var fourth, fifth, sixth := tries[3].reason, tries[4].reason, tries[5].reason;
    assert Verdict(t, content, s) == None
      <==> first == None && second == None && third == None && fourth == None && fifth == None && sixth == None;
  }

  /** A span whose bytes are no benign table, by their hash or by sharing bytes with a registered one, is
      excluded exactly when one of the other predicates applies; the record names the first that does, gives
      its reason, and carries the hash of the bytes. */
  lemma {:induction false} VerdictIsFirst(t: Tests, content: string, s: Span)
    ensures var slice := Slice(content, s.start, s.end);
            var tries, h := Attempts(t, s, slice), t.hash(slice);
            var verdict := Verdict(t, content, s);
            if h in t.benignHashes then
              verdict == Some(Record(s, "benign_table_registry",
                                     "Content matches registered benign table: " + t.benignHashes[h], h))
            else if exists i :: 0 <= i < |t.registry| && Shares(t.registry[i], slice) then
              exists i :: 0 <= i < |t.registry| && Shares(t.registry[i], slice)
                          && (forall j :: 0 <= j < i ==> !Shares(t.registry[j], slice))
                          && verdict == Some(Record(s, "benign_table_registry",
                                                    "Content matches registered benign table: " + t.registry[i].2,
                                                    t.registry[i].1))
            else
              && (verdict == None <==> forall k :: 0 <= k < |tries| ==> tries[k].reason.None?)
              && forall k :: FirstApplies(tries, k) ==>
                   verdict == Some(Record(s, tries[k].id, tries[k].reason.value, h))
  {
    hide OccursIn, Slice, FirstInRegistry, Shares, Attempts, FirstApplies;
    var slice := Slice(content, s.start, s.end);
    FirstInRegistryIs(t.registry, slice);
    if t.hash(slice) !in t.benignHashes && FirstInRegistry(t.registry, slice) == None {
      AttemptsDecide(t, content, s);
    }
    if i :| 0 <= i < |t.registry| && Shares(t.registry[i], slice) {
      var k := Least(t.registry, slice, i);
    }
  }

  lemma {:induction false} Least(registry: seq<(string, string, string)>, slice: string, i: nat) returns (k: nat)
    requires i < |registry| && Shares(registry[i], slice)
    ensures k < |registry| && Shares(registry[k], slice) && forall j :: 0 <= j < k ==> !Shares(registry[j], slice)
  {
    hide Shares;
    if j :| 0 <= j < i && Shares(registry[j], slice) {
      k := Least(registry, slice, j);
    } else {
      k := i;
    }
  }

  method EvaluateExclusions(t: Tests, spans: seq<Span>, content: string)
    returns (excluded: seq<Span>, residue: seq<Span>, records: seq<Record>)
    ensures excluded == Select(spans, ExcludedBy(t, content))
    ensures residue == Select(spans, Not(ExcludedBy(t, content)))
    ensures |records| == |excluded|
    ensures forall i :: 0 <= i < |records| ==>
              records[i].span == excluded[i] && Verdict(t, content, excluded[i]) == Some(records[i])
  {
    hide Verdict, Select;
    excluded, residue, records := [], [], [];
    assert Select(spans[..0], ExcludedBy(t, content)) == Select(spans[..0], Not(ExcludedBy(t, content))) == [] by {
      NothingSelected(ExcludedBy(t, content));
      NothingSelected(Not(ExcludedBy(t, content)));
    }
    for i := 0 to |spans|
      invariant excluded == Select(spans[..i], ExcludedBy(t, content))
      invariant residue == Select(spans[..i], Not(ExcludedBy(t, content)))
      invariant |records| == |excluded|
      invariant forall j :: 0 <= j < |records| ==>
                  records[j].span == excluded[j] && Verdict(t, content, excluded[j]) == Some(records[j])
    {
      SelectOneMore(spans, i, ExcludedBy(t, content));
      SelectOneMore(spans, i, Not(ExcludedBy(t, content)));
      var verdict := Verdict(t, content, spans[i]);
      if verdict.Some? {
        excluded := excluded + [spans[i]];
        records := records + [verdict.value];
      } else {
        residue := residue + [spans[i]];
      }
    }
    assert spans[..|spans|] == spans;
  }

  // ----- The three parts -----

  function Attributed(findings: seq<Span>, suspicion: seq<Span>): seq<Span> {
    Select(suspicion, ClaimedBy(findings))
  }

  function Unclaimed(findings: seq<Span>, suspicion: seq<Span>): seq<Span> {
    Select(suspicion, Not(ClaimedBy(findings)))
  }

  function Excluded(t: Tests, content: string, findings: seq<Span>, suspicion: seq<Span>): seq<Span> {
    Select(Unclaimed(findings, suspicion), ExcludedBy(t, content))
  }

  function Residue(t: Tests, content: string, findings: seq<Span>, suspicion: seq<Span>): seq<Span> {
    Select(Unclaimed(findings, suspicion), Not(ExcludedBy(t, content)))
  }

  /** Residue spans are the suspicion spans that are neither claimed nor excluded, in their order. */
  lemma {:induction false} ResidueIs(t: Tests, content: string, findings: seq<Span>, suspicion: seq<Span>)
    ensures Residue(t, content, findings, suspicion)
         == Select(suspicion, Both(Not(ClaimedBy(findings)), Not(ExcludedBy(t, content))))
    ensures Excluded(t, content, findings, suspicion)
         == Select(suspicion, Both(Not(ClaimedBy(findings)), ExcludedBy(t, content)))
  {
    SelectTwice(suspicion, Not(ClaimedBy(findings)), Not(ExcludedBy(t, content)));
    SelectTwice(suspicion, Not(ClaimedBy(findings)), ExcludedBy(t, content));
  }

  /** Conservation: each occurrence of a suspicion span is in exactly one part, so the masses of the
      parts add up to the total exactly. */
  lemma {:induction false} Conservation(t: Tests, content: string, findings: seq<Span>, suspicion: seq<Span>)
    ensures multiset(Attributed(findings, suspicion)) + multiset(Excluded(t, content, findings, suspicion))
            + multiset(Residue(t, content, findings, suspicion))
         == multiset(suspicion)
    ensures Mass(Attributed(findings, suspicion)) + Mass(Excluded(t, content, findings, suspicion))
            + Mass(Residue(t, content, findings, suspicion))
         == Mass(suspicion)
  {
    SelectSplits(suspicion, ClaimedBy(findings));
    SelectSplits(Unclaimed(findings, suspicion), ExcludedBy(t, content));
    MassSplits(suspicion, ClaimedBy(findings));
    MassSplits(Unclaimed(findings, suspicion), ExcludedBy(t, content));
  }

  function Coverage(findings: seq<Span>, suspicion: seq<Span>): real {
    if Mass(suspicion) > 0.0 then Mass(Attributed(findings, suspicion)) / Mass(suspicion) else 1.0
  }

  /** More findings never lower the coverage ratio, and the residue is what was residue before and is
      still unclaimed. */
  lemma {:induction false} MoreFindingsNeverHurt(t: Tests, content: string, findings: seq<Span>, more: seq<Span>,
                                                 suspicion: seq<Span>)
    requires NonNegative(suspicion) && forall f :: f in findings ==> f in more
    ensures Mass(Attributed(findings, suspicion)) <= Mass(Attributed(more, suspicion))
    ensures Coverage(findings, suspicion) <= Coverage(more, suspicion)
    ensures Residue(t, content, more, suspicion)
         == Select(Residue(t, content, findings, suspicion), Not(ClaimedBy(more)))
    ensures Mass(Residue(t, content, more, suspicion)) <= Mass(Residue(t, content, findings, suspicion))
  {
    forall s | Claimed(findings, s) ensures Claimed(more, s) {
      var f :| f in findings && Overlap(s, f);
      assert f in more;
    }
    MassMonotone(suspicion, ClaimedBy(findings), ClaimedBy(more));
    if Mass(suspicion) > 0.0 {
      QuotientMonotone(Mass(Attributed(findings, suspicion)), Mass(Attributed(more, suspicion)), Mass(suspicion));
    }
    var left := Both(Not(ClaimedBy(findings)), Not(ExcludedBy(t, content)));
    var leftMore := Both(Not(ClaimedBy(more)), Not(ExcludedBy(t, content)));
    ResidueIs(t, content, findings, suspicion);
    ResidueIs(t, content, more, suspicion);
    SelectTwice(suspicion, left, Not(ClaimedBy(more)));
    SelectSame(suspicion, Both(left, Not(ClaimedBy(more))), leftMore);
    MassMonotone(suspicion, leftMore, left);
  }

  lemma {:induction false} QuotientMonotone(a: real, b: real, total: real)
    requires a <= b && total > 0.0
    ensures a / total <= b / total
  {
  }
}
