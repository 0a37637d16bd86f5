/**
 The bulk rescore: one UPDATE over the findings of a scan, with the null rules of SQL, then a fresh
 histogram on the scan. A column that may be null is an option.
 */
module BulkRescore {
  import opened Prelude
  import opened Risk

  datatype Finding = Finding(
    scanId: string,
    score: Option<real>, band: Option<Band>,
    v: Option<real>, f: Option<real>, e: Option<real>, k: Option<real>,
    x: Option<real>, y: Option<real>,
    broken: Option<bool>,
    u: Option<real>, z: Option<real>, margin: Option<real>)

  datatype Bands = Bands(critical: nat, high: nat, medium: nat, low: nat)

  datatype Scan = Scan(bands: Bands, crqcYears: Option<int>)

  type Findings = map<string, Finding>

  function Value(o: Option<real>): real {
    if o.Some? then o.value else 0.0
  }

  function NewMargin(r: Finding, z: real): real {
    Value(r.x) + Value(r.y) - z
  }

  /** Dividing by a zero horizon is null in SQL. */
  function NewUrgency(r: Finding, z: real): Option<real> {
    if z == 0.0 then None
    else Some(Min(1.0, Risk.Max(0.05, 0.5 + NewMargin(r, z) / (2.0 * z))))
  }

  function NewScore(r: Finding, z: real): Option<real> {
    match NewUrgency(r, z)
    case None => None
    case Some(u) => Some(Min(100.0, Risk.Max(0.0, Product(Value(r.v), Value(r.f), u, Value(r.e), Value(r.k)))))
  }

  /** A null score satisfies no threshold and falls through to the lowest band. */
  function NewBand(r: Finding, z: real): Band {
    match NewScore(r, z)
    case Some(s) => if s >= 60.0 then Critical else if s >= 35.0 then High else if s >= 15.0 then Medium else Low
    case None => Low
  }

  /** Rows the statement looks at: scored, and not classically broken. */
  predicate Selected(r: Finding, scanId: string) {
    r.scanId == scanId && r.score.Some? && r.broken != Some(true)
  }

  /** The update condition; a comparison with null is not true. */
  predicate Changes(r: Finding, z: real)
    requires r.score.Some?
  {
    || (var s := NewScore(r, z);
        s.Some? && (r.score.value - s.value > 0.000001 || s.value - r.score.value > 0.000001))
    || (r.band.Some? && r.band.value != NewBand(r, z))
  }

  function RescoreRow(r: Finding, scanId: string, z: real): Finding {
    if Selected(r, scanId) && Changes(r, z)
    then r.(score := NewScore(r, z), u := NewUrgency(r, z), band := Some(NewBand(r, z)),
            z := Some(z), margin := Some(NewMargin(r, z)))
    else r
  }

  function RescoreAll(fs: Findings, scanId: string, z: real): Findings {
    map id | id in fs :: RescoreRow(fs[id], scanId, z)
  }

  function WithBand(fs: Findings, scanId: string, b: Band): set<string> {
    set id | id in fs && fs[id].scanId == scanId && fs[id].band == Some(b)
  }

  function Histogram(fs: Findings, scanId: string): Bands {
    Bands(|WithBand(fs, scanId, Critical)|, |WithBand(fs, scanId, High)|,
          |WithBand(fs, scanId, Medium)|, |WithBand(fs, scanId, Low)|)
  }

  function Horizon(crqcYears: Option<int>): real {
    if crqcYears.Some? then crqcYears.value as real else 10.0
  }

  lemma {:induction false} RescoredIffSelected(r: Finding, scanId: string, z: real)
    ensures RescoreRow(r, scanId, z) != r <==> Selected(r, scanId) && Changes(r, z)
  {
  }

  class Store {
    var scans: map<string, Scan>
    var findings: Findings

    /** The histogram and the rows the update returns: those it changed, as they now are. */
    method RescoreScanFindings(scanId: string, crqcYears: Option<int>) returns (bands: Option<Bands>, changed: Findings)
      modifies this
      ensures bands == if scanId in old(scans) then Some(Histogram(findings, scanId)) else None
      ensures scanId !in old(scans) ==> scans == old(scans) && findings == old(findings)
      ensures scanId in old(scans) ==>
                && findings == RescoreAll(old(findings), scanId,
                                          if crqcYears.Some? then crqcYears.value as real else 10.0)
                && scans == old(scans)[scanId :=
                     Scan(Histogram(findings, scanId),
                          if crqcYears.Some? then crqcYears else old(scans)[scanId].crqcYears)]
      ensures findings.Keys == old(findings).Keys
      ensures forall id :: id in changed <==> id in findings && findings[id] != old(findings)[id]
      ensures forall id :: id in changed ==> changed[id] == findings[id]
    {
      if scanId !in scans {
        return None, map[];
      }
      hide Selected, Changes, RescoreRow, Histogram;
      forall id | id in findings { RescoredIffSelected(findings[id], scanId, Horizon(crqcYears)); }
      var z := Horizon(crqcYears);
      changed := map id | id in findings && Selected(findings[id], scanId) && Changes(findings[id], z)
                     :: RescoreRow(findings[id], scanId, z);
      findings := RescoreAll(findings, scanId, z);
      bands := Some(Histogram(findings, scanId));
      scans := scans[scanId := Scan(bands.value, if crqcYears.Some? then crqcYears else scans[scanId].crqcYears)];
    }
  }

  // ----- One row -----

  /** The factors that the formula reads; no rescore touches them. */
  predicate SameFactors(r: Finding, q: Finding) {
    && r.scanId == q.scanId && r.broken == q.broken
    && r.v == q.v && r.f == q.f && r.e == q.e && r.k == q.k && r.x == q.x && r.y == q.y
  }

  /** Scored rows have a band. */
  predicate Banded(r: Finding) {
    r.score.Some? ==> r.band.Some?
  }

  function Fresh(r: Finding, z: real): (real, real, Band)
    requires z != 0.0
  {
    Rescore(Value(r.v), Value(r.f), Value(r.e), Value(r.k), Value(r.x), Value(r.y), z, false)
  }

  /** The SQL expression is the formula of the risk module. */
  lemma {:induction false} SqlIsFormula(r: Finding, z: real)
    requires z != 0.0
    ensures NewScore(r, z) == Some(Fresh(r, z).0) && NewUrgency(r, z) == Some(Fresh(r, z).1)
    ensures NewBand(r, z) == Fresh(r, z).2
  {
  }

  /** A row that a rescore changes gets score, urgency and band of the formula, the horizon and the margin of the
      years until migration over it; its factors stay. */
  lemma {:induction false} ChangedRowIs(r: Finding, scanId: string, z: real)
    requires z != 0.0 && RescoreRow(r, scanId, z) != r
    ensures var after := RescoreRow(r, scanId, z);
            && after.score == Some(Fresh(r, z).0) && after.u == Some(Fresh(r, z).1) && after.band == Some(Fresh(r, z).2)
            && after.z == Some(z) && after.margin == Some(Value(r.x) + Value(r.y) - z)
            && SameFactors(r, after)
  {
    SqlIsFormula(r, z);
  }

  predicate Near(a: real, b: real) {
    -0.000001 <= a - b <= 0.000001
  }

  /** What a row of the scan looks like after a rescore at a non-zero horizon. */
  predicate UpToDate(r: Finding, z: real)
    requires z != 0.0
  {
    r.score.Some? && r.band == Some(Fresh(r, z).2) && Near(r.score.value, Fresh(r, z).0)
  }

  /** The row has a band, or a score that a rescore at z will move. */
  predicate Placed(r: Finding, z: real)
    requires z != 0.0
  {
    r.band.Some? || (r.score.Some? && !Near(r.score.value, Fresh(r, z).0))
  }

  /** A rescore leaves a row it selects up to date exactly when it is placed; a row without a band whose score
      does not move keeps having none, since a comparison with null is not true. */
  lemma {:induction false} RowUpToDateIff(r: Finding, scanId: string, z: real)
    requires z != 0.0 && Selected(r, scanId)
    ensures UpToDate(RescoreRow(r, scanId, z), z) <==> Placed(r, z)
  {
    SqlIsFormula(r, z);
  }

  /** The rescore at horizon zero takes the score of a row with a band above the lowest. */
  predicate Spared(r: Finding) {
    r.band.None? || r.band == Some(Low)
  }

  lemma {:induction false} ScoredIff(r: Finding, scanId: string, z: real)
    requires r.score.Some? && r.broken != Some(true)
    ensures RescoreRow(r, scanId, z).score.Some? <==> r.scanId != scanId || z != 0.0 || Spared(r)
  {
  }

  // ----- Any sequence of rescores -----

  function RunRow(r: Finding, runs: seq<(string, real)>): Finding {
    if runs == [] then r
    else
      var last := runs[|runs| - 1];
      RescoreRow(RunRow(r, runs[..|runs| - 1]), last.0, last.1)
  }

  function Run(fs: Findings, runs: seq<(string, real)>): (after: Findings)
    ensures after.Keys == fs.Keys
  {
    if runs == [] then fs
    else
      var last := runs[|runs| - 1];
      RescoreAll(Run(fs, runs[..|runs| - 1]), last.0, last.1)
  }

  lemma {:induction false} RunIsByRow(fs: Findings, runs: seq<(string, real)>)
    ensures forall id :: id in fs ==> Run(fs, runs)[id] == RunRow(fs[id], runs)
  {
    if runs != [] {
      RunIsByRow(fs, runs[..|runs| - 1]);
    }
  }

  lemma {:induction false} RunKeepsFactors(r: Finding, runs: seq<(string, real)>)
    ensures SameFactors(r, RunRow(r, runs)) && (r.band.Some? ==> RunRow(r, runs).band.Some?)
    ensures r.broken == Some(true) || r.score.None? ==> RunRow(r, runs) == r
  {
    if runs != [] {
      RunKeepsFactors(r, runs[..|runs| - 1]);
    }
  }

  /** Whenever its scan was rescored at horizon zero, the row was in the lowest band or in none. */
  ghost predicate AlwaysSpared(r: Finding, runs: seq<(string, real)>) {
    forall i :: 0 <= i < |runs| && runs[i] == (r.scanId, 0.0) ==> Spared(RunRow(r, runs[..i]))
  }

  /** The run keeps the score of a row exactly when every rescore at horizon zero has spared it. */
  lemma {:induction false} StillScoredIff(r: Finding, runs: seq<(string, real)>)
    requires r.score.Some? && r.broken != Some(true)
    ensures RunRow(r, runs).score.Some? <==> AlwaysSpared(r, runs)
  {
    if runs != [] {
      var front, last := runs[..|runs| - 1], runs[|runs| - 1];
      StillScoredIff(r, front);
      RunKeepsFactors(r, front);
      assert forall i :: 0 <= i < |front| ==> runs[i] == front[i] && runs[..i] == front[..i];
      assert AlwaysSpared(r, runs)
        <==> AlwaysSpared(r, front) && (last == (r.scanId, 0.0) ==> Spared(RunRow(r, front)));
      if RunRow(r, front).score.Some? {
        ScoredIff(RunRow(r, front), last.0, last.1);
      }
    }
  }

  /** Rescores of other scans leave a row alone. */
  lemma {:induction false} OtherScansDoNotMatter(r: Finding, runs: seq<(string, real)>, rest: seq<(string, real)>)
    requires forall i :: 0 <= i < |rest| ==> rest[i].0 != r.scanId
    ensures RunRow(r, runs + rest) == RunRow(r, runs)
    decreases |rest|
  {
    if rest == [] {
      assert runs + rest == runs;
    } else {
      OtherScansDoNotMatter(r, runs, rest[..|rest| - 1]);
      assert (runs + rest)[..|runs + rest| - 1] == runs + rest[..|rest| - 1];
      RunKeepsFactors(r, runs + rest[..|rest| - 1]);
    }
  }

  /**
   After any rescores of any scans at any horizons, the last for this scan at z, a finding that was scored
   and not classically broken has the band of a fresh rescore at z, and a score within the tolerance of it,
   if and only if each rescore of its scan at horizon zero found it in the lowest band or in none, and it
   had a band, or a score that the last rescore moved. Once it has a band it keeps having one. Findings that
   are classically broken or not scored have not moved.
   */
  lemma {:induction false} RescoredAtLastHorizonIff(fs: Findings, id: string, runs: seq<(string, real)>, z: real,
                                                    rest: seq<(string, real)>)
    requires id in fs && z != 0.0 && forall i :: 0 <= i < |rest| ==> rest[i].0 != fs[id].scanId
    ensures var r, before, after := fs[id], RunRow(fs[id], runs), Run(fs, runs + [(fs[id].scanId, z)] + rest)[id];
            && (r.score.Some? && r.broken != Some(true) ==>
                  && (UpToDate(after, z) <==> AlwaysSpared(r, runs) && Placed(before, z))
                  && Fresh(after, z) == Fresh(r, z)
                  && (r.band.Some? ==> before.band.Some?))
            && (r.broken == Some(true) || r.score.None? ==> after == r)
  {
    hide AlwaysSpared, RescoreRow;
    var r, upTo := fs[id], runs + [(fs[id].scanId, z)];
    RunIsByRow(fs, upTo + rest);
    OtherScansDoNotMatter(r, upTo, rest);
    RunKeepsFactors(r, runs);
    RunKeepsFactors(r, upTo);
    assert upTo[..|upTo| - 1] == runs;
    if r.score.Some? && r.broken != Some(true) {
      StillScoredIff(r, runs);
      if AlwaysSpared(r, runs) {
        RowUpToDateIff(RunRow(r, runs), r.scanId, z);
      } else {
        UnscoredStays(RunRow(r, runs), r.scanId, z);
      }
    }
  }

  lemma {:induction false} UnscoredStays(r: Finding, scanId: string, z: real)
    requires r.score.None?
    ensures RescoreRow(r, scanId, z) == r
  {
  }

  /** A rescore at horizon zero erases the score of every row with a band above the lowest, and no later
      rescore brings it back. */
  lemma {:induction false} ZeroHorizonErasesScores(r: Finding, later: seq<(string, real)>)
    requires r.score.Some? && r.broken != Some(true)
    ensures RescoreRow(r, r.scanId, 0.0).score.None? <==> !Spared(r)
    ensures !Spared(r) ==> RunRow(RescoreRow(r, r.scanId, 0.0), later).score.None?
  {
    RunKeepsFactors(RescoreRow(r, r.scanId, 0.0), later);
  }

  // ----- The histogram -----

  /** The findings of a scan whose band is at least as severe as the given rank. */
  function AtLeast(fs: Findings, scanId: string, rank: nat): set<string> {
    set id | id in fs && fs[id].scanId == scanId && fs[id].band.Some? && Rank(fs[id].band.value) <= rank
  }

  function Cumulative(b: Bands, rank: nat): nat {
    b.critical + (if rank >= 1 then b.high else 0) + (if rank >= 2 then b.medium else 0)
    + (if rank >= 3 then b.low else 0)
  }

  /** The cumulative counts of the histogram count findings, each once. */
  lemma {:induction false} CumulativeCounts(fs: Findings, scanId: string, rank: nat)
    ensures Cumulative(Histogram(fs, scanId), rank) == |AtLeast(fs, scanId, rank)|
  {
    assert AtLeast(fs, scanId, 0) == WithBand(fs, scanId, Critical);
    OneBandMore(fs, scanId, High);
    OneBandMore(fs, scanId, Medium);
    OneBandMore(fs, scanId, Low);
    if rank >= 3 {
      assert AtLeast(fs, scanId, rank) == AtLeast(fs, scanId, 3);
    }
  }

  lemma {:induction false} OneBandMore(fs: Findings, scanId: string, b: Band)
    requires b != Critical
    ensures |AtLeast(fs, scanId, Rank(b))| == |AtLeast(fs, scanId, Rank(b) - 1)| + |WithBand(fs, scanId, b)|
  {
    var above, here := AtLeast(fs, scanId, Rank(b) - 1), WithBand(fs, scanId, b);
    assert AtLeast(fs, scanId, Rank(b)) == above + here;
    assert above !! here;
  }

  lemma {:induction false} RowBandFalls(r: Finding, scanId: string, z: real, far: real)
    requires 0.0 < z <= far && Banded(r) && r.scanId == scanId
    ensures var near, late := RescoreRow(r, scanId, z), RescoreRow(r, scanId, far);
            near.scanId == late.scanId == scanId && near.band.Some? == late.band.Some?
            && (near.band.Some? ==> Rank(near.band.value) <= Rank(late.band.value))
  {
    if Selected(r, scanId) {
      RowUpToDateIff(r, scanId, z);
      RowUpToDateIff(r, scanId, far);
      LongerHorizonNeverRaisesBand(Value(r.v), Value(r.f), Value(r.e), Value(r.k),
                                   Value(r.x), Value(r.y), z, far, false);
      assert Fresh(RescoreRow(r, scanId, z), z) == Fresh(r, z);
      assert Fresh(RescoreRow(r, scanId, far), far) == Fresh(r, far);
    }
  }

  /** Rescoring the same findings at a longer horizon never increases the number of findings at or
      above any severity. */
  lemma {:induction false} LongerHorizonNeverRaisesCounts(fs: Findings, scanId: string, z: real, far: real, rank: nat)
    requires 0.0 < z <= far && forall id :: id in fs ==> Banded(fs[id])
    ensures Cumulative(Histogram(RescoreAll(fs, scanId, far), scanId), rank)
         <= Cumulative(Histogram(RescoreAll(fs, scanId, z), scanId), rank)
  {
    var near, late := RescoreAll(fs, scanId, z), RescoreAll(fs, scanId, far);
    CumulativeCounts(near, scanId, rank);
    CumulativeCounts(late, scanId, rank);
    forall id | id in AtLeast(late, scanId, rank) ensures id in AtLeast(near, scanId, rank) {
      RowBandFalls(fs[id], scanId, z, far);
    }
    SubsetSize(AtLeast(late, scanId, rank), AtLeast(near, scanId, rank));
  }
}
