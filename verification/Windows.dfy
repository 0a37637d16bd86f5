/** The sliding-window extractors: flag windows, merge those that touch, report one span for each. */
module Windows {
  import opened Prelude
  import opened Spans

  datatype Range = Range(lo: nat, hi: nat)

  type Flag = string -> bool

  // ----- Scanning -----

  /** The flagged windows from position i on, in steps. */
  function FlaggedFrom(source: string, size: nat, step: nat, flag: Flag, i: nat): seq<Range>
    requires step > 0
    decreases |source| + 1 - i
  {
    if i + size > |source| then []
    else
      (if flag(source[i..i + size]) then [Range(i, i + size)] else [])
      + FlaggedFrom(source, size, step, flag, i + step)
  }

  method ScanWindows(source: string, size: nat, step: nat, flag: Flag) returns (ws: seq<Range>)
    requires step > 0
    ensures ws == FlaggedFrom(source, size, step, flag, 0)
  {
    ws := [];
    var i := 0;
    while i + size <= |source|
      invariant ws + FlaggedFrom(source, size, step, flag, i) == FlaggedFrom(source, size, step, flag, 0)
      decreases |source| + 1 - i
    {
      if flag(source[i..i + size]) {
        ws := ws + [Range(i, i + size)];
      }
      i := i + step;
    }
  }

  predicate Touches(w: Range, b: int) {
    w.lo <= b < w.hi
  }

  predicate CoveredBy(ws: seq<Range>, b: int) {
    exists w :: w in ws && Touches(w, b)
  }

  predicate IsFlagged(source: string, size: nat, flag: Flag, i: nat) {
    i + size <= |source| && flag(source[i..i + size])
  }

  /** Position i is a multiple of the step, counted down to zero. */
  predicate OnGrid(i: int, step: nat)
    requires step > 0
  {
    i == 0 || (i >= step && OnGrid(i - step, step))
  }

  /** Byte b lies in some window, at a multiple of the step, whose bytes are flagged. */
  ghost predicate InFlaggedWindow(source: string, size: nat, step: nat, flag: Flag, b: int)
    requires step > 0
  {
    exists i: nat :: IsFlagged(source, size, flag, i) && OnGrid(i, step) && i <= b < i + size
  }

  lemma {:induction false} FlaggedIff(source: string, size: nat, step: nat, flag: Flag, i: nat, j: nat)
    requires step > 0
    ensures Range(j, j + size) in FlaggedFrom(source, size, step, flag, i)
       <==> i <= j && OnGrid(j - i, step) && IsFlagged(source, size, flag, j)
    decreases |source| + 1 - i
  {
    if i + size <= |source| {
      FlaggedIff(source, size, step, flag, i + step, j);
      assert OnGrid(j - i, step) <==> j == i || (j - i >= step && OnGrid(j - i - step, step));
      assert j - (i + step) == j - i - step;
    }
  }

  ghost predicate Ordered(ws: seq<Range>, size: nat) {
    && (forall i :: 0 <= i < |ws| ==> ws[i].hi == ws[i].lo + size)
    && (forall i, j :: 0 <= i < j < |ws| ==> ws[i].lo < ws[j].lo)
  }

  lemma {:induction false} FlaggedOrdered(source: string, size: nat, step: nat, flag: Flag, i: nat)
    requires step > 0
    ensures Ordered(FlaggedFrom(source, size, step, flag, i), size)
    ensures forall w :: w in FlaggedFrom(source, size, step, flag, i) ==> i <= w.lo && w.hi <= |source|
    decreases |source| + 1 - i
  {
    if i + size <= |source| {
      FlaggedOrdered(source, size, step, flag, i + step);
      var rest := FlaggedFrom(source, size, step, flag, i + step);
      assert forall j :: 0 <= j < |rest| ==> rest[j] in rest;
    }
  }

  /** What the flagged windows cover. */
  lemma {:induction false} FlaggedCover(source: string, size: nat, step: nat, flag: Flag, b: int)
    requires step > 0
    ensures CoveredBy(FlaggedFrom(source, size, step, flag, 0), b) <==> InFlaggedWindow(source, size, step, flag, b)
  {
    var ws := FlaggedFrom(source, size, step, flag, 0);
    FlaggedOrdered(source, size, step, flag, 0);
    if w :| w in ws && Touches(w, b) {
      assert w == Range(w.lo, w.lo + size);
      FlaggedIff(source, size, step, flag, 0, w.lo);
    }
    if i: nat :| IsFlagged(source, size, flag, i) && OnGrid(i, step) && i <= b < i + size {
      FlaggedIff(source, size, step, flag, 0, i);
      assert Range(i, i + size) in ws && Touches(Range(i, i + size), b);
    }
  }

  // ----- Merging -----

  function Merge(cur: Range, rest: seq<Range>): (ms: seq<Range>)
    ensures ms != []
    decreases |rest|
  {
    if rest == [] then [cur]
    else if rest[0].lo <= cur.hi then Merge(Range(cur.lo, Max(cur.hi, rest[0].hi)), rest[1..])
    else [cur] + Merge(rest[0], rest[1..])
  }

  function MergeAll(ws: seq<Range>): seq<Range> {
    if ws == [] then [] else Merge(ws[0], ws[1..])
  }

  method MergeWindows(ws: seq<Range>) returns (merged: seq<Range>)
    ensures merged == MergeAll(ws)
  {
    merged := [];
    if |ws| == 0 {
      return;
    }
    var cur := ws[0];
    for i := 1 to |ws|
      invariant merged + Merge(cur, ws[i..]) == MergeAll(ws)
    {
      var w := ws[i];
      assert ws[i..][0] == w && ws[i..][1..] == ws[i + 1..];
      if w.lo <= cur.hi {
        cur := Range(cur.lo, Max(cur.hi, w.hi));
      } else {
        merged := merged + [cur];
        cur := w;
      }
    }
    assert ws[|ws|..] == [];
    merged := merged + [cur];
  }

  /** Sorted by start, none empty. */
  ghost predicate Sorted(ws: seq<Range>) {
    && (forall i :: 0 <= i < |ws| ==> ws[i].lo <= ws[i].hi)
    && (forall i, j :: 0 <= i < j < |ws| ==> ws[i].lo <= ws[j].lo)
  }

  /** In order, with a gap between neighbours. */
  ghost predicate Separated(ms: seq<Range>) {
    && (forall i :: 0 <= i < |ms| ==> ms[i].lo <= ms[i].hi)
    && (forall i, j :: 0 <= i < j < |ms| ==> ms[i].hi < ms[j].lo)
  }

  lemma {:induction false} CoveredHead(w: Range, ws: seq<Range>, b: int)
    ensures CoveredBy([w] + ws, b) <==> Touches(w, b) || CoveredBy(ws, b)
  {
  }

  /** The open interval starts before everything still to come. */
  ghost predicate Ready(cur: Range, rest: seq<Range>) {
    cur.lo <= cur.hi && Sorted(rest) && forall i :: 0 <= i < |rest| ==> cur.lo <= rest[i].lo
  }

  lemma {:induction false} ReadyTail(cur: Range, rest: seq<Range>)
    requires Ready(cur, rest) && rest != []
    ensures Ready(rest[0], rest[1..]) && Ready(Range(cur.lo, Max(cur.hi, rest[0].hi)), rest[1..])
  {
  }

  lemma {:induction false} MergeSeparates(cur: Range, rest: seq<Range>)
    requires Ready(cur, rest)
    ensures Separated(Merge(cur, rest)) && Merge(cur, rest)[0].lo == cur.lo
    decreases |rest|
  {
    if rest != [] {
      ReadyTail(cur, rest);
      if rest[0].lo <= cur.hi {
        MergeSeparates(Range(cur.lo, Max(cur.hi, rest[0].hi)), rest[1..]);
      } else {
        MergeSeparates(rest[0], rest[1..]);
        var tail := Merge(rest[0], rest[1..]);
        forall j | 0 <= j < |tail| ensures cur.hi < tail[j].lo {
          assert j > 0 ==> tail[0].hi < tail[j].lo;
        }
      }
    }
  }

  lemma {:induction false} JoinTouches(cur: Range, w: Range, b: int)
    requires cur.lo <= cur.hi && cur.lo <= w.lo <= w.hi && w.lo <= cur.hi
    ensures Touches(Range(cur.lo, Max(cur.hi, w.hi)), b) <==> Touches(cur, b) || Touches(w, b)
  {
  }

  lemma {:induction false} MergeCovers(cur: Range, rest: seq<Range>, b: int)
    requires Ready(cur, rest)
    ensures CoveredBy(Merge(cur, rest), b) <==> Touches(cur, b) || CoveredBy(rest, b)
    decreases |rest|
  {
    if rest == [] {
      CoveredHead(cur, [], b);
      assert [cur] + [] == [cur];
    } else {
      var w, tail := rest[0], rest[1..];
      ReadyTail(cur, rest);
      assert [w] + tail == rest;
      CoveredHead(w, tail, b);
      if w.lo <= cur.hi {
        MergeCovers(Range(cur.lo, Max(cur.hi, w.hi)), tail, b);
        JoinTouches(cur, w, b);
      } else {
        MergeCovers(w, tail, b);
        CoveredHead(cur, Merge(w, tail), b);
      }
    }
  }

  /** Merging yields ordered intervals with gaps between them that cover exactly what the windows cover. */
  lemma {:induction false} MergeIsExact(ws: seq<Range>, b: int)
    requires Sorted(ws)
    ensures Separated(MergeAll(ws)) && (CoveredBy(MergeAll(ws), b) <==> CoveredBy(ws, b))
  {
    if ws != [] {
      assert Ready(ws[0], ws[1..]);
      MergeSeparates(ws[0], ws[1..]);
      MergeCovers(ws[0], ws[1..], b);
      CoveredHead(ws[0], ws[1..], b);
      assert [ws[0]] + ws[1..] == ws;
    }
  }

  lemma {:induction false} MergeKeepsLength(cur: Range, rest: seq<Range>, size: nat)
    requires cur.lo + size <= cur.hi && forall i :: 0 <= i < |rest| ==> rest[i].lo + size <= rest[i].hi
    ensures forall i :: 0 <= i < |Merge(cur, rest)| ==> Merge(cur, rest)[i].lo + size <= Merge(cur, rest)[i].hi
    decreases |rest|
  {
    if rest != [] {
      if rest[0].lo <= cur.hi {
        MergeKeepsLength(Range(cur.lo, Max(cur.hi, rest[0].hi)), rest[1..], size);
      } else {
        MergeKeepsLength(rest[0], rest[1..], size);
      }
    }
  }

  // ----- Counting bytes -----

  function Bytes(r: Range): set<int> {
    set b | r.lo <= b < r.hi && Touches(r, b)
  }

  function Covered(ms: seq<Range>): set<int> {
    if ms == [] then {} else Bytes(ms[0]) + Covered(ms[1..])
  }

  function Total(ms: seq<Range>): int {
    if ms == [] then 0 else (ms[0].hi - ms[0].lo) + Total(ms[1..])
  }

  lemma {:induction false} BytesCount(r: Range)
    requires r.lo <= r.hi
    ensures |Bytes(r)| == r.hi - r.lo
    decreases r.hi
  {
    if r.lo < r.hi {
      var less := Range(r.lo, r.hi - 1);
      BytesCount(less);
      assert Bytes(r) == Bytes(less) + {r.hi - 1};
    }
  }

  lemma {:induction false} InCovered(ms: seq<Range>, b: int)
    ensures b in Covered(ms) <==> CoveredBy(ms, b)
  {
    if ms != [] {
      InCovered(ms[1..], b);
      CoveredHead(ms[0], ms[1..], b);
      assert [ms[0]] + ms[1..] == ms;
    }
  }

  /** The lengths of separated intervals add up to the number of bytes they cover. */
  lemma {:induction false} TotalCounts(ms: seq<Range>)
    requires Separated(ms)
    ensures Total(ms) == |Covered(ms)|
  {
    if ms != [] {
      TotalCounts(ms[1..]);
      BytesCount(ms[0]);
      forall b | b in Bytes(ms[0]) ensures b !in Covered(ms[1..]) {
        InCovered(ms[1..], b);
      }
    }
  }

  // ----- The two extractors -----

  function ToSpan(r: Range, artifact: string, rule: string, signal: string): Span {
    Span(artifact, r.lo, r.hi, rule, Some(signal), (r.hi - r.lo) as real)
  }

  function ToSpans(ms: seq<Range>, artifact: string, rule: string, signal: string): seq<Span> {
    if ms == [] then []
    else ToSpans(ms[..|ms| - 1], artifact, rule, signal) + [ToSpan(ms[|ms| - 1], artifact, rule, signal)]
  }

  lemma {:induction false} ToSpansOneMore(ms: seq<Range>, i: nat, artifact: string, rule: string, signal: string)
    requires i < |ms|
    ensures ToSpans(ms[..i + 1], artifact, rule, signal)
         == ToSpans(ms[..i], artifact, rule, signal) + [ToSpan(ms[i], artifact, rule, signal)]
  {
    assert ms[..i + 1][..i] == ms[..i];
  }

  // ----- What the extractors report -----

  /** The bytes in the reported spans are those in some flagged window; the spans are non-empty, in order, with
      gaps between them, and as heavy as they are long. */
  ghost predicate Reports(spans: seq<Span>, source: string, size: nat, step: nat, flag: Flag,
                          artifact: string, rule: string, signal: string)
    requires step > 0
  {
    && (forall b :: (exists s :: s in spans && s.start <= b < s.end) <==> InFlaggedWindow(source, size, step, flag, b))
    && (forall i, j :: 0 <= i < j < |spans| ==> spans[i].end < spans[j].start)
    && (forall s :: s in spans ==> s.start + size <= s.end <= |source| && s.magnitude == (s.end - s.start) as real)
    && (forall s :: s in spans ==> s.artifact == artifact && s.rule == rule && s.signal == Some(signal))
  }

  lemma {:induction false} ToSpansAre(ms: seq<Range>, artifact: string, rule: string, signal: string)
    requires forall i :: 0 <= i < |ms| ==> ms[i].lo <= ms[i].hi
    ensures var spans := ToSpans(ms, artifact, rule, signal);
            && |spans| == |ms|
            && forall i :: 0 <= i < |ms| ==>
                 spans[i] == Span(artifact, ms[i].lo, ms[i].hi, rule, Some(signal), (ms[i].hi - ms[i].lo) as real)
  {
    if ms != [] {
      ToSpansAre(ms[..|ms| - 1], artifact, rule, signal);
    }
  }

  lemma {:induction false} SpansCover(ms: seq<Range>, spans: seq<Span>, b: int)
    requires |spans| == |ms| && forall i :: 0 <= i < |ms| ==> spans[i].start == ms[i].lo && spans[i].end == ms[i].hi
    ensures (exists s :: s in spans && s.start <= b < s.end) <==> CoveredBy(ms, b)
  {
    if s :| s in spans && s.start <= b < s.end {
      var i :| 0 <= i < |spans| && spans[i] == s;
      assert ms[i] in ms && Touches(ms[i], b);
    }
    if m :| m in ms && Touches(m, b) {
      var i :| 0 <= i < |ms| && ms[i] == m;
      assert spans[i] in spans;
    }
  }

  /** Merged ranges are at least one window long and within the source. */
  lemma {:induction false} MergeWithin(cur: Range, rest: seq<Range>, end: nat)
    requires cur.hi <= end && forall i :: 0 <= i < |rest| ==> rest[i].hi <= end
    ensures forall i :: 0 <= i < |Merge(cur, rest)| ==> Merge(cur, rest)[i].hi <= end
    decreases |rest|
  {
    if rest != [] {
      if rest[0].lo <= cur.hi {
        MergeWithin(Range(cur.lo, Max(cur.hi, rest[0].hi)), rest[1..], end);
      } else {
        MergeWithin(rest[0], rest[1..], end);
      }
    }
  }

  lemma {:induction false} MergedWindows(source: string, size: nat, step: nat, flag: Flag)
    requires step > 0
    ensures var ms := MergeAll(FlaggedFrom(source, size, step, flag, 0));
            && Separated(ms) && (forall i :: 0 <= i < |ms| ==> ms[i].lo + size <= ms[i].hi <= |source|)
            && forall b :: CoveredBy(ms, b) <==> InFlaggedWindow(source, size, step, flag, b)
  {
    var ws := FlaggedFrom(source, size, step, flag, 0);
    FlaggedOrdered(source, size, step, flag, 0);
    assert forall i :: 0 <= i < |ws| ==> ws[i] in ws;
    assert Sorted(ws);
    forall b ensures CoveredBy(MergeAll(ws), b) <==> InFlaggedWindow(source, size, step, flag, b) {
      MergeIsExact(ws, b);
      FlaggedCover(source, size, step, flag, b);
    }
    MergeIsExact(ws, 0);
    if ws != [] {
      MergeKeepsLength(ws[0], ws[1..], size);
      MergeWithin(ws[0], ws[1..], |source|);
    }
  }

  /** The spans made of the merged windows report exactly what is flagged. */
  lemma {:induction false} SpansReport(source: string, size: nat, step: nat, flag: Flag,
                                       artifact: string, rule: string, signal: string)
    requires step > 0
    ensures Reports(ToSpans(MergeAll(FlaggedFrom(source, size, step, flag, 0)), artifact, rule, signal),
                    source, size, step, flag, artifact, rule, signal)
  {
    hide InFlaggedWindow, FlaggedFrom, MergeAll, ToSpans;
    var ms := MergeAll(FlaggedFrom(source, size, step, flag, 0));
    MergedWindows(source, size, step, flag);
    ToSpansAre(ms, artifact, rule, signal);
    var spans := ToSpans(ms, artifact, rule, signal);
    forall b
      ensures (exists s :: s in spans && s.start <= b < s.end) <==> InFlaggedWindow(source, size, step, flag, b)
    {
      SpansCover(ms, spans, b);
    }
  }

  lemma {:induction false} NothingToReport(source: string, size: nat, step: nat, flag: Flag,
                                           artifact: string, rule: string, signal: string)
    requires step > 0 && |source| < size
    ensures Reports([], source, size, step, flag, artifact, rule, signal)
  {
  }

  // ----- The extractors themselves -----

  /** Entropy extraction: windows of 128 bytes (64 in short files), 32 apart; spans of at least 64. */
  method ExtractEntropy(source: string, artifact: string, high: Flag) returns (spans: seq<Span>)
    ensures |source| < 64 ==> spans == []
    ensures |source| >= 64 ==>
              spans == ToSpans(MergeAll(FlaggedFrom(source, if |source| >= 256 then 128 else 64, 32, high, 0)),
                               artifact, "extract.entropy.sustained_high", "entropy.high_density")
    ensures Reports(spans, source, if |source| >= 256 then 128 else 64, 32, high,
                    artifact, "extract.entropy.sustained_high", "entropy.high_density")
  {
    if |source| < 64 {
      NothingToReport(source, 64, 32, high, artifact, "extract.entropy.sustained_high", "entropy.high_density");
      return [];
    }
    var size := if |source| >= 256 then 128 else 64;
    SpansReport(source, size, 32, high, artifact, "extract.entropy.sustained_high", "entropy.high_density");
    var windows := ScanWindows(source, size, 32, high);
    if |windows| == 0 {
      return [];
    }
    var merged := MergeWindows(windows);
    FlaggedOrdered(source, size, 32, high, 0);
    MergeKeepsLength(windows[0], windows[1..], 64);
    spans := [];
    for i := 0 to |merged|
      invariant spans == ToSpans(merged[..i], artifact, "extract.entropy.sustained_high", "entropy.high_density")
    {
      ToSpansOneMore(merged, i, artifact, "extract.entropy.sustained_high", "entropy.high_density");
      if merged[i].hi - merged[i].lo >= 64 {
        spans := spans + [ToSpan(merged[i], artifact, "extract.entropy.sustained_high", "entropy.high_density")];
      }
    }
    assert merged[..|merged|] == merged;
  }

  const ARX_OPCODES: set<int> := {0x31, 0x33, 0x35, 0x01, 0x03, 0x05, 0xC1, 0xD1, 0xD3}

  function ArxCount(window: string): nat {
    if window == "" then 0
    else ArxCount(window[..|window| - 1]) + if window[|window| - 1] as int in ARX_OPCODES then 1 else 0
  }

  /** The positions at which an opcode that rotates, adds or exclusive-ors stands. */
  ghost function ArxPositions(window: string): set<int> {
    set i | 0 <= i < |window| && window[i] as int in {0x31, 0x33, 0x35, 0x01, 0x03, 0x05, 0xC1, 0xD1, 0xD3}
  }

  lemma {:induction false} ArxCountIs(window: string)
    ensures ArxCount(window) == |ArxPositions(window)|
  {
    if window != "" {
      var front, n := window[..|window| - 1], |window| - 1;
      ArxCountIs(front);
      assert ArxPositions(window) == ArxPositions(front) + if window[n] as int in ARX_OPCODES then {n} else {};
    }
  }

  /** At least 35% of the bytes are opcodes that rotate, add or exclusive-or. */
  function DenseInArx(): Flag {
    (window: string) => |window| > 0 && ArxCount(window) as real / |window| as real >= 0.35
  }

  lemma {:induction false} ProductIff(q: real, w: real)
    requires w > 0.0
    ensures q >= 0.35 <==> q * w >= 0.35 * w
  {
    if q < 0.35 {
      assert (0.35 - q) * w > 0.0;
    } else {
      assert (q - 0.35) * w >= 0.0;
    }
  }

  lemma {:induction false} QuotientTimes(p: real, w: real)
    requires w > 0.0
    ensures (p / w) * w == p
  {
  }

  lemma {:induction false} QuotientIff(p: real, w: real)
    requires w > 0.0
    ensures p / w >= 0.35 <==> p >= 0.35 * w
  {
    QuotientTimes(p, w);
    ProductIff(p / w, w);
  }

  lemma {:induction false} InHundredths(part: nat, whole: nat)
    ensures part as real >= 0.35 * whole as real <==> 100 * part >= 35 * whole
  {
  }

  lemma {:induction false} ShareIff(part: nat, whole: nat)
    requires whole > 0
    ensures part as real / whole as real >= 0.35 <==> 100 * part >= 35 * whole
  {
    QuotientIff(part as real, whole as real);
    InHundredths(part, whole);
  }

  /** A window is dense when at least 35 in 100 of its positions hold such an opcode. */
  lemma {:induction false} DenseIff(window: string)
    ensures DenseInArx()(window) <==> window != "" && 100 * |ArxPositions(window)| >= 35 * |window|
  {
    hide ArxCount;
    ArxCountIs(window);
    if window != "" {
      ShareIff(ArxCount(window), |window|);
    }
  }

  /** ARX extraction from binaries: windows of 64 bytes, 16 apart. */
  method ExtractArx(source: string, artifact: string) returns (spans: seq<Span>)
    ensures spans == ToSpans(MergeAll(FlaggedFrom(source, 64, 16, DenseInArx(), 0)),
                             artifact, "extract.arx.binary_opcode_density", "arx.binary_opcode_density")
    ensures Reports(spans, source, 64, 16, DenseInArx(),
                    artifact, "extract.arx.binary_opcode_density", "arx.binary_opcode_density")
  {
    SpansReport(source, 64, 16, DenseInArx(), artifact,
                "extract.arx.binary_opcode_density", "arx.binary_opcode_density");
    spans := [];
    if |source| < 64 {
      return;
    }
    var windows := ScanWindows(source, 64, 16, DenseInArx());
    if |windows| > 0 {
      var merged := MergeWindows(windows);
      for i := 0 to |merged|
        invariant spans == ToSpans(merged[..i], artifact,
                                   "extract.arx.binary_opcode_density", "arx.binary_opcode_density")
      {
        ToSpansOneMore(merged, i, artifact, "extract.arx.binary_opcode_density", "arx.binary_opcode_density");
        spans := spans + [ToSpan(merged[i], artifact,
                                 "extract.arx.binary_opcode_density", "arx.binary_opcode_density")];
      }
      assert merged[..|merged|] == merged;
    }
  }

  lemma {:induction false} SpansMass(ms: seq<Range>, artifact: string, rule: string, signal: string)
    ensures Mass(ToSpans(ms, artifact, rule, signal)) == Total(ms) as real
  {
    if ms != [] {
      var front, last := ms[..|ms| - 1], ms[|ms| - 1];
      SpansMass(front, artifact, rule, signal);
      MassConcat(ToSpans(front, artifact, rule, signal), [ToSpan(last, artifact, rule, signal)]);
      TotalOneMore(front, last);
      assert ms == front + [last];
      assert [ToSpan(last, artifact, rule, signal)][1..] == [];
    }
  }

  lemma {:induction false} TotalOneMore(ms: seq<Range>, r: Range)
    ensures Total(ms + [r]) == Total(ms) + (r.hi - r.lo)
  {
    if ms == [] {
      assert ms + [r] == [r] && [r][1..] == [];
    } else {
      TotalOneMore(ms[1..], r);
      assert (ms + [r])[1..] == ms[1..] + [r];
    }
  }

  /**
   The mass an extractor reports is the number of distinct bytes that lie in some flagged window.
   */
  lemma {:induction false} MassCountsFlaggedBytes(source: string, size: nat, step: nat, flag: Flag,
                               artifact: string, rule: string, signal: string)
    requires step > 0
    ensures var ms := MergeAll(FlaggedFrom(source, size, step, flag, 0));
            && Separated(ms)
            && (forall b :: b in Covered(ms) <==> InFlaggedWindow(source, size, step, flag, b))
            && Mass(ToSpans(ms, artifact, rule, signal)) == |Covered(ms)| as real
  {
    var ws := FlaggedFrom(source, size, step, flag, 0);
    var ms := MergeAll(ws);
    FlaggedOrdered(source, size, step, flag, 0);
    assert Sorted(ws);
    forall b ensures b in Covered(ms) <==> InFlaggedWindow(source, size, step, flag, b) {
      InCovered(ms, b);
      MergeIsExact(ws, b);
      FlaggedCover(source, size, step, flag, b);
    }
    MergeIsExact(ws, 0);
    TotalCounts(ms);
    SpansMass(ms, artifact, rule, signal);
  }
}
