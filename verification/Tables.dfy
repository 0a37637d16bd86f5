/**
 The table extractor on raw bytes: 256-byte windows that are permutations of the byte values, then
 runs of distinct 32-bit words that differ in many bits from their neighbours, at each of the four
 alignments.
 */
module Tables {
  import opened Prelude

  type Byte = bv8
  type Word = bv32

  datatype Kind = Bijection | ConstantWords

  datatype Table = Table(lo: nat, hi: nat, kind: Kind)

  // ----- Measures -----

  function BitsSet(x: Word, bits: nat): nat {
    if bits == 0 then 0 else (if x & 1 != 0 then 1 else 0) + BitsSet(x >> 1, bits - 1)
  }

  function TotalDistance(words: seq<Word>): nat {
    if |words| < 2 then 0
    else TotalDistance(words[..|words| - 1]) + BitsSet(words[|words| - 2] ^ words[|words| - 1], 32)
  }

  /** The mean number of bits in which neighbouring words differ. */
  function MeanDistance(words: seq<Word>): real {
    if |words| < 2 then 0.0 else TotalDistance(words) as real / (|words| - 1) as real
  }

  function Elements<T>(s: seq<T>): set<T> {
    set x | x in s
  }

  predicate IsPermutation(window: seq<Byte>) {
    |window| == 256 && |Elements(window)| == 256
  }

  function WordAt(source: seq<Byte>, at: nat): Word
    requires at + 4 <= |source|
  {
    (source[at] as bv32) | ((source[at + 1] as bv32) << 8)
    | ((source[at + 2] as bv32) << 16) | ((source[at + 3] as bv32) << 24)
  }

  /** The little-endian words of the source from an alignment on. */
  function WordsFrom(source: seq<Byte>, align: nat): (words: seq<Word>)
    requires align <= |source|
    ensures |words| == (|source| - align) / 4
  {
    seq((|source| - align) / 4, j requires 0 <= j < (|source| - align) / 4 => WordAt(source, align + 4 * j))
  }

  function CountNonAscii(words: seq<Word>): nat {
    if words == [] then 0 else CountNonAscii(words[1..]) + if words[0] & 0x80808080 != 0 then 1 else 0
  }

  function CountHighBit(words: seq<Word>): nat {
    if words == [] then 0 else CountHighBit(words[1..]) + if words[0] & 0x80000000 != 0 then 1 else 0
  }

  predicate AllLarge(words: seq<Word>) {
    forall w :: w in words ==> w >= 0x100
  }

  /** Eight words from k on look like the start of a constant table. */
  predicate Qualifies(words: seq<Word>, k: nat) {
    && k + 8 <= |words|
    && var candidate := words[k..k + 8];
    && CountNonAscii(candidate) >= 5 && CountHighBit(candidate) >= 2
    && |Elements(candidate)| == 8 && AllLarge(candidate) && MeanDistance(candidate) >= 12.0
  }

  /** The word after the run can join it. */
  predicate Extends(words: seq<Word>, k: nat, end: nat)
    requires k <= end < |words|
  {
    words[end] !in words[k..end] && words[end] >= 0x100 && MeanDistance(words[k..end + 1]) >= 11.0
  }

  /** What a reported run is: at least eight distinct words, none small, far apart on average. */
  ghost predicate IsRun(words: seq<Word>, k: nat, end: nat) {
    && k + 8 <= end <= |words|
    && Distinct(words[k..end]) && AllLarge(words[k..end]) && MeanDistance(words[k..end]) >= 11.0
  }

  /** A run that starts at a qualifying place and goes on to the first word that cannot join. */
  ghost predicate MaximalRun(words: seq<Word>, k: nat, end: nat) {
    && Qualifies(words, k) && IsRun(words, k, end)
    && (forall e :: k + 8 <= e < end ==> Extends(words, k, e))
    && (end < |words| ==> !Extends(words, k, end))
  }

  // ----- Distinctness from the size of a set -----

  lemma {:induction false} ElementsAtMost<T>(s: seq<T>)
    ensures |Elements(s)| <= |s|
  {
    if s == [] {
      assert Elements(s) == {};
    } else {
      ElementsAtMost(s[1..]);
      assert Elements(s) == {s[0]} + Elements(s[1..]);
    }
  }

  lemma {:induction false} FullSizeIsDistinct<T>(s: seq<T>)
    requires |Elements(s)| == |s|
    ensures Distinct(s)
  {
    if s != [] {
      var tail := s[1..];
      assert Elements(s) == {s[0]} + Elements(tail);
      ElementsAtMost(tail);
      assert s[0] !in Elements(tail);
      FullSizeIsDistinct(tail);
    }
  }

  // ----- Scanning for permutations -----

  predicate Overlaps(t: Table, lo: nat, hi: nat) {
    (if t.lo < lo then lo else t.lo) < (if t.hi < hi then t.hi else hi)
  }

  ghost predicate Disjoint(ts: seq<Table>) {
    forall i, j :: 0 <= i < j < |ts| ==> !Overlaps(ts[i], ts[j].lo, ts[j].hi)
  }

  predicate IsWindow(source: seq<Byte>, i: nat) {
    i + 256 <= |source| && IsPermutation(source[i..i + 256])
  }

  ghost predicate SomeOverlap(ts: seq<Table>, lo: nat, hi: nat) {
    exists t :: t in ts && Overlaps(t, lo, hi)
  }

  lemma {:induction false} DisjointAdd(before: seq<Table>, t: Table)
    requires Disjoint(before) && !SomeOverlap(before, t.lo, t.hi)
    ensures Disjoint(before + [t])
  {
  }

  /** Every permutation window that starts before the bound meets a table. */
  ghost predicate WindowsMet(source: seq<Byte>, ts: seq<Table>, bound: nat) {
    forall j: nat :: j < bound && IsWindow(source, j) ==> SomeOverlap(ts, j, j + 256)
  }

  lemma {:induction false} WindowsMetBy(source: seq<Byte>, before: seq<Table>, i: nat)
    requires WindowsMet(source, before, i)
    ensures WindowsMet(source, before + [Table(i, i + 256, Bijection)], i + 256)
  {
    var t := Table(i, i + 256, Bijection);
    var after := before + [t];
    forall j: nat | j < i + 256 && IsWindow(source, j) ensures SomeOverlap(after, j, j + 256) {
      if j < i {
        var u :| u in before && Overlaps(u, j, j + 256);
        assert u in after;
      } else {
        assert t in after && Overlaps(t, j, j + 256);
      }
    }
  }

  method ScanBijections(source: seq<Byte>) returns (ts: seq<Table>)
    ensures Disjoint(ts)
    ensures forall t :: t in ts ==> t.kind == Bijection && t.hi == t.lo + 256 && IsWindow(source, t.lo)
    ensures forall i: nat :: IsWindow(source, i) ==> SomeOverlap(ts, i, i + 256)
  {
    ts := [];
    var i := 0;
    while i + 256 <= |source|
      invariant Disjoint(ts)
      invariant forall t :: t in ts ==> t.kind == Bijection && t.hi == t.lo + 256 <= i && IsWindow(source, t.lo)
      invariant WindowsMet(source, ts, i)
      decreases |source| - i
    {
      if |Elements(source[i..i + 256])| == 256 {
        var t := Table(i, i + 256, Bijection);
        DisjointAdd(ts, t);
        WindowsMetBy(source, ts, i);
        ts := ts + [t];
        i := i + 256;
      } else {
        i := i + 1;
      }
    }
  }

  // ----- Scanning for word runs -----

  lemma {:induction false} RunExtends(words: seq<Word>, k: nat, end: nat)
    requires IsRun(words, k, end) && end < |words| && Extends(words, k, end)
    ensures IsRun(words, k, end + 1)
  {
    hide MeanDistance;
    assert words[k..end + 1] == words[k..end] + [words[end]];
  }

  method ExtendRun(words: seq<Word>, k: nat) returns (end: nat)
    requires Qualifies(words, k)
    ensures MaximalRun(words, k, end)
  {
    hide MeanDistance, Elements;
    end := k + 8;
    FullSizeIsDistinct(words[k..end]);
    while end < |words|
      invariant IsRun(words, k, end)
      invariant forall e :: k + 8 <= e < end ==> Extends(words, k, e)
    {
      if words[end] in words[k..end] || words[end] < 0x100 {
        break;
      }
      var extended := words[k..end + 1];
      if MeanDistance(extended) < 11.0 {
        break;
      }
      RunExtends(words, k, end);
      end := end + 1;
    }
  }

  /** The table holds a maximal run of the words at some alignment. */
  ghost predicate HoldsRun(source: seq<Byte>, t: Table) {
    exists align: nat, k: nat, end: nat ::
      align < 4 && align <= |source| && MaximalRun(WordsFrom(source, align), k, end)
      && t == Table(align + 4 * k, align + 4 * end, ConstantWords)
  }

  /** The qualifying place k lies in a maximal run whose bytes meet a reported table. */
  ghost predicate Absorbed(ts: seq<Table>, words: seq<Word>, align: nat, k: nat) {
    exists start: nat, end: nat ::
      start <= k < end && MaximalRun(words, start, end) && SomeOverlap(ts, align + 4 * start, align + 4 * end)
  }

  /** Adding the run unless it meets a table already there. */
  method AddUnlessOverlapping(before: seq<Table>, t: Table) returns (after: seq<Table>)
    requires Disjoint(before) && t.lo < t.hi
    ensures Disjoint(after) && SomeOverlap(after, t.lo, t.hi)
    ensures after == before || after == before + [t]
  {
    if exists s :: s in before && Overlaps(s, t.lo, t.hi) {
      return before;
    }
    after := before + [t];
    DisjointAdd(before, t);
    assert t in after && Overlaps(t, t.lo, t.hi);
  }

  /** Every qualifying place before the bound is absorbed. */
  ghost predicate AllAbsorbed(ts: seq<Table>, words: seq<Word>, align: nat, bound: nat) {
    forall k: nat :: k < bound && Qualifies(words, k) ==> Absorbed(ts, words, align, k)
  }

  lemma {:induction false} AllAbsorbedByMore(ts: seq<Table>, more: seq<Table>, words: seq<Word>, align: nat, bound: nat)
    requires AllAbsorbed(ts, words, align, bound) && ts <= more
    ensures AllAbsorbed(more, words, align, bound)
  {
  }

  lemma {:induction false} AllAbsorbedByRun(before: seq<Table>, after: seq<Table>, words: seq<Word>, align: nat,
                                            k: nat, end: nat)
    requires AllAbsorbed(before, words, align, k) && before <= after && MaximalRun(words, k, end)
    requires SomeOverlap(after, align + 4 * k, align + 4 * end)
    ensures AllAbsorbed(after, words, align, end)
  {
  }

  /** Extending the run at a qualifying place, and reporting it unless it meets a table. */
  method TakeRun(source: seq<Byte>, align: nat, words: seq<Word>, k: nat, before: seq<Table>)
    returns (after: seq<Table>, end: nat)
    requires align < 4 && align <= |source| && words == WordsFrom(source, align)
    requires Qualifies(words, k) && Disjoint(before) && AllAbsorbed(before, words, align, k)
    ensures k < end <= |words| && Disjoint(after) && before <= after && AllAbsorbed(after, words, align, end)
    ensures forall t :: t in after ==> t in before || HoldsRun(source, t)
  {
    end := ExtendRun(words, k);
    var t := Table(align + 4 * k, align + 4 * end, ConstantWords);
    after := AddUnlessOverlapping(before, t);
    assert HoldsRun(source, t);
    AllAbsorbedByRun(before, after, words, align, k, end);
  }

  lemma {:induction false} NothingQualifiesLater(ts: seq<Table>, words: seq<Word>, align: nat, k: nat, bound: nat)
    requires AllAbsorbed(ts, words, align, k) && k + 8 > |words|
    ensures AllAbsorbed(ts, words, align, bound)
  {
  }

  lemma {:induction false} NothingBefore(ts: seq<Table>, words: seq<Word>, align: nat)
    ensures AllAbsorbed(ts, words, align, 0)
  {
  }

  lemma {:induction false} OneMorePlace(ts: seq<Table>, words: seq<Word>, align: nat, k: nat)
    requires AllAbsorbed(ts, words, align, k) && !Qualifies(words, k)
    ensures AllAbsorbed(ts, words, align, k + 1)
  {
    hide Qualifies, Absorbed;
  }

  method ScanAlignment(source: seq<Byte>, align: nat, before: seq<Table>) returns (after: seq<Table>)
    requires align < 4 && align <= |source| && Disjoint(before)
    ensures Disjoint(after) && before <= after
    ensures forall t :: t in after ==> t in before || HoldsRun(source, t)
    ensures AllAbsorbed(after, WordsFrom(source, align), align, |source|)
  {
    hide Qualifies, AllAbsorbed, HoldsRun, Disjoint, WordsFrom;
    var words := WordsFrom(source, align);
    after := before;
    NothingBefore(after, words, align);
    var k := 0;
    while k + 8 <= |words|
      invariant Disjoint(after) && before <= after
      invariant forall t :: t in after ==> t in before || HoldsRun(source, t)
      invariant AllAbsorbed(after, words, align, k)
      decreases |words| - k
    {
      if Qualifies(words, k) {
        after, k := TakeRun(source, align, words, k, after);
      } else {
        OneMorePlace(after, words, align, k);
        k := k + 1;
      }
    }
    NothingQualifiesLater(after, words, align, k, |source|);
  }

  /**
   Steps 1 and 2 of the extractor. The ranges are pairwise disjoint and within the source; a bijection
   is a permutation window and a word table a maximal run; every permutation window overlaps a reported
   bijection; every qualifying place lies in a run that meets a reported table.
   */
  method ExtractTables(source: seq<Byte>) returns (ts: seq<Table>)
    ensures Disjoint(ts) && forall t :: t in ts ==> t.lo < t.hi <= |source|
    ensures forall t :: t in ts ==> if t.kind == Bijection then t.hi == t.lo + 256 && IsWindow(source, t.lo)
                                    else HoldsRun(source, t)
    ensures forall i: nat :: IsWindow(source, i) ==>
              exists t :: t in ts && t.kind == Bijection && Overlaps(t, i, i + 256)
    ensures forall align: nat :: align < 4 && align <= |source| ==>
              AllAbsorbed(ts, WordsFrom(source, align), align, |source|)
  {
    hide HoldsRun, WordsFrom, AllAbsorbed, SomeOverlap, IsWindow, Disjoint;
    ts := ScanBijections(source);
    ghost var windows := ts;
    var align := 0;
    while align < 4 && align <= |source|
      invariant align <= 4
      invariant Disjoint(ts) && windows <= ts
      invariant forall t :: t in ts ==> t in windows || HoldsRun(source, t)
      invariant forall a: nat :: a < align && a <= |source| ==> AllAbsorbed(ts, WordsFrom(source, a), a, |source|)
    {
      ghost var before := ts;
      ts := ScanAlignment(source, align, ts);
      forall a: nat | a < align && a <= |source| ensures AllAbsorbed(ts, WordsFrom(source, a), a, |source|) {
        AllAbsorbedByMore(before, ts, WordsFrom(source, a), a, |source|);
      }
      align := align + 1;
    }
    TablesAreAsFound(source, windows, ts);
  }

  /** The windows found first, followed by tables that hold runs. */
  lemma {:induction false} TablesAreAsFound(source: seq<Byte>, windows: seq<Table>, ts: seq<Table>)
    requires windows <= ts && forall t :: t in ts ==> t in windows || HoldsRun(source, t)
    requires forall t :: t in windows ==> t.kind == Bijection && t.hi == t.lo + 256 && IsWindow(source, t.lo)
    requires forall i: nat :: IsWindow(source, i) ==> SomeOverlap(windows, i, i + 256)
    ensures forall t :: t in ts ==> t.lo < t.hi <= |source|
    ensures forall t :: t in ts ==> if t.kind == Bijection then t.hi == t.lo + 256 && IsWindow(source, t.lo)
                                    else HoldsRun(source, t)
    ensures forall i: nat :: IsWindow(source, i) ==>
              exists t :: t in ts && t.kind == Bijection && Overlaps(t, i, i + 256)
  {
  }
}
