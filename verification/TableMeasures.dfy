/** What the measures of the table extractor count, said by positions instead of by masks and shifts. */
module TableMeasures {
  import opened Prelude
  import opened Tables

  // ----- Bits -----

  predicate Odd(x: Word) {
    x & 1 != 0
  }

  function Half(x: Word): Word {
    x >> 1
  }

  /** Whether the bit at a position is set, the lowest position being 0. */
  predicate HasBit(x: Word, k: nat) {
    if k == 0 then Odd(x) else HasBit(Half(x), k - 1)
  }

  lemma {:induction false} BitsSetStep(x: Word, n: nat)
    ensures BitsSet(x, n + 1) == (if Odd(x) then 1 else 0) + BitsSet(Half(x), n)
    ensures BitsSet(x, 0) == 0
  {
  }

  lemma {:induction false} BitsSetTop(x: Word, n: nat)
    ensures BitsSet(x, n + 1) == BitsSet(x, n) + if HasBit(x, n) then 1 else 0
    decreases n
  {
    hide Odd, Half, BitsSet;
    BitsSetStep(x, n);
    BitsSetStep(Half(x), 0);
    if n > 0 {
      BitsSetTop(Half(x), n - 1);
      BitsSetStep(x, n - 1);
    }
  }

  function Xor(x: Word, y: Word): Word {
    x ^ y
  }

  lemma {:induction false} HalfOfXor(x: Word, y: Word)
    ensures Half(Xor(x, y)) == Xor(Half(x), Half(y)) && (Odd(Xor(x, y)) <==> Odd(x) != Odd(y))
  {
  }

  lemma {:induction false} HasBitXor(x: Word, y: Word, k: nat)
    ensures HasBit(Xor(x, y), k) <==> HasBit(x, k) != HasBit(y, k)
    decreases k
  {
    hide Odd, Half, Xor;
    HalfOfXor(x, y);
    if k > 0 {
      HasBitXor(Half(x), Half(y), k - 1);
    }
  }

  /** The positions below n at which two words differ. */
  ghost function Differing(x: Word, y: Word, n: nat): set<int> {
    set k: nat | k < n && HasBit(x, k) != HasBit(y, k)
  }

  /** The distance of two words is the number of bit positions at which they differ. */
  lemma {:induction false} DistanceIs(x: Word, y: Word, n: nat)
    ensures BitsSet(Xor(x, y), n) == |Differing(x, y, n)|
    decreases n
  {
    hide HasBit, Xor, BitsSet;
    if n == 0 {
      assert Differing(x, y, 0) == {};
      BitsSetStep(Xor(x, y), 0);
    } else {
      DistanceIs(x, y, n - 1);
      BitsSetTop(Xor(x, y), n - 1);
      HasBitXor(x, y, n - 1);
      DifferingTop(x, y, n - 1);
    }
  }

  lemma {:induction false} DifferingTop(x: Word, y: Word, n: nat)
    ensures |Differing(x, y, n + 1)| == |Differing(x, y, n)| + if HasBit(x, n) != HasBit(y, n) then 1 else 0
  {
    hide HasBit;
    assert Differing(x, y, n + 1) == Differing(x, y, n) + if HasBit(x, n) != HasBit(y, n) then {n} else {};
  }

  /** Where neighbouring words differ: the first of the two, and the bit position. */
  ghost function Changes(words: seq<Word>): set<(int, int)> {
    set i, k | 0 <= i < |words| - 1 && k in Differing(words[i], words[i + 1], 32) :: (i, k)
  }

  lemma {:induction false} InChanges(words: seq<Word>, i: int, k: int)
    ensures (i, k) in Changes(words) <==> 0 <= i < |words| - 1 && k in Differing(words[i], words[i + 1], 32)
  {
  }

  function Paired<T>(i: int, ks: set<T>): set<(int, T)> {
    set k | k in ks :: (i, k)
  }

  lemma {:induction false} PairedSize<T>(i: int, ks: set<T>)
    ensures |Paired(i, ks)| == |ks|
  {
    if ks == {} {
      assert Paired(i, ks) == {};
    } else {
      var k :| k in ks;
      PairedSize(i, ks - {k});
      assert Paired(i, ks) == Paired(i, ks - {k}) + {(i, k)};
    }
  }

  lemma {:induction false} InPaired<T>(j: int, ks: set<T>, i: int, k: T)
    ensures (i, k) in Paired(j, ks) <==> i == j && k in ks
  {
  }

  lemma {:induction false} ChangesSplit(words: seq<Word>)
    requires |words| >= 2
    ensures var ks := Differing(words[|words| - 2], words[|words| - 1], 32);
            && Changes(words) == Changes(words[..|words| - 1]) + Paired(|words| - 2, ks)
            && Changes(words[..|words| - 1]) !! Paired(|words| - 2, ks)
  {
    hide Differing, Changes, Paired;
    var n := |words|;
    var front, ks := words[..n - 1], Differing(words[n - 2], words[n - 1], 32);
    forall p: (int, int)
      ensures p in Changes(words) <==> p in Changes(front) || p in Paired(n - 2, ks)
      ensures !(p in Changes(front) && p in Paired(n - 2, ks))
    {
      assert p == (p.0, p.1);
      InChanges(words, p.0, p.1);
      InChanges(front, p.0, p.1);
      InPaired(n - 2, ks, p.0, p.1);
    }
  }

  lemma {:induction false} ChangesOneMore(words: seq<Word>)
    requires |words| >= 2
    ensures |Changes(words)| == |Changes(words[..|words| - 1])|
                                + |Differing(words[|words| - 2], words[|words| - 1], 32)|
  {
    hide Differing, Changes, Paired;
    ChangesSplit(words);
    PairedSize(|words| - 2, Differing(words[|words| - 2], words[|words| - 1], 32));
  }

  lemma {:induction false} TotalStep(words: seq<Word>)
    ensures |words| >= 2 ==>
              TotalDistance(words)
              == TotalDistance(words[..|words| - 1]) + BitsSet(Xor(words[|words| - 2], words[|words| - 1]), 32)
    ensures |words| < 2 ==> TotalDistance(words) == 0
  {
  }

  /** The total distance of a run counts the bit positions in which neighbours differ. */
  lemma {:induction false} TotalDistanceIs(words: seq<Word>)
    ensures TotalDistance(words) == |Changes(words)|
  {
    hide BitsSet, TotalDistance, Xor, Differing;
    TotalStep(words);
    if |words| < 2 {
      assert Changes(words) == {};
    } else {
      TotalDistanceIs(words[..|words| - 1]);
      ChangesOneMore(words);
      DistanceIs(words[|words| - 2], words[|words| - 1], 32);
    }
  }

  lemma {:induction false} QuotientIff(a: real, b: real, m: real)
    requires b > 0.0
    ensures a / b >= m <==> a >= m * b
  {
    assert (a / b) * b == a;
    if a / b < m {
      assert (m - a / b) * b > 0.0;
    } else {
      assert (a / b - m) * b >= 0.0;
    }
  }

  /** The mean distance reaches m exactly when that many positions differ for every pair of neighbours. */
  lemma {:induction false} MeanDistanceIff(words: seq<Word>, m: real)
    requires |words| >= 2
    ensures MeanDistance(words) >= m <==> |Changes(words)| as real >= m * (|words| - 1) as real
  {
    hide TotalDistance, Changes;
    TotalDistanceIs(words);
    QuotientIff(TotalDistance(words) as real, (|words| - 1) as real, m);
  }

  // ----- Words and their bytes -----

  /** The byte at place b of a word, the lowest place being 0. */
  function ByteOf(x: Word, b: nat): Word
    requires b < 4
  {
    if b == 0 then x & 0xFF else if b == 1 then (x >> 8) & 0xFF else if b == 2 then (x >> 16) & 0xFF else x >> 24
  }

  function Widened(b: Byte): Word {
    b as bv32
  }

  /** Four bytes put together, the first in the lowest place. */
  function Assembled(a: Byte, b: Byte, c: Byte, d: Byte): Word {
    Widened(a) | (Widened(b) << 8) | (Widened(c) << 16) | (Widened(d) << 24)
  }

  lemma {:induction false} BytesOfAssembled(a: Byte, b: Byte, c: Byte, d: Byte)
    ensures ByteOf(Assembled(a, b, c, d), 0) == Widened(a) && ByteOf(Assembled(a, b, c, d), 1) == Widened(b)
    ensures ByteOf(Assembled(a, b, c, d), 2) == Widened(c) && ByteOf(Assembled(a, b, c, d), 3) == Widened(d)
  {
  }

  lemma {:induction false} WordAtIs(source: seq<Byte>, at: nat)
    requires at + 4 <= |source|
    ensures WordAt(source, at) == Assembled(source[at], source[at + 1], source[at + 2], source[at + 3])
  {
  }

  /** Words are little-endian: the byte at place b of word j is the one b after its start. */
  lemma {:induction false} WordsAreLittleEndian(source: seq<Byte>, align: nat, j: nat, b: nat)
    requires align <= |source| && j < |WordsFrom(source, align)| && b < 4
    ensures align + 4 * j + b < |source|
    ensures ByteOf(WordsFrom(source, align)[j], b) == Widened(source[align + 4 * j + b])
  {
    hide ByteOf, WordAt, Assembled, Widened;
    var at := align + 4 * j;
    assert WordsFrom(source, align)[j] == WordAt(source, at);
    WordAtIs(source, at);
    BytesOfAssembled(source[at], source[at + 1], source[at + 2], source[at + 3]);
  }

  // ----- The start of a run -----

  /** Some byte of the word is not an ASCII character. */
  predicate HasHighByte(x: Word) {
    exists b :: 0 <= b < 4 && ByteOf(x, b) >= 0x80
  }

  lemma {:induction false} HighBytes(x: Word)
    ensures x & 0x80808080 != 0 <==> HasHighByte(x)
    ensures x & 0x80000000 != 0 <==> ByteOf(x, 3) >= 0x80
  {
    hide ByteOf;
    assert HasHighByte(x)
      <==> ByteOf(x, 0) >= 0x80 || ByteOf(x, 1) >= 0x80 || ByteOf(x, 2) >= 0x80 || ByteOf(x, 3) >= 0x80;
    HighBit(x);
  }

  lemma {:induction false} HighBit(x: Word)
    ensures x & 0x80808080 != 0
       <==> ByteOf(x, 0) >= 0x80 || ByteOf(x, 1) >= 0x80 || ByteOf(x, 2) >= 0x80 || ByteOf(x, 3) >= 0x80
    ensures x & 0x80000000 != 0 <==> ByteOf(x, 3) >= 0x80
  {
  }

  /** The word's highest byte is not an ASCII character. */
  predicate HasHighestByte(x: Word) {
    ByteOf(x, 3) >= 0x80
  }

  ghost function Places(words: seq<Word>, p: Word -> bool): set<int> {
    set i | 0 <= i < |words| && p(words[i])
  }

  lemma {:induction false} PlacesLast(words: seq<Word>, p: Word -> bool)
    requires words != []
    ensures |Places(words, p)| == |Places(words[..|words| - 1], p)| + if p(words[|words| - 1]) then 1 else 0
  {
    var front, n := words[..|words| - 1], |words| - 1;
    assert Places(words, p) == Places(front, p) + if p(words[n]) then {n} else {};
  }

  lemma {:induction false} CountsLast(words: seq<Word>, x: Word)
    ensures CountNonAscii(words + [x]) == CountNonAscii(words) + if HasHighByte(x) then 1 else 0
    ensures CountHighBit(words + [x]) == CountHighBit(words) + if HasHighestByte(x) then 1 else 0
    decreases |words|
  {
    hide ByteOf, HasHighByte;
    HighBytes(x);
    if words == [] {
      assert [] + [x] == [x] && [x][1..] == [];
    } else {
      CountsLast(words[1..], x);
      assert (words + [x])[0] == words[0] && (words + [x])[1..] == words[1..] + [x];
    }
  }

  lemma {:induction false} CountsAre(words: seq<Word>)
    ensures CountNonAscii(words) == |Places(words, w => HasHighByte(w))|
    ensures CountHighBit(words) == |Places(words, w => HasHighestByte(w))|
  {
    hide HasHighByte, HasHighestByte;
    if words == [] {
      assert Places(words, w => HasHighByte(w)) == {} == Places(words, w => HasHighestByte(w));
    } else {
      var front, last := words[..|words| - 1], words[|words| - 1];
      CountsAre(front);
      CountsLast(front, last);
      assert words == front + [last];
      PlacesLast(words, w => HasHighByte(w));
      PlacesLast(words, w => HasHighestByte(w));
    }
  }

  lemma {:induction false} DistinctIsFullSize<T>(s: seq<T>)
    requires Distinct(s)
    ensures |Elements(s)| == |s|
  {
    if s == [] {
      assert Elements(s) == {};
    } else {
      DistinctIsFullSize(s[1..]);
      assert Elements(s) == {s[0]} + Elements(s[1..]) && s[0] !in s[1..];
    }
  }

  lemma {:induction false} AllLargeIff(words: seq<Word>)
    ensures AllLarge(words) <==> forall i :: 0 <= i < |words| ==> words[i] >= 0x100
  {
    if AllLarge(words) {
      forall i | 0 <= i < |words| ensures words[i] >= 0x100 {
        assert words[i] in words;
      }
    }
  }

  /**
   A run begins where of eight distinct words, each at least 0x100, five hold a byte that is not ASCII, two in
   their highest place, and neighbours differ in 84 bit positions or more, twelve for each of the seven pairs.
   */
  lemma {:induction false} QualifiesIff(words: seq<Word>, k: nat)
    requires k + 8 <= |words|
    ensures var eight := words[k..k + 8];
            Qualifies(words, k) <==>
              && |Places(eight, w => HasHighByte(w))| >= 5 && |Places(eight, w => HasHighestByte(w))| >= 2
              && Distinct(eight) && (forall i :: 0 <= i < 8 ==> eight[i] >= 0x100)
              && |Changes(eight)| >= 84
  {
    hide CountNonAscii, CountHighBit, MeanDistance, Changes, HasHighByte, HasHighestByte, Elements;
    var eight := words[k..k + 8];
    CountsAre(eight);
    MeanDistanceIff(eight, 12.0);
    if |Elements(eight)| == 8 {
      FullSizeIsDistinct(eight);
    }
    if Distinct(eight) {
      DistinctIsFullSize(eight);
    }
    AllLargeIff(eight);
  }

  /** A reported run has at least eight distinct words, each at least 0x100, and neighbours differ in at least
      eleven bit positions for each pair; it goes on to the first word with which that would end. */
  lemma {:induction false} RunMeasures(words: seq<Word>, k: nat, end: nat)
    requires MaximalRun(words, k, end)
    ensures 8 <= end - k && |Changes(words[k..end])| >= 11 * (end - k - 1)
    ensures end < |words| ==>
              || words[end] in words[k..end] || words[end] < 0x100
              || |Changes(words[k..end + 1])| < 11 * (end - k)
  {
    hide MeanDistance, Changes, Qualifies;
    MeanDistanceIff(words[k..end], 11.0);
    if end < |words| {
      MeanDistanceIff(words[k..end + 1], 11.0);
    }
  }
}
