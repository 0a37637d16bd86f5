/**
 When the extraction loop ends. Where the offset need not grow, it ends exactly when no state comes
 round again, and then within a bound that depends on the archive's length and the file limit only.
 */
module LoopTermination {
  import opened Prelude
  import opened ArchiveLoop

  /** Members are only read between minus the archive's length and its length. */
  ghost predicate InRange(r: Reader) {
    forall o :: r.step(o).Advance? ==> 0 <= o + r.length < 2 * r.length
  }

  // ----- Following the loop -----

  lemma {:induction false} AfterAdds(r: Reader, s: State, j: nat, k: nat)
    ensures After(r, s, j + k) == After(r, After(r, s, j), k)
    decreases j
  {
    hide Turn;
    if j > 0 {
      match Turn(r, s)
      case Some(t) => AfterAdds(r, t, j - 1, k);
      case None => OverStays(r, s, 0, j + k); OverStays(r, s, 0, k);
    }
  }

  lemma {:induction false} FilesGrow(r: Reader, s: State, k: nat)
    ensures s.files <= After(r, s, k).files
    decreases k
  {
    if k > 0 && Turn(r, s).Some? {
      FilesGrow(r, Turn(r, s).value, k - 1);
    }
  }

  lemma {:induction false} TurnInRange(r: Reader, s: State)
    requires InRange(r) && Turn(r, s).Some?
    ensures 0 <= s.offset + r.length < 2 * r.length && |s.files| < r.maxFiles
  {
  }

  // ----- More turns than states -----

  function Numbers(c: seq<int>): (r: set<int>)
    ensures forall x :: x in r <==> x in c
  {
    set x | x in c
  }

  lemma {:induction false} DistinctNumbers(c: seq<int>)
    requires Distinct(c)
    ensures |Numbers(c)| == |c|
  {
    if c == [] {
      assert Numbers(c) == {};
    } else {
      var front, last := c[..|c| - 1], c[|c| - 1];
      DistinctNumbers(front);
      assert last !in front && forall x :: x in c <==> x == last || x in front;
      assert Numbers(c) == Numbers(front) + {last};
    }
  }

  function Below(bound: nat): (r: set<int>)
    ensures |r| == bound && forall x :: x in r <==> 0 <= x < bound
  {
    if bound == 0 then {} else Below(bound - 1) + {bound - 1}
  }

  lemma {:induction false} DistinctAtMost(c: seq<int>, bound: nat)
    requires Distinct(c) && forall i :: 0 <= i < |c| ==> 0 <= c[i] < bound
    ensures |c| <= bound
  {
    DistinctNumbers(c);
    SubsetSize(Numbers(c), Below(bound));
  }

  /** A number for the offset and the file count. */
  function Code(r: Reader, s: State): int {
    (s.offset + r.length) * r.maxFiles + |s.files|
  }

  /** How many states the loop can leave. */
  function TurnBound(r: Reader): nat {
    2 * r.length * Max(0, r.maxFiles)
  }

  lemma {:induction false} MultiplesApart(m: nat, a: nat, b: nat)
    requires a < b
    ensures a * m + m <= b * m
  {
    assert (a + 1) * m <= b * m;
  }

  lemma {:induction false} DigitsUnique(m: nat, a: nat, b: nat, c: nat, d: nat)
    requires b < m && d < m && a * m + b == c * m + d
    ensures a == c && b == d
  {
    if a < c {
      MultiplesApart(m, a, c);
    } else if c < a {
      MultiplesApart(m, c, a);
    }
  }

  lemma {:induction false} CodeBelow(m: nat, n: nat, a: nat, b: nat)
    requires a < n && b < m
    ensures a * m + b < n * m
  {
    MultiplesApart(m, a, n);
  }

  lemma {:induction false} CodeInRange(r: Reader, s: State)
    requires InRange(r)
    requires Turn(r, s).Some?
    ensures 0 <= Code(r, s) < TurnBound(r)
  {
    hide Turn;
    TurnInRange(r, s);
    CodeBelow(r.maxFiles, 2 * r.length, s.offset + r.length, |s.files|);
    assert 0 <= (s.offset + r.length) * r.maxFiles;
  }

  lemma {:induction false} CodeTells(r: Reader, s: State, t: State)
    requires InRange(r)
    requires Turn(r, s).Some? && Turn(r, t).Some? && Code(r, s) == Code(r, t)
    ensures s.offset == t.offset && |s.files| == |t.files|
  {
    hide Turn;
    TurnInRange(r, s);
    TurnInRange(r, t);
    DigitsUnique(r.maxFiles, s.offset + r.length, |s.files|, t.offset + r.length, |t.files|);
  }

  // ----- States that come round again -----

  /** The loop is in the same state after i and after j turns, and has not ended. */
  predicate Recurs(r: Reader, i: nat, j: nat) {
    i < j && Turn(r, After(r, START, i)).Some? && After(r, START, i) == After(r, START, j)
  }

  /** The turns of m rounds of p turns each. */
  function Rounds(p: nat, m: nat): (k: nat)
    ensures p > 0 ==> k >= m
  {
    if m == 0 then 0 else p + Rounds(p, m - 1)
  }

  lemma {:induction false} AfterNone(r: Reader, s: State)
    ensures After(r, s, 0) == s
  {
  }

  lemma {:induction false} AfterRounds(r: Reader, s: State, p: nat, m: nat)
    requires After(r, s, p) == s
    ensures After(r, s, Rounds(p, m)) == s
  {
    hide Turn, After;
    if m == 0 {
      AfterNone(r, s);
    } else {
      AfterRounds(r, s, p, m - 1);
      AfterAdds(r, s, p, Rounds(p, m - 1));
    }
  }

  lemma {:induction false} RoundNeverEnds(r: Reader, s: State, p: nat)
    requires p > 0 && After(r, s, p) == s && Turn(r, s).Some?
    ensures !Ends(r, s)
  {
    hide Turn, After;
    forall k: nat ensures !OverBy(r, s, k) {
      if OverBy(r, s, k) {
        AfterRounds(r, s, p, k);
        OverStays(r, s, k, Rounds(p, k));
      }
    }
  }

  lemma {:induction false} StillGoing(r: Reader, j: nat, k: nat)
    requires !OverBy(r, START, k) && j <= k
    ensures !OverBy(r, START, j)
  {
    hide Turn, After;
    if OverBy(r, START, j) {
      OverStays(r, START, j, k);
    }
  }

  lemma {:induction false} SameCodeRecurs(r: Reader, i: nat, j: nat)
    requires InRange(r)
    requires i < j && !OverBy(r, START, j) && Code(r, After(r, START, i)) == Code(r, After(r, START, j))
    ensures Recurs(r, i, j)
  {
    hide Turn, After, Code;
    var s, t := After(r, START, i), After(r, START, j);
    StillGoing(r, i, j);
    CodeTells(r, s, t);
    AfterAdds(r, START, i, j - i);
    FilesGrow(r, s, j - i);
    assert s.files == t.files;
  }

  lemma {:induction false} LongRunRecurs(r: Reader) returns (i: nat, j: nat)
    requires InRange(r)
    requires !OverBy(r, START, TurnBound(r))
    ensures Recurs(r, i, j)
  {
    hide Turn, After, Code, OverBy, Recurs;
    var n := TurnBound(r) + 1;
    var codes := seq(n, k requires 0 <= k < n => Code(r, After(r, START, k)));
    forall k | 0 <= k < n ensures 0 <= codes[k] < TurnBound(r) {
      StillGoing(r, k, TurnBound(r));
      CodeWhileGoing(r, k);
    }
    if Distinct(codes) {
      DistinctAtMost(codes, TurnBound(r));
      assert false;
    }
    i, j :| 0 <= i < j < n && codes[i] == codes[j];
    StillGoing(r, j, TurnBound(r));
    SameCodeRecurs(r, i, j);
  }

  lemma {:induction false} CodeWhileGoing(r: Reader, k: nat)
    requires InRange(r)
    requires !OverBy(r, START, k)
    ensures 0 <= Code(r, After(r, START, k)) < TurnBound(r)
  {
    hide Turn, After, Code, TurnBound;
    CodeInRange(r, After(r, START, k));
  }

  lemma {:induction false} OverLater(r: Reader, s: State, i: nat, k: nat)
    requires OverBy(r, s, k)
    ensures OverBy(r, After(r, s, i), k)
  {
    hide Turn, After;
    OverStays(r, s, k, i + k);
    AfterAdds(r, s, i, k);
  }

  lemma {:induction false} RecurringNeverEnds(r: Reader, i: nat, j: nat)
    requires Recurs(r, i, j)
    ensures !Ends(r, START)
  {
    hide Turn, After;
    var s := After(r, START, i);
    AfterAdds(r, START, i, j - i);
    RoundNeverEnds(r, s, j - i);
    forall k: nat ensures !OverBy(r, START, k) {
      if OverBy(r, START, k) {
        OverLater(r, START, i, k);
      }
    }
  }

  /** The loop ends exactly when no state comes round again. */
  lemma {:induction false} EndsIffNothingRecurs(r: Reader)
    requires InRange(r)
    ensures Ends(r, START) <==> !exists i: nat, j: nat :: Recurs(r, i, j)
  {
    hide Turn, After, Recurs, OverBy;
    if i: nat, j: nat :| Recurs(r, i, j) {
      RecurringNeverEnds(r, i, j);
    } else {
      if !OverBy(r, START, TurnBound(r)) {
        var i, j := LongRunRecurs(r);
      }
    }
  }

  /** If it ends at all, it ends within the bound: a caller can tell by counting turns. */
  lemma {:induction false} EndsIffWithinBound(r: Reader)
    requires InRange(r)
    ensures Ends(r, START) <==> OverBy(r, START, TurnBound(r))
  {
    hide Turn, After, Recurs, OverBy;
    if !OverBy(r, START, TurnBound(r)) {
      var i, j := LongRunRecurs(r);
      RecurringNeverEnds(r, i, j);
    }
  }

  // ----- Steps that lead forward -----

  lemma {:induction false} ForwardEnds(r: Reader, s: State, distance: nat)
    requires 0 <= s.offset && r.length <= s.offset + distance
    requires forall o: nat :: r.step(o).Advance? ==> o < r.step(o).next
    ensures Ends(r, s)
    decreases distance
  {
    hide Ends;
    if Turn(r, s).Some? {
      var t := Turn(r, s).value;
      assert s.offset < t.offset;
      ForwardEnds(r, t, distance - 1);
      FinalBeforeTurn(r, s, t);
    } else {
      FinalHere(r, s);
    }
  }
}
