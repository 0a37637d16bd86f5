/**
 The extraction loop, for any way of reading one archive member at an offset. Offsets are integers:
 nothing here makes them grow.
 */
module ArchiveLoop {
  import opened Prelude

  type File = (string, string)

  /** What reading a member gives: the end of the archive, or the member and where the next one is. */
  datatype Step =
    | Stop
    | Advance(rawName: string, fileSize: int, content: string, next: int)

  datatype Reader = Reader(length: nat, step: int -> Step, clean: string -> Option<string>,
                           maxFiles: int, maxBytes: int)

  datatype State = State(offset: int, files: seq<File>)

  const START := State(0, [])

  /** The file a member yields: none when its name is not acceptable or its size not positive. */
  function Yield(clean: string -> Option<string>, rawName: string, fileSize: int, content: string): (r: seq<File>)
    ensures |r| <= 1
  {
    var name := clean(rawName);
    if name.Some? && name.value != "" && fileSize > 0 then [(name.value, content)] else []
  }

  function Bytes(files: seq<File>): nat {
    if files == [] then 0 else Bytes(files[..|files| - 1]) + |files[|files| - 1].1|
  }

  lemma {:induction false} BytesOneMore(files: seq<File>, file: File)
    ensures Bytes(files + [file]) == Bytes(files) + |file.1|
  {
  }

  // ----- One turn at a time -----

  /** The state after one more turn, or None when the loop ends in this state. */
  function Turn(r: Reader, s: State): Option<State> {
    if s.offset >= r.length || |s.files| >= r.maxFiles || Bytes(s.files) >= r.maxBytes then None
    else
      match r.step(s.offset)
      case Stop => None
      case Advance(rawName, fileSize, content, next) =>
        Some(State(next, s.files + Yield(r.clean, rawName, fileSize, content)))
  }

  /** The state after k turns, or fewer when the loop ends before. */
  function After(r: Reader, s: State, k: nat): State
    decreases k
  {
    if k == 0 then s else match Turn(r, s) case Some(t) => After(r, t, k - 1) case None => s
  }

  predicate OverBy(r: Reader, s: State, k: nat) {
    Turn(r, After(r, s, k)).None?
  }

  ghost predicate Ends(r: Reader, s: State) {
    exists k: nat :: OverBy(r, s, k)
  }

  ghost function Final(r: Reader, s: State): State
    requires Ends(r, s)
  {
    var k: nat :| OverBy(r, s, k); After(r, s, k)
  }

  /** What a terminating extraction returns. */
  ghost function Extract(r: Reader): seq<File>
    requires Ends(r, START)
  {
    Final(r, START).files
  }

  lemma {:induction false} OverStays(r: Reader, s: State, j: nat, k: nat)
    requires OverBy(r, s, j) && j <= k
    ensures After(r, s, k) == After(r, s, j)
    decreases j
  {
    hide Turn;
    if Turn(r, s).Some? {
      OverStays(r, Turn(r, s).value, j - 1, k - 1);
    }
  }

  lemma {:induction false} FinalIs(r: Reader, s: State, k: nat)
    requires OverBy(r, s, k)
    ensures Ends(r, s) && Final(r, s) == After(r, s, k)
  {
    hide Turn, After;
    assert Ends(r, s);
    var j: nat :| OverBy(r, s, j) && Final(r, s) == After(r, s, j);
    OverStays(r, s, if j < k then j else k, if j < k then k else j);
  }

  lemma {:induction false} FinalHere(r: Reader, s: State)
    requires Turn(r, s).None?
    ensures Ends(r, s) && Final(r, s) == s
  {
    hide Turn, Final;
    FinalIs(r, s, 0);
  }

  lemma {:induction false} FinalAfterTurn(r: Reader, s: State, k: nat)
    requires OverBy(r, s, k) && Turn(r, s).Some?
    ensures k > 0 && OverBy(r, Turn(r, s).value, k - 1)
    ensures Ends(r, s) && Ends(r, Turn(r, s).value) && Final(r, s) == Final(r, Turn(r, s).value)
  {
    hide Turn, Final;
    FinalIs(r, s, k);
    FinalIs(r, Turn(r, s).value, k - 1);
  }

  lemma {:induction false} FinalBeforeTurn(r: Reader, s: State, t: State)
    requires Turn(r, s) == Some(t) && Ends(r, t)
    ensures Ends(r, s) && Final(r, s) == Final(r, t)
  {
    hide Turn, Final;
    var k: nat :| OverBy(r, t, k);
    assert After(r, s, k + 1) == After(r, t, k);
    FinalAfterTurn(r, s, k + 1);
  }

  // ----- Limits -----

  predicate WithinLimits(files: seq<File>, maxFiles: int, maxBytes: int) {
    |files| <= maxFiles && (files != [] ==> Bytes(files[..|files| - 1]) < maxBytes)
  }

  lemma {:induction false} YieldWithinLimits(files: seq<File>, yielded: seq<File>, maxFiles: int, maxBytes: int)
    requires |yielded| <= 1 && |files| < maxFiles && Bytes(files) < maxBytes
    requires WithinLimits(files, maxFiles, maxBytes)
    ensures WithinLimits(files + yielded, maxFiles, maxBytes)
  {
    if yielded == [] {
      assert files + yielded == files;
    } else {
      assert (files + yielded)[..|files + yielded| - 1] == files;
    }
  }

  lemma {:induction false} LimitsKept(r: Reader, s: State, k: nat)
    requires WithinLimits(s.files, r.maxFiles, r.maxBytes)
    ensures WithinLimits(After(r, s, k).files, r.maxFiles, r.maxBytes)
    decreases k
  {
    if k > 0 && Turn(r, s).Some? {
      var step := r.step(s.offset);
      YieldWithinLimits(s.files, Yield(r.clean, step.rawName, step.fileSize, step.content), r.maxFiles, r.maxBytes);
      LimitsKept(r, Turn(r, s).value, k - 1);
    }
  }

  /** At most maxFiles files come out, and all but the last are below maxBytes together. */
  lemma {:induction false} ExtractKeepsLimits(r: Reader)
    requires Ends(r, START) && 0 <= r.maxFiles
    ensures WithinLimits(Extract(r), r.maxFiles, r.maxBytes)
  {
    var k: nat :| OverBy(r, START, k);
    FinalIs(r, START, k);
    LimitsKept(r, START, k);
  }
}
