/**
 Reading the files out of a CPIO archive. Bytes are characters, so that a name decoded as Latin-1
 is the byte string itself. Cleaning a path is a parameter. Sizes are whatever integers the header
 fields read as, negative ones included.
 */
module Cpio {
  import opened Prelude
  import opened IntegerText
  import opened ArchiveLoop

  function Bound(length: nat, i: int): (r: nat)
    ensures r <= length
  {
    if i < 0 then Max(0, i + length) else if i < length then i else length
  }

  /** A slice as the host language takes it: a negative position counts from the end. */
  function Between(s: string, a: int, b: int): (r: string)
    ensures 0 <= a <= b <= |s| ==> r == s[a..b]
    ensures -|s| <= a < 0 ==> r == Between(s, a + |s|, b)
    ensures -|s| <= b < 0 ==> r == Between(s, a, b + |s|)
    ensures b > |s| ==> r == Between(s, a, |s|)
    decreases if a < 0 then 1 else 0, if b < 0 || b > |s| then 1 else 0
  {
    var lo, hi := Bound(|s|, a), Bound(|s|, b);
    if lo < hi then s[lo..hi] else ""
  }

  /** The name without the zero bytes at its end. */
  function NameWithoutPadding(s: string): (r: string)
    ensures r <= s && (r != "" ==> r[|r| - 1] != '\0') && forall i :: |r| <= i < |s| ==> s[i] == '\0'
  {
    if s != "" && s[|s| - 1] == '\0' then NameWithoutPadding(s[..|s| - 1]) else s
  }

  /** Rounding up to a multiple of four. */
  function Padded4(n: int): (r: int)
    ensures n <= r < n + 4 && r % 4 == 0
  {
    (n + 3) / 4 * 4
  }

  const TRAILER := "TRAILER!!!"

  /** A member whose sizes have been read. */
  function MemberStep(data: string, nameOffset: int, nameSize: int, dataOffset: int, fileSize: int, next: int): Step {
    if nameOffset + nameSize > |data| then Stop
    else
      var rawName := NameWithoutPadding(Between(data, nameOffset, nameOffset + nameSize));
      if rawName == TRAILER || dataOffset + fileSize > |data| then Stop
      else Advance(rawName, fileSize, Between(data, dataOffset, dataOffset + fileSize), next)
  }

  function NewAsciiStep(data: string, offset: int): Step {
    if offset + 110 > |data| then Stop
    else
      match (ParseHex(Between(data, offset + 54, offset + 62)), ParseHex(Between(data, offset + 94, offset + 102)))
      case (Some(fileSize), Some(nameSize)) =>
        var dataOffset := offset + Padded4(110 + nameSize);
        MemberStep(data, offset + 110, nameSize, dataOffset, fileSize, dataOffset + Padded4(fileSize))
      case _ => Stop
  }

  function OldAsciiStep(data: string, offset: int): Step {
    if offset + 76 > |data| then Stop
    else
      match (ParseOctal(Between(data, offset + 35, offset + 46)), ParseOctal(Between(data, offset + 59, offset + 65)))
      case (Some(fileSize), Some(nameSize)) =>
        var dataOffset := offset + 76 + nameSize;
        MemberStep(data, offset + 76, nameSize, dataOffset, fileSize, dataOffset + fileSize)
      case _ => Stop
  }

  function StepAt(data: string, offset: int): Step {
    if offset + 6 > |data| then Stop
    else
      var magic := Between(data, offset, offset + 6);
      if magic == "070701" || magic == "070702" then NewAsciiStep(data, offset)
      else if magic == "070707" then OldAsciiStep(data, offset)
      else Stop
  }

  function Steps(data: string): int -> Step {
    offset => StepAt(data, offset)
  }

  /** The extraction of a CPIO archive, within limits. */
  function Archive(data: string, clean: string -> Option<string>, maxFiles: int, maxBytes: int): Reader {
    Reader(|data|, Steps(data), clean, maxFiles, maxBytes)
  }

  // ----- The reader -----

  method NewAsciiEntry(data: string, offset: int) returns (s: Step)
    ensures s == NewAsciiStep(data, offset)
  {
    hide Between, ParseHex, NameWithoutPadding, Padded4;
    if offset + 110 > |data| {
      return Stop;
    }
    var fileSize := ParseHex(Between(data, offset + 54, offset + 62));
    var nameSize := ParseHex(Between(data, offset + 94, offset + 102));
    if fileSize == None || nameSize == None {
      return Stop;
    }
    var nameOffset := offset + 110;
    if nameOffset + nameSize.value > |data| {
      return Stop;
    }
    var rawName := NameWithoutPadding(Between(data, nameOffset, nameOffset + nameSize.value));
    if rawName == TRAILER {
      return Stop;
    }
    var dataOffset := offset + Padded4(110 + nameSize.value);
    if dataOffset + fileSize.value > |data| {
      return Stop;
    }
    var content := Between(data, dataOffset, dataOffset + fileSize.value);
    s := Advance(rawName, fileSize.value, content, dataOffset + Padded4(fileSize.value));
  }

  method OldAsciiEntry(data: string, offset: int) returns (s: Step)
    ensures s == OldAsciiStep(data, offset)
  {
    hide Between, ParseOctal, NameWithoutPadding;
    if offset + 76 > |data| {
      return Stop;
    }
    var fileSize := ParseOctal(Between(data, offset + 35, offset + 46));
    var nameSize := ParseOctal(Between(data, offset + 59, offset + 65));
    if fileSize == None || nameSize == None {
      return Stop;
    }
    var nameOffset := offset + 76;
    if nameOffset + nameSize.value > |data| {
      return Stop;
    }
    var rawName := NameWithoutPadding(Between(data, nameOffset, nameOffset + nameSize.value));
    if rawName == TRAILER {
      return Stop;
    }
    var dataOffset := nameOffset + nameSize.value;
    if dataOffset + fileSize.value > |data| {
      return Stop;
    }
    var content := Between(data, dataOffset, dataOffset + fileSize.value);
    s := Advance(rawName, fileSize.value, content, dataOffset + fileSize.value);
  }

  method ReadEntry(data: string, offset: int) returns (s: Step)
    ensures s == StepAt(data, offset)
  {
    hide Between, NewAsciiStep, OldAsciiStep;
    if offset + 6 > |data| {
      return Stop;
    }
    var magic := Between(data, offset, offset + 6);
    if magic == "070701" || magic == "070702" {
      s := NewAsciiEntry(data, offset);
    } else if magic == "070707" {
      s := OldAsciiEntry(data, offset);
    } else {
      s := Stop;
    }
  }

  /** The extraction loop, on every archive on which it ends. */
  method ExtractCpio(data: string, clean: string -> Option<string>, maxFiles: int, maxBytes: int)
    returns (files: seq<File>)
    requires Ends(Archive(data, clean, maxFiles, maxBytes), START)
    ensures files == Extract(Archive(data, clean, maxFiles, maxBytes))
  {
    hide StepAt, After, Final, OverBy;
    ghost var r := Archive(data, clean, maxFiles, maxBytes);
    ghost var left: nat :| OverBy(r, START, left);
    FinalIs(r, START, left);
    files := [];
    var offset := 0;
    var total := 0;
    while offset < |data| && |files| < maxFiles && total < maxBytes
      invariant total == Bytes(files)
      invariant OverBy(r, State(offset, files), left) && Ends(r, State(offset, files))
      invariant Final(r, State(offset, files)) == Final(r, START)
      decreases left
    {
      var step := ReadEntry(data, offset);
      if step.Stop? {
        break;
      }
      FinalAfterTurn(r, State(offset, files), left);
      var name := clean(step.rawName);
      if name.Some? && name.value != "" && step.fileSize > 0 {
        BytesOneMore(files, (name.value, step.content));
        files := files + [(name.value, step.content)];
        total := total + |step.content|;
      } else {
        assert files + [] == files;
      }
      offset := step.next;
      left := left - 1;
    }
    FinalHere(r, State(offset, files));
  }

  // ----- Where the files come from -----

  /** The file has a name the filter gave and a content that is a slice of the archive. */
  ghost predicate FromArchive(data: string, clean: string -> Option<string>, file: File) {
    && (exists a: int, b: int :: file.1 == Between(data, a, b))
    && exists raw :: clean(raw) == Some(file.0)
  }

  lemma {:induction false} YieldFromArchive(data: string, clean: string -> Option<string>, offset: int)
    requires StepAt(data, offset).Advance?
    ensures var s := StepAt(data, offset);
            forall f :: f in Yield(clean, s.rawName, s.fileSize, s.content) ==> FromArchive(data, clean, f)
  {
  }

  lemma {:induction false} FilesComeFromArchiveSoFar(data: string, r: Reader, s: State, k: nat)
    requires r.step == Steps(data)
    requires forall f :: f in s.files ==> FromArchive(data, r.clean, f)
    ensures forall f :: f in After(r, s, k).files ==> FromArchive(data, r.clean, f)
    decreases k
  {
    hide StepAt, Yield, FromArchive, Bytes;
    if k > 0 && Turn(r, s).Some? {
      YieldFromArchive(data, r.clean, s.offset);
      FilesComeFromArchiveSoFar(data, r, Turn(r, s).value, k - 1);
    }
  }

  /** Extraction invents nothing. */
  lemma {:induction false} FilesComeFromArchive(data: string, clean: string -> Option<string>, maxFiles: int,
                                                maxBytes: int)
    requires Ends(Archive(data, clean, maxFiles, maxBytes), START)
    ensures forall f :: f in Extract(Archive(data, clean, maxFiles, maxBytes)) ==> FromArchive(data, clean, f)
  {
    var r := Archive(data, clean, maxFiles, maxBytes);
    var k: nat :| OverBy(r, START, k);
    FinalIs(r, START, k);
    FilesComeFromArchiveSoFar(data, r, START, k);
  }
}
