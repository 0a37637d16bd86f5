/** A printer for new-ASCII CPIO archives, and the proof that extraction undoes it. */
module CpioRoundTrip {
  import opened Prelude
  import opened Positions
  import opened IntegerText
  import opened ArchiveLoop
  import opened LoopTermination
  import opened Cpio

  /** An archive member. The header fields the reader ignores are kept as the texts they are. */
  datatype Entry = Entry(magic: string, before: string, between: string, check: string, name: string, content: string)

  function Nuls(k: nat): (s: string)
    ensures |s| == k
  {
    seq(k, _ => '\0')
  }

  ghost predicate Printable(e: Entry) {
    && (e.magic == "070701" || e.magic == "070702")
    && |e.before| == 48 && |e.between| == 32 && |e.check| == 8
    && |e.name| + 1 < Power16(8) && |e.content| < Power16(8)
    && (e.name != "" ==> e.name[|e.name| - 1] != '\0')
  }

  /** A header with a given text in its size field. */
  function PrintSizedHeader(e: Entry, size: string): string {
    e.magic + (e.before + (size + (e.between + (Hex(|e.name| + 1, 8) + e.check))))
  }

  function PrintHeader(e: Entry): string {
    PrintSizedHeader(e, Hex(|e.content|, 8))
  }

  function PrintName(e: Entry): (s: string)
    ensures |s| == Padded4(110 + (|e.name| + 1)) - 110
  {
    e.name + "\0" + Nuls(Padded4(110 + (|e.name| + 1)) - (110 + (|e.name| + 1)))
  }

  function PrintContent(e: Entry): (s: string)
    ensures |s| == Padded4(|e.content|)
  {
    e.content + Nuls(Padded4(|e.content|) - |e.content|)
  }

  function PrintEntry(e: Entry): string {
    PrintHeader(e) + (PrintName(e) + PrintContent(e))
  }

  function Print(es: seq<Entry>): string {
    if es == [] then "" else PrintEntry(es[0]) + Print(es[1..])
  }

  // ----- One entry -----

  lemma {:induction false} NameReads(name: string)
    requires name != "" ==> name[|name| - 1] != '\0'
    ensures NameWithoutPadding(name + "\0") == name
  {
  }

  lemma {:induction false} HeaderLength(e: Entry, size: string)
    requires Printable(e) && |size| == 8
    ensures |PrintSizedHeader(e, size)| == 110
  {
  }

  lemma {:induction false} EntryLength(e: Entry)
    requires Printable(e)
    ensures |PrintHeader(e)| == 110
    ensures |PrintHeader(e) + PrintName(e)| == Padded4(110 + (|e.name| + 1))
    ensures |PrintEntry(e)| == Padded4(110 + (|e.name| + 1)) + Padded4(|e.content|)
  {
  }

  lemma {:induction false} HeaderFields(data: string, offset: nat, e: Entry, size: string)
    requires Printable(e) && |size| == 8 && StandsAt(data, offset, PrintSizedHeader(e, size))
    ensures StandsAt(data, offset, e.magic) && offset + 110 <= |data|
    ensures Between(data, offset + 54, offset + 62) == size
    ensures Between(data, offset + 94, offset + 102) == Hex(|e.name| + 1, 8)
  {
    hide Hex, Power16;
    var name := Hex(|e.name| + 1, 8);
    var tail := e.between + (name + e.check);
    HeaderLength(e, size);
    StandsAtSplit(data, offset, e.magic, e.before + (size + tail));
    StandsAtSplit(data, offset + 6, e.before, size + tail);
    StandsAtSplit(data, offset + 54, size, tail);
    StandsAtSplit(data, offset + 62, e.between, name + e.check);
    StandsAtSplit(data, offset + 94, name, e.check);
  }

  lemma {:induction false} SizesRead(data: string, offset: nat, e: Entry)
    requires Printable(e) && StandsAt(data, offset, PrintHeader(e))
    ensures offset + 110 <= |data|
    ensures ParseHex(Between(data, offset + 54, offset + 62)) == Some(|e.content|)
    ensures ParseHex(Between(data, offset + 94, offset + 102)) == Some(|e.name| + 1)
  {
    hide ParseHex, Between, PrintSizedHeader, StandsAt;
    HeaderFields(data, offset, e, Hex(|e.content|, 8));
    ParseHexField(|e.content|, 8);
    ParseHexField(|e.name| + 1, 8);
  }

  lemma {:induction false} BodyStands(data: string, offset: nat, e: Entry)
    requires Printable(e) && StandsAt(data, offset, PrintEntry(e))
    ensures StandsAt(data, offset, PrintHeader(e))
    ensures StandsAt(data, offset + 110, e.name + "\0")
    ensures StandsAt(data, offset + Padded4(110 + (|e.name| + 1)), e.content)
  {
    hide Padded4, Power16, StandsAt, PrintHeader;
    EntryLength(e);
    var pad := Nuls(Padded4(110 + (|e.name| + 1)) - (110 + (|e.name| + 1)));
    StandsAtSplit(data, offset, PrintHeader(e), PrintName(e) + PrintContent(e));
    StandsAtSplit(data, offset + 110, PrintName(e), PrintContent(e));
    StandsAtSplit(data, offset + 110, e.name + "\0", pad);
    StandsAtSplit(data, offset + Padded4(110 + (|e.name| + 1)), e.content, Nuls(Padded4(|e.content|) - |e.content|));
  }

  lemma {:induction false} MemberReads(data: string, nameOffset: nat, dataOffset: nat, name: string, content: string,
                                       next: int)
    requires StandsAt(data, nameOffset, name + "\0") && NameWithoutPadding(name + "\0") == name
    requires StandsAt(data, dataOffset, content)
    ensures MemberStep(data, nameOffset, |name| + 1, dataOffset, |content|, next)
         == if name == TRAILER then Stop else Advance(name, |content|, content, next)
  {
  }

  lemma {:induction false} FieldsRead(data: string, offset: nat, name: string, content: string)
    requires offset + 110 <= |data|
    requires ParseHex(Between(data, offset + 54, offset + 62)) == Some(|content|)
    requires ParseHex(Between(data, offset + 94, offset + 102)) == Some(|name| + 1)
    requires StandsAt(data, offset + 110, name + "\0") && NameWithoutPadding(name + "\0") == name
    requires StandsAt(data, offset + Padded4(110 + (|name| + 1)), content)
    ensures NewAsciiStep(data, offset) ==
              if name == TRAILER then Stop
              else Advance(name, |content|, content, offset + Padded4(110 + (|name| + 1)) + Padded4(|content|))
  {
    hide ParseHex, Between, StandsAt, NameWithoutPadding, MemberStep, Padded4;
    var dataOffset := offset + Padded4(110 + (|name| + 1));
    MemberReads(data, offset + 110, dataOffset, name, content, dataOffset + Padded4(|content|));
  }

  lemma {:induction false} MagicReads(data: string, offset: nat, magic: string)
    requires StandsAt(data, offset, magic) && (magic == "070701" || magic == "070702")
    ensures StepAt(data, offset) == NewAsciiStep(data, offset)
  {
  }

  /** Where a printed entry stands, the reader takes one step over exactly that entry. */
  lemma {:induction false} EntryReads(data: string, offset: nat, e: Entry)
    requires Printable(e) && StandsAt(data, offset, PrintEntry(e))
    ensures StepAt(data, offset) ==
              if e.name == TRAILER then Stop else Advance(e.name, |e.content|, e.content, offset + |PrintEntry(e)|)
    ensures 110 <= |PrintEntry(e)|
  {
    hide Power16, PrintSizedHeader, PrintEntry, StandsAt, ParseHex, Between, StepAt, NewAsciiStep;
    hide NameWithoutPadding, Padded4;
    BodyStands(data, offset, e);
    SizesRead(data, offset, e);
    HeaderFields(data, offset, e, Hex(|e.content|, 8));
    NameReads(e.name);
    FieldsRead(data, offset, e.name, e.content);
    MagicReads(data, offset, e.magic);
    EntryLength(e);
  }

  // ----- Whole archives -----

  /** The files the entries amount to, in order, without any limit. */
  function Accepted(es: seq<Entry>, clean: string -> Option<string>): seq<File> {
    if es == [] then []
    else
      var name := clean(es[0].name);
      (if name.Some? && name.value != "" && es[0].content != "" then [(name.value, es[0].content)] else [])
      + Accepted(es[1..], clean)
  }

  lemma {:induction false} AcceptedFirst(es: seq<Entry>, clean: string -> Option<string>)
    requires es != []
    ensures Accepted(es, clean) == Yield(clean, es[0].name, |es[0].content|, es[0].content) + Accepted(es[1..], clean)
  {
  }

  /** The longest prefix in which every file is admitted below both limits. */
  function Limited(taken: seq<File>, rest: seq<File>, maxFiles: int, maxBytes: int): seq<File>
    decreases |rest|
  {
    if rest == [] || |taken| >= maxFiles || Bytes(taken) >= maxBytes then taken
    else Limited(taken + [rest[0]], rest[1..], maxFiles, maxBytes)
  }

  ghost predicate PrintableAll(es: seq<Entry>) {
    forall i :: 0 <= i < |es| ==> Printable(es[i]) && es[i].name != TRAILER
  }

  /** Nothing more is read from here on. */
  predicate EndsAt(data: string, end: nat) {
    end == |data| || StepAt(data, end).Stop?
  }

  /** One turn of the loop takes one printed entry. */
  lemma {:induction false} EntryTurn(data: string, r: Reader, s: State, e: Entry)
    requires r.step == Steps(data) && r.length == |data|
    requires Printable(e) && e.name != TRAILER && 0 <= s.offset && StandsAt(data, s.offset, PrintEntry(e))
    requires |s.files| < r.maxFiles && Bytes(s.files) < r.maxBytes
    ensures Turn(r, s) == Some(State(s.offset + |PrintEntry(e)|,
                                     s.files + Yield(r.clean, e.name, |e.content|, e.content)))
  {
    hide StepAt, PrintEntry, Yield, Bytes;
    EntryReads(data, s.offset, e);
  }

  lemma {:induction false} ExtractPrinted(data: string, r: Reader, s: State, end: nat, es: seq<Entry>)
    requires r.step == Steps(data) && r.length == |data|
    requires PrintableAll(es) && 0 <= s.offset && StandsAt(data, s.offset, Print(es))
    requires end == s.offset + |Print(es)| && EndsAt(data, end)
    ensures Ends(r, s) && Final(r, s).files == Limited(s.files, Accepted(es, r.clean), r.maxFiles, r.maxBytes)
    decreases |es|
  {
    hide StepAt, PrintEntry, Yield, StandsAt, Final, Printable;
    if es == [] || |s.files| >= r.maxFiles || Bytes(s.files) >= r.maxBytes {
      FinalHere(r, s);
    } else {
      var e := es[0];
      var yielded := Yield(r.clean, e.name, |e.content|, e.content);
      var t := State(s.offset + |PrintEntry(e)|, s.files + yielded);
      StandsAtSplit(data, s.offset, PrintEntry(e), Print(es[1..]));
      EntryTurn(data, r, s, e);
      ExtractPrinted(data, r, t, end, es[1..]);
      FinalBeforeTurn(r, s, t);
      OneEntry(s.files, yielded, Accepted(es[1..], r.clean), r.maxFiles, r.maxBytes);
      AcceptedFirst(es, r.clean);
    }
  }

  lemma {:induction false} OneEntry(files: seq<File>, yielded: seq<File>, rest: seq<File>, maxFiles: int, maxBytes: int)
    requires |yielded| <= 1 && |files| < maxFiles && Bytes(files) < maxBytes
    ensures Limited(files + yielded, rest, maxFiles, maxBytes) == Limited(files, yielded + rest, maxFiles, maxBytes)
  {
    if yielded == [] {
      assert files + yielded == files && yielded + rest == rest;
    } else {
      assert (yielded + rest)[1..] == rest && [(yielded + rest)[0]] == yielded;
    }
  }

  lemma {:induction false} PrintedThenStop(data: string, es: seq<Entry>, end: nat,
                        clean: string -> Option<string>, maxFiles: int, maxBytes: int)
    requires PrintableAll(es) && StandsAt(data, 0, Print(es)) && end == |Print(es)| && EndsAt(data, end)
    ensures Ends(Archive(data, clean, maxFiles, maxBytes), START)
    ensures Extract(Archive(data, clean, maxFiles, maxBytes)) == Limited([], Accepted(es, clean), maxFiles, maxBytes)
  {
    hide StepAt, Print, Ends, StandsAt;
    ExtractPrinted(data, Archive(data, clean, maxFiles, maxBytes), START, end, es);
  }

  /** An archive with nothing after its last entry extracts to its acceptable files, up to the limits. */
  lemma {:induction false} PrintedArchiveExtracts(es: seq<Entry>, clean: string -> Option<string>, maxFiles: int,
                                                  maxBytes: int)
    requires PrintableAll(es)
    ensures Ends(Archive(Print(es), clean, maxFiles, maxBytes), START)
    ensures Extract(Archive(Print(es), clean, maxFiles, maxBytes))
         == Limited([], Accepted(es, clean), maxFiles, maxBytes)
  {
    hide StepAt, Print, Ends, Extract, Printable;
    PrintedThenStop(Print(es), es, |Print(es)|, clean, maxFiles, maxBytes);
  }

  /** A trailer ends the archive: whatever follows it is not read. */
  lemma {:induction false} TrailerEndsArchive(es: seq<Entry>, trailer: Entry, junk: string,
                           clean: string -> Option<string>, maxFiles: int, maxBytes: int)
    requires PrintableAll(es) && Printable(trailer) && trailer.name == "TRAILER!!!"
    ensures var r := Archive(Print(es) + (PrintEntry(trailer) + junk), clean, maxFiles, maxBytes);
            Ends(r, START) && Extract(r) == Limited([], Accepted(es, clean), maxFiles, maxBytes)
  {
    hide StepAt, Print, PrintEntry, Printable, Ends, Extract, Limited, Accepted;
    var data := Print(es) + (PrintEntry(trailer) + junk);
    assert StandsAt(data, 0, Print(es));
    assert data[|Print(es)|..] == PrintEntry(trailer) + junk;
    assert StandsAt(data, |Print(es)|, PrintEntry(trailer));
    EntryReads(data, |Print(es)|, trailer);
    PrintedThenStop(data, es, |Print(es)|, clean, maxFiles, maxBytes);
  }

  /** Printed entries are multiples of four bytes long. */
  lemma {:induction false} EntryAligned(e: Entry)
    requires Printable(e)
    ensures |PrintEntry(e)| % 4 == 0
  {
    hide PrintEntry, PrintHeader, PrintName, PrintContent;
    EntryLength(e);
    SumOfFours(Padded4(110 + (|e.name| + 1)), Padded4(|e.content|));
  }

  lemma {:induction false} SumOfFours(a: int, b: int)
    requires a % 4 == 0 && b % 4 == 0
    ensures (a + b) % 4 == 0
  {
  }

  /** The reader stays on multiples of four in the new ASCII format. It moves forward unless a
      negative size takes back the whole header and name. */
  lemma {:induction false} StaysAligned(data: string, offset: nat, fileSize: int, nameSize: int)
    requires NewAsciiStep(data, offset).Advance?
    requires ParseHex(Between(data, offset + 54, offset + 62)) == Some(fileSize)
    requires ParseHex(Between(data, offset + 94, offset + 102)) == Some(nameSize)
    ensures offset % 4 == 0 ==> NewAsciiStep(data, offset).next % 4 == 0
    ensures offset < NewAsciiStep(data, offset).next <==> 0 < Padded4(110 + nameSize) + Padded4(fileSize)
  {
    hide ParseHex, Between, NameWithoutPadding, Padded4;
    assert NewAsciiStep(data, offset).next == offset + Padded4(110 + nameSize) + Padded4(fileSize);
    SumOfFours(Padded4(110 + nameSize), Padded4(fileSize));
    if offset % 4 == 0 {
      SumOfFours(offset, Padded4(110 + nameSize) + Padded4(fileSize));
    }
  }

  // ----- A size that leads nowhere -----

  lemma {:induction false} BackwardMember(data: string, name: string, size: int)
    requires -size == |data| >= 110 && name != TRAILER
    requires StandsAt(data, 110, name + "\0") && NameWithoutPadding(name + "\0") == name
    ensures MemberStep(data, 110, |name| + 1, |data|, size, 0) == Advance(name, size, "", 0)
  {
  }

  lemma {:induction false} BackwardStep(data: string, name: string, size: int)
    requires -size == |data| == Padded4(110 + (|name| + 1)) && name != TRAILER
    requires ParseHex(Between(data, 54, 62)) == Some(size)
    requires ParseHex(Between(data, 94, 102)) == Some(|name| + 1)
    requires StandsAt(data, 110, name + "\0") && NameWithoutPadding(name + "\0") == name
    ensures NewAsciiStep(data, 0) == Advance(name, size, "", 0)
  {
    hide ParseHex, NameWithoutPadding, Between, MemberStep;
    BackwardMember(data, name, size);
    assert Padded4(size) == size;
  }

  lemma {:induction false} NegativeSizeStep(data: string, e: Entry, v: nat)
    requires Printable(e) && e.name != TRAILER && v == Padded4(110 + (|e.name| + 1)) && v < Power16(7)
    requires data == PrintSizedHeader(e, "-" + Hex(v, 7)) + PrintName(e)
    ensures StepAt(data, 0) == Advance(e.name, -(v as int), "", 0)
  {
    hide StepAt, NewAsciiStep, ParseHex, Between, PrintSizedHeader, StandsAt, Power16, Hex, NameWithoutPadding;
    var size, pad := "-" + Hex(v, 7), Nuls(v - (110 + (|e.name| + 1)));
    SizedParts(data, PrintSizedHeader(e, size), e.name + "\0", pad, e, size);
    HeaderFields(data, 0, e, size);
    ParseNegativeHexField(v, 7);
    ParseHexField(|e.name| + 1, 8);
    NameReads(e.name);
    BackwardStep(data, e.name, -(v as int));
    MagicReads(data, 0, e.magic);
  }

  lemma {:induction false} SizedParts(data: string, header: string, name: string, pad: string, e: Entry, size: string)
    requires Printable(e) && |size| == 8 && header == PrintSizedHeader(e, size) && data == header + (name + pad)
    ensures StandsAt(data, 0, header) && StandsAt(data, 110, name) && |data| == 110 + |name| + |pad|
  {
  }

  /**
   The loop does not end on every archive. Take a single entry whose size field reads as minus the
   padded length of its own header and name: the reader comes back to the same header, yields no
   file, and is in the state it started from.
   */
  lemma {:induction false} NegativeSizeNeverEnds(data: string, e: Entry, v: nat,
                              clean: string -> Option<string>, maxFiles: int, maxBytes: int)
    requires Printable(e) && e.name != TRAILER && v == Padded4(110 + (|e.name| + 1)) && v < Power16(7)
    requires data == PrintSizedHeader(e, "-" + Hex(v, 7)) + PrintName(e)
    requires 0 < maxFiles && 0 < maxBytes
    ensures var r := Archive(data, clean, maxFiles, maxBytes); Turn(r, START) == Some(START) && !Ends(r, START)
  {
    var r := Archive(data, clean, maxFiles, maxBytes);
    assert |data| > 0 && Turn(r, START) == Some(START) by {
      hide StepAt;
      NegativeSizeStep(data, e, v);
      assert START.files + [] == START.files;
    }
    hide Turn, StepAt;
    OneRound(r, START);
    RoundNeverEnds(r, START, 1);
  }

  lemma {:induction false} OneRound(r: Reader, s: State)
    requires Turn(r, s) == Some(s)
    ensures After(r, s, 1) == s
  {
  }

  // ----- When the limits do not bite -----

  lemma {:induction false} BytesGrow(a: seq<File>, b: seq<File>)
    ensures Bytes(a) <= Bytes(a + b)
    decreases |b|
  {
    if b == [] {
      assert a + b == a;
    } else {
      BytesGrow(a, b[..|b| - 1]);
      assert (a + b)[..|a + b| - 1] == a + b[..|b| - 1];
    }
  }

  lemma {:induction false} LimitedIsWholeIff(taken: seq<File>, rest: seq<File>, maxFiles: int, maxBytes: int)
    requires rest != []
    ensures Limited(taken, rest, maxFiles, maxBytes) == taken + rest
       <==> |taken + rest| <= maxFiles && Bytes((taken + rest)[..|taken + rest| - 1]) < maxBytes
    decreases |rest|
  {
    var all := taken + rest;
    var more := taken + [rest[0]];
    assert more + rest[1..] == all;
    if |rest| == 1 {
      assert all[..|all| - 1] == taken && more == all;
    } else {
      assert all[..|all| - 1] == taken + rest[..|rest| - 1];
      BytesGrow(taken, rest[..|rest| - 1]);
      LimitedIsWholeIff(more, rest[1..], maxFiles, maxBytes);
    }
  }

  /**
   The round trip: the printed archive gives back all its acceptable files exactly when there are at
   most maxFiles of them and those before the last are together below maxBytes.
   */
  lemma {:induction false} RoundTripIff(es: seq<Entry>, clean: string -> Option<string>, maxFiles: int, maxBytes: int)
    requires PrintableAll(es) && Accepted(es, clean) != []
    ensures Ends(Archive(Print(es), clean, maxFiles, maxBytes), START)
    ensures Extract(Archive(Print(es), clean, maxFiles, maxBytes)) == Accepted(es, clean)
       <==> WithinLimits(Accepted(es, clean), maxFiles, maxBytes)
  {
    hide Print, Accepted, Extract, Ends, StepAt;
    PrintedArchiveExtracts(es, clean, maxFiles, maxBytes);
    LimitedIsWholeIff([], Accepted(es, clean), maxFiles, maxBytes);
    assert [] + Accepted(es, clean) == Accepted(es, clean);
  }

  // ----- The old ASCII format, as the reader takes it -----

  lemma {:induction false} OldFieldsRead(data: string, offset: nat, name: string, content: string)
    requires offset + 76 <= |data|
    requires ParseOctal(Between(data, offset + 35, offset + 46)) == Some(|content|)
    requires ParseOctal(Between(data, offset + 59, offset + 65)) == Some(|name| + 1)
    requires StandsAt(data, offset + 76, name + "\0") && NameWithoutPadding(name + "\0") == name
    requires StandsAt(data, offset + 77 + |name|, content)
    ensures OldAsciiStep(data, offset) ==
              if name == TRAILER then Stop
              else Advance(name, |content|, content, offset + 77 + |name| + |content|)
  {
    hide ParseOctal, Between, StandsAt, NameWithoutPadding, MemberStep;
    MemberReads(data, offset + 76, offset + 77 + |name|, name, content, offset + 77 + |name| + |content|);
  }

  /**
   In the old ASCII format nothing is padded. Where columns 35 to 46 of a header read as the length of the
   content and columns 59 to 65 as that of the name with its closing zero byte, and the two follow the
   header, the reader takes one step over exactly that member, and stops at the trailer.
   */
  lemma {:induction false} OldEntryReads(data: string, offset: nat, name: string, content: string)
    requires StandsAt(data, offset, "070707") && StandsAt(data, offset + 76, name + "\0" + content)
    requires name != "" ==> name[|name| - 1] != '\0'
    requires ParseOctal(data[offset + 35..offset + 46]) == Some(|content|)
    requires ParseOctal(data[offset + 59..offset + 65]) == Some(|name| + 1)
    ensures StepAt(data, offset) ==
              if name == "TRAILER!!!" then Stop
              else Advance(name, |content|, content, offset + 76 + |name + "\0" + content|)
  {
    hide ParseOctal, NameWithoutPadding, OldAsciiStep, NewAsciiStep;
    StandsAtSplit(data, offset + 76, name + "\0", content);
    NameReads(name);
    OldFieldsRead(data, offset, name, content);
    OldMagicReads(data, offset);
  }

  lemma {:induction false} OldMagicReads(data: string, offset: nat)
    requires StandsAt(data, offset, "070707")
    ensures StepAt(data, offset) == OldAsciiStep(data, offset)
  {
    hide OldAsciiStep, NewAsciiStep;
    assert "070707"[5] == '7';
  }
}
