/** On which CPIO archives the extraction loop ends. */
module CpioTermination {
  import opened Prelude
  import opened IntegerText
  import opened ArchiveLoop
  import opened LoopTermination
  import opened Cpio

  /** A header is recognised only between minus the archive's length and its length. */
  lemma {:induction false} HeaderInRange(data: string, offset: int)
    requires StepAt(data, offset).Advance?
    ensures -|data| <= offset < |data|
  {
  }

  lemma {:induction false} ArchiveInRange(data: string, clean: string -> Option<string>, maxFiles: int, maxBytes: int)
    ensures InRange(Archive(data, clean, maxFiles, maxBytes))
  {
    hide StepAt;
    var r := Archive(data, clean, maxFiles, maxBytes);
    forall o | r.step(o).Advance? ensures 0 <= o + r.length < 2 * r.length {
      HeaderInRange(data, o);
    }
  }

  /** Extraction ends exactly when no state comes round again, and exactly when it ends within twice
      the archive's length times maxFiles turns, so a caller can tell by counting turns. */
  lemma {:induction false} ExtractionEndsIff(data: string, clean: string -> Option<string>, maxFiles: int,
                                             maxBytes: int)
    ensures var r := Archive(data, clean, maxFiles, maxBytes);
            && (Ends(r, START) <==> !exists i: nat, j: nat :: Recurs(r, i, j))
            && (Ends(r, START) <==> OverBy(r, START, TurnBound(r)))
  {
    hide Recurs, OverBy, Ends, StepAt, TurnBound;
    var r := Archive(data, clean, maxFiles, maxBytes);
    ArchiveInRange(data, clean, maxFiles, maxBytes);
    EndsIffNothingRecurs(r);
    EndsIffWithinBound(r);
  }

  // ----- Archives whose headers all lead forward -----

  predicate NotNegative(v: Option<int>) {
    v.Some? ==> v.value >= 0
  }

  /** The sizes of a header at o, in its own format, do not read as negative. */
  predicate HeaderUnsigned(data: string, o: nat) {
    var magic := Between(data, o, o + 6);
    if magic == "070701" || magic == "070702" then
      NotNegative(ParseHex(Between(data, o + 54, o + 62))) && NotNegative(ParseHex(Between(data, o + 94, o + 102)))
    else if magic == "070707" then
      NotNegative(ParseOctal(Between(data, o + 35, o + 46))) && NotNegative(ParseOctal(Between(data, o + 59, o + 65)))
    else true
  }

  /** No header anywhere in the archive has a negative size. */
  ghost predicate SizesUnsigned(data: string) {
    forall o: nat :: o < |data| ==> HeaderUnsigned(data, o)
  }

  lemma {:induction false} UnsignedAdvances(data: string, o: nat)
    requires SizesUnsigned(data) && StepAt(data, o).Advance?
    ensures o < StepAt(data, o).next
  {
    hide ParseHex, ParseOctal, NameWithoutPadding;
    assert o < |data| && HeaderUnsigned(data, o);
  }

  /** With unsigned sizes the offset strictly increases, and the loop ends. */
  lemma {:induction false} UnsignedEnds(data: string, clean: string -> Option<string>, maxFiles: int, maxBytes: int)
    requires SizesUnsigned(data)
    ensures Ends(Archive(data, clean, maxFiles, maxBytes), START)
  {
    hide StepAt, SizesUnsigned, Ends;
    var r := Archive(data, clean, maxFiles, maxBytes);
    forall o: nat | r.step(o).Advance? ensures o < r.step(o).next {
      UnsignedAdvances(data, o);
    }
    ForwardEnds(r, START, |data|);
  }
}
