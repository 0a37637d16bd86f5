/**
 A reader that opens a document the way section 7.5 of ISO 32000-1 prescribes: from the end of the
 file to startxref, from there to the cross-reference section, and from its entries to the objects.
 What the composer writes, it reads back.
 */
module PdfReader {
  import opened Prelude
  import opened Positions
  import opened Decimal
  import opened PdfDocument

  // ----- The reader -----

  /** The offset announced between `startxref` and the end-of-file marker. */
  function StartXrefValue(doc: string): Option<nat> {
    if |doc| < 7 || !StandsAt(doc, |doc| - 7, "\n%%EOF\n") then None
    else
      var e := |doc| - 7;
      var b := DigitsStart(doc, e);
      if b == e || b < 10 || !StandsAt(doc, b - 10, "startxref\n") then None else Some(Value(doc[b..e]))
  }

  datatype Index = Index(size: nat, base: nat)

  /** The size of the cross-reference section at p and the place of its first entry, which is the free one
      (section 7.5.4). */
  function IndexAt(doc: string, p: nat): Option<Index> {
    if !StandsAt(doc, p, "xref\n0 ") then None
    else
      var e := DigitsEnd(doc, p + 7);
      if e == p + 7 || !StandsAt(doc, e, "\n") || !StandsAt(doc, e + 1, "0000000000 65535 f \n") then None
      else Some(Index(Value(doc[p + 7..e]), e + 1))
  }

  function ReadIndex(doc: string): Option<Index> {
    match StartXrefValue(doc) case Some(p) => IndexAt(doc, p) case None => None
  }

  /** The offset in the i-th entry, entries being 20 bytes each. */
  function EntryOffset(doc: string, x: Index, i: nat): Option<nat> {
    var at := x.base + 20 * i;
    if i < x.size && at + 20 <= |doc| && AllDigits(doc[at..at + 10]) && StandsAt(doc, at + 10, " 00000 n \n")
    then Some(Value(doc[at..at + 10])) else None
  }

  /** Where the contents of object i begin. */
  function ObjectStart(doc: string, x: Index, i: nat): Option<nat> {
    match EntryOffset(doc, x, i)
    case Some(o) => if StandsAt(doc, o, Numeral(i) + " 0 obj\n") then Some(o + |Numeral(i)| + 7) else None
    case None => None
  }

  /** A stream: as many bytes as its Length says, then the closing keywords of the stream and of its object
      (sections 7.3.8 and 7.3.10). */
  function ReadStream(doc: string, at: nat): Option<string> {
    if !StandsAt(doc, at, "<< /Length ") then None
    else
      var e := DigitsEnd(doc, at + 11);
      if !StandsAt(doc, e, " >>\nstream\n") then None
      else
        var start, length := e + 11, Value(doc[at + 11..e]);
        if StandsAt(doc, start + length, "\nendstream\nendobj\n") then Some(doc[start..start + length]) else None
  }

  /** An indirect reference, and what comes after it. */
  function ReadReference(doc: string, at: nat): (r: Option<(nat, nat)>)
    ensures r.Some? ==> at < r.value.1 <= |doc|
  {
    if at >= |doc| then None
    else
      var e := DigitsEnd(doc, at);
      if e == at || !StandsAt(doc, e, " 0 R") then None else Some((Value(doc[at..e]), e + 4))
  }

  function TrailerStart(): string {
    "trailer\n<< /Size "
  }

  datatype TrailerEntries = TrailerEntries(size: nat, root: nat)

  /** The Size and Root entries of the trailer at position at (section 7.5.5). */
  function TrailerAt(doc: string, at: nat): Option<TrailerEntries> {
    if !StandsAt(doc, at, TrailerStart()) then None
    else
      var b := at + |TrailerStart()|;
      var e := DigitsEnd(doc, b);
      if e == b || !StandsAt(doc, e, " /Root ") then None
      else
        match ReadReference(doc, e + 7)
        case None => None
        case Some((root, end)) =>
          if StandsAt(doc, end, " >>\n") then Some(TrailerEntries(Value(doc[b..e]), root)) else None
  }

  /** The catalog's number, from the trailer right after the last entry, whose Size must be that of the
      cross-reference section. */
  function RootOf(doc: string, x: Index): Option<nat> {
    match TrailerAt(doc, x.base + 20 * x.size)
    case Some(t) => if t.size == x.size then Some(t.root) else None
    case None => None
  }

  /** References separated by spaces, up to the closing bracket, and what comes after it. */
  function ReadKids(doc: string, at: nat): (r: Option<(seq<nat>, nat)>)
    ensures r.Some? ==> r.value.1 <= |doc|
    decreases |doc| - at
  {
    match ReadReference(doc, at)
    case None => None
    case Some((kid, e)) =>
      if StandsAt(doc, e, "]") then Some(([kid], e + 1))
      else if !StandsAt(doc, e, " ") then None
      else
        match ReadKids(doc, e + 1)
        case Some((rest, end)) => Some(([kid] + rest, end))
        case None => None
  }

  /** The number of pages announced by the Count entry at position at, at the end of a dictionary. */
  function CountAt(doc: string, at: nat): Option<nat> {
    if !StandsAt(doc, at, " /Count ") then None
    else
      var e := DigitsEnd(doc, at + 8);
      if e == at + 8 || !StandsAt(doc, e, " >>") then None else Some(Value(doc[at + 8..e]))
  }

  /** The object number in the Contents entry of the page dictionary at position at. */
  function ContentsOf(doc: string, pageStart: string, at: nat): Option<nat> {
    if !StandsAt(doc, at, pageStart) then None
    else (match ReadReference(doc, at + |pageStart|) case Some((content, _)) => Some(content) case None => None)
  }

  /** The content stream of the page whose dictionary is object id. */
  function PageStream(doc: string, x: Index, pageStart: string, id: nat): Option<string> {
    match ObjectStart(doc, x, id)
    case None => None
    case Some(at) =>
      (match ContentsOf(doc, pageStart, at)
       case None => None
       case Some(content) =>
         (match ObjectStart(doc, x, content) case Some(s) => ReadStream(doc, s) case None => None))
  }

  function PageStreams(doc: string, x: Index, pageStart: string, ids: seq<nat>): Option<seq<string>> {
    if ids == [] then Some([])
    else
      match (PageStream(doc, x, pageStart, ids[0]), PageStreams(doc, x, pageStart, ids[1..]))
      case (Some(p), Some(rest)) => Some([p] + rest)
      case _ => None
  }

  function KidsStart(): string {
    "<< /Type /Pages /Kids ["
  }

  /** The object numbers of the pages, from the page tree, which is object id; there are as many as its Count. */
  function PageTree(doc: string, x: Index, id: nat): Option<seq<nat>> {
    match ObjectStart(doc, x, id)
    case None => None
    case Some(at) =>
      if !StandsAt(doc, at, KidsStart()) then None
      else
        match ReadKids(doc, at + |KidsStart()|)
        case Some((ids, e)) => if CountAt(doc, e) == Some(|ids|) then Some(ids) else None
        case None => None
  }

  function CatalogStart(): string {
    "<< /Type /Catalog /Pages "
  }

  /** The number of the page tree, from the catalog, which is object id. */
  function TreeOf(doc: string, x: Index, id: nat): Option<nat> {
    match ObjectStart(doc, x, id)
    case None => None
    case Some(at) =>
      if !StandsAt(doc, at, CatalogStart()) then None
      else (match ReadReference(doc, at + |CatalogStart()|) case Some((tree, _)) => Some(tree) case None => None)
  }

  /** The content streams of all pages, in the order of the page tree: from the trailer to the catalog, from
      there to the page tree, and from its entries to the pages. */
  function ReadPages(doc: string, pageStart: string): Option<seq<string>> {
    if !StandsAt(doc, 0, "%PDF-1.") then None
    else
      match ReadIndex(doc)
      case None => None
      case Some(x) =>
        (match RootOf(doc, x)
         case None => None
         case Some(root) =>
           (match TreeOf(doc, x, root)
            case None => None
            case Some(tree) =>
              (match PageTree(doc, x, tree) case Some(ids) => PageStreams(doc, x, pageStart, ids) case None => None)))
  }

  // ----- Where things stand in a document -----

  lemma {:induction false} PrefixStands(doc: string, a: string, s: string)
    requires a + s <= doc
    ensures StandsAt(doc, |a|, s)
  {
  }

  lemma {:induction false} BodyPrefix(objs: seq<string>, k: nat, n: nat)
    requires k <= n <= |objs|
    ensures Body(objs, k) <= Body(objs, n)
    decreases n
  {
    if k < n {
      BodyPrefix(objs, k, n - 1);
    }
  }

  lemma {:induction false} EntryPrefix(objs: seq<string>, k: nat, n: nat)
    requires k <= n <= |objs|
    ensures UpToEntry(objs, k) <= UpToEntry(objs, n)
    decreases n
  {
    hide XrefEntry, Offset, Body, XrefHead, FreeEntry;
    if k < n {
      EntryPrefix(objs, k, n - 1);
    }
  }

  lemma {:induction false} DocumentPrefixes(objs: seq<string>, k: nat)
    requires k <= |objs|
    ensures Body(objs, k) <= Document(objs) && UpToEntry(objs, k) <= Document(objs)
  {
    hide XrefEntry, Trailer, StartXref, EndOfFile, FreeEntry, XrefHead, ObjectText;
    BodyPrefix(objs, k, |objs|);
    EntryPrefix(objs, 0, |objs|);
    EntryPrefix(objs, k, |objs|);
  }

  /** Every object stands where its offset says. */
  lemma {:induction false} ObjectStands(objs: seq<string>, i: nat)
    requires 1 <= i <= |objs|
    ensures StandsAt(Document(objs), Offset(objs, i), ObjectText(i, objs[i - 1]))
  {
    DocumentPrefixes(objs, i);
    PrefixStands(Document(objs), Body(objs, i - 1), ObjectText(i, objs[i - 1]));
  }

  /** Offsets that a cross-reference entry can hold. */
  predicate Fits(objs: seq<string>) {
    forall i :: 1 <= i <= |objs| ==> Offset(objs, i) < 10000000000
  }

  /** An entry is 20 bytes long exactly while its offset has at most ten digits. */
  lemma {:induction false} EntryIs20BytesIff(offset: nat)
    ensures |XrefEntry(offset)| == 20 <==> offset < 10000000000
  {
    Padded10Reads(offset);
  }

  function EntryBase(objs: seq<string>): nat {
    |Body(objs, |objs|)| + |XrefHead(|objs| + 1)|
  }

  lemma {:induction false} EntriesLength(objs: seq<string>, k: nat)
    requires k <= |objs| && Fits(objs)
    ensures |UpToEntry(objs, k)| == EntryBase(objs) + 20 + 20 * k
  {
    if k == 0 {
      assert |FreeEntry()| == 20;
    } else {
      EntriesLength(objs, k - 1);
      EntryIs20BytesIff(Offset(objs, k));
    }
  }

  /** Entries are at least 20 bytes long, more if an offset is too large, and hold no letter t. */
  lemma {:induction false} EntriesAreNoTrailer(objs: seq<string>, k: nat)
    requires k <= |objs|
    ensures |UpToEntry(objs, k)| >= EntryBase(objs) + 20 + 20 * k
    ensures (exists i :: 1 <= i <= k && Offset(objs, i) >= 10000000000) ==>
              |UpToEntry(objs, k)| > EntryBase(objs) + 20 + 20 * k
    ensures forall p :: EntryBase(objs) <= p < |UpToEntry(objs, k)| ==> UpToEntry(objs, k)[p] != 't'
  {
    hide Offset, Body, XrefHead, XrefEntry;
    if k == 0 {
      assert |FreeEntry()| == 20 && forall p :: 0 <= p < 20 ==> FreeEntry()[p] != 't';
      assert |Body(objs, |objs|) + XrefHead(|objs| + 1)| == EntryBase(objs);
    } else {
      EntriesAreNoTrailer(objs, k - 1);
      EntryHasNoT(Offset(objs, k));
    }
  }

  lemma {:induction false} EntryHasNoT(offset: nat)
    ensures |XrefEntry(offset)| >= 20 && forall p :: 0 <= p < |XrefEntry(offset)| ==> XrefEntry(offset)[p] != 't'
    ensures offset >= 10000000000 ==> |XrefEntry(offset)| > 20
  {
    EntryIs20BytesIff(offset);
    assert AllDigits(Padded10(offset)) && |Padded10(offset)| >= 10;
    assert forall p :: 0 <= p < |Padded10(offset)| ==> IsDigit(Padded10(offset)[p]);
    assert forall p :: 0 <= p < 10 ==> " 00000 n \n"[p] != 't';
  }

  /** With an offset that does not fit, no trailer stands where the entries should end. */
  lemma {:induction false} OverlongHidesTrailer(objs: seq<string>)
    requires !Fits(objs)
    ensures ReadIndex(Document(objs)).Some? && RootOf(Document(objs), ReadIndex(Document(objs)).value) == None
  {
    hide Document, UpToEntry, Offset, ReadIndex, EntryBase, TrailerAt;
    var doc, x, entries := Document(objs), Index(|objs| + 1, EntryBase(objs)), UpToEntry(objs, |objs|);
    IndexReads(objs);
    DocumentPrefixes(objs, |objs|);
    EntriesAreNoTrailer(objs, |objs|);
    var at := x.base + 20 * x.size;
    assert at < |entries| && doc[at] == entries[at] != 't';
    NoTrailerAt(doc, at);
  }

  lemma {:induction false} NoTrailerAt(doc: string, at: nat)
    requires at < |doc| && doc[at] != 't'
    ensures TrailerAt(doc, at) == None
  {
    assert TrailerStart()[0] == 't';
  }

  lemma {:induction false} EntryStands(objs: seq<string>, i: nat)
    requires 1 <= i <= |objs| && Fits(objs)
    ensures StandsAt(Document(objs), EntryBase(objs) + 20 * i, XrefEntry(Offset(objs, i)))
  {
    hide Document, StandsAt, XrefEntry, Offset;
    DocumentPrefixes(objs, i);
    EntriesLength(objs, i - 1);
    PrefixStands(Document(objs), UpToEntry(objs, i - 1), XrefEntry(Offset(objs, i)));
  }

  lemma {:induction false} TailReads(doc: string, a: string, d: string)
    requires d != "" && AllDigits(d) && doc == a + StartXref() + d + EndOfFile()
    ensures StartXrefValue(doc) == Some(Value(d))
  {
    var b := |a| + 10;
    assert StandsAt(doc, b - 10, StartXref()) && StandsAt(doc, b, d) by {
      PrefixStands(doc, a, StartXref());
      PrefixStands(doc, a + StartXref(), d);
    }
    assert StandsAt(doc, |doc| - 7, EndOfFile()) by {
      PrefixStands(doc, a + StartXref() + d, EndOfFile());
    }
    assert DigitsStart(doc, |doc| - 7) == b by {
      assert doc[b - 1] == StartXref()[9];
      DigitsStartAt(doc, b, d);
    }
  }

  /** startxref points at the cross-reference section. */
  lemma {:induction false} StartXrefReads(objs: seq<string>)
    ensures StartXrefValue(Document(objs)) == Some(|Body(objs, |objs|)|)
  {
    var d := Numeral(|Body(objs, |objs|)|);
    var a := UpToEntry(objs, |objs|) + Trailer(|objs| + 1);
    assert Document(objs) == a + StartXref() + d + EndOfFile();
    ValueOfNumeral(|Body(objs, |objs|)|);
    TailReads(Document(objs), a, d);
  }

  lemma {:induction false} SectionReads(doc: string, p: nat, e: nat)
    requires StandsAt(doc, p, "xref\n0 ") && DigitsEnd(doc, p + 7) == e != p + 7
    requires StandsAt(doc, e, "\n") && StandsAt(doc, e + 1, FreeEntry())
    ensures IndexAt(doc, p) == Some(Index(Value(doc[p + 7..e]), e + 1))
  {
    hide Value, DigitsEnd, StandsAt;
  }

  lemma {:induction false} XrefHeadReads(doc: string, p: nat, size: nat)
    requires StandsAt(doc, p, XrefHead(size)) && StandsAt(doc, p + |XrefHead(size)|, FreeEntry())
    ensures IndexAt(doc, p) == Some(Index(size, p + |XrefHead(size)|))
  {
    hide FreeEntry, IndexAt;
    var d := Numeral(size);
    StandsAtSplit(doc, p, "xref\n0 ", d + "\n");
    StandsAtSplit(doc, p + 7, d, "\n");
    assert doc[p + 7 + |d|] == '\n';
    DigitsEndAt(doc, p + 7, d);
    ValueOfNumeral(size);
    SectionReads(doc, p, p + 7 + |d|);
  }

  lemma {:induction false} IndexFollows(doc: string, body: string, size: nat)
    requires StartXrefValue(doc) == Some(|body|) && body + (XrefHead(size) + FreeEntry()) <= doc
    ensures ReadIndex(doc) == Some(Index(size, |body| + |XrefHead(size)|))
  {
    hide XrefHead, FreeEntry, StartXrefValue, IndexAt;
    PrefixStands(doc, body, XrefHead(size) + FreeEntry());
    StandsAtSplit(doc, |body|, XrefHead(size), FreeEntry());
    XrefHeadReads(doc, |body|, size);
  }

  lemma {:induction false} HeadFollowsBody(objs: seq<string>)
    ensures Body(objs, |objs|) + (XrefHead(|objs| + 1) + FreeEntry()) <= Document(objs)
  {
    hide Document, Body, XrefHead, FreeEntry;
    assert UpToEntry(objs, 0) == Body(objs, |objs|) + (XrefHead(|objs| + 1) + FreeEntry());
    DocumentPrefixes(objs, 0);
  }

  /** The cross-reference section announces one entry more than there are objects. */
  lemma {:induction false} IndexReads(objs: seq<string>)
    ensures ReadIndex(Document(objs)) == Some(Index(|objs| + 1, EntryBase(objs)))
  {
    hide ReadIndex, Document, Body;
    StartXrefReads(objs);
    HeadFollowsBody(objs);
    IndexFollows(Document(objs), Body(objs, |objs|), |objs| + 1);
  }

  lemma {:induction false} XrefEntryReads(doc: string, x: Index, i: nat, offset: nat)
    requires i < x.size && offset < 10000000000 && StandsAt(doc, x.base + 20 * i, XrefEntry(offset))
    ensures EntryOffset(doc, x, i) == Some(offset)
  {
    var at := x.base + 20 * i;
    Padded10Reads(offset);
    StandsAtSplit(doc, at, Padded10(offset), " 00000 n \n");
  }

  /** The index leads to object i, and the object is closed. */
  predicate IndexedObject(doc: string, x: Index, i: nat, obj: string) {
    && ObjectStart(doc, x, i).Some?
    && StandsAt(doc, ObjectStart(doc, x, i).value, obj)
    && StandsAt(doc, ObjectStart(doc, x, i).value + |obj|, "\nendobj\n")
  }

  lemma {:induction false} ObjectTextReads(doc: string, x: Index, i: nat, offset: nat, obj: string)
    requires EntryOffset(doc, x, i) == Some(offset) && StandsAt(doc, offset, ObjectText(i, obj))
    ensures IndexedObject(doc, x, i, obj)
  {
    StandsAtSplit(doc, offset, ObjectHead(i), obj + "\nendobj\n");
    StandsAtSplit(doc, offset + |ObjectHead(i)|, obj, "\nendobj\n");
  }

  /** The index leads to every object. */
  ghost predicate Indexes(doc: string, x: Index, objs: seq<string>) {
    forall i :: 1 <= i <= |objs| ==> IndexedIn(doc, x, objs, i)
  }

  predicate IndexedIn(doc: string, x: Index, objs: seq<string>, i: nat)
    requires 1 <= i <= |objs|
  {
    IndexedObject(doc, x, i, objs[i - 1])
  }

  lemma {:induction false} ObjectIndexed(objs: seq<string>, i: nat)
    requires Fits(objs) && 1 <= i <= |objs|
    ensures IndexedObject(Document(objs), Index(|objs| + 1, EntryBase(objs)), i, objs[i - 1])
  {
    hide Document, IndexedObject, EntryOffset, EntryBase, ObjectText, StandsAt, XrefEntry, Offset;
    var doc, x, o := Document(objs), Index(|objs| + 1, EntryBase(objs)), Offset(objs, i);
    EntryStands(objs, i);
    XrefEntryReads(doc, x, i, o);
    ObjectStands(objs, i);
    ObjectTextReads(doc, x, i, o, objs[i - 1]);
  }

  /** Every cross-reference offset points at its object, headed by its own number. */
  lemma {:induction false} ObjectsIndexed(objs: seq<string>)
    requires Fits(objs)
    ensures Indexes(Document(objs), Index(|objs| + 1, EntryBase(objs)), objs)
  {
    hide Document, IndexedObject, EntryBase, Fits;
    var doc, x := Document(objs), Index(|objs| + 1, EntryBase(objs));
    forall i | 1 <= i <= |objs| ensures IndexedIn(doc, x, objs, i) {
      ObjectIndexed(objs, i);
    }
  }

  // ----- Reading the objects -----

  lemma {:induction false} FourStand(doc: string, at: nat, a: string, b: string, c: string, d: string, e: string)
    requires StandsAt(doc, at, a + (b + (c + (d + e))))
    ensures StandsAt(doc, at, a) && StandsAt(doc, at + |a|, b) && StandsAt(doc, at + |a| + |b|, c)
    ensures StandsAt(doc, at + |a| + |b| + |c|, d) && StandsAt(doc, at + |a| + |b| + |c| + |d|, e)
  {
    StandsAtSplit(doc, at, a, b + (c + (d + e)));
    StandsAtSplit(doc, at + |a|, b, c + (d + e));
    StandsAtSplit(doc, at + |a| + |b|, c, d + e);
    StandsAtSplit(doc, at + |a| + |b| + |c|, d, e);
  }

  lemma {:induction false} LengthReads(doc: string, at: nat, d: string)
    requires AllDigits(d) && StandsAt(doc, at + 11, d) && StandsAt(doc, at + 11 + |d|, " >>\nstream\n")
    ensures DigitsEnd(doc, at + 11) == at + 11 + |d| && doc[at + 11..at + 11 + |d|] == d
  {
    assert doc[at + 11 + |d|] == ' ';
    DigitsEndAt(doc, at + 11, d);
  }

  lemma {:induction false} PartsRead(doc: string, at: nat, e: nat, data: string)
    requires StandsAt(doc, at, "<< /Length ") && DigitsEnd(doc, at + 11) == e && Value(doc[at + 11..e]) == |data|
    requires StandsAt(doc, e, " >>\nstream\n")
    requires StandsAt(doc, e + 11, data) && StandsAt(doc, e + 11 + |data|, "\nendstream\nendobj\n")
    ensures ReadStream(doc, at) == Some(data)
  {
  }

  lemma {:induction false} StreamCloses(doc: string, at: nat)
    requires StandsAt(doc, at, "\nendstream") && StandsAt(doc, at + 10, "\nendobj\n")
    ensures StandsAt(doc, at, "\nendstream\nendobj\n")
  {
    StandsAtSplit(doc, at, "\nendstream", "\nendobj\n");
    assert "\nendstream" + "\nendobj\n" == "\nendstream\nendobj\n";
  }

  lemma {:induction false} NumberedStreamReads(doc: string, at: nat, d: string, data: string)
    requires AllDigits(d) && Value(d) == |data|
    requires StandsAt(doc, at, "<< /Length " + (d + (" >>\nstream\n" + (data + "\nendstream"))))
    requires StandsAt(doc, at + 11 + |d| + 11 + |data| + 10, "\nendobj\n")
    ensures ReadStream(doc, at) == Some(data)
  {
    hide ReadStream, StandsAt;
    var e := at + 11 + |d|;
    FourStand(doc, at, "<< /Length ", d, " >>\nstream\n", data, "\nendstream");
    StreamCloses(doc, e + 11 + |data|);
    LengthReads(doc, at, d);
    PartsRead(doc, at, e, data);
  }

  /** Length is the byte count of the stream, so the stream is read whole whatever bytes it holds. */
  lemma {:induction false} StreamReads(doc: string, at: nat, data: string)
    requires StandsAt(doc, at, StreamObject(data)) && StandsAt(doc, at + |StreamObject(data)|, "\nendobj\n")
    ensures ReadStream(doc, at) == Some(data)
  {
    ValueOfNumeral(|data|);
    NumberedStreamReads(doc, at, Numeral(|data|), data);
  }

  lemma {:induction false} ReferenceReads(doc: string, at: nat, i: nat)
    requires StandsAt(doc, at, Reference(i))
    ensures ReadReference(doc, at) == Some((i, at + |Reference(i)|))
  {
    var d := Numeral(i);
    StandsAtSplit(doc, at, d, " 0 R");
    assert doc[at + |d|] == ' ';
    DigitsEndAt(doc, at, d);
    ValueOfNumeral(i);
  }

  lemma {:induction false} SizeReads(doc: string, at: nat, d: string, root: nat)
    requires d != "" && AllDigits(d)
    requires StandsAt(doc, at, TrailerStart() + (d + (" /Root " + (Reference(root) + " >>\n"))))
    ensures TrailerAt(doc, at) == Some(TrailerEntries(Value(d), root))
  {
    hide Reference, ReadReference, Value;
    var b := at + |TrailerStart()|;
    FourStand(doc, at, TrailerStart(), d, " /Root ", Reference(root), " >>\n");
    assert doc[b + |d|] == ' ';
    DigitsEndAt(doc, b, d);
    ReferenceReads(doc, b + |d| + 7, root);
  }

  /** Size is one more than the number of objects, as in the cross-reference section, and Root is object 1. */
  lemma {:induction false} TrailerReads(objs: seq<string>)
    requires Fits(objs)
    ensures var x := Index(|objs| + 1, EntryBase(objs));
            TrailerAt(Document(objs), x.base + 20 * x.size) == Some(TrailerEntries(|objs| + 1, 1))
  {
    hide TrailerAt, StandsAt, UpToEntry, Numeral;
    var size := |objs| + 1;
    EntriesLength(objs, |objs|);
    assert UpToEntry(objs, |objs|) + Trailer(size) <= Document(objs);
    PrefixStands(Document(objs), UpToEntry(objs, |objs|), Trailer(size));
    ValueOfNumeral(size);
    SizeReads(Document(objs), |UpToEntry(objs, |objs|)|, Numeral(size), 1);
  }

  /** The catalog names the page tree, which is object 2. */
  lemma {:induction false} CatalogReads(doc: string, x: Index)
    requires ObjectStart(doc, x, 1).Some? && StandsAt(doc, ObjectStart(doc, x, 1).value, Catalog())
    ensures TreeOf(doc, x, 1) == Some(2)
  {
    hide Reference, ReadReference;
    var at := ObjectStart(doc, x, 1).value;
    StandsAtSplit(doc, at, CatalogStart(), Reference(2) + " >>");
    StandsAtSplit(doc, at + |CatalogStart()|, Reference(2), " >>");
    ReferenceReads(doc, at + |CatalogStart()|, 2);
  }

  lemma {:induction false} ObjectsAt(l: Layout, pages: seq<string>, k: nat, i: nat)
    requires i < k <= |pages|
    ensures Objects(l, pages, k)[5 + 2 * i] == PageDict(l, 7 + 2 * i)
    ensures Objects(l, pages, k)[6 + 2 * i] == StreamObject(pages[i])
  {
    hide PagesDict, PageDict, StreamObject;
    if i + 1 < k {
      ObjectsAt(l, pages, k - 1, i);
    }
  }

  lemma {:induction false} PagesDictAt(l: Layout, pages: seq<string>, k: nat)
    requires k <= |pages|
    ensures Objects(l, pages, k)[0] == Catalog() && Objects(l, pages, k)[1] == PagesDict(|pages|)
  {
    hide PagesDict, PageDict, StreamObject;
    if k != 0 {
      PagesDictAt(l, pages, k - 1);
    }
  }

  lemma {:induction false} ContentsReads(doc: string, l: Layout, at: nat, content: nat)
    requires StandsAt(doc, at, PageDict(l, content))
    ensures ContentsOf(doc, l.pageStart, at) == Some(content)
  {
    hide Reference, ReadReference;
    StandsAtSplit(doc, at, l.pageStart, Reference(content) + " >>");
    StandsAtSplit(doc, at + |l.pageStart|, Reference(content), " >>");
    ReferenceReads(doc, at + |l.pageStart|, content);
  }

  lemma {:induction false} PageDictReads(doc: string, x: Index, l: Layout, id: nat, content: nat, data: string)
    requires IndexedObject(doc, x, id, PageDict(l, content)) && IndexedObject(doc, x, content, StreamObject(data))
    ensures PageStream(doc, x, l.pageStart, id) == Some(data)
  {
    hide PageDict, StreamObject, ReadStream, StandsAt;
    ContentsReads(doc, l, ObjectStart(doc, x, id).value, content);
    StreamReads(doc, ObjectStart(doc, x, content).value, data);
  }

  /** Each page dictionary names its own content stream. */
  lemma {:induction false} PageReads(doc: string, x: Index, l: Layout, pages: seq<string>, i: nat)
    requires i < |pages| && Indexes(doc, x, Objects(l, pages, |pages|))
    ensures PageStream(doc, x, l.pageStart, 6 + 2 * i) == Some(pages[i])
  {
    var objs := Objects(l, pages, |pages|);
    ObjectsAt(l, pages, |pages|, i);
    assert IndexedIn(doc, x, objs, 6 + 2 * i) && IndexedIn(doc, x, objs, 7 + 2 * i);
    PageDictReads(doc, x, l, 6 + 2 * i, 7 + 2 * i, pages[i]);
  }

  /** The object numbers of the first k pages. */
  function PageIds(k: nat): (ids: seq<nat>)
    ensures |ids| == k && forall j :: 0 <= j < k ==> ids[j] == 6 + 2 * j
  {
    if k == 0 then [] else PageIds(k - 1) + [4 + 2 * k]
  }

  /** The same list of references, read from the front. */
  function Join(ids: seq<nat>): string
    requires ids != []
  {
    if |ids| == 1 then Reference(ids[0]) else Reference(ids[0]) + (" " + Join(ids[1..]))
  }

  lemma {:induction false} Regroup(a: string, sep: string, b: string, c: string)
    ensures a + (sep + (b + sep + c)) == a + (sep + b) + sep + c
  {
  }

  lemma {:induction false} JoinFirst(id: nat, ids: seq<nat>)
    requires ids != []
    ensures Join([id] + ids) == Reference(id) + (" " + Join(ids))
    ensures Join([id] + ids) == Reference(id) + " " + Join(ids)
  {
  }

  lemma {:induction false} JoinLast(ids: seq<nat>, last: nat)
    requires ids != []
    ensures Join(ids + [last]) == Join(ids) + " " + Reference(last)
  {
    if |ids| == 1 {
      JoinFirst(ids[0], [last]);
      assert ids + [last] == [ids[0]] + [last];
    } else {
      JoinFirst(ids[0], ids[1..]);
      JoinLast(ids[1..], last);
      JoinFirst(ids[0], ids[1..] + [last]);
      assert ids + [last] == [ids[0]] + (ids[1..] + [last]) && ids == [ids[0]] + ids[1..];
      Regroup(Reference(ids[0]), " ", Join(ids[1..]), Reference(last));
    }
  }

  lemma {:induction false} KidsIsJoin(k: nat)
    requires 0 < k
    ensures Kids(k) == Join(PageIds(k))
  {
    if k == 1 {
      assert PageIds(1) == [6];
    } else {
      KidsIsJoin(k - 1);
      JoinLast(PageIds(k - 1), 4 + 2 * k);
    }
  }

  lemma {:induction false} OneMoreKid(doc: string, at: nat, kid: nat, tail: string, next: nat, rest: seq<nat>,
                                      end: nat)
    requires StandsAt(doc, at, Reference(kid) + (" " + tail))
    requires next == at + |Reference(kid)| + 1 && ReadKids(doc, next) == Some((rest, end))
    ensures ReadKids(doc, at) == Some(([kid] + rest, end))
  {
    hide Reference, ReadReference;
    var e := at + |Reference(kid)|;
    StandsAtSplit(doc, at, Reference(kid), " " + tail);
    StandsAtSplit(doc, e, " ", tail);
    ReferenceReads(doc, at, kid);
    assert doc[e] == ' ' && !StandsAt(doc, e, "]");
  }

  lemma {:induction false} LastKid(doc: string, at: nat, kid: nat)
    requires StandsAt(doc, at, Reference(kid)) && StandsAt(doc, at + |Reference(kid)|, "]")
    ensures ReadKids(doc, at) == Some(([kid], at + |Reference(kid)| + 1))
  {
    ReferenceReads(doc, at, kid);
  }

  lemma {:induction false} TailStands(doc: string, at: nat, ref: string, tail: string)
    requires StandsAt(doc, at, ref + (" " + tail)) && StandsAt(doc, at + |ref + (" " + tail)|, "]")
    ensures StandsAt(doc, at + |ref| + 1, tail) && StandsAt(doc, at + |ref| + 1 + |tail|, "]")
  {
  }

  lemma {:induction false} KidsRead(doc: string, at: nat, ids: seq<nat>)
    requires ids != [] && StandsAt(doc, at, Join(ids)) && StandsAt(doc, at + |Join(ids)|, "]")
    ensures ReadKids(doc, at) == Some((ids, at + |Join(ids)| + 1))
    decreases |ids|
  {
    hide Reference, ReadReference, ReadKids;
    if |ids| == 1 {
      LastKid(doc, at, ids[0]);
      assert ids == [ids[0]];
    } else {
      var ref, tail := Reference(ids[0]), Join(ids[1..]);
      var next := at + |ref| + 1;
      assert Join(ids) == ref + (" " + tail);
      TailStands(doc, at, ref, tail);
      KidsRead(doc, next, ids[1..]);
      assert ids == [ids[0]] + ids[1..];
      OneMoreKid(doc, at, ids[0], tail, next, ids[1..], next + |tail| + 1);
    }
  }

  lemma {:induction false} KidsListReads(doc: string, at: nat, ids: seq<nat>, before: string, after: string)
    requires ids != [] && StandsAt(doc, at, before + (Join(ids) + ("]" + after)))
    ensures StandsAt(doc, at, before)
    ensures ReadKids(doc, at + |before|) == Some((ids, at + |before| + |Join(ids)| + 1))
    ensures StandsAt(doc, at + |before| + |Join(ids)| + 1, after)
  {
    hide Join, ReadKids;
    StandsAtSplit(doc, at, before, Join(ids) + ("]" + after));
    StandsAtSplit(doc, at + |before|, Join(ids), "]" + after);
    StandsAtSplit(doc, at + |before| + |Join(ids)|, "]", after);
    KidsRead(doc, at + |before|, ids);
  }

  lemma {:induction false} PagesDictIs(total: nat)
    requires 0 < total
    ensures PagesDict(total) == KidsStart() + (Join(PageIds(total)) + ("]" + (" /Count " + (Numeral(total) + " >>"))))
  {
    hide Join, Kids, PageIds, Numeral;
    KidsIsJoin(total);
    var tail := Numeral(total) + " >>";
    assert "] /Count " + tail == "]" + (" /Count " + tail);
  }

  lemma {:induction false} CountReads(doc: string, at: nat, d: string)
    requires d != "" && AllDigits(d) && StandsAt(doc, at, " /Count " + (d + " >>"))
    ensures CountAt(doc, at) == Some(Value(d))
  {
    StandsAtSplit(doc, at, " /Count ", d + " >>");
    StandsAtSplit(doc, at + 8, d, " >>");
    assert doc[at + 8 + |d|] == ' ';
    DigitsEndAt(doc, at + 8, d);
  }

  lemma {:induction false} PagesDictReads(doc: string, x: Index, total: nat)
    requires 0 < total
    requires ObjectStart(doc, x, 2).Some? && StandsAt(doc, ObjectStart(doc, x, 2).value, PagesDict(total))
    ensures PageTree(doc, x, 2) == Some(PageIds(total))
  {
    hide PagesDict, Join, ReadKids, PageIds, Numeral, CountAt, StandsAt;
    PagesDictIs(total);
    var at, ids := ObjectStart(doc, x, 2).value, PageIds(total);
    KidsListReads(doc, at, ids, KidsStart(), " /Count " + (Numeral(total) + " >>"));
    CountReads(doc, at + |KidsStart()| + |Join(ids)| + 1, Numeral(total));
    ValueOfNumeral(total);
  }

  lemma {:induction false} OneMoreStream(doc: string, x: Index, pageStart: string, ids: seq<nat>, pages: seq<string>)
    requires ids != [] && pages != [] && PageStream(doc, x, pageStart, ids[0]) == Some(pages[0])
    requires PageStreams(doc, x, pageStart, ids[1..]) == Some(pages[1..])
    ensures PageStreams(doc, x, pageStart, ids) == Some(pages)
  {
    hide PageStream;
    assert pages == [pages[0]] + pages[1..];
  }

  lemma {:induction false} StreamsRead(doc: string, x: Index, l: Layout, pages: seq<string>, i: nat)
    requires i <= |pages| && Indexes(doc, x, Objects(l, pages, |pages|))
    ensures PageStreams(doc, x, l.pageStart, PageIds(|pages|)[i..]) == Some(pages[i..])
    decreases |pages| - i
  {
    hide Objects, Indexes, PageStream, PageIds;
    if i < |pages| {
      PageReads(doc, x, l, pages, i);
      StreamsRead(doc, x, l, pages, i + 1);
      var ids := PageIds(|pages|);
      assert ids[i..][0] == ids[i] == 6 + 2 * i && ids[i..][1..] == ids[i + 1..];
      assert pages[i..][0] == pages[i] && pages[i..][1..] == pages[i + 1..];
      OneMoreStream(doc, x, l.pageStart, ids[i..], pages[i..]);
    } else {
      assert PageIds(|pages|)[i..] == [] && pages[i..] == [];
    }
  }

  /** The page tree lists the pages, and each of them leads to its bytes. */
  lemma {:induction false} IndexedPagesRead(doc: string, x: Index, l: Layout, pages: seq<string>)
    requires pages != [] && Indexes(doc, x, Objects(l, pages, |pages|))
    ensures TreeOf(doc, x, 1) == Some(2) && PageTree(doc, x, 2) == Some(PageIds(|pages|))
    ensures PageStreams(doc, x, l.pageStart, PageIds(|pages|)) == Some(pages)
  {
    PagesDictAt(l, pages, |pages|);
    assert IndexedIn(doc, x, Objects(l, pages, |pages|), 1) && IndexedIn(doc, x, Objects(l, pages, |pages|), 2);
    CatalogReads(doc, x);
    PagesDictReads(doc, x, |pages|);
    StreamsRead(doc, x, l, pages, 0);
    assert PageIds(|pages|)[0..] == PageIds(|pages|) && pages[0..] == pages;
  }

  lemma {:induction false} HeaderReads(objs: seq<string>)
    ensures StandsAt(Document(objs), 0, "%PDF-1.")
  {
    hide Document;
    DocumentPrefixes(objs, 0);
    assert Body(objs, 0)[..7] == "%PDF-1.";
  }

  lemma {:induction false} FollowedThrough(doc: string, x: Index, pageStart: string, pages: seq<string>)
    requires StandsAt(doc, 0, "%PDF-1.")
    requires ReadIndex(doc) == Some(x) && TrailerAt(doc, x.base + 20 * x.size) == Some(TrailerEntries(x.size, 1))
    requires TreeOf(doc, x, 1) == Some(2) && PageTree(doc, x, 2) == Some(PageIds(|pages|))
    requires PageStreams(doc, x, pageStart, PageIds(|pages|)) == Some(pages)
    ensures ReadPages(doc, pageStart) == Some(pages)
  {
    hide ReadIndex, TrailerAt, TreeOf, PageTree, PageStreams, PageIds;
  }

  lemma {:induction false} FittingDocumentReadsBack(l: Layout, pages: seq<string>)
    requires pages != [] && Fits(Objects(l, pages, |pages|))
    ensures ReadPages(Document(Objects(l, pages, |pages|)), l.pageStart) == Some(pages)
  {
    hide Document, ReadPages, ReadIndex, Objects, Fits, TrailerAt, TreeOf, PageTree, PageStreams;
    var objs := Objects(l, pages, |pages|);
    var doc, x := Document(objs), Index(|objs| + 1, EntryBase(objs));
    HeaderReads(objs);
    IndexReads(objs);
    ObjectsIndexed(objs);
    TrailerReads(objs);
    IndexedPagesRead(doc, x, l, pages);
    FollowedThrough(doc, x, l.pageStart, pages);
  }

  /**
   The round trip. For any pages at all, opening the compiled document from its end and following
   startxref, the cross-reference section, the trailer's Root, the catalog, the page tree, each page's
   Contents reference and each stream's Length gives back every page's bytes, in order, if and only if
   every offset fits the ten digits of an entry.
   */
  lemma {:induction false} CompiledDocumentReadsBackIff(l: Layout, pages: seq<string>)
    requires pages != []
    ensures ReadPages(Document(Objects(l, pages, |pages|)), l.pageStart) == Some(pages)
       <==> Fits(Objects(l, pages, |pages|))
  {
    hide Document, Objects, Fits, ReadIndex, RootOf, TreeOf, PageTree, PageStreams;
    if Fits(Objects(l, pages, |pages|)) {
      FittingDocumentReadsBack(l, pages);
    } else {
      OverlongHidesTrailer(Objects(l, pages, |pages|));
    }
  }
}
