/**
 The composer: page buffers drawn on in place, and their compilation into one document. Numbers drawn on
 a page arrive already formatted. Nothing keeps a page buffer from being listed twice.
 */
module PdfBuilder {
  import opened Prelude
  import opened Decimal
  import opened PdfText
  import opened PdfDocument
  import opened PdfReader

  class PageBuffer {
    var bytes: string

    constructor ()
      ensures bytes == ""
    {
      bytes := "";
    }
  }

  datatype CompileError = PageIndexOutOfRange

  function Stamped(l: Layout, page: string, number: nat, total: nat): string {
    l.header + page + l.footer(number, total)
  }

  ghost function Texts(pages: seq<PageBuffer>): seq<string>
    reads pages
  {
    seq(|pages|, i requires 0 <= i < |pages| reads pages => pages[i].bytes)
  }

  /** One entry of a page list, with the page number and page count it is stamped with. */
  datatype Entry = Entry(page: PageBuffer, number: nat, total: nat)

  ghost function Entries(pages: seq<PageBuffer>): (es: seq<Entry>)
    ensures |es| == |pages| && forall i :: 0 <= i < |pages| ==> es[i] == Entry(pages[i], i + 1, |pages|)
  {
    seq(|pages|, i requires 0 <= i < |pages| => Entry(pages[i], i + 1, |pages|))
  }

  /** The text of a buffer after these entries have been stamped: once for each that lists it. */
  ghost function StampedAt(l: Layout, es: seq<Entry>, page: PageBuffer, text: string): string {
    if es == [] then text
    else
      var before, last := StampedAt(l, es[..|es| - 1], page, text), es[|es| - 1];
      if last.page == page then Stamped(l, before, last.number, last.total) else before
  }

  class PdfBuilder {
    const layout: Layout
    var pages: seq<PageBuffer>
    var currentPage: PageBuffer

    constructor (width: string, height: string)
      ensures layout == StandardLayout(width, height)
      ensures fresh(currentPage) && currentPage.bytes == "" && pages == []
    {
      hide StandardLayout;
      layout := StandardLayout(width, height);
      pages := [];
      currentPage := new PageBuffer();
    }

    method NewPage()
      modifies this
      ensures fresh(currentPage) && currentPage.bytes == ""
      ensures pages == old(pages) + if old(currentPage.bytes) != "" then [old(currentPage)] else []
    {
      if currentPage.bytes != "" {
        pages := pages + [currentPage];
      }
      currentPage := new PageBuffer();
    }

    /** Rectangles, lines and badges end as appended drawing commands. */
    method Draw(cmd: string)
      modifies currentPage
      ensures currentPage.bytes == old(currentPage.bytes) + cmd
    {
      currentPage.bytes := currentPage.bytes + cmd;
    }

    /** Text is drawn as a literal string. Reading that string off the page gives the text back, with its
        line ends normalised, and leaves the operators that show it. */
    method DrawText(x: string, y: string, text: string, font: string, size: string, color: string)
      modifies currentPage
      ensures old(currentPage.bytes) <= currentPage.bytes
      ensures var start := |old(currentPage.bytes)| + |TextSetup(x, y, font, size, color)|;
              && start <= |currentPage.bytes|
              && currentPage.bytes[|old(currentPage.bytes)|..start] == TextSetup(x, y, font, size, color)
              && ReadLiteral(currentPage.bytes[start..], 0) == Some((NormaliseEol(text), TEXT_END))
    {
      var escaped := Escape(text);
      ghost var before := currentPage.bytes + TextSetup(x, y, font, size, color);
      Draw(TextSetup(x, y, font, size, color) + (escaped + ")" + TEXT_END));
      ReadEscaped(text, TEXT_END);
      assert currentPage.bytes == before + (escaped + ")" + TEXT_END);
      assert currentPage.bytes[|before|..] == escaped + ")" + TEXT_END;
    }

    method StampPages()
      modifies pages
      ensures forall p :: p in pages ==> p.bytes == StampedAt(layout, Entries(pages), p, old(p.bytes))
    {
      var idx := 0;
      while idx < |pages|
        invariant idx <= |pages|
        invariant forall p :: p in pages ==> p.bytes == StampedAt(layout, Entries(pages)[..idx], p, old(p.bytes))
        modifies pages
      {
        assert Entries(pages)[..idx + 1][..idx] == Entries(pages)[..idx];
        pages[idx].bytes := Stamped(layout, pages[idx].bytes, idx + 1, |pages|);
        idx := idx + 1;
      }
      assert Entries(pages)[..idx] == Entries(pages);
    }

    method BuildObjects() returns (objects: seq<string>)
      ensures objects == Objects(layout, Texts(pages), |pages|)
    {
      hide PageDict, StreamObject, FixedObjects;
      ghost var contents := Texts(pages);
      objects := FixedObjects(layout, |pages|);
      for idx := 0 to |pages|
        invariant objects == Objects(layout, contents, idx)
      {
        var contentId := 7 + 2 * idx;
        objects := objects + [PageDict(layout, contentId)];
        objects := objects + [StreamObject(pages[idx].bytes)];
      }
    }

    static method Assemble(objects: seq<string>) returns (buf: string)
      ensures buf == Document(objects)
    {
      buf := "%PDF-1.4\n";
      var offsets: seq<nat> := [];
      for i := 0 to |objects|
        invariant buf == Body(objects, i)
        invariant |offsets| == i && forall j :: 0 <= j < i ==> offsets[j] == Offset(objects, j + 1)
      {
        offsets := offsets + [|buf|];
        buf := buf + ObjectText(i + 1, objects[i]);
      }
      var xrefOffset := |buf|;
      buf := buf + XrefHead(|objects| + 1);
      buf := buf + FreeEntry();
      for i := 0 to |offsets|
        invariant buf == UpToEntry(objects, i)
      {
        buf := buf + XrefEntry(offsets[i]);
      }
      buf := buf + Trailer(|objects| + 1) + StartXref() + Numeral(xrefOffset) + EndOfFile();
    }

    method WriteDocument() returns (doc: string)
      ensures doc == Document(Objects(layout, Texts(pages), |pages|))
      ensures pages != [] ==> (ReadPages(doc, layout.pageStart) == Some(Texts(pages))
                               <==> Fits(Objects(layout, Texts(pages), |pages|)))
    {
      hide Document, Objects, Fits, ReadPages;
      var objects := BuildObjects();
      doc := Assemble(objects);
      ghost var texts := Texts(pages);
      assert |texts| == |pages|;
      if pages != [] {
        CompiledDocumentReadsBackIff(layout, texts);
      }
    }

    /**
     Compilation. The page being drawn is listed if anything is on it. With no page listed, the first page
     is looked up and does not exist; otherwise every entry of the list is stamped, and a reader of the
     document finds the stamped pages in the order of the list exactly while the offsets fit.
     */
    method Compile() returns (r: Result<string, CompileError>)
      modifies this, pages, currentPage
      ensures pages == old(pages) + if old(currentPage.bytes) != "" then [old(currentPage)] else []
      ensures r.Ok? <==> pages != []
      ensures r.Ok? ==> currentPage == old(currentPage)
      ensures forall p :: p in pages ==> p.bytes == StampedAt(layout, Entries(pages), p, old(p.bytes))
      ensures r.Ok? ==> r.value == Document(Objects(layout, Texts(pages), |pages|))
      ensures r.Ok? ==> (ReadPages(r.value, layout.pageStart) == Some(Texts(pages))
                         <==> Fits(Objects(layout, Texts(pages), |pages|)))
    {
      if currentPage.bytes != "" {
        pages := pages + [currentPage];
      }
      if |pages| == 0 {
        currentPage := new PageBuffer();
        return Err(PageIndexOutOfRange);
      }
      hide Document, Objects, Fits, ReadPages, Stamped;
      StampPages();
      var doc := WriteDocument();
      r := Ok(doc);
    }
  }

  // ----- Pages listed once, and more often -----

  /** Stamping one page list after another, as successive compilations do. */
  lemma {:induction false} StampedAgain(l: Layout, es: seq<Entry>, more: seq<Entry>, page: PageBuffer, text: string)
    ensures StampedAt(l, es + more, page, text) == StampedAt(l, more, page, StampedAt(l, es, page, text))
    decreases |more|
  {
    if more == [] {
      assert es + more == es;
    } else {
      StampedAgain(l, es, more[..|more| - 1], page, text);
      assert (es + more)[..|es + more| - 1] == es + more[..|more| - 1];
    }
  }

  /** Stamping never shortens a page, and adds at least a header for each entry that lists it. */
  lemma {:induction false} StampsAdd(l: Layout, es: seq<Entry>, page: PageBuffer, text: string)
    ensures |StampedAt(l, es, page, text)| >= |text|
    ensures (exists i :: 0 <= i < |es| && es[i].page == page) ==>
              |StampedAt(l, es, page, text)| >= |text| + |l.header|
    ensures (forall i :: 0 <= i < |es| ==> es[i].page != page) ==> StampedAt(l, es, page, text) == text
  {
    if es != [] {
      StampsAdd(l, es[..|es| - 1], page, text);
      assert forall i :: 0 <= i < |es| - 1 ==> es[..|es| - 1][i] == es[i];
    }
  }

  /**
   A page that entry i lists is stamped once, with the number of that entry, if and only if no other entry
   lists it. The entries may be those of any number of compilations, one after the other.
   */
  lemma {:induction false} StampedOnceIff(l: Layout, es: seq<Entry>, i: nat, text: string)
    requires i < |es| && l.header != ""
    ensures StampedAt(l, es, es[i].page, text) == Stamped(l, text, es[i].number, es[i].total)
       <==> forall j :: 0 <= j < |es| && es[j].page == es[i].page ==> j == i
  {
    var page, early, late := es[i].page, es[..i], es[i + 1..];
    var before := StampedAt(l, early, page, text);
    var here := Stamped(l, before, es[i].number, es[i].total);
    assert es == es[..i + 1] + late && es[..i + 1][..i] == early;
    StampedAgain(l, es[..i + 1], late, page, text);
    StampsAdd(l, early, page, text);
    StampsAdd(l, late, page, here);
    if j :| 0 <= j < |es| && es[j].page == page && j != i {
      if j < i {
        assert early[j].page == page;
      } else {
        assert late[j - i - 1].page == page;
      }
    }
  }

  /** The builder's own layout has a header. */
  lemma {:induction false} StandardHeaderShows(width: string, height: string)
    ensures StandardLayout(width, height).header != ""
  {
    hide StandardFont, StandardPageStart, StandardFooter, Escape;
  }

  /**
   A second compilation stamps every page again. For any page list compiled before, and any pages listed
   since, no page of the first document is stamped once when the second is written: the page being drawn is
   listed once more, and those that are not already carry a header.
   */
  lemma {:induction false} CompiledTwice(l: Layout, pages: seq<PageBuffer>, more: seq<PageBuffer>, i: nat, text: string)
    requires i < |pages| && l.header != ""
    ensures var es := Entries(pages) + Entries(pages + more);
            && StampedAt(l, Entries(pages + more), pages[i], StampedAt(l, Entries(pages), pages[i], text))
               == StampedAt(l, es, pages[i], text)
            && forall j :: 0 <= j < |es| && es[j].page == pages[i] ==>
                 StampedAt(l, es, pages[i], text) != Stamped(l, text, es[j].number, es[j].total)
  {
    hide StampedAt;
    var es := Entries(pages) + Entries(pages + more);
    StampedAgain(l, Entries(pages), Entries(pages + more), pages[i], text);
    var k := |pages| + i;
    assert es[i].page == pages[i] && es[k] == Entries(pages + more)[i] && es[k].page == pages[i] && k != i;
    forall j | 0 <= j < |es| && es[j].page == pages[i]
      ensures StampedAt(l, es, pages[i], text) != Stamped(l, text, es[j].number, es[j].total)
    {
      StampedOnceIff(l, es, j, text);
    }
  }

  lemma {:induction false} TwoStamps(l: Layout, es: seq<Entry>, k: nat, page: PageBuffer, text: string)
    requires k + 1 < |es| && es[k].page == page && es[k + 1].page == page
    requires forall j :: 0 <= j < |es| && es[j].page == page ==> j == k || j == k + 1
    ensures StampedAt(l, es, page, text)
         == Stamped(l, Stamped(l, text, es[k].number, es[k].total), es[k + 1].number, es[k + 1].total)
  {
    var early, one, two, late := es[..k], es[..k + 1], es[..k + 2], es[k + 2..];
    assert one[..k] == early && two[..k + 1] == one && es == two + late;
    StampsAdd(l, early, page, text);
    StampedAgain(l, two, late, page, text);
    StampsAdd(l, late, page, StampedAt(l, two, page, text));
  }

  /**
   Compiling again, or beginning another page and compiling, lists the open page once more. Within one
   document it is then stamped twice, with two headers and two page numbers.
   */
  lemma {:induction false} ListedTwice(l: Layout, finished: seq<PageBuffer>, open: PageBuffer, rest: seq<PageBuffer>,
                                       text: string)
    requires open !in finished && open !in rest && l.header != ""
    ensures var k, pages := |finished|, finished + [open] + [open] + rest;
            && StampedAt(l, Entries(pages), open, text)
               == Stamped(l, Stamped(l, text, k + 1, |pages|), k + 2, |pages|)
            && StampedAt(l, Entries(pages), open, text) != Stamped(l, text, k + 1, |pages|)
            && StampedAt(l, Entries(pages), open, text) != Stamped(l, text, k + 2, |pages|)
  {
    hide Stamped, StampedAt;
    var k, pages := |finished|, finished + [open] + [open] + rest;
    var es := Entries(pages);
    assert pages[k] == open && pages[k + 1] == open;
    assert forall j :: 0 <= j < |pages| && pages[j] == open ==> j == k || j == k + 1;
    StampedOnceIff(l, es, k, text);
    StampedOnceIff(l, es, k + 1, text);
    TwoStamps(l, es, k, open, text);
  }
}
