/**
 The text of a PDF document: numbered objects, the cross-reference section and the trailer
 (sections 7.5.4 and 7.5.5 of ISO 32000-1). A string here is a sequence of bytes, one character
 each. Texts are defined in the order in which the composer appends them.
 */
module PdfDocument {
  import opened Decimal
  import opened PdfText

  /** The fixed texts of a document, for a page size already formatted. */
  datatype Layout = Layout(
    fontF1: string,
    fontF2: string,
    fontF3: string,
    pageStart: string,                // a page dictionary up to its Contents reference
    header: string,
    footer: (nat, nat) -> string      // page number and page count
  )

  /** The line above every page and the rule under it. */
  function StandardHeader(): string {
    "BT /F1 7.5 Tf 0.392 0.455 0.545 rg 1 0 0 1 40 765 Tm ("
    + Escape("ECDAT Cryptographic Security & Quantum Risk Assessment")
    + ") Tj ET\n0.800 0.835 0.880 RG 0.5 w 40 757 m 572 757 l S\n"
  }

  function StandardFooter(number: nat, total: nat): string {
    "0.800 0.835 0.880 RG 0.5 w 40 42 m 572 42 l S\nBT /F1 7.5 Tf 0.392 0.455 0.545 rg 1 0 0 1 40 30 Tm ("
    + Escape("Page " + Numeral(number) + " of " + Numeral(total)
             + "   |   ECDAT v0.1.0 " + "Assessment   |   CONFIDENTIAL")
    + ") Tj ET\n"
  }

  function StandardPageStart(width: string, height: string): string {
    "<< /Type /Page /Parent 2 0 R /MediaBox [0 0" + " " + width + " " + (height + "]") + " "
    + "/Resources << /Font << /F1 3 0 R /F2 4 0 R /F3 5 0 R >> >>" + " " + "/Contents" + " "
  }

  function StandardFont(name: string): string {
    "<< /Type /Font /Subtype /Type1 /BaseFont /" + name + " >>"
  }

  function StandardLayout(width: string, height: string): Layout {
    Layout(StandardFont("Helvetica"), StandardFont("Helvetica-Bold"), StandardFont("Courier"),
           StandardPageStart(width, height), StandardHeader(),
           (number: nat, total: nat) => StandardFooter(number, total))
  }

  // ----- Objects -----

  function Reference(i: nat): string {
    Numeral(i) + " 0 R"
  }

  /** The references to the first k pages, separated by spaces. */
  function Kids(k: nat): string {
    if k == 0 then "" else if k == 1 then Reference(6) else Kids(k - 1) + " " + Reference(4 + 2 * k)
  }

  function PagesDict(total: nat): string {
    "<< /Type /Pages /Kids [" + (Kids(total) + ("] /Count " + Numeral(total) + " >>"))
  }

  function PageDict(l: Layout, content: nat): string {
    l.pageStart + (Reference(content) + " >>")
  }

  function StreamObject(data: string): string {
    "<< /Length " + (Numeral(|data|) + (" >>\nstream\n" + (data + "\nendstream")))
  }

  /** Object 1, which names the page tree. */
  function Catalog(): string {
    "<< /Type /Catalog /Pages " + (Reference(2) + " >>")
  }

  function FixedObjects(l: Layout, total: nat): seq<string> {
    [Catalog(), PagesDict(total), l.fontF1, l.fontF2, l.fontF3]
  }

  /** The five fixed objects, then a dictionary and a content stream for each of the first k pages. */
  function Objects(l: Layout, pages: seq<string>, k: nat): (r: seq<string>)
    requires k <= |pages|
    ensures |r| == 5 + 2 * k
  {
    if k == 0 then FixedObjects(l, |pages|)
    else Objects(l, pages, k - 1) + [PageDict(l, 5 + 2 * k)] + [StreamObject(pages[k - 1])]
  }

  // ----- The file -----

  function ObjectHead(i: nat): string {
    Numeral(i) + " 0 obj\n"
  }

  function ObjectText(i: nat, obj: string): string {
    ObjectHead(i) + (obj + "\nendobj\n")
  }

  /** The header line and the first k objects. */
  function Body(objs: seq<string>, k: nat): string
    requires k <= |objs|
  {
    if k == 0 then "%PDF-1.4\n" else Body(objs, k - 1) + ObjectText(k, objs[k - 1])
  }

  /** Where object i, counted from 1, begins. */
  function Offset(objs: seq<string>, i: nat): nat
    requires 1 <= i <= |objs|
  {
    |Body(objs, i - 1)|
  }

  function XrefHead(size: nat): string {
    "xref\n0 " + (Numeral(size) + "\n")
  }

  function FreeEntry(): string {
    "0000000000 65535 f \n"
  }

  function XrefEntry(offset: nat): string {
    Padded10(offset) + " 00000 n \n"
  }

  /** The body, the cross-reference head, the free entry and the entries of the first k objects. */
  function UpToEntry(objs: seq<string>, k: nat): string
    requires k <= |objs|
  {
    if k == 0 then Body(objs, |objs|) + XrefHead(|objs| + 1) + FreeEntry()
    else UpToEntry(objs, k - 1) + XrefEntry(Offset(objs, k))
  }

  function Trailer(size: nat): string {
    "trailer\n<< /Size " + (Numeral(size) + (" /Root " + (Reference(1) + " >>\n")))
  }

  function StartXref(): string {
    "startxref\n"
  }

  function EndOfFile(): string {
    "\n%%EOF\n"
  }

  function Document(objs: seq<string>): string {
    UpToEntry(objs, |objs|) + Trailer(|objs| + 1) + StartXref() + Numeral(|Body(objs, |objs|)|) + EndOfFile()
  }
}
