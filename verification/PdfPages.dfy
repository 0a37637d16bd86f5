/**
 What a page shows: the operands of the text operators, the running header and the footer with the page
 number, and the page size and fonts its dictionary leads to.
 */
module PdfPages {
  import opened Prelude
  import opened Positions
  import opened Decimal
  import opened PdfText
  import opened PdfDocument
  import opened PdfReader
  import opened PdfBuilder

  // ----- Operands and operators -----

  predicate IsSeparator(c: char) {
    c == ' ' || c == '\n'
  }

  /** The words of a content stream, separated by single blanks and line feeds; one is still open at the end. */
  function Words(s: string): (ws: seq<string>)
    ensures ws != []
  {
    if s == "" then [""]
    else
      var before, c := Words(s[..|s| - 1]), s[|s| - 1];
      if IsSeparator(c) then before + [""] else before[|before| - 1 := before[|before| - 1] + [c]]
  }

  predicate IsWord(s: string) {
    forall i :: 0 <= i < |s| ==> !IsSeparator(s[i])
  }

  lemma {:induction false} WordsOpen(s: string, w: string)
    requires IsWord(w)
    ensures Words(s + w) == Words(s)[|Words(s)| - 1 := Words(s)[|Words(s)| - 1] + w]
    decreases |w|
  {
    if w == "" {
      assert s + w == s;
      assert Words(s)[|Words(s)| - 1] + w == Words(s)[|Words(s)| - 1];
    } else {
      var front, c := w[..|w| - 1], w[|w| - 1];
      WordsOpen(s, front);
      assert (s + w)[..|s + w| - 1] == s + front && (s + w)[|s + w| - 1] == c;
      assert front + [c] == w;
      assert Words(s)[|Words(s)| - 1] + front + [c] == Words(s)[|Words(s)| - 1] + (front + [c]);
    }
  }

  /** Closing a word and beginning the next. */
  lemma {:induction false} WordsNext(s: string, sep: char, w: string)
    requires IsSeparator(sep) && IsWord(w)
    ensures Words(s + [sep] + w) == Words(s) + [w]
  {
    assert (s + [sep])[..|s + [sep]| - 1] == s && (s + [sep])[|s + [sep]| - 1] == sep;
    assert Words(s + [sep]) == Words(s) + [""];
    WordsOpen(s + [sep], w);
    assert "" + w == w;
  }

  lemma {:induction false} WordsAfter(s: string, sep: char, t: string)
    requires IsSeparator(sep)
    ensures Words(s + [sep] + t) == Words(s) + Words(t)
    decreases |t|
  {
    var all := s + [sep] + t;
    if t == "" {
      WordsNext(s, sep, "");
    } else {
      var front, c := t[..|t| - 1], t[|t| - 1];
      WordsAfter(s, sep, front);
      assert all[..|all| - 1] == s + [sep] + front && all[|all| - 1] == c;
    }
  }

  lemma {:induction false} OneWord(w: string)
    requires IsWord(w)
    ensures Words(w) == [w]
  {
    WordsOpen("", w);
    assert "" + w == w;
    assert Words("") == [""];
  }

  lemma {:induction false} WordsBoth(s: string, sep: string, t: string)
    requires sep == " " || sep == "\n"
    ensures Words(s + sep + t) == Words(s) + Words(t)
  {
    WordsAfter(s, sep[0], t);
    assert [sep[0]] == sep;
  }

  lemma {:induction false} FixedWords()
    ensures IsWord("BT") && IsWord("Tf") && IsWord("rg") && IsWord("1") && IsWord("0") && IsWord("Tm") && IsWord("(")
  {
  }

  /** The six words of a matrix that moves to x and y, and its operator. */
  lemma {:induction false} MatrixWords(x: string, y: string)
    requires IsWord(x) && IsWord(y)
    ensures Words("1 0 0 1 " + x + " " + y + " Tm\n(") == ["1", "0", "0", "1", x, y, "Tm", "("]
  {
    hide Words, IsWord;
    FixedWords();
    var a := "1" + " " + "0" + " " + "0" + " " + "1";
    OneWord("1");
    OneWord("0");
    OneWord("Tm");
    OneWord("(");
    OneWord(x);
    OneWord(y);
    WordsBoth("1", " ", "0");
    WordsBoth("1" + " " + "0", " ", "0");
    WordsBoth("1" + " " + "0" + " " + "0", " ", "1");
    WordsBoth(a, " ", x);
    WordsBoth(a + " " + x, " ", y);
    WordsBoth(a + " " + x + " " + y, " ", "Tm");
    WordsBoth(a + " " + x + " " + y + " " + "Tm", "\n", "(");
    assert "1 0 0 1 " + x + " " + y + " Tm\n(" == a + " " + x + " " + y + " " + "Tm" + "\n" + "(";
  }

  lemma {:induction false} FontWords(font: string, size: string)
    requires IsWord("/" + font) && IsWord(size)
    ensures Words("BT\n/" + font + " " + size + " Tf") == ["BT", "/" + font, size, "Tf"]
  {
    hide Words, IsWord;
    FixedWords();
    OneWord("BT");
    OneWord("/" + font);
    OneWord(size);
    OneWord("Tf");
    var f := "BT" + "\n" + ("/" + font);
    WordsBoth("BT", "\n", "/" + font);
    WordsBoth(f, " ", size);
    WordsBoth(f + " " + size, " ", "Tf");
    assert "BT\n/" + font + " " + size + " Tf" == f + " " + size + " " + "Tf";
  }

  lemma {:induction false} SetupSplits(x: string, y: string, font: string, size: string, color: string)
    ensures TextSetup(x, y, font, size, color)
         == ("BT\n/" + font + " " + size + " Tf") + "\n" + color + " " + "rg" + "\n"
            + ("1 0 0 1 " + x + " " + y + " Tm\n(")
  {
    var f := "BT\n/" + font + " " + size;
    assert f + " Tf\n" == f + " Tf" + "\n";
    var g := f + " Tf" + "\n" + color;
    assert g + " rg\n1 0 0 1 " + x + " " + y + " Tm\n("
        == g + " " + "rg" + "\n" + ("1 0 0 1 " + x + " " + y + " Tm\n(");
  }

  /** Font and size are the operands of Tf, the colour those of rg, and the position the last two of Tm. */
  lemma {:induction false} TextSetupReads(x: string, y: string, font: string, size: string, color: string)
    requires IsWord(x) && IsWord(y) && IsWord("/" + font) && IsWord(size)
    ensures Words(TextSetup(x, y, font, size, color))
         == ["BT", "/" + font, size, "Tf"] + Words(color) + ["rg", "1", "0", "0", "1", x, y, "Tm", "("]
  {
    hide Words, IsWord, TextSetup;
    var f, m := "BT\n/" + font + " " + size + " Tf", "1 0 0 1 " + x + " " + y + " Tm\n(";
    SetupSplits(x, y, font, size, color);
    FontWords(font, size);
    MatrixWords(x, y);
    FixedWords();
    OneWord("rg");
    FourParts(f, color, "rg", m);
  }

  lemma {:induction false} FourParts(f: string, color: string, rg: string, m: string)
    ensures Words(f + "\n" + color + " " + rg + "\n" + m) == Words(f) + Words(color) + Words(rg) + Words(m)
  {
    hide Words;
    WordsBoth(f, "\n", color);
    WordsBoth(f + "\n" + color, " ", rg);
    WordsBoth(f + "\n" + color + " " + rg, "\n", m);
  }

  // ----- Header and footer -----

  /** A shown text reads back, with what follows it. */
  lemma {:induction false} LiteralInside(s: string, before: string, text: string, after: string)
    requires s == before + Escape(text) + ")" + after && '\r' !in text
    ensures ReadLiteral(s[|before|..], 0) == Some((text, after))
  {
    hide Escape, ReadLiteral, NormaliseEol;
    assert s[|before|..] == Escape(text) + ")" + after;
    RoundTripIff(text, after);
  }

  function FooterText(number: nat, total: nat): string {
    "Page " + Numeral(number) + " of " + Numeral(total)
    + "   |   ECDAT v0.1.0 " + "Assessment   |   CONFIDENTIAL"
  }

  lemma {:induction false} NumeralsHaveNoReturn(n: nat)
    ensures '\r' !in Numeral(n)
  {
    assert AllDigits(Numeral(n));
    assert forall i :: 0 <= i < |Numeral(n)| ==> IsDigit(Numeral(n)[i]);
  }

  lemma {:induction false} NoReturnJoined(a: string, b: string)
    requires '\r' !in a && '\r' !in b
    ensures '\r' !in a + b
  {
  }

  lemma {:induction false} ImprintHasNoReturn()
    ensures '\r' !in "   |   ECDAT v0.1.0 " && '\r' !in "Assessment   |   CONFIDENTIAL"
  {
  }

  lemma {:induction false} FooterHasNoReturn(number: nat, total: nat)
    ensures '\r' !in FooterText(number, total)
  {
    hide Numeral;
    NumeralsHaveNoReturn(number);
    NumeralsHaveNoReturn(total);
    ImprintHasNoReturn();
    var parts := "Page " + Numeral(number) + " of ";
    NoReturnJoined("Page ", Numeral(number));
    NoReturnJoined("Page " + Numeral(number), " of ");
    NoReturnJoined(parts, Numeral(total));
    NoReturnJoined(parts + Numeral(total), "   |   ECDAT v0.1.0 ");
    NoReturnJoined(parts + Numeral(total) + "   |   ECDAT v0.1.0 ", "Assessment   |   CONFIDENTIAL");
  }

  lemma {:induction false} FooterReads(number: nat, total: nat) returns (at: nat)
    ensures at <= |StandardFooter(number, total)|
    ensures ReadLiteral(StandardFooter(number, total)[at..], 0) == Some((FooterText(number, total), " Tj ET\n"))
  {
    hide Escape, ReadLiteral, Numeral;
    var before :=
      "0.800 0.835 0.880 RG 0.5 w 40 42 m 572 42 l S\nBT /F1 7.5 Tf 0.392 0.455 0.545 rg 1 0 0 1 40 30 Tm (";
    at := |before|;
    FooterHasNoReturn(number, total);
    FooterIs(number, total, before);
    LiteralInside(StandardFooter(number, total), before, FooterText(number, total), " Tj ET\n");
  }

  lemma {:induction false} ShowsAndEnds(s: string)
    ensures s + ") Tj ET\n" == s + ")" + " Tj ET\n"
  {
    assert ") Tj ET\n" == ")" + " Tj ET\n";
  }

  lemma {:induction false} FooterIs(number: nat, total: nat, before: string)
    requires before ==
      "0.800 0.835 0.880 RG 0.5 w 40 42 m 572 42 l S\nBT /F1 7.5 Tf 0.392 0.455 0.545 rg 1 0 0 1 40 30 Tm ("
    ensures StandardFooter(number, total) == before + Escape(FooterText(number, total)) + ")" + " Tj ET\n"
  {
    hide Escape, Numeral;
    ShowsAndEnds(before + Escape(FooterText(number, total)));
  }

  // ----- The layout a builder has -----

  /** The texts of the standard layout. */
  ghost predicate Standard(l: Layout, width: string, height: string) {
    && l.fontF1 == StandardFont("Helvetica") && l.fontF2 == StandardFont("Helvetica-Bold")
    && l.fontF3 == StandardFont("Courier")
    && l.pageStart == StandardPageStart(width, height)
    && l.header != "" && StandardFooters(l)
  }

  ghost predicate StandardFooters(l: Layout) {
    forall n, m :: l.footer(n, m) == StandardFooter(n, m)
  }

  lemma {:induction false} StandardIs(width: string, height: string)
    ensures Standard(StandardLayout(width, height), width, height)
  {
    hide StandardHeader, StandardFooter, StandardPageStart, StandardFont;
    StandardHeaderShows(width, height);
  }

  /**
   A stamped page: between the header and the footer stands the page as drawn, and the text shown in the
   footer is the page's number and the number of pages.
   */
  lemma {:induction false} StampReads(l: Layout, page: string, number: nat, total: nat) returns (at: nat)
    requires StandardFooters(l)
    ensures var s := Stamped(l, page, number, total);
            && StandsAt(s, |l.header|, page) && |l.header| + |page| <= at <= |s|
            && ReadLiteral(s[at..], 0) == Some((FooterText(number, total), " Tj ET\n"))
  {
    hide StandardFooter, FooterText, ReadLiteral;
    var footer, s := StandardFooter(number, total), Stamped(l, page, number, total);
    var inside := FooterReads(number, total);
    at := |l.header| + |page| + inside;
    assert s == l.header + page + footer;
    assert s[at..] == footer[inside..];
    assert s[|l.header|..|l.header| + |page|] == page;
  }

  /** Over the page lists of any number of compilations: a page that one entry alone lists shows the number of
      that entry, and the number of pages. */
  lemma {:induction false} PageShowsItsNumber(l: Layout, es: seq<Entry>, i: nat, text: string) returns (at: nat)
    requires StandardFooters(l) && l.header != ""
    requires i < |es| && forall j :: 0 <= j < |es| && es[j].page == es[i].page ==> j == i
    ensures var s := StampedAt(l, es, es[i].page, text);
            at <= |s| && ReadLiteral(s[at..], 0) == Some((FooterText(es[i].number, es[i].total), " Tj ET\n"))
  {
    hide Stamped, StampedAt, FooterText, ReadLiteral;
    StampedOnceIff(l, es, i, text);
    at := StampReads(l, text, es[i].number, es[i].total);
  }

  // ----- Page size and fonts -----

  lemma {:induction false} FontObjects(l: Layout, pages: seq<string>, k: nat)
    requires k <= |pages|
    ensures Objects(l, pages, k)[2] == l.fontF1 && Objects(l, pages, k)[3] == l.fontF2
    ensures Objects(l, pages, k)[4] == l.fontF3
  {
    hide PagesDict, PageDict, StreamObject;
    if k != 0 {
      FontObjects(l, pages, k - 1);
    }
  }

  /** The object is a font dictionary with this base font. */
  predicate IsFont(doc: string, x: Index, id: nat, name: string) {
    IndexedObject(doc, x, id, "<< /Type /Font /Subtype /Type1 /BaseFont /" + name + " >>")
  }

  /** In a compiled document F1, F2 and F3 lead to Helvetica, Helvetica-Bold and Courier. */
  lemma {:induction false} FontsRead(l: Layout, width: string, height: string, pages: seq<string>)
    requires Standard(l, width, height) && Fits(Objects(l, pages, |pages|))
    ensures var objs := Objects(l, pages, |pages|);
            var doc, x := Document(objs), Index(|objs| + 1, EntryBase(objs));
            IsFont(doc, x, 3, "Helvetica") && IsFont(doc, x, 4, "Helvetica-Bold") && IsFont(doc, x, 5, "Courier")
  {
    hide Document, Objects, Fits, IndexedObject, EntryBase, StandardFooter, StandardPageStart;
    var objs := Objects(l, pages, |pages|);
    FontObjects(l, pages, |pages|);
    ObjectsIndexed(objs);
    var doc, x := Document(objs), Index(|objs| + 1, EntryBase(objs));
    assert IndexedIn(doc, x, objs, 3) && IndexedIn(doc, x, objs, 4) && IndexedIn(doc, x, objs, 5);
  }

  /** Every page is as wide and as high as the builder was told, names F1, F2 and F3 as objects 3, 4 and 5, and
      refers to its content. */
  lemma {:induction false} PageSizeAndFonts(l: Layout, width: string, height: string, content: nat)
    requires l.pageStart == StandardPageStart(width, height)
    ensures Words(PageDict(l, content))
         == Words("<< /Type /Page /Parent 2 0 R /MediaBox [0 0") + Words(width) + Words(height + "]")
            + Words("/Resources << /Font << /F1 3 0 R /F2 4 0 R /F3 5 0 R >> >>")
            + Words("/Contents") + Words(Reference(content) + " >>")
  {
    hide Words, Reference;
    SixParts("<< /Type /Page /Parent 2 0 R /MediaBox [0 0", width, height + "]",
             "/Resources << /Font << /F1 3 0 R /F2 4 0 R /F3 5 0 R >> >>", "/Contents", Reference(content) + " >>");
  }

  lemma {:induction false} SixParts(a: string, b: string, c: string, d: string, e: string, f: string)
    ensures Words(a + " " + b + " " + c + " " + d + " " + e + " " + f)
         == Words(a) + Words(b) + Words(c) + Words(d) + Words(e) + Words(f)
  {
    hide Words;
    WordsBoth(a, " ", b);
    WordsBoth(a + " " + b, " ", c);
    WordsBoth(a + " " + b + " " + c, " ", d);
    WordsBoth(a + " " + b + " " + c + " " + d, " ", e);
    WordsBoth(a + " " + b + " " + c + " " + d + " " + e, " ", f);
  }
}
