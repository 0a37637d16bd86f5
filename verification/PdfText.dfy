/**
 Escaping of text shown on a page, and the reading of PDF literal strings (section 7.3.4.2 of
 ISO 32000-1) that undoes it.
 */
module PdfText {
  import opened Prelude

  /** Replacing every occurrence of one character by a string. */
  function Replace(t: string, c: char, sub: string): string {
    if t == "" then "" else (if t[0] == c then sub else [t[0]]) + Replace(t[1..], c, sub)
  }

  /** Three passes: first backslashes, then opening, then closing parentheses. */
  function Escape(t: string): string {
    Replace(Replace(Replace(t, '\\', "\\\\"), '(', "\\("), ')', "\\)")
  }

  /** The operators before a shown text, up to the parenthesis that opens it. */
  function TextSetup(x: string, y: string, font: string, size: string, color: string): string {
    "BT\n/" + font + " " + size + " Tf\n" + color + " rg\n1 0 0 1 " + x + " " + y + " Tm\n("
  }

  const TEXT_END := " Tj\nET\n"

  predicate IsSpecial(c: char) {
    c == '\\' || c == '(' || c == ')'
  }

  /** One pass: a backslash before each special character. */
  function EscapeOnce(t: string): string {
    if t == "" then "" else (if IsSpecial(t[0]) then ['\\', t[0]] else [t[0]]) + EscapeOnce(t[1..])
  }

  lemma {:induction false} Associative(a: string, b: string, c: string)
    ensures a + (b + c) == a + b + c
  {
  }

  lemma {:induction false} ReplaceConcat(a: string, b: string, c: char, sub: string)
    ensures Replace(a + b, c, sub) == Replace(a, c, sub) + Replace(b, c, sub)
  {
    if a == "" {
      assert a + b == b;
    } else {
      var first := if a[0] == c then sub else [a[0]];
      ReplaceConcat(a[1..], b, c, sub);
      assert (a + b)[0] == a[0] && (a + b)[1..] == a[1..] + b;
      Associative(first, Replace(a[1..], c, sub), Replace(b, c, sub));
    }
  }

  lemma {:induction false} ReplaceOne(x: char, c: char, sub: string)
    ensures Replace([x], c, sub) == if x == c then sub else [x]
  {
  }

  lemma {:induction false} ReplaceTwo(x: char, y: char, c: char, sub: string)
    requires x != c
    ensures Replace([x, y], c, sub) == [x] + if y == c then sub else [y]
  {
    assert [x, y][1..] == [y];
    ReplaceOne(y, c, sub);
  }

  lemma {:induction false} EscapeOne(c: char)
    ensures Escape([c]) == if IsSpecial(c) then ['\\', c] else [c]
  {
    ReplaceOne(c, '\\', "\\\\");
    ReplaceOne(c, '(', "\\(");
    ReplaceOne(c, ')', "\\)");
    ReplaceTwo('\\', '\\', '(', "\\(");
    ReplaceTwo('\\', '\\', ')', "\\)");
    ReplaceTwo('\\', '(', ')', "\\)");
  }

  lemma {:induction false} EscapeConcat(a: string, b: string)
    ensures Escape(a + b) == Escape(a) + Escape(b)
  {
    ReplaceConcat(a, b, '\\', "\\\\");
    var a1, b1 := Replace(a, '\\', "\\\\"), Replace(b, '\\', "\\\\");
    ReplaceConcat(a1, b1, '(', "\\(");
    ReplaceConcat(Replace(a1, '(', "\\("), Replace(b1, '(', "\\("), ')', "\\)");
  }

  /** The three passes do not interfere: together they escape each character once. */
  lemma {:induction false} EscapeIsOnePass(t: string)
    ensures Escape(t) == EscapeOnce(t)
  {
    if t != "" {
      assert t == [t[0]] + t[1..];
      EscapeConcat([t[0]], t[1..]);
      EscapeOne(t[0]);
      EscapeIsOnePass(t[1..]);
    }
  }

  // ----- Reading a literal string -----

  predicate IsOctal(c: char) {
    '0' <= c <= '7'
  }

  /** How many of the first three characters are leading octal digits. */
  function OctalLength(s: string): (n: nat)
    ensures n <= 3 && n <= |s| && forall i :: 0 <= i < n ==> IsOctal(s[i])
  {
    if s == "" || !IsOctal(s[0]) then 0
    else if |s| == 1 || !IsOctal(s[1]) then 1
    else if |s| == 2 || !IsOctal(s[2]) then 2
    else 3
  }

  function OctalValue(s: string): nat
    requires forall i :: 0 <= i < |s| ==> IsOctal(s[i])
  {
    if s == "" then 0
    else
      assert IsOctal(s[|s| - 1]);
      OctalValue(s[..|s| - 1]) * 8 + (s[|s| - 1] as int - '0' as int)
  }

  function Prepend(c: char, r: Option<(string, string)>): Option<(string, string)> {
    if r.None? then None else Some(([c] + r.value.0, r.value.1))
  }

  /** After an unescaped carriage return, a line feed belongs to the same end-of-line marker. */
  function SkipLineFeed(s: string): (r: string)
    ensures |r| <= |s|
  {
    if s != "" && s[0] == '\n' then s[1..] else s
  }

  /** The text of a literal string whose opening parenthesis is already read, and what follows its
      closing one. */
  function ReadLiteral(s: string, depth: nat): Option<(string, string)>
    decreases |s|
  {
    if s == "" then None
    else if s[0] == ')' then
      if depth == 0 then Some(("", s[1..])) else Prepend(')', ReadLiteral(s[1..], depth - 1))
    else if s[0] == '(' then Prepend('(', ReadLiteral(s[1..], depth + 1))
    else if s[0] == '\r' then Prepend('\n', ReadLiteral(SkipLineFeed(s[1..]), depth))
    else if s[0] != '\\' then Prepend(s[0], ReadLiteral(s[1..], depth))
    else if |s| == 1 then None
    else
      var e, tail := s[1], s[2..];
      if e == 'n' then Prepend('\n', ReadLiteral(tail, depth))
      else if e == 'r' then Prepend('\r', ReadLiteral(tail, depth))
      else if e == 't' then Prepend('\t', ReadLiteral(tail, depth))
      else if e == 'b' then Prepend(8 as char, ReadLiteral(tail, depth))
      else if e == 'f' then Prepend(12 as char, ReadLiteral(tail, depth))
      else if IsSpecial(e) then Prepend(e, ReadLiteral(tail, depth))
      else if e == '\n' then ReadLiteral(tail, depth)
      else if e == '\r' then ReadLiteral(SkipLineFeed(tail), depth)
      else if IsOctal(e) then
        var n := OctalLength(s[1..]);
        Prepend((OctalValue(s[1..1 + n]) % 256) as char, ReadLiteral(s[1 + n..], depth))
      else Prepend(e, ReadLiteral(tail, depth))  // the backslash is ignored
  }

  /** Every end-of-line marker becomes one line feed. */
  function NormaliseEol(t: string): string
    decreases |t|
  {
    if t == "" then ""
    else if t[0] == '\r' then "\n" + NormaliseEol(SkipLineFeed(t[1..]))
    else [t[0]] + NormaliseEol(t[1..])
  }

  lemma {:induction false} ReadEscapedOnce(t: string, rest: string)
    ensures ReadLiteral(EscapeOnce(t) + ")" + rest, 0) == Some((NormaliseEol(t), rest))
    decreases |t|
  {
    var s := EscapeOnce(t) + ")" + rest;
    if t == "" {
      assert s[1..] == rest;
    } else if IsSpecial(t[0]) {
      assert s == ['\\', t[0]] + (EscapeOnce(t[1..]) + ")" + rest);
      assert s[2..] == EscapeOnce(t[1..]) + ")" + rest;
      ReadEscapedOnce(t[1..], rest);
    } else {
      assert s == [t[0]] + (EscapeOnce(t[1..]) + ")" + rest);
      assert s[1..] == EscapeOnce(t[1..]) + ")" + rest;
      if t[0] == '\r' {
        var u := SkipLineFeed(t[1..]);
        assert SkipLineFeed(s[1..]) == EscapeOnce(u) + ")" + rest by {
          if t[1..] != "" && t[1] == '\n' {
            assert t[1..][0] == '\n' && t[1..][1..] == u;
            assert EscapeOnce(t[1..]) == ['\n'] + EscapeOnce(u);
            assert s[1..][1..] == EscapeOnce(u) + ")" + rest;
          } else if t[1..] != "" {
            assert EscapeOnce(t[1..])[0] == if IsSpecial(t[1]) then '\\' else t[1];
          }
        }
        ReadEscapedOnce(u, rest);
      } else {
        ReadEscapedOnce(t[1..], rest);
      }
    }
  }

  /** Reading an escaped text gives it back with its end-of-line markers normalised, and stops at the
      parenthesis that closes it, whatever follows. */
  lemma {:induction false} ReadEscaped(t: string, rest: string)
    ensures ReadLiteral(Escape(t) + ")" + rest, 0) == Some((NormaliseEol(t), rest))
  {
    EscapeIsOnePass(t);
    ReadEscapedOnce(t, rest);
  }

  lemma {:induction false} NormaliseKeepsExactly(t: string)
    ensures NormaliseEol(t) == t <==> '\r' !in t
    ensures '\r' !in NormaliseEol(t)
    decreases |t|
  {
    if t != "" {
      if t[0] == '\r' {
        NormaliseKeepsExactly(SkipLineFeed(t[1..]));
      } else {
        NormaliseKeepsExactly(t[1..]);
        assert t == [t[0]] + t[1..];
      }
    }
  }

  /** The round trip is exact for the texts without carriage returns, and only for them. */
  lemma {:induction false} RoundTripIff(t: string, rest: string)
    ensures ReadLiteral(Escape(t) + ")" + rest, 0) == Some((t, rest)) <==> '\r' !in t
  {
    ReadEscaped(t, rest);
    NormaliseKeepsExactly(t);
  }

  /** No parenthesis stands outside an escape. */
  predicate NoBareParenthesis(s: string) {
    if s == "" then true
    else if s[0] == '\\' then |s| >= 2 && NoBareParenthesis(s[2..])
    else s[0] != '(' && s[0] != ')' && NoBareParenthesis(s[1..])
  }

  lemma {:induction false} EscapedHasNoBareParenthesis(t: string)
    ensures NoBareParenthesis(Escape(t))
    decreases |t|
  {
    EscapeIsOnePass(t);
    if t != "" {
      EscapedHasNoBareParenthesis(t[1..]);
      EscapeIsOnePass(t[1..]);
      if IsSpecial(t[0]) {
        assert EscapeOnce(t)[2..] == EscapeOnce(t[1..]);
      } else {
        assert EscapeOnce(t)[1..] == EscapeOnce(t[1..]);
      }
    }
  }
}
