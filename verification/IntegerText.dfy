/**
 Reading an integer from text in a given base, with everything the host language's reader allows:
 surrounding blanks, a sign, a base prefix, and single underscores between digits.
 */
module IntegerText {
  import opened Prelude

  predicate IsBlank(c: char) {
    c == ' ' || 9 as char <= c <= 13 as char
  }

  function StripLeft(s: string): (r: string)
    ensures |r| <= |s|
  {
    if s != "" && IsBlank(s[0]) then StripLeft(s[1..]) else s
  }

  function StripRight(s: string): (r: string)
    ensures |r| <= |s|
  {
    if s != "" && IsBlank(s[|s| - 1]) then StripRight(s[..|s| - 1]) else s
  }

  function DigitIn(c: char, base: nat): Option<nat> {
    var v :=
      if '0' <= c <= '9' then c as int - '0' as int
      else if 'a' <= c <= 'f' then c as int - 'a' as int + 10
      else if 'A' <= c <= 'F' then c as int - 'A' as int + 10
      else base;
    if v < base then Some(v) else None
  }

  function Digits(s: string, base: nat, acc: nat, digitDue: bool): Option<nat> {
    if s == "" then if digitDue then None else Some(acc)
    else if s[0] == '_' then if digitDue then None else Digits(s[1..], base, acc, true)
    else match DigitIn(s[0], base)
      case Some(d) => Digits(s[1..], base, acc * base + d, false)
      case None => None
  }

  /** The prefix that names the base, and the underscore that may follow it. */
  function SkipPrefix(s: string, letters: string): string {
    if |s| >= 2 && s[0] == '0' && s[1] in letters
    then if |s| >= 3 && s[2] == '_' then s[3..] else s[2..]
    else s
  }

  function Parse(s: string, base: nat, letters: string): Option<int> {
    var t := StripRight(StripLeft(s));
    var negative := t != "" && t[0] == '-';
    var u := if t != "" && (t[0] == '-' || t[0] == '+') then t[1..] else t;
    match Digits(SkipPrefix(u, letters), base, 0, true)
    case Some(v) =>
      var value: int := v;
      Some(if negative then -value else value)
    case None => None
  }

  function ParseHex(s: string): Option<int> {
    Parse(s, 16, "xX")
  }

  function ParseOctal(s: string): Option<int> {
    Parse(s, 8, "oO")
  }

  // ----- Fixed-width hexadecimal -----

  function HexDigit(d: nat): char
    requires d < 16
  {
    "0123456789ABCDEF"[d]
  }

  function Hex(v: nat, width: nat): (s: string)
    ensures |s| == width
  {
    if width == 0 then "" else Hex(v / 16, width - 1) + [HexDigit(v % 16)]
  }

  function Power16(k: nat): nat {
    if k == 0 then 1 else 16 * Power16(k - 1)
  }

  predicate IsHexDigit(c: char) {
    '0' <= c <= '9' || 'A' <= c <= 'F'
  }

  lemma {:induction false} HexIsDigits(v: nat, width: nat)
    ensures forall i :: 0 <= i < width ==> IsHexDigit(Hex(v, width)[i])
  {
    if width != 0 {
      HexIsDigits(v / 16, width - 1);
    }
  }

  lemma {:induction false} OneHexDigit(d: nat, rest: string, acc: nat, due: bool)
    requires d < 16
    ensures Digits([HexDigit(d)] + rest, 16, acc, due) == Digits(rest, 16, acc * 16 + d, false)
  {
    assert ([HexDigit(d)] + rest)[1..] == rest && DigitIn(HexDigit(d), 16) == Some(d);
  }

  lemma {:induction false} LowDigit(acc: nat, p: nat, v: nat)
    ensures (acc * p + v / 16) * 16 + v % 16 == acc * (16 * p) + v
  {
  }

  lemma {:induction false} DigitsOfHex(v: nat, width: nat, rest: string, acc: nat, due: bool)
    requires v < Power16(width)
    ensures Digits(Hex(v, width) + rest, 16, acc, due)
         == Digits(rest, 16, acc * Power16(width) + v, due && width == 0)
  {
    if width == 0 {
      assert Hex(v, width) + rest == rest;
    } else {
      hide Digits, HexDigit, DigitIn;
      var d := HexDigit(v % 16);
      assert Hex(v, width) + rest == Hex(v / 16, width - 1) + ([d] + rest);
      DigitsOfHex(v / 16, width - 1, [d] + rest, acc, due);
      OneHexDigit(v % 16, rest, acc * Power16(width - 1) + v / 16, due && width == 1);
      LowDigit(acc, Power16(width - 1), v);
    }
  }

  lemma {:induction false} PlainDigitsParse(s: string, base: nat, letters: string)
    requires s != "" && (forall i :: 0 <= i < |s| ==> IsHexDigit(s[i]))
    requires forall c :: c in letters ==> !IsHexDigit(c)
    requires Digits(s, base, 0, true).Some?
    ensures Parse(s, base, letters) == Some(Digits(s, base, 0, true).value)
  {
  }

  lemma {:induction false} HexFieldDigits(v: nat, width: nat)
    requires 0 < width && v < Power16(width)
    ensures Digits(Hex(v, width), 16, 0, true) == Some(v)
  {
    var s, p := Hex(v, width), Power16(width);
    DigitsOfHex(v, width, "", 0, true);
    assert s + "" == s;
    assert 0 * p + v == v;
    assert Digits("", 16, v, false) == Some(v);
  }

  /** A fixed-width field reads back as the number it was written from. */
  lemma {:induction false} ParseHexField(v: nat, width: nat)
    requires 0 < width && v < Power16(width)
    ensures ParseHex(Hex(v, width)) == Some(v)
  {
    var s := Hex(v, width);
    assert forall i :: 0 <= i < |s| ==> IsHexDigit(s[i]) by { HexIsDigits(v, width); }
    assert Digits(s, 16, 0, true) == Some(v) by { HexFieldDigits(v, width); }
    PlainDigitsParse(s, 16, "xX");
  }

  /** With a minus sign in front it reads back as the negative number. */
  lemma {:induction false} ParseNegativeHexField(v: nat, width: nat)
    requires 0 < width && v < Power16(width)
    ensures ParseHex("-" + Hex(v, width)).Some? && ParseHex("-" + Hex(v, width)).value == -(v as int)
  {
    hide Hex;
    var s := Hex(v, width);
    var t := "-" + s;
    assert Digits(s, 16, 0, true) == Some(v) by { HexFieldDigits(v, width); }
    assert forall i :: 0 <= i < |s| ==> IsHexDigit(s[i]) by { HexIsDigits(v, width); }
    assert t[0] == '-' && IsHexDigit(t[|t| - 1]) && t[1..] == s;
    assert StripLeft(t) == t && StripRight(t) == t;
    UnprefixedHex(s);
  }

  lemma {:induction false} UnprefixedHex(s: string)
    requires forall i :: 0 <= i < |s| ==> IsHexDigit(s[i])
    ensures SkipPrefix(s, "xX") == s
  {
  }
}
