/**
 Which texts the reader of integers takes, and for which numbers, said by the parts of the text instead of
 by the way it is read.
 */
module IntegerGrammar {
  import opened Prelude
  import opened IntegerText

  predicate Blanks(s: string) {
    forall i :: 0 <= i < |s| ==> IsBlank(s[i])
  }

  /** Digits of the base, with single underscores between them. */
  predicate Grouped(s: string, base: nat) {
    && s != "" && s[0] != '_' && s[|s| - 1] != '_'
    && (forall i :: 0 <= i < |s| ==> s[i] == '_' || DigitIn(s[i], base).Some?)
    && (forall i :: 0 < i < |s| ==> s[i - 1] == '_' ==> s[i] != '_')
  }

  /** The number the digits write, the last digit being the units. */
  function Number(s: string, base: nat): nat {
    if s == "" then 0
    else
      var front, last := Number(s[..|s| - 1], base), DigitIn(s[|s| - 1], base);
      if last.Some? then front * base + last.value else front
  }

  /** Nothing, or a zero, a letter for the base and perhaps an underscore. */
  predicate IsPrefix(p: string, letters: string) {
    p == "" || (2 <= |p| <= 3 && p[0] == '0' && p[1] in letters && (|p| == 3 ==> p[2] == '_'))
  }

  datatype Parts = Parts(left: string, sign: string, prefix: string, digits: string, right: string)

  ghost predicate IsWriting(t: Parts, s: string, base: nat, letters: string) {
    && s == t.left + (t.sign + (t.prefix + t.digits)) + t.right
    && Blanks(t.left) && Blanks(t.right)
    && t.sign in ["", "+", "-"] && IsPrefix(t.prefix, letters) && Grouped(t.digits, base)
  }

  function Meaning(t: Parts, base: nat): int {
    if t.sign == "-" then -(Number(t.digits, base) as int) else Number(t.digits, base)
  }

  // ----- Blanks -----

  lemma {:induction false} StripsLeft(s: string) returns (left: string)
    ensures s == left + StripLeft(s) && Blanks(left)
    ensures StripLeft(s) != "" ==> !IsBlank(StripLeft(s)[0])
  {
    if s != "" && IsBlank(s[0]) {
      var rest := StripsLeft(s[1..]);
      left := [s[0]] + rest;
      assert s == [s[0]] + s[1..];
    } else {
      left := "";
    }
  }

  lemma {:induction false} StripsRight(s: string) returns (right: string)
    ensures s == StripRight(s) + right && Blanks(right)
    ensures StripRight(s) != "" ==> !IsBlank(StripRight(s)[|StripRight(s)| - 1])
  {
    if s != "" && IsBlank(s[|s| - 1]) {
      var rest := StripsRight(s[..|s| - 1]);
      right := rest + [s[|s| - 1]];
      assert s == s[..|s| - 1] + [s[|s| - 1]];
    } else {
      right := "";
    }
  }

  lemma {:induction false} StripLeftOf(left: string, t: string)
    requires Blanks(left) && t != "" && !IsBlank(t[0])
    ensures StripLeft(left + t) == t
  {
    if left == "" {
      assert left + t == t;
    } else {
      StripLeftOf(left[1..], t);
      assert (left + t)[1..] == left[1..] + t;
    }
  }

  lemma {:induction false} StripRightOf(t: string, right: string)
    requires Blanks(right) && t != "" && !IsBlank(t[|t| - 1])
    ensures StripRight(t + right) == t
  {
    if right == "" {
      assert t + right == t;
    } else {
      StripRightOf(t, right[..|right| - 1]);
      assert (t + right)[..|t + right| - 1] == t + right[..|right| - 1];
    }
  }

  // ----- Digits -----

  /** The same number, taken up from the left. */
  function Taken(s: string, base: nat, acc: nat): nat {
    if s == "" then acc
    else
      var d := DigitIn(s[0], base);
      Taken(s[1..], base, if d.Some? then acc * base + d.value else acc)
  }

  lemma {:induction false} TakenIsNumber(s: string, t: string, base: nat)
    ensures Taken(t, base, Number(s, base)) == Number(s + t, base)
    decreases |t|
  {
    if t == "" {
      assert s + t == s;
    } else {
      assert (s + [t[0]])[..|s + [t[0]]| - 1] == s && s + t == s + [t[0]] + t[1..];
      TakenIsNumber(s + [t[0]], t[1..], base);
    }
  }

  /** What may follow when a digit is due, or when one has just been read. */
  predicate Continues(s: string, base: nat, due: bool) {
    if s == "" then !due
    else
      && (due ==> s[0] != '_') && s[|s| - 1] != '_'
      && (forall i :: 0 <= i < |s| ==> s[i] == '_' || DigitIn(s[i], base).Some?)
      && (forall i :: 0 < i < |s| ==> s[i - 1] == '_' ==> s[i] != '_')
  }

  lemma {:induction false} UnderscoreIsNoDigit(base: nat)
    ensures DigitIn('_', base) == None
  {
  }

  lemma {:induction false} ContinuesTail(s: string, base: nat, due: bool)
    requires s != ""
    ensures Continues(s, base, due) <==>
              && (s[0] == '_' || DigitIn(s[0], base).Some?) && (due ==> s[0] != '_')
              && Continues(s[1..], base, s[0] == '_')
  {
    hide DigitIn;
    var t := s[1..];
    assert forall i :: 0 <= i < |t| ==> t[i] == s[i + 1];
    if Continues(t, base, s[0] == '_') && (s[0] == '_' || DigitIn(s[0], base).Some?) {
      forall i | 0 <= i < |s| ensures s[i] == '_' || DigitIn(s[i], base).Some? {
        assert i > 0 ==> t[i - 1] == s[i];
      }
      forall i | 0 < i < |s| && s[i - 1] == '_' ensures s[i] != '_' {
        assert t[i - 1] == s[i];
        assert i > 1 ==> t[i - 2] == s[i - 1];
      }
    }
  }

  lemma {:induction false} DigitsIs(s: string, base: nat, acc: nat, due: bool)
    ensures Digits(s, base, acc, due) == if Continues(s, base, due) then Some(Taken(s, base, acc)) else None
  {
    hide DigitIn, Continues;
    if s != "" {
      ContinuesTail(s, base, due);
      UnderscoreIsNoDigit(base);
      match DigitIn(s[0], base) {
        case Some(d) => DigitsIs(s[1..], base, acc * base + d, false);
        case None => DigitsIs(s[1..], base, acc, true);
      }
    } else {
      NothingContinues(base, due);
    }
  }

  lemma {:induction false} NothingContinues(base: nat, due: bool)
    ensures Continues("", base, due) <==> !due
  {
  }

  lemma {:induction false} DigitsIff(s: string, base: nat)
    ensures Digits(s, base, 0, true) == if Grouped(s, base) then Some(Number(s, base)) else None
  {
    hide DigitIn, Digits;
    DigitsIs(s, base, 0, true);
    TakenIsNumber("", s, base);
    assert "" + s == s;
  }

  /** Both cases of the letters are digits, and the signs, blanks and base letters are none. */
  lemma {:induction false} DigitsAre(d: nat, base: nat)
    requires d < base <= 16
    ensures DigitIn("0123456789abcdef"[d], base) == DigitIn("0123456789ABCDEF"[d], base) == Some(d)
    ensures forall c :: c in "+- _xXoO" ==> DigitIn(c, base) == None
  {
  }

  // ----- The whole text -----

  /** The letters that name a base are not digits of it. */
  predicate NoDigits(letters: string, base: nat) {
    forall c :: c in letters ==> c != '_' && DigitIn(c, base) == None
  }

  lemma {:induction false} PrefixSkips(p: string, digits: string, base: nat, letters: string)
    requires IsPrefix(p, letters) && Grouped(digits, base) && NoDigits(letters, base)
    ensures SkipPrefix(p + digits, letters) == digits
  {
    hide DigitIn;
    if p == "" {
      assert p + digits == digits;
      assert |digits| >= 2 ==> digits[1] == '_' || DigitIn(digits[1], base).Some?;
    } else {
      assert (p + digits)[|p|..] == digits;
      assert |p| == 2 ==> (p + digits)[2] == digits[0] != '_';
    }
  }

  lemma {:induction false} PrefixSkipped(u: string, letters: string) returns (p: string)
    ensures IsPrefix(p, letters) && u == p + SkipPrefix(u, letters)
  {
    p := u[..|u| - |SkipPrefix(u, letters)|];
  }

  /** The sign of a text, if it has one, and what comes after. */
  function Signed(t: string): (r: (string, string))
    ensures r.0 in ["", "+", "-"] && t == r.0 + r.1
  {
    if t != "" && t[0] == '-' then ("-", t[1..])
    else if t != "" && t[0] == '+' then ("+", t[1..])
    else ("", t)
  }

  lemma {:induction false} SignedIs(sign: string, body: string)
    requires sign in ["", "+", "-"] && body != "" && body[0] != '-' && body[0] != '+'
    ensures Signed(sign + body) == (sign, body)
  {
    assert (sign + body)[|sign|..] == body;
  }

  /** The text without its blanks, read. */
  function ParseCore(t: string, base: nat, letters: string): Option<int> {
    match Digits(SkipPrefix(Signed(t).1, letters), base, 0, true)
    case Some(v) => (var value: int := v; Some(if Signed(t).0 == "-" then -value else value))
    case None => None
  }

  lemma {:induction false} ParseIsCore(s: string, base: nat, letters: string)
    ensures Parse(s, base, letters) == ParseCore(StripRight(StripLeft(s)), base, letters)
  {
  }

  lemma {:induction false} DigitIsNoMark(c: char, base: nat)
    requires DigitIn(c, base).Some? && base <= 16
    ensures !IsBlank(c) && c != '+' && c != '-'
  {
  }

  lemma {:induction false} CoreReads(t: Parts, base: nat, letters: string)
    requires t.sign in ["", "+", "-"] && IsPrefix(t.prefix, letters) && Grouped(t.digits, base)
    requires NoDigits(letters, base) && base <= 16
    ensures ParseCore(t.sign + (t.prefix + t.digits), base, letters) == Some(Meaning(t, base))
    ensures var core := t.sign + (t.prefix + t.digits);
            core != "" && !IsBlank(core[0]) && !IsBlank(core[|core| - 1])
  {
    hide DigitIn, IsPrefix, Digits, SkipPrefix, Signed;
    var body := t.prefix + t.digits;
    var core := t.sign + body;
    PrefixSkips(t.prefix, t.digits, base, letters);
    DigitsIff(t.digits, base);
    DigitIsNoMark(t.digits[0], base);
    DigitIsNoMark(t.digits[|t.digits| - 1], base);
    PrefixBegins(t.prefix, letters);
    SignedIs(t.sign, body);
    assert core[|core| - 1] == t.digits[|t.digits| - 1];
  }

  lemma {:induction false} PrefixBegins(p: string, letters: string)
    requires IsPrefix(p, letters)
    ensures p != "" ==> p[0] == '0'
  {
  }

  lemma {:induction false} WritingReads(t: Parts, s: string, base: nat, letters: string)
    requires IsWriting(t, s, base, letters) && NoDigits(letters, base) && base <= 16
    ensures Parse(s, base, letters) == Some(Meaning(t, base))
  {
    hide ParseCore, Parse, IsPrefix, Grouped, NoDigits;
    var core := t.sign + (t.prefix + t.digits);
    CoreReads(t, base, letters);
    assert s == t.left + (core + t.right) && (core + t.right)[0] == core[0];
    StripLeftOf(t.left, core + t.right);
    StripRightOf(core, t.right);
    ParseIsCore(s, base, letters);
  }

  lemma {:induction false} CoreIsWritten(core: string, base: nat, letters: string) returns (t: Parts)
    requires ParseCore(core, base, letters).Some?
    ensures core == t.sign + (t.prefix + t.digits) && t.sign in ["", "+", "-"]
    ensures IsPrefix(t.prefix, letters) && Grouped(t.digits, base)
    ensures ParseCore(core, base, letters) == Some(Meaning(t, base))
  {
    hide DigitIn, IsPrefix, Digits, SkipPrefix, Signed;
    var u := Signed(core).1;
    var p := PrefixSkipped(u, letters);
    DigitsIff(SkipPrefix(u, letters), base);
    t := Parts("", Signed(core).0, p, SkipPrefix(u, letters), "");
  }

  /**
   A text reads as a number if and only if it is blanks, a sign or none, the base's prefix or none, digits
   of the base with single underscores between them, and blanks; and it is the number they write.
   */
  lemma {:induction false} ParsesIff(s: string, base: nat, letters: string, v: int)
    requires NoDigits(letters, base) && base <= 16
    ensures Parse(s, base, letters) == Some(v) <==> exists t :: IsWriting(t, s, base, letters) && Meaning(t, base) == v
  {
    hide ParseCore, Parse, IsPrefix, Grouped, NoDigits, Meaning;
    if Parse(s, base, letters) == Some(v) {
      ParseIsCore(s, base, letters);
      var left := StripsLeft(s);
      var right := StripsRight(StripLeft(s));
      var core := StripRight(StripLeft(s));
      var t := CoreIsWritten(core, base, letters);
      var whole := t.(left := left, right := right);
      assert s == left + core + right;
      SameMeaning(t, whole, base);
      assert IsWriting(whole, s, base, letters);
    }
    if t :| IsWriting(t, s, base, letters) && Meaning(t, base) == v {
      WritingReads(t, s, base, letters);
    }
  }

  lemma {:induction false} SameMeaning(t: Parts, u: Parts, base: nat)
    requires t.sign == u.sign && t.digits == u.digits
    ensures Meaning(t, base) == Meaning(u, base)
  {
  }

  /** The two readers of the archive's header fields: hexadecimal and octal. */
  lemma {:induction false} FieldsParseIff(s: string, v: int)
    ensures ParseHex(s) == Some(v) <==> exists t :: IsWriting(t, s, 16, "xX") && Meaning(t, 16) == v
    ensures ParseOctal(s) == Some(v) <==> exists t :: IsWriting(t, s, 8, "oO") && Meaning(t, 8) == v
  {
    hide Parse, Meaning, IsWriting;
    ParsesIff(s, 16, "xX", v);
    ParsesIff(s, 8, "oO", v);
  }
}
