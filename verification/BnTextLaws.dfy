/** Numerals: printing and reading are inverse to each other, and a numeral's length is bounded. */
module BnTextLaws {
  import opened Bytes
  import opened BnSpec
  import opened BnLaws
  import opened Arithmetic

  lemma DigitCharIsDigit(d: nat, base: nat)
    requires d < base <= 16
    ensures var ch := DigitChar(d);
            && CharDigit(ch) == d && IsDigit(ch, base) && !IsBlank(ch) && ch != PLUS && ch != MINUS && ch != 0
            && (ch == DigitChar(0) <==> d == 0)
  {
  }

  //////////////////////////// the characters of numerals ////////////////////////////

  /** Digits print as '0' to '9' and 'A' to 'F'. */
  lemma DigitCharacters(d: nat)
    requires d < 16
    ensures d < 10 ==> DigitChar(d) == '0' as int + d
    ensures 10 <= d ==> DigitChar(d) == "ABCDEF"[d - 10] as int
  {
  }

  /** Digits read from '0' to '9' and from letters of both cases; nothing else is a digit. */
  lemma CharacterDigits(d: nat, ch: byte)
    requires d < 16
    ensures d < 10 ==> CharDigit('0' as int + d) == d
    ensures 10 <= d ==> CharDigit("abcdef"[d - 10] as int) == d == CharDigit("ABCDEF"[d - 10] as int)
    ensures CharDigit(ch) == -1 <==> !('0' as int <= ch <= '9' as int) && !('a' as int <= ch <= 'f' as int)
                                     && !('A' as int <= ch <= 'F' as int)
    ensures -1 <= CharDigit(ch) < 16
  {
  }

  /** The signs, and the six characters passed over: space, tab, newline, vertical tab, form feed and
      carriage return. */
  lemma SignsAndBlanks(ch: byte)
    ensures PLUS == '+' as int && MINUS == '-' as int
    ensures IsBlank(ch) <==> ch == 32 || ch == 9 || ch == 10 || ch == 11 || ch == 12 || ch == 13
  {
  }

  /** The forms of a text: blanks, then a minus or plus sign or none, then the body. */
  lemma {:induction false} Forms(blanks: seq<byte>, body: seq<byte>)
    requires forall i | 0 <= i < |blanks| :: IsBlank(blanks[i])
    ensures Negative(blanks + ['-' as int] + body) && Body(blanks + ['-' as int] + body) == body
    ensures !Negative(blanks + ['+' as int] + body) && Body(blanks + ['+' as int] + body) == body
    ensures body == [] || (!IsBlank(body[0]) && body[0] != '+' as int && body[0] != '-' as int) ==>
              !Negative(blanks + body) && Body(blanks + body) == body
  {
    SignsAndBlanks(43);
    SignsAndBlanks(45);
    BlanksLead(blanks, ['-' as int] + body);
    BlanksLead(blanks, ['+' as int] + body);
    if body == [] || !IsBlank(body[0]) {
      BlanksLead(blanks, body);
    }
    assert blanks + ['-' as int] + body == blanks + (['-' as int] + body);
    assert blanks + ['+' as int] + body == blanks + (['+' as int] + body);
  }

  lemma {:induction false} BlanksLead(blanks: seq<byte>, t: seq<byte>)
    requires forall i | 0 <= i < |blanks| :: IsBlank(blanks[i])
    requires t == [] || !IsBlank(t[0])
    ensures LeadingBlanks(blanks + t) == |blanks|
  {
    hide IsBlank;
    if blanks == [] {
      assert blanks + t == t;
    } else {
      BlanksLead(blanks[1..], t);
      assert (blanks + t)[1..] == blanks[1..] + t;
    }
  }

  /** Reading goes on where it stopped: a digit multiplies by the base and adds itself. */
  lemma {:induction false} ReadOn(v: nat, a: seq<byte>, b: seq<byte>, base: nat)
    requires base > 0 && DigitsOnly(a, base) && DigitsOnly(b, base)
    ensures DigitsOnly(a + b, base) && Read(v, a + b, base) == Read(Read(v, a, base), b, base)
    decreases |b|
  {
    hide IsBlank, CharDigit;
    if b == [] {
      assert a + b == a;
    } else {
      var n := |b| - 1;
      ReadOn(v, a, b[..n], base);
      assert (a + b)[..|a| + n] == a + b[..n] && (a + b)[|a| + n] == b[n];
    }
  }

  lemma ReadOneCharacter(v: nat, ch: byte, base: nat)
    requires base > 0
    ensures DigitsOnly([ch], base) <==> IsBlank(ch) || 0 <= CharDigit(ch) < base
    ensures IsBlank(ch) ==> Read(v, [ch], base) == v
    ensures !IsBlank(ch) && 0 <= CharDigit(ch) < base ==> Read(v, [ch], base) == v * base + CharDigit(ch)
  {
    hide IsBlank, CharDigit;
    assert [ch][0] == ch && [ch][..|[ch]| - 1] == [];
    assert Read(v, [], base) == v;
  }

  //////////////////////////// upper and lower case ////////////////////////////

  /** Two characters are equal or one letter in its two cases. */
  predicate SameLetter(x: byte, y: byte) {
    || x == y
    || ('a' as int <= x <= 'z' as int && y == x - 32)
    || ('a' as int <= y <= 'z' as int && x == y - 32)
  }

  predicate SameButCase(t: seq<byte>, u: seq<byte>) {
    |t| == |u| && forall i | 0 <= i < |t| :: SameLetter(t[i], u[i])
  }

  lemma SameMeaning(x: byte, y: byte)
    requires SameLetter(x, y)
    ensures IsBlank(x) <==> IsBlank(y)
    ensures CharDigit(x) == CharDigit(y)
    ensures (x == PLUS <==> y == PLUS) && (x == MINUS <==> y == MINUS)
  {
  }

  /** The case of letters changes neither whether a text is a numeral nor what it stands for. */
  lemma CaseIgnored(v: nat, t: seq<byte>, u: seq<byte>, base: nat)
    requires base > 0 && SameButCase(t, u)
    ensures IsNumeral(t, base) <==> IsNumeral(u, base)
    ensures IsNumeral(t, base) ==> TextValue(v, t, base) == TextValue(v, u, base)
  {
    hide SameLetter, IsBlank, CharDigit, Read, DigitsOnly;
    SameBlanks(t, u);
    var n := LeadingBlanks(t);
    if n < |t| {
      SameMeaning(t[n], u[n]);
    }
    assert forall i | 0 <= i < |Body(t)| :: Body(t)[i] == t[|t| - |Body(t)| + i];
    assert forall i | 0 <= i < |Body(u)| :: Body(u)[i] == u[|u| - |Body(u)| + i];
    SameRead(v, Body(t), Body(u), base);
  }

  lemma {:induction false} SameBlanks(t: seq<byte>, u: seq<byte>)
    requires SameButCase(t, u)
    ensures LeadingBlanks(t) == LeadingBlanks(u)
  {
    hide SameLetter, IsBlank;
    if t != [] {
      SameMeaning(t[0], u[0]);
      SameBlanks(t[1..], u[1..]);
    }
  }

  lemma {:induction false} SameRead(v: nat, t: seq<byte>, u: seq<byte>, base: nat)
    requires base > 0 && SameButCase(t, u)
    ensures DigitsOnly(t, base) <==> DigitsOnly(u, base)
    ensures DigitsOnly(t, base) ==> Read(v, t, base) == Read(v, u, base)
    decreases |t|
  {
    hide SameLetter, IsBlank, CharDigit;
    forall i | 0 <= i < |t|
      ensures IsBlank(t[i]) || IsDigit(t[i], base) <==> IsBlank(u[i]) || IsDigit(u[i], base)
    {
      SameMeaning(t[i], u[i]);
    }
    if t != [] && DigitsOnly(t, base) {
      var n := |t| - 1;
      SameMeaning(t[n], u[n]);
      SameRead(v, t[..n], u[..n], base);
    }
  }

  /** A printed number consists of a minus sign for a negative one and of digits of the base. */
  lemma {:induction false} NumeralCharacters(v: nat, base: nat)
    requires 2 <= base <= 16
    ensures forall i | 0 <= i < |Numeral(v, base)| :: PrintedDigit(Numeral(v, base)[i], base)
    decreases v
  {
    hide DigitChar, PrintedDigit;
    if v < base {
      DigitPrinted(v, base);
    } else {
      QuotientShrinks(v, base);
      NumeralCharacters(v / base, base);
      DigitPrinted(v % base, base);
    }
  }

  /** One of '0' to '9' and 'A' to 'F', below the base. */
  predicate PrintedDigit(ch: byte, base: nat) {
    ('0' as int <= ch <= '9' as int && ch - '0' as int < base) ||
    ('A' as int <= ch <= 'F' as int && ch - 'A' as int + 10 < base)
  }

  lemma DigitPrinted(d: nat, base: nat)
    requires d < base <= 16
    ensures PrintedDigit(DigitChar(d), base)
  {
  }

  //////////////////////////// print, then read ////////////////////////////

  lemma {:induction false} ReadNumeral(v: nat, base: nat)
    requires 2 <= base <= 16
    ensures DigitsOnly(Numeral(v, base), base) && Read(0, Numeral(v, base), base) == v
    ensures !IsBlank(Numeral(v, base)[0]) && Numeral(v, base)[0] != PLUS && Numeral(v, base)[0] != MINUS
    ensures 0 !in Numeral(v, base)
    decreases v
  {
    hide DigitChar, CharDigit, IsBlank;
    var t := Numeral(v, base);
    if v < base {
      DigitCharIsDigit(v, base);
      assert t[..0] == [];
    } else {
      QuotientShrinks(v, base);
      ReadNumeral(v / base, base);
      DigitCharIsDigit(v % base, base);
      assert t[..|t| - 1] == Numeral(v / base, base);
    }
  }

  lemma QuotientShrinks(v: nat, base: nat)
    requires 2 <= base <= v
    ensures 0 < v / base < v && (v / base) * base + v % base == v && v % base < base
  {
    var q := v / base;
    assert q * base + v % base == v;
    MulMonotone(2, base, q);
    if q == 0 {
      ZeroTimes(q, base);
    }
  }

  /** A printed number reads back as itself, whatever its sign. */
  lemma ReadPrinted(v: int, base: nat)
    requires 2 <= base <= 16
    ensures var t := SignedNumeral(v, base);
            && t != [] && IsNumeral(t, base) && TextValue(0, t, base) == v && 0 !in t
            && (Negative(t) <==> v < 0)
  {
    hide Numeral, Read, DigitsOnly;
    var n := if v < 0 then -v else v;
    var d := Numeral(n, base);
    ReadNumeral(n, base);
    var t := SignedNumeral(v, base);
    if v < 0 {
      assert t[0] == MINUS && LeadingBlanks(t) == 0;
      assert Body(t) == d;
    } else {
      assert LeadingBlanks(t) == 0 && !HasSign(t);
      assert Body(t) == d;
    }
  }

  //////////////////////////// read, then print ////////////////////////////

  lemma {:induction false} DropZerosSnoc(t: seq<byte>, ch: byte)
    ensures DropZeros(t + [ch]) == if DropZeros(t) == [] then DropZeros([ch]) else DropZeros(t) + [ch]
  {
    hide DigitChar;
    if t == [] {
      assert t + [ch] == [ch];
    } else {
      assert (t + [ch])[1..] == t[1..] + [ch];
      if t[0] == DigitChar(0) {
        DropZerosSnoc(t[1..], ch);
      }
    }
  }

  lemma {:induction false} SignificantDigits(t: seq<byte>, base: nat)
    requires 2 <= base <= 16 && DigitsOnly(t, base)
    ensures var v := Read(0, t, base);
            DropZeros(UpperDigits(t, base)) == if v == 0 then [] else Numeral(v, base)
  {
    if t != [] {
      var init, ch := t[..|t| - 1], t[|t| - 1];
      SignificantDigits(init, base);
      if !IsBlank(ch) {
        NextDigit(Read(0, init, base), CharDigit(ch), base);
        DropZerosSnoc(UpperDigits(init, base), DigitChar(CharDigit(ch)));
        DropZerosOne(CharDigit(ch), base);
      }
    }
  }

  lemma DropZerosOne(d: nat, base: nat)
    requires d < base <= 16
    ensures DropZeros([DigitChar(d)]) == if d == 0 then [] else [DigitChar(d)]
  {
    DigitCharIsDigit(d, base);
    hide DigitChar;
    assert [DigitChar(d)][1..] == [];
  }

  /** Appending a digit to a numeral multiplies by the base and adds the digit. */
  lemma NextDigit(v: nat, d: nat, base: nat)
    requires 2 <= base <= 16 && d < base
    ensures Numeral(v * base + d, base) == if v == 0 then [DigitChar(d)] else Numeral(v, base) + [DigitChar(d)]
    ensures v * base + d == 0 <==> v == 0 && d == 0
  {
    hide DigitChar;
    if v > 0 {
      MulMonotone(1, v, base);
      DivUnique(v * base + d, base, v, d);
    } else {
      ZeroTimes(v, base);
    }
  }

  /** Printing what was read gives the canonical form of the text. */
  lemma PrintRead(t: seq<byte>, base: nat)
    requires 2 <= base <= 16 && DigitsOnly(t, base)
    ensures Numeral(Read(0, t, base), base) == Canonical(t, base)
  {
    SignificantDigits(t, base);
  }

  //////////////////////////// length ////////////////////////////

  function Pow2(k: nat): (r: nat)
    ensures r > 0
  {
    if k == 0 then 1 else 2 * Pow2(k - 1)
  }

  lemma {:induction false} OctetsAreEightBits(n: nat)
    ensures P(n) == Pow2(8 * n)
  {
    if n > 0 {
      OctetsAreEightBits(n - 1);
      var k := 8 * (n - 1);
      assert Pow2(k + 2) == 4 * Pow2(k);
      assert Pow2(k + 4) == 4 * Pow2(k + 2);
      assert Pow2(k + 6) == 4 * Pow2(k + 4);
      assert Pow2(k + 8) == 4 * Pow2(k + 6);
    }
  }

  lemma {:induction false} NumeralLength(v: nat, base: nat, k: nat)
    requires 2 <= base <= 16 && k >= 1 && v < Pow2(k)
    ensures |Numeral(v, base)| <= k
    decreases v
  {
    hide DigitChar;
    if v >= base {
      assert k != 1 by {
        assert Pow2(1) == 2;
      }
      QuotientHalves(v, base, Pow2(k - 1));
      NumeralLength(v / base, base, k - 1);
    }
  }

  lemma QuotientHalves(v: nat, base: nat, p: nat)
    requires 2 <= base <= v < 2 * p
    ensures 0 < v / base < v && v / base < p
  {
    QuotientShrinks(v, base);
    var q := v / base;
    MulMonotone(2, base, q);
  }

  /** A number of n octets has at most 8n digits in any base. */
  lemma NumeralOfOctets(s: seq<byte>, base: nat)
    requires 2 <= base <= 16 && s != []
    ensures |Numeral(Value(s), base)| <= 8 * |s|
  {
    ValueBound(s);
    OctetsAreEightBits(|s|);
    NumeralLength(Value(s), base, 8 * |s|);
  }
}
