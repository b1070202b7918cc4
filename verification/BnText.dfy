/** Reading, printing and comparing big numbers (src/bn.c). */
module BigNumberText {
  import opened Arithmetic
  import opened Bytes
  import opened Buffers
  import opened BnSpec
  import opened BnLaws
  import opened BnTextLaws
  import opened BigNumbers

  //////////////////////////// reading ////////////////////////////

  /** Passes over leading blanks and an optional sign. */
  method SkipSign(str: seq<byte>) returns (ii: nat, positive: bool)
    ensures ii <= |str| && str[ii..] == Body(str)
    ensures positive <==> !Negative(str)
  {
    hide IsBlank;
    ii, positive := 0, true;
    while ii < |str|
      invariant ii <= |str| && positive
      invariant LeadingBlanks(str) == ii + LeadingBlanks(str[ii..])
    {
      var ch := str[ii];
      ii := ii + 1;
      if IsBlank(ch) {
        assert str[ii - 1..][1..] == str[ii..];
        continue;
      }
      assert LeadingBlanks(str) == ii - 1;
      if ch == PLUS {
        positive := true;
        break;
      } else if ch == MINUS {
        positive := false;
        break;
      }
      ii := ii - 1;
      break;
    }
  }

  /** Reads digits into the number: multiply by the base, add the digit. */
  method ReadDigits(bn: Buffer, str: seq<byte>, start: nat, base: nat) returns (ok: bool)
    requires bn.Valid() && start <= |str| && 2 <= base <= 16
    modifies bn, bn.data
    ensures bn.Valid() && (bn.data == old(bn.data) || fresh(bn.data))
    ensures ok <==> DigitsOnly(str[start..], base)
    ensures ok ==> Value(bn.Contents()) == Read(old(Value(bn.Contents())), str[start..], base)
    ensures ok && NoLeadingZero(old(bn.Contents())) ==> NoLeadingZero(bn.Contents())
  {
    hide Value, IsBlank, CharDigit, Read, DigitsOnly;
    ghost var v := Value(bn.Contents());
    var ii := start;
    ReadStart(v, base);
    assert str[start..ii] == [];
    while ii < |str|
      invariant start <= ii <= |str| && bn.Valid() && (bn.data == old(bn.data) || fresh(bn.data))
      invariant DigitsOnly(str[start..ii], base)
      invariant Value(bn.Contents()) == Read(v, str[start..ii], base)
      invariant NoLeadingZero(old(bn.Contents())) ==> NoLeadingZero(bn.Contents())
    {
      var ch := str[ii];
      ReadStep(v, str[start..ii], ch, base);
      assert str[start..ii + 1] == str[start..ii] + [ch];
      NotOnlyDigits(str[start..], ii - start, base);
      ii := ii + 1;
      if IsBlank(ch) {
        continue;
      }
      var nn := CharDigit(ch);
      if nn < 0 || nn >= base {
        return false;
      }
      var done := Mul(bn, base);
      done := Add(bn, nn);
    }
    assert str[start..ii] == str[start..];
    ok := true;
  }

  lemma ReadStart(v: nat, base: nat)
    requires base > 0
    ensures DigitsOnly([], base) && Read(v, [], base) == v
  {
  }

  lemma ReadStep(v: nat, init: seq<byte>, ch: byte, base: nat)
    requires base > 0 && DigitsOnly(init, base)
    ensures DigitsOnly(init + [ch], base) <==> IsBlank(ch) || IsDigit(ch, base)
    ensures IsBlank(ch) ==> Read(v, init + [ch], base) == Read(v, init, base)
    ensures !IsBlank(ch) && IsDigit(ch, base) ==>
              Read(v, init + [ch], base) == base * Read(v, init, base) + CharDigit(ch)
  {
    hide IsBlank, CharDigit;
    var t := init + [ch];
    assert t[..|t| - 1] == init && t[|t| - 1] == ch;
  }

  lemma NotOnlyDigits(t: seq<byte>, k: nat, base: nat)
    requires k < |t|
    ensures !IsBlank(t[k]) && !IsDigit(t[k], base) ==> !DigitsOnly(t, base)
  {
  }

  /** Flips every octet of the number. */
  method Flip(bn: Buffer)
    requires bn.Valid()
    modifies bn.data
    ensures bn.Contents() == Complement(old(bn.Contents()))
  {
    var ii := 0;
    while ii < bn.size
      invariant 0 <= ii <= bn.size <= bn.data.Length
      invariant forall j | 0 <= j < ii :: bn.data[j] == 255 - old(bn.data[j])
      invariant forall j | ii <= j < bn.size :: bn.data[j] == old(bn.data[j])
    {
      bn.data[ii] := 255 - bn.data[ii];
      ii := ii + 1;
    }
  }

  /** Makes a non-negative number's sign bit clear, or turns an empty number into one zero octet. */
  method ClearSign(bn: Buffer)
    requires bn.Valid()
    modifies bn, bn.data
    ensures bn.Valid() && (bn.data == old(bn.data) || fresh(bn.data))
    ensures bn.size > 0 && bn.Contents()[0] <= 127 && Value(bn.Contents()) == old(Value(bn.Contents()))
    ensures NoLeadingZero(old(bn.Contents())) ==> Minimal(bn.Contents())
  {
    hide Value;
    if (bn.size > 0 && bn.data[0] > 127) || bn.size == 0 {
      ghost var s := bn.Contents();
      ValueCons(0, s);
      ZeroTimes(0, P(|s|));
      bn.Prepend([0]);
    }
  }

  /** Complements and adds one. That negates every positive number; zero turns into the next power
      of 256 instead. */
  method Negate(bn: Buffer)
    requires bn.Valid() && bn.size > 0 && bn.Contents()[0] <= 127
    modifies bn, bn.data
    ensures bn.Valid() && (bn.data == old(bn.data) || fresh(bn.data))
    ensures old(Value(bn.Contents())) > 0 ==> Signed(bn.Contents()) == 0 - old(Value(bn.Contents())) as int
    ensures old(Value(bn.Contents())) == 0 ==> bn.Contents() == [1] + Zeros(old(bn.size))
  {
    ghost var s := bn.Contents();
    Flip(bn);
    ValueOfComplement(s);
    var ok := Add(bn, 1);
    ghost var r := bn.Contents();
    hide Value, P;
    if Value(s) > 0 {
      SizeFits(r, |s|);
      NegatedSigned(s, r);
    } else {
      PowerOctets(r, |s|);
    }
  }

  /** A value below 256 to the power n without a leading zero takes at most n octets. */
  lemma SizeFits(r: seq<byte>, n: nat)
    requires Value(r) < P(n)
    ensures |r| <= n || r[0] == 0
  {
    if |r| > n {
      LeadingOctet(r);
      PowersGrow(n, |r| - 1);
    }
  }

  lemma PowerOctets(r: seq<byte>, n: nat)
    requires Value(r) == P(n) && (|r| == n || (|r| > n && r[0] != 0))
    ensures r == [1] + Zeros(n)
  {
    ValueBound(r);
    var w := [1] + Zeros(n);
    ValueCons(1, Zeros(n));
    ValueOfZeros(n);
    assert w[0] == 1;
    StrippedUnique(r, w);
  }

  lemma {:induction false} ValueOfZeros(n: nat)
    ensures Value(Zeros(n)) == 0
  {
    if n > 0 {
      ValueOfZeros(n - 1);
      assert Zeros(n)[..n - 1] == Zeros(n - 1);
    }
  }

  /**
  Reads a text into a number. It is refused exactly for a base outside 2..16 or a character that
  is no digit of the base; the empty text changes nothing. Otherwise the number's two's-complement
  reading is the text's value, except that a negated zero becomes a power of 256.
  */
  method FromString(bn: Buffer, str: seq<byte>, base: nat) returns (ok: bool)
    requires bn.Valid()
    modifies bn, bn.data
    ensures bn.Valid() && (bn.data == old(bn.data) || fresh(bn.data))
    ensures ok <==> 2 <= base <= 16 && IsNumeral(str, base)
    ensures ok && str == [] ==> bn.Contents() == old(bn.Contents())
    ensures ok && str != [] ==>
              var v := TextValue(old(Value(bn.Contents())), str, base);
              && (Signed(bn.Contents()) == v <==> !(Negative(str) && v == 0))
              && bn.size > 0
              && (Negative(str) && v == 0 ==> bn.size >= 2 && bn.Contents() == [1] + Zeros(bn.size - 1))
              && (Negative(str) && v == 0 && NoLeadingZero(old(bn.Contents())) ==> bn.Contents() == [1, 0])
              && (!Negative(str) && NoLeadingZero(old(bn.Contents())) ==> Minimal(bn.Contents()))
  {
    if base <= 1 || base > 16 {
      return false;
    }
    if |str| == 0 {
      return true;
    }
    hide Value, P, DigitsOnly, Read, Negative, Body, Signed, Minimal, NoLeadingZero, Zeros;
    bn.SetMaxSize(bn.size + |str| / 2 + 1 + 1);
    var ii, positive := SkipSign(str);
    ok := ReadDigits(bn, str, ii, base);
    if ok {
      ApplySign(bn, positive);
    }
  }

  /** Gives the magnitude read its sign. */
  method ApplySign(bn: Buffer, positive: bool)
    requires bn.Valid()
    modifies bn, bn.data
    ensures bn.Valid() && (bn.data == old(bn.data) || fresh(bn.data)) && bn.size > 0
    ensures var m := old(Value(bn.Contents()));
            && (positive ==> Signed(bn.Contents()) == m)
            && (!positive ==> (Signed(bn.Contents()) == 0 - m as int <==> m != 0))
            && (!positive && m == 0 ==> bn.size >= 2 && bn.Contents() == [1] + Zeros(bn.size - 1))
            && (!positive && m == 0 && NoLeadingZero(old(bn.Contents())) ==> bn.Contents() == [1, 0])
            && (positive && NoLeadingZero(old(bn.Contents())) ==> Minimal(bn.Contents()))
  {
    hide Value, P, NoLeadingZero;
    ClearSign(bn);
    ghost var s := bn.Contents();
    if Minimal(s) {
      MinimalZero(s);
    }
    hide Minimal;
    if !positive {
      Negate(bn);
      if Value(s) == 0 {
        SignedPower(|s|);
      }
    }
  }

  lemma MinimalZero(s: seq<byte>)
    requires Minimal(s)
    ensures Value(s) == 0 <==> s == [0]
  {
    if s == [0] {
      assert s[..0] == [];
    } else if s[0] != 0 {
      LeadingOctet(s);
    } else {
      assert s == [s[0]] + s[1..];
      ValueCons(s[0], s[1..]);
      LeadingOctet(s[1..]);
    }
  }

  lemma SignedPower(n: nat)
    ensures Signed([1] + Zeros(n)) == P(n) > 0
  {
    ValueCons(1, Zeros(n));
    ValueOfZeros(n);
    assert ([1] + Zeros(n))[0] == 1;
  }

  /** A sign alone and a sign before a zero are numerals of a negated zero in every base. */
  lemma NegatedZero(base: nat)
    requires 2 <= base <= 16
    ensures IsNumeral([MINUS], base) && Negative([MINUS]) && TextValue(0, [MINUS], base) == 0
    ensures var t := [MINUS, DigitChar(0)]; IsNumeral(t, base) && Negative(t) && TextValue(0, t, base) == 0
  {
    var t, zero := [MINUS, DigitChar(0)], [DigitChar(0)];
    assert LeadingBlanks([MINUS]) == 0 && LeadingBlanks(t) == 0;
    assert Body([MINUS]) == [] && Body(t) == zero;
    assert zero == [] + [DigitChar(0)];
    ReadStart(0, base);
    ReadStep(0, [], DigitChar(0), base);
  }

  //////////////////////////// printing ////////////////////////////

  /** The number ToString prints: right unless a negative number ends in a zero octet, when the
      subtraction of one is lost and the printed magnitude is one too small. */
  function Printed(s: seq<byte>): int {
    if s != [] && s[0] > 127 && s[|s| - 1] == 0 then Signed(s) + 1 else Signed(s)
  }

  /** Turns a copy of a negative number into its magnitude, as far as the printed number goes. */
  method Magnitude(bn: Buffer) returns (positive: bool)
    requires bn.Valid()
    modifies bn, bn.data
    ensures bn.Valid() && bn.size == old(bn.size) && (bn.data == old(bn.data) || fresh(bn.data))
    ensures positive <==> Printed(old(bn.Contents())) >= 0
    ensures Value(bn.Contents()) == if positive then Printed(old(bn.Contents())) else -Printed(old(bn.Contents()))
  {
    ghost var s := bn.Contents();
    if bn.size > 0 && bn.data[0] > 127 {
      var ok := Add(bn, -1);
      Flip(bn);
      ValueOfComplement(Lowered(s, 1));
      LoweredByOne(s);
      ValueBound(s);
      positive := false;
    } else {
      positive := true;
    }
  }

  lemma LoweredByOne(s: seq<byte>)
    requires s != []
    ensures Value(Lowered(s, 1)) == if s[|s| - 1] == 0 then Value(s) else Value(s) - 1
    ensures s[|s| - 1] == 0 ==> Value(s) == 256 * Value(s[..|s| - 1]) && P(|s|) == 256 * P(|s| - 1)
  {
    hide Value, Lowered, P;
    var n := |s| - 1;
    var init, last := s[..n], s[n];
    assert s == init + [last];
    ValueSnoc(init, last);
    NextPower(n);
    LoweredSnoc(init, last);
    if last > 0 {
      ValueSnoc(init, last - 1);
    }
  }

  lemma LoweredSnoc(init: seq<byte>, last: byte)
    ensures Lowered(init + [last], 1) == init + [if last == 0 then 0 else last - 1]
  {
    var s := init + [last];
    assert s[..|s| - 1] == init && s[|s| - 1] == last;
    LoweredEnd(init, 0);
  }

  /** Writes digits, last one first, until the number is used up. */
  method WriteDigits(bn: Buffer, base: nat, res: array<byte>, len: nat) returns (ii: nat)
    requires bn.Valid() && 2 <= base <= 16 && len <= res.Length && res != bn.data
    requires len == 8 * bn.size + 2
    modifies bn`size, bn.data, res
    ensures ii + 2 <= len
    ensures Reversed(res[..ii]) == if old(bn.size) == 0 then [] else Numeral(old(Value(bn.Contents())), base)
    ensures forall j | ii <= j < res.Length :: res[j] == old(res[j])
  {
    hide Value, DigitChar, P, Numeral;
    ghost var v := Value(bn.Contents());
    if bn.size > 0 {
      NumeralOfOctets(bn.Contents(), base);
    }
    ii := 0;
    while bn.size > 0 && ii < len
      invariant bn.Valid() && ii + 2 <= len
      invariant ii == 0 ==> bn.size == old(bn.size) && Value(bn.Contents()) == v
      invariant ii > 0 ==> NoLeadingZero(bn.Contents()) && old(bn.size) > 0
      invariant ii > 0 ==> Numeral(v, base) ==
                           (if bn.size == 0 then [] else Numeral(Value(bn.Contents()), base)) + Reversed(res[..ii])
      invariant forall j | ii <= j < res.Length :: res[j] == old(res[j])
      decreases len - ii
    {
      ghost var now := Value(bn.Contents());
      ghost var before := res[..ii];
      assert Numeral(v, base) == Numeral(now, base) + Reversed(before);
      var ok, mod := Div(bn, base);
      res[ii] := DigitChar(mod.value);
      assert res[..ii + 1] == before + [res[ii]];
      PrintStep(now, bn.Contents(), mod.value, base, before);
      ii := ii + 1;
    }
  }

  /** One digit moves from the number to the front of the digits already written. */
  lemma PrintStep(now: nat, q: seq<byte>, d: nat, base: nat, before: seq<byte>)
    requires 2 <= base <= 16 && d < base && now == base * Value(q) + d && NoLeadingZero(q)
    ensures Numeral(now, base) + Reversed(before) ==
            (if q == [] then [] else Numeral(Value(q), base)) + Reversed(before + [DigitChar(d)])
  {
    if q != [] {
      LeadingOctet(q);
    }
    hide DigitChar, Numeral, Value, P, Reversed;
    Commute(base, Value(q));
    NextDigit(Value(q), d, base);
    ReversedSnoc(before, DigitChar(d));
  }

  /** Swaps the first len characters end for end. */
  method ReverseText(res: array<byte>, len: nat)
    requires len <= res.Length
    modifies res
    ensures res[..len] == Reversed(old(res[..len]))
    ensures forall j | len <= j < res.Length :: res[j] == old(res[j])
  {
    var ii := 0;
    while ii < len / 2
      invariant 0 <= ii <= len / 2
      invariant forall j | 0 <= j < ii || len - ii <= j < len :: res[j] == old(res[len - 1 - j])
      invariant forall j | ii <= j < len - ii || len <= j < res.Length :: res[j] == old(res[j])
    {
      res[ii], res[len - ii - 1] := res[len - ii - 1], res[ii];
      ii := ii + 1;
    }
  }

  /** Drops zeros from the end of the reversed digits, keeping one character. */
  method TrimZeros(res: array<byte>, ii: nat) returns (len: nat)
    requires ii <= res.Length
    ensures len <= ii && (ii > 0 ==> len > 0)
    ensures len < ii ==> res[ii - 1] == DigitChar(0)
    ensures len > 1 ==> res[len - 1] != DigitChar(0)
  {
    hide DigitChar;
    len := ii;
    while len > 1 && res[len - 1] == DigitChar(0)
      invariant len <= ii && (ii > 0 ==> len > 0)
      invariant len < ii ==> res[ii - 1] == DigitChar(0)
    {
      len := len - 1;
    }
  }

  /** A numeral has no zeros to drop. */
  lemma NothingToTrim(digits: seq<byte>, len: nat, m: nat, base: nat)
    requires 2 <= base <= 16 && Reversed(digits) == Numeral(m, base)
    requires 0 < len <= |digits| && (len < |digits| ==> digits[|digits| - 1] == DigitChar(0))
    ensures len == |digits|
  {
    hide DigitChar, Numeral;
    assert Reversed(digits)[0] == digits[|digits| - 1];
    NumeralStart(m, base);
  }

  lemma {:induction false} NumeralStart(v: nat, base: nat)
    requires 2 <= base <= 16
    ensures Numeral(v, base)[0] == DigitChar(0) ==> v == 0 && |Numeral(v, base)| == 1
    decreases v
  {
    hide DigitChar;
    if v < base {
      DigitCharIsDigit(v, base);
    } else {
      QuotientShrinks(v, base);
      NumeralStart(v / base, base);
    }
  }

  /** The digits of a number, last one first, in an array with room for a sign and a NUL. */
  method Digits(bn: Buffer, base: nat) returns (res: array<byte>, len: nat)
    requires bn.Valid() && 2 <= base <= 16
    modifies bn`size, bn.data
    ensures fresh(res) && len + 2 < res.Length
    ensures Reversed(res[..len]) == if old(bn.size) == 0 then [] else Numeral(old(Value(bn.Contents())), base)
  {
    hide Value, P, Numeral, DigitChar;
    ghost var m, size := Value(bn.Contents()), bn.size;
    len := 8 * bn.size + 1 + 1;
    res := new byte[len + 1](_ => 0);
    var ii := WriteDigits(bn, base, res, len);
    ghost var digits := res[..ii];
    assert |Reversed(digits)| == ii;
    len := TrimZeros(res, ii);
    if size > 0 {
      NothingToTrim(digits, len, m, base);
    }
  }

  /** Ends the reversed text, with a sign behind the digits of a negative number. */
  method PutSign(res: array<byte>, digits: nat, positive: bool) returns (len: nat)
    requires digits + 1 < res.Length
    modifies res
    ensures len < res.Length && res[len] == 0
    ensures res[..len] == old(res[..digits]) + if positive then [] else [MINUS]
  {
    len := digits;
    res[len] := 0;
    if !positive {
      res[len] := MINUS;
      len := len + 1;
      res[len] := 0;
    }
  }

  /** Lays the numeral of a number out as a C string, with a sign in front of a negative one. */
  method Layout(bn: Buffer, base: nat, positive: bool) returns (res: array<byte>, len: nat)
    requires bn.Valid() && 2 <= base <= 16
    modifies bn`size, bn.data
    ensures fresh(res) && len < res.Length && res[len] == 0
    ensures res[..len] == (if positive then [] else [MINUS])
                          + if old(bn.size) == 0 then [] else Numeral(old(Value(bn.Contents())), base)
  {
    hide Value, P, Numeral, Reversed;
    res, len := Digits(bn, base);
    ReversedSnoc(res[..len], MINUS);
    len := PutSign(res, len, positive);
    ReverseText(res, len);
  }

  /**
  Prints a number. The result is the numeral of the number Printed says, without leading zeros; an
  empty number prints as the empty text.
  */
  method ToString(bn: Buffer, base: nat) returns (res: array?<byte>)
    requires bn.Valid()
    ensures res == null <==> !(2 <= base <= 16)
    ensures res != null ==> && fresh(res) && |CString(res[..])| < res.Length
                            && CString(res[..]) ==
                               if bn.size == 0 then [] else SignedNumeral(Printed(bn.Contents()), base)
    ensures res != null && bn.size > 0 ==>
              var text, v := CString(res[..]), Printed(bn.Contents());
              && text != [] && (text[0] == '-' as int <==> v < 0)
              && (forall i | (if v < 0 then 1 else 0) <= i < |text| :: PrintedDigit(text[i], base))
  {
    if base <= 1 || base > 16 {
      return null;
    }
    hide Value, P, CString, Numeral, Printed, SignedNumeral, PrintedDigit;
    ghost var s := bn.Contents();
    var bn2 := new Buffer.Initialize(bn.size, bn.allocMode, bn.initialSize);
    bn2.SetData(bn.data[..bn.size]);
    assert bn2.Contents() == s;
    var positive := Magnitude(bn2);
    var len;
    res, len := Layout(bn2, base, positive);
    Spelled(s, positive, base);
    if s != [] {
      SignedNumeralCharacters(Printed(s), base);
    }
    assert res[..][..len] == res[..len];
    CStringUnique(res[..], len);
  }

  lemma SignedNumeralCharacters(v: int, base: nat)
    requires 2 <= base <= 16
    ensures var text := SignedNumeral(v, base);
            && text != [] && (text[0] == '-' as int <==> v < 0)
            && (forall i | (if v < 0 then 1 else 0) <= i < |text| :: PrintedDigit(text[i], base))
  {
    hide Numeral;
    NumeralCharacters(if v < 0 then -v else v, base);
    if v >= 0 {
      assert PrintedDigit(SignedNumeral(v, base)[0], base);
    }
  }

  lemma Spelled(s: seq<byte>, positive: bool, base: nat)
    requires 2 <= base <= 16 && (positive <==> Printed(s) >= 0)
    ensures var m := if positive then Printed(s) else -Printed(s);
            var t := (if positive then [] else [MINUS]) + if s == [] then [] else Numeral(m, base);
            && t == (if s == [] then [] else SignedNumeral(Printed(s), base))
            && 0 !in t
  {
    hide Numeral, Value;
    ReadPrinted(Printed(s), base);
  }

  //////////////////////////// comparing ////////////////////////////

  /** memcmp: the sign of the first difference. */
  method MemCmp(a: array<byte>, from: nat, b: seq<byte>, n: nat) returns (r: int)
    requires from + n <= a.Length && |b| == n
    ensures r == 0 <==> a[from..from + n] == b
    ensures r < 0 <==> Value(a[from..from + n]) < Value(b)
  {
    hide Value;
    ghost var s := a[from..from + n];
    var k := 0;
    while k < n
      invariant 0 <= k <= n && s[..k] == b[..k]
    {
      if a[from + k] != b[k] {
        r := a[from + k] as int - b[k] as int;
        assert s[k] == a[from + k];
        if s[k] < b[k] {
          FirstDifference(s, b, k);
        } else {
          FirstDifference(b, s, k);
        }
        return;
      }
      assert s[..k + 1] == s[..k] + [s[k]] && b[..k + 1] == b[..k] + [b[k]];
      k := k + 1;
    }
    assert s[..n] == s && b[..n] == b;
    r := 0;
  }

  /** Between numbers of one length the first differing octet decides. */
  lemma FirstDifference(a: seq<byte>, b: seq<byte>, k: nat)
    requires k < |a| == |b| && a[..k] == b[..k] && a[k] < b[k]
    ensures Value(a) < Value(b)
  {
    var n := |a| - k - 1;
    assert a == a[..k] + [a[k]] + a[k + 1..];
    assert b == b[..k] + [b[k]] + b[k + 1..];
    ValueConcat(a[..k] + [a[k]], a[k + 1..]);
    ValueConcat(b[..k] + [b[k]], b[k + 1..]);
    ValueSnoc(a[..k], a[k]);
    ValueSnoc(b[..k], b[k]);
    ValueBound(a[k + 1..]);
    hide Value, P;
    var x, y := Value(a[..k] + [a[k]]), Value(b[..k] + [b[k]]);
    MulMonotone(x + 1, y, P(n));
    Distribute(x, 1, P(n));
  }

  /** The number has more significant octets than the data, which has some: the one case in which
      the comparison reports the wrong order. */
  predicate Misordered(s: seq<byte>, data: seq<byte>) {
    |Strip(s)| > |Strip(data)| > 0
  }

  /** 256 has more significant octets than 1 and is the larger of the two. */
  lemma MisorderedExample()
    ensures Misordered([1, 0], [1]) && Value([1, 0]) > Value([1])
  {
    assert [1, 0][..1] == [1] && [1][..0] == [];
  }

  /** What both comparisons decide before they look at octets of equal count. */
  lemma ByLength(s: seq<byte>, data: seq<byte>)
    ensures Value(s) == Value(data) <==> Strip(s) == Strip(data)
    ensures |Strip(s)| < |Strip(data)| ==> Value(s) < Value(data)
    ensures |Strip(s)| > |Strip(data)| ==> Value(s) > Value(data)
    ensures Value(s) == Value(Strip(s)) && Value(data) == Value(Strip(data))
  {
    hide Value, P;
    var a, b := Strip(s), Strip(data);
    ValueOfStrip(s);
    ValueOfStrip(data);
    if |a| < |b| {
      ShorterIsSmaller(a, b);
    } else if |b| < |a| {
      ShorterIsSmaller(b, a);
    } else if Value(a) == Value(b) {
      ValueInjective(a, b);
    }
  }

  /** Compares with big-endian data: equality is exact whatever the leading zeros, and the order is
      right exactly when the number does not have more significant octets than non-zero data. */
  method Compare(bn: Buffer, data: seq<byte>) returns (r: int)
    requires bn.Valid()
    ensures r == 0 <==> Value(bn.Contents()) == Value(data)
    ensures (r < 0 <==> Value(bn.Contents()) < Value(data)) <==> !Misordered(bn.Contents(), data)
  {
    hide Value, P, Strip;
    ghost var s := bn.Contents();
    var skip := CountLeadingZeros(data);
    var dataSize := |data| - skip;
    var from := LeadingZeros(bn);
    var bnSize := bn.size - from;
    ByLength(s, data);
    if bnSize == 0 && dataSize == 0 {
      r := 0;
    } else if bnSize == 0 {
      r := -1;
    } else if dataSize == 0 {
      r := 1;
    } else if bnSize < dataSize {
      r := -1;
    } else if bnSize > dataSize {
      r := -1;
    } else {
      assert bn.data[from..from + dataSize] == s[from..];
      r := MemCmp(bn.data, from, data[skip..], dataSize);
    }
  }

  /** How many octets of little-endian data are significant. */
  method WithoutTrailingZeros(data: seq<byte>) returns (dataSize: nat)
    ensures dataSize <= |data| && Strip(Reversed(data)) == Reversed(data[..dataSize])
  {
    dataSize := |data|;
    assert data[..dataSize] == data;
    while dataSize > 0 && data[dataSize - 1] == 0
      invariant 0 <= dataSize <= |data| && Strip(Reversed(data)) == Strip(Reversed(data[..dataSize]))
    {
      assert data[..dataSize] == data[..dataSize - 1] + [data[dataSize - 1]];
      ReversedSnoc(data[..dataSize - 1], data[dataSize - 1]);
      assert Reversed(data[..dataSize])[1..] == Reversed(data[..dataSize - 1]);
      dataSize := dataSize - 1;
    }
  }

  /** How many leading octets of big-endian data are zero. */
  method CountLeadingZeros(data: seq<byte>) returns (skip: nat)
    ensures skip <= |data| && Strip(data) == data[skip..]
  {
    skip := 0;
    while skip < |data| && data[skip] == 0
      invariant 0 <= skip <= |data| && Strip(data) == Strip(data[skip..])
    {
      assert data[skip..][1..] == data[skip + 1..];
      skip := skip + 1;
    }
  }

  /** Compares with little-endian data, under the same conditions. */
  method CompareReverse(bn: Buffer, data: seq<byte>) returns (r: int)
    requires bn.Valid()
    ensures r == 0 <==> Value(bn.Contents()) == Value(Reversed(data))
    ensures (r < 0 <==> Value(bn.Contents()) < Value(Reversed(data))) <==> !Misordered(bn.Contents(), Reversed(data))
  {
    var dataSize := WithoutTrailingZeros(data);
    hide Value, P, Strip;
    var from := LeadingZeros(bn);
    var bnSize := bn.size - from;
    ByLength(bn.Contents(), Reversed(data));
    if bnSize == 0 && dataSize == 0 {
      r := 0;
    } else if bnSize == 0 {
      r := -1;
    } else if dataSize == 0 {
      r := 1;
    } else if bnSize < dataSize {
      r := -1;
    } else if bnSize > dataSize {
      r := -1;
    } else {
      r := CompareOctets(bn, from, data, dataSize);
    }
  }

  method CompareOctets(bn: Buffer, from: nat, data: seq<byte>, dataSize: nat) returns (r: int)
    requires bn.Valid() && from + dataSize == bn.size && dataSize <= |data|
    ensures var a, b := bn.Contents()[from..], Reversed(data[..dataSize]);
            (r == 0 <==> a == b) && (r < 0 <==> Value(a) < Value(b))
  {
    hide Value;
    ghost var a, b := bn.Contents()[from..], Reversed(data[..dataSize]);
    var ii := 0;
    while ii < dataSize
      invariant 0 <= ii <= dataSize && a[..ii] == b[..ii]
    {
      var jj := dataSize - 1 - ii;
      assert a[ii] == bn.data[from + ii] && b[ii] == data[jj];
      if bn.data[from + ii] < data[jj] {
        FirstDifference(a, b, ii);
        return -1;
      } else if data[jj] < bn.data[from + ii] {
        FirstDifference(b, a, ii);
        return 1;
      }
      assert a[..ii + 1] == a[..ii] + [a[ii]] && b[..ii + 1] == b[..ii] + [b[ii]];
      ii := ii + 1;
    }
    assert a[..dataSize] == a && b[..dataSize] == b;
    r := 0;
  }
}
