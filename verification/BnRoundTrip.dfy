/** Printing and reading big numbers undo each other, and exactly when they do. */
module BigNumberRoundTrip {
  import opened Bytes
  import opened Buffers
  import opened BnSpec
  import opened BnLaws
  import opened BnTextLaws
  import opened Arithmetic
  import opened BigNumbers
  import opened BigNumberText

  /** Printing is right for every number that is not negative or does not end in a zero octet. */
  predicate PrintsRight(s: seq<byte>)
    requires s != []
  {
    s[0] <= 127 || s[|s| - 1] != 0
  }

  /** The printed form of a number always reads back as a number, namely as the same one exactly
      when printing is right; a zero never gets a sign. */
  lemma PrintThenRead(s: seq<byte>, base: nat)
    requires 2 <= base <= 16 && s != []
    ensures var t := SignedNumeral(Printed(s), base);
            && t != [] && IsNumeral(t, base) && !(Negative(t) && TextValue(0, t, base) == 0)
            && (TextValue(0, t, base) == Signed(s) <==> PrintsRight(s))
  {
    hide Numeral, Read;
    ReadPrinted(Printed(s), base);
  }

  /** The octets of -256 are printed as -255. */
  lemma PrintsWrong()
    ensures Signed([255, 0]) == -256 && Printed([255, 0]) == -255 && !PrintsRight([255, 0])
  {
    assert [255, 0][..1] == [255] && [255][..0] == [];
    assert Value([255, 0]) == 65280;
    assert P(2) == 256 * P(1) && P(1) == 256 * P(0);
  }

  /** The last octet of a negative number is zero exactly when its magnitude is a multiple of 256. */
  lemma LastOctetOfNegative(s: seq<byte>, m: nat)
    requires m > 0 && Signed(s) == 0 - m as int
    ensures s != [] && s[0] > 127 && (s[|s| - 1] == 0 <==> m % 256 == 0)
  {
    var n := |s| - 1;
    var k := P(n) - Value(s[..n]);
    var last: int := s[n];
    assert m == 256 * k - last;
    if last == 0 {
      DivUnique(m, 256, k, 0);
    } else {
      DivUnique(m, 256, k - 1, 256 - last);
    }
  }

  /**
  The text of a number read from t: for a text without a minus sign its canonical form; for one
  with a minus sign that form behind the sign, exactly when the magnitude is no multiple of 256.
  */
  lemma ReadThenPrint(t: seq<byte>, s: seq<byte>, base: nat)
    requires 2 <= base <= 16 && IsNumeral(t, base) && s != [] && Signed(s) == TextValue(0, t, base)
    ensures !Negative(t) ==> SignedNumeral(Printed(s), base) == Canonical(Body(t), base)
    ensures Negative(t) && Signed(s) != 0 ==>
              (SignedNumeral(Printed(s), base) == [MINUS] + Canonical(Body(t), base)
               <==> Read(0, Body(t), base) % 256 != 0)
    ensures var m := Read(0, Body(t), base);
            Negative(t) && m > 0 && m % 256 == 0 ==> SignedNumeral(Printed(s), base) == [MINUS] + Numeral(m - 1, base)
  {
    hide Numeral, Read, Canonical, Body, DigitsOnly, Negative, Value, P;
    PrintRead(Body(t), base);
    if Negative(t) && Signed(s) != 0 {
      LastOctetOfNegative(s, Read(0, Body(t), base));
      ReadPrinted(Printed(s), base);
      ReadPrinted(Signed(s), base);
    } else if !Negative(t) {
      NonNegativePrinted(s);
    }
  }

  lemma NonNegativePrinted(s: seq<byte>)
    requires Signed(s) >= 0
    ensures Printed(s) == Signed(s)
  {
    ValueBound(s);
  }

  /** ToString, then FromString into a fresh number. */
  method PrintAndRead(bn: Buffer, base: nat) returns (copy: Buffer)
    requires bn.Valid() && bn.size > 0 && 2 <= base <= 16
    ensures copy.Valid()
    ensures Signed(copy.Contents()) == Signed(bn.Contents()) <==> PrintsRight(bn.Contents())
  {
    hide Numeral, Read, Value, P, CString, SignedNumeral, Negative, Body, DigitsOnly;
    var text := ToString(bn, base);
    assert text[|CString(text[..])|] == 0;
    PrintThenRead(bn.Contents(), base);
    var n := Strlen(text);
    copy := new Buffer.Initialize(0, bn.allocMode, bn.initialSize);
    NothingIsZero();
    var ok := FromString(copy, text[..n], base);
  }

  lemma PrintedPower()
    ensures Printed([1, 0]) == 256
  {
    assert [1, 0] == [1] + [0];
    ValueSnoc([1], 0);
    ValueSnoc([], 1);
    assert [] + [1] == [1];
  }

  /** FromString into a fresh number, then ToString. */
  method ReadAndPrint(str: seq<byte>, base: nat, mode: AllocMode, initialSize: nat)
    returns (ok: bool, text: array?<byte>)
    ensures ok <==> 2 <= base <= 16 && IsNumeral(str, base)
    ensures ok ==> text != null
    ensures ok && str == [] ==> CString(text[..]) == []
    ensures ok && str != [] && !Negative(str) ==> CString(text[..]) == Canonical(Body(str), base)
    ensures ok && str != [] && Negative(str) && Read(0, Body(str), base) != 0 ==>
              (CString(text[..]) == [MINUS] + Canonical(Body(str), base) <==> Read(0, Body(str), base) % 256 != 0)
    ensures ok && str != [] ==>
              var m := Read(0, Body(str), base);
              Negative(str) && m > 0 && m % 256 == 0 ==> CString(text[..]) == [MINUS] + Numeral(m - 1, base)
    ensures ok && str != [] && Negative(str) && Read(0, Body(str), base) == 0 ==>
              CString(text[..]) == Numeral(256, base)
  {
    hide Numeral, Read, Value, P, CString, Negative, Body, DigitsOnly, Canonical, Printed;
    text := null;
    var bn := new Buffer.Initialize(0, mode, initialSize);
    NothingIsZero();
    ok := FromString(bn, str, base);
    if ok {
      text := ToString(bn, base);
      if str != [] {
        if Negative(str) && TextValue(0, str, base) == 0 {
          PrintedPower();
        } else {
          ReadThenPrint(str, bn.Contents(), base);
        }
      }
    }
  }
}
