/** What holds of base64 itself: the round trips and the shape of encoded text. */
module Base64Laws {
  import opened Bytes
  import opened Arithmetic
  import opened Base64Spec

  //////////////////////////// whitespace and codes ////////////////////////////

  lemma {:induction false} SignificantConcat(a: seq<code>, b: seq<code>)
    ensures Significant(a + b) == Significant(a) + Significant(b)
  {
    if a == [] {
      assert a + b == b;
    } else {
      assert (a + b)[1..] == a[1..] + b;
      SignificantConcat(a[1..], b);
    }
  }

  lemma {:induction false} SignificantOfSpaces(ks: seq<code>)
    ensures Significant(ks) == [] <==> AllSpace(ks)
  {
    if ks != [] {
      SignificantOfSpaces(ks[1..]);
      assert ks == [ks[0]] + ks[1..];
    }
  }

  lemma {:induction false} SignificantFixed(ks: seq<code>)
    requires SPACE !in ks
    ensures Significant(ks) == ks
  {
    if ks != [] {
      SignificantFixed(ks[1..]);
    }
  }

  lemma CodesConcat(s: seq<byte>, t: seq<byte>)
    ensures Codes(s + t) == Codes(s) + Codes(t)
  {
  }

  lemma StrippedConcat(s: seq<byte>, t: seq<byte>)
    ensures Stripped(s + t) == Stripped(s) + Stripped(t)
  {
    CodesConcat(s, t);
    SignificantConcat(Codes(s), Codes(t));
  }

  lemma StrippedNewline(s: seq<byte>, t: seq<byte>)
    ensures Stripped(s + [NL] + t) == Stripped(s) + Stripped(t)
  {
    StrippedConcat(s, [NL]);
    StrippedConcat(s + [NL], t);
    SignificantOfSpaces(Codes([NL]));
  }

  /** Dropping whitespace from a text and from its codes is the same. */
  lemma {:induction false} CodesOfUnspaced(t: seq<byte>)
    ensures Codes(Unspaced(t)) == Stripped(t)
  {
    hide Code;
    if t != [] {
      CodesOfUnspaced(t[1..]);
      assert Codes(t)[1..] == Codes(t[1..]);
    }
  }

  lemma CodesOfSymbols(ks: seq<code>)
    requires Printable(ks)
    ensures Codes(Symbols(ks)) == ks
  {
    forall i | 0 <= i < |ks|
      ensures Codes(Symbols(ks))[i] == ks[i]
    {
      CodeSymbol(ks[i]);
    }
  }

  lemma SymbolsOfCodes(t: seq<byte>)
    requires Printable(Codes(t))
    ensures Symbols(Codes(t)) == t
  {
    forall i | 0 <= i < |t|
      ensures Symbols(Codes(t))[i] == t[i]
    {
      SymbolCode(t[i]);
      assert Codes(t)[i] <= PAD;
    }
  }

  //////////////////////////// round trips ////////////////////////////

  /** Cutting three octets into 6-bit fields and joining the fields gives the octets back. */
  lemma FieldsJoin(a: byte, b: byte, c: byte)
    ensures Decode1(Encode1(a), Encode2(a, b)) == a
    ensures Decode2(Encode2(a, b), Encode3(b, c)) == b
    ensures Decode3(Encode3(b, c), Encode4(c)) == c
    ensures Encode2(a, 0) % 16 == 0 && Encode3(b, 0) % 4 == 0
  {
    hide Encode1, Encode2, Encode3, Encode4, Decode1, Decode2, Decode3;
    JoinFirst(a, b);
    JoinSecond(a, b, c);
    JoinThird(b, c);
  }

  lemma JoinFirst(a: byte, b: byte)
    ensures Decode1(Encode1(a), Encode2(a, b)) == a && Encode2(a, 0) % 16 == 0
  {
    DivUnique(Encode2(a, b), 16, a % 4, b / 16);
    DivUnique(Encode2(a, 0), 16, a % 4, 0);
  }

  lemma JoinSecond(a: byte, b: byte, c: byte)
    ensures Decode2(Encode2(a, b), Encode3(b, c)) == b && Encode3(b, 0) % 4 == 0
  {
    DivUnique(Encode2(a, b), 16, a % 4, b / 16);
    DivUnique(Encode3(b, c), 4, b % 16, c / 64);
    DivUnique(Encode3(b, 0), 4, b % 16, 0);
  }

  lemma JoinThird(b: byte, c: byte)
    ensures Decode3(Encode3(b, c), Encode4(c)) == c
  {
    DivUnique(Encode3(b, c), 4, b % 16, c / 64);
  }

  lemma OctetsCut(w: code, x: code, y: code, z: code)
    requires w < 64 && x < 64 && y < 64 && z < 64
    ensures Encode1(Decode1(w, x)) == w && Encode2(Decode1(w, x), Decode2(x, y)) == x
    ensures Encode3(Decode2(x, y), Decode3(y, z)) == y && Encode4(Decode3(y, z)) == z
    ensures Encode2(Decode1(w, x), 0) == x - x % 16
    ensures Encode3(Decode2(x, y), 0) == y - y % 4
  {
  }

  lemma {:induction false} DecodeEncoded(s: seq<byte>)
    ensures WellFormed(Encoded(s)) && ZeroLeftover(Encoded(s))
    ensures Decoded(Encoded(s)) == s
  {
    hide Encode1, Encode2, Encode3, Encode4, Decode1, Decode2, Decode3;
    if |s| >= 3 {
      FieldsJoin(s[0], s[1], s[2]);
      DecodeEncoded(s[3..]);
      assert Encoded(s)[4..] == Encoded(s[3..]);
      assert s == [s[0], s[1], s[2]] + s[3..];
    } else if |s| == 2 {
      FieldsJoin(s[0], s[1], 0);
    } else if |s| == 1 {
      FieldsJoin(s[0], 0, 0);
    }
  }

  lemma ReencodePadded(ks: seq<code>)
    requires OnePad(ks) || TwoPads(ks)
    ensures WellFormed(ks) && (Encoded(Decoded(ks)) == ks <==> ZeroLeftover(ks))
  {
    hide Encode1, Encode2, Encode3, Encode4, Decode1, Decode2, Decode3;
    var y := if OnePad(ks) then ks[2] else 0;
    OctetsCut(ks[0], ks[1], y, 0);
    if OnePad(ks) {
      assert Encoded(Decoded(ks)) == [ks[0], ks[1], y - y % 4, PAD];
    } else {
      assert Encoded(Decoded(ks)) == [ks[0], ks[1] - ks[1] % 16, PAD, PAD];
    }
  }

  /** Encoding what was decoded gives the text back exactly when its leftover bits are zero. */
  lemma {:induction false} ReencodeDecoded(ks: seq<code>)
    requires WellFormed(ks)
    ensures Encoded(Decoded(ks)) == ks <==> ZeroLeftover(ks)
  {
    hide Encode1, Encode2, Encode3, Encode4, Decode1, Decode2, Decode3;
    if ks == [] {
    } else if FullGroup(ks) {
      var rest := Decoded(ks[4..]);
      ReencodeDecoded(ks[4..]);
      OctetsCut(ks[0], ks[1], ks[2], ks[3]);
      assert Decoded(ks)[3..] == rest;
      assert Encoded(Decoded(ks)) == ks[..4] + Encoded(rest);
      assert Encoded(Decoded(ks))[4..] == Encoded(rest);
      assert ks == ks[..4] + ks[4..];
    } else {
      ReencodePadded(ks);
    }
  }

  /** The same for characters: encoding what a text stands for gives the text without whitespace. */
  lemma ReencodeText(t: seq<byte>)
    requires WellFormed(Stripped(t))
    ensures Base64(Decoded(Stripped(t))) == Unspaced(t) <==> ZeroLeftover(Stripped(t))
  {
    var ks := Stripped(t);
    CodesOfUnspaced(t);
    ReencodeDecoded(ks);
    CodesOfSymbols(Encoded(Decoded(ks)));
    if ZeroLeftover(ks) {
      SymbolsOfCodes(Unspaced(t));
    }
  }

  /** "QR==" decodes like "QQ==" and so does not come back. */
  lemma LeftoverBitsAreLost()
    ensures WellFormed([16, 17, PAD, PAD]) && !ZeroLeftover([16, 17, PAD, PAD])
    ensures Decoded([16, 17, PAD, PAD]) == Decoded([16, 16, PAD, PAD])
  {
  }

  lemma {:induction false} EncodedLength(s: seq<byte>)
    ensures |Encoded(s)| == (|s| + 2) / 3 * 4
  {
    hide Encode1, Encode2, Encode3, Encode4;
    if |s| >= 3 {
      EncodedLength(s[3..]);
      NextGroup(|s| - 3);
    }
  }

  lemma NextGroup(n: nat)
    ensures (n + 5) / 3 * 4 == (n + 2) / 3 * 4 + 4
  {
  }

  //////////////////////////// groups, read off position by position ////////////////////////////

  /** The fields of a group are the base-64 digits of its 24-bit number. */
  lemma GroupDigits(a: byte, b: byte, c: byte)
    ensures var v := 65536 * (a as int) + 256 * (b as int) + c as int;
            && Encode1(a) == v / 262144 && Encode2(a, b) == v / 4096 % 64
            && Encode3(b, c) == v / 64 % 64 && Encode4(c) == v % 64
  {
    FieldsAre24Bits(a, b, c);
    hide Encode1, Encode2, Encode3, Encode4;
    var w: int, x: int, y: int, z: int := Encode1(a), Encode2(a, b), Encode3(b, c), Encode4(c);
    DigitsOfFour(w, x, y, z);
  }

  lemma DigitsOfFour(w: int, x: int, y: int, z: int)
    requires 0 <= w < 64 && 0 <= x < 64 && 0 <= y < 64 && 0 <= z < 64
    ensures var v := 262144 * w + 4096 * x + 64 * y + z;
            v / 262144 == w && v / 4096 % 64 == x && v / 64 % 64 == y && v % 64 == z
  {
    var v := 262144 * w + 4096 * x + 64 * y + z;
    DivUnique(v, 262144, w, 4096 * x + 64 * y + z);
    DivUnique(v, 4096, 64 * w + x, 64 * y + z);
    DivUnique(64 * w + x, 64, w, x);
    DivUnique(v, 64, 4096 * w + 64 * x + y, z);
    DivUnique(4096 * w + 64 * x + y, 64, 64 * w + x, y);
  }

  /** Octet i of the input, zero past its end. */
  function OctetAt(s: seq<byte>, i: nat): byte {
    if i < |s| then s[i] else 0
  }

  /** Group g of encoded text: the base-64 digits of octets 3g to 3g + 2, with padding in the place
      of digits that would hold none of the input's bits. */
  lemma EncodedAt(s: seq<byte>, g: nat)
    requires 3 * g < |s|
    ensures 4 * g + 3 < |Encoded(s)|
    ensures var v := 65536 * (OctetAt(s, 3 * g) as int) + 256 * (OctetAt(s, 3 * g + 1) as int)
                     + OctetAt(s, 3 * g + 2) as int;
            && Encoded(s)[4 * g] == v / 262144
            && Encoded(s)[4 * g + 1] == v / 4096 % 64
            && Encoded(s)[4 * g + 2] == (if 3 * g + 1 < |s| then v / 64 % 64 else PAD)
            && Encoded(s)[4 * g + 3] == (if 3 * g + 2 < |s| then v % 64 else PAD)
  {
    hide Encode1, Encode2, Encode3, Encode4, Encoded, OctetAt;
    EncodedGroup(s, g);
    GroupDigits(OctetAt(s, 3 * g), OctetAt(s, 3 * g + 1), OctetAt(s, 3 * g + 2));
  }

  lemma {:induction false} EncodedGroup(s: seq<byte>, g: nat)
    requires 3 * g < |s|
    ensures 4 * g + 3 < |Encoded(s)|
    ensures var a, b, c := OctetAt(s, 3 * g), OctetAt(s, 3 * g + 1), OctetAt(s, 3 * g + 2);
            && Encoded(s)[4 * g] == Encode1(a)
            && Encoded(s)[4 * g + 1] == Encode2(a, b)
            && Encoded(s)[4 * g + 2] == (if 3 * g + 1 < |s| then Encode3(b, c) else PAD)
            && Encoded(s)[4 * g + 3] == (if 3 * g + 2 < |s| then Encode4(c) else PAD)
    decreases g
  {
    hide Encode1, Encode2, Encode3, Encode4;
    if g > 0 {
      EncodedGroup(s[3..], g - 1);
      EncodedLater(s, 4 * g);
      EncodedLater(s, 4 * g + 1);
      EncodedLater(s, 4 * g + 2);
      EncodedLater(s, 4 * g + 3);
      hide Encoded;
      assert OctetAt(s[3..], 3 * g - 3) == OctetAt(s, 3 * g);
      assert OctetAt(s[3..], 3 * g - 2) == OctetAt(s, 3 * g + 1);
      assert OctetAt(s[3..], 3 * g - 1) == OctetAt(s, 3 * g + 2);
    }
  }

  lemma EncodedLater(s: seq<byte>, i: nat)
    requires |s| > 3 && 4 <= i < 4 + |Encoded(s[3..])|
    ensures |Encoded(s)| == 4 + |Encoded(s[3..])| && Encoded(s)[i] == Encoded(s[3..])[i - 4]
  {
    hide Encode1, Encode2, Encode3, Encode4;
  }

  /** Well-formed: a multiple of four, letters up to the last two, and those letters, a letter and
      a padding, or two paddings. */
  lemma {:induction false} WellFormedAtSight(ks: seq<code>)
    ensures var n := |ks|;
            WellFormed(ks) <==>
              && n % 4 == 0 && (forall i | 0 <= i < n - 2 :: ks[i] < 64)
              && (n > 0 ==> (ks[n - 2] < 64 && ks[n - 1] <= PAD) || (ks[n - 2] == PAD && ks[n - 1] == PAD))
  {
    var n := |ks|;
    if n >= 4 && FullGroup(ks) {
      WellFormedAtSight(ks[4..]);
      assert forall i | 4 <= i < n :: ks[i] == ks[4..][i - 4];
      assert forall i | 0 <= i < n - 4 :: ks[4..][i] == ks[i + 4];
    }
  }

  /** The number of paddings a well-formed text ends in. */
  function Paddings(ks: seq<code>): nat {
    var n := |ks|;
    if n < 2 || ks[n - 1] != PAD then 0 else if ks[n - 2] != PAD then 1 else 2
  }

  /** The 6 bits of a character, none for padding. */
  function FieldAt(ks: seq<code>, i: nat): (v: code)
    ensures v < 64
  {
    if i < |ks| && ks[i] < 64 then ks[i] else 0
  }

  lemma JoinedOctets(w: code, x: code, y: code, z: code)
    requires w < 64 && x < 64 && y < 64 && z < 64
    ensures var v := 262144 * (w as int) + 4096 * (x as int) + 64 * (y as int) + z as int;
            Decode1(w, x) == v / 65536 && Decode2(x, y) == v / 256 % 256 && Decode3(y, z) == v % 256
  {
    OctetsAre24Bits(w, x, y, z);
    hide Decode1, Decode2, Decode3;
    var a: int, b: int, c: int := Decode1(w, x), Decode2(x, y), Decode3(y, z);
    var v := 65536 * a + 256 * b + c;
    DivUnique(v, 65536, a, 256 * b + c);
    DivUnique(v, 256, 256 * a + b, c);
    DivUnique(256 * a + b, 256, a, b);
  }

  /** Group g of a well-formed text stands for the octets of its 24-bit number, one less for each
      padding. */
  lemma DecodedAt(ks: seq<code>, g: nat)
    requires WellFormed(ks) && 4 * g < |ks|
    ensures |Decoded(ks)| == |ks| / 4 * 3 - Paddings(ks)
    ensures var v := 262144 * (FieldAt(ks, 4 * g) as int) + 4096 * (FieldAt(ks, 4 * g + 1) as int)
                     + 64 * (FieldAt(ks, 4 * g + 2) as int) + FieldAt(ks, 4 * g + 3) as int;
            && 3 * g < |Decoded(ks)| && Decoded(ks)[3 * g] == v / 65536
            && (3 * g + 1 < |Decoded(ks)| ==> Decoded(ks)[3 * g + 1] == v / 256 % 256)
            && (3 * g + 2 < |Decoded(ks)| ==> Decoded(ks)[3 * g + 2] == v % 256)
  {
    hide Decode1, Decode2, Decode3, Decoded, WellFormed, FieldAt, Paddings;
    DecodedHasLength(ks);
    DecodedGroup(ks, g);
    JoinedOctets(FieldAt(ks, 4 * g), FieldAt(ks, 4 * g + 1), FieldAt(ks, 4 * g + 2), FieldAt(ks, 4 * g + 3));
  }

  lemma {:induction false} DecodedHasLength(ks: seq<code>)
    requires WellFormed(ks)
    ensures |ks| % 4 == 0 && |Decoded(ks)| == |ks| / 4 * 3 - Paddings(ks)
  {
    hide Decode1, Decode2, Decode3;
    if |ks| > 4 && FullGroup(ks) {
      DecodedHasLength(ks[4..]);
      DecodedMore(ks);
    }
  }

  lemma {:induction false} DecodedGroup(ks: seq<code>, g: nat)
    requires WellFormed(ks) && 4 * g < |ks|
    ensures var w, x := FieldAt(ks, 4 * g), FieldAt(ks, 4 * g + 1);
            var y, z := FieldAt(ks, 4 * g + 2), FieldAt(ks, 4 * g + 3);
            && 3 * g < |Decoded(ks)| && Decoded(ks)[3 * g] == Decode1(w, x)
            && (3 * g + 1 < |Decoded(ks)| ==> Decoded(ks)[3 * g + 1] == Decode2(x, y))
            && (3 * g + 2 < |Decoded(ks)| ==> Decoded(ks)[3 * g + 2] == Decode3(y, z))
    decreases g
  {
    hide Decode1, Decode2, Decode3;
    if g > 0 {
      var tail := ks[4..];
      DecodedMore(ks);
      DecodedGroup(tail, g - 1);
      hide Decoded, WellFormed, Paddings;
      var d, e := Decoded(ks), Decoded(tail);
      assert d[3 * g] == e[3 * g - 3];
      assert 3 * g + 1 < |d| ==> d[3 * g + 1] == e[3 * g - 2];
      assert 3 * g + 2 < |d| ==> d[3 * g + 2] == e[3 * g - 1];
      assert FieldAt(tail, 4 * g - 4) == FieldAt(ks, 4 * g);
      assert FieldAt(tail, 4 * g - 3) == FieldAt(ks, 4 * g + 1);
      assert FieldAt(tail, 4 * g - 2) == FieldAt(ks, 4 * g + 2);
      assert FieldAt(tail, 4 * g - 1) == FieldAt(ks, 4 * g + 3);
    }
  }

  lemma DecodedMore(ks: seq<code>)
    requires |ks| > 4 && WellFormed(ks) && FullGroup(ks)
    ensures |ks| >= 8 && Paddings(ks[4..]) == Paddings(ks)
    ensures |Decoded(ks)| == |Decoded(ks[4..])| + 3
    ensures forall i | 3 <= i < |Decoded(ks)| :: Decoded(ks)[i] == Decoded(ks[4..])[i - 3]
  {
    hide Decode1, Decode2, Decode3;
  }

  /** Leftover bits: the low 4 of the last letter before two paddings, the low 2 before one. */
  lemma {:induction false} ZeroLeftoverAtSight(ks: seq<code>)
    requires WellFormed(ks)
    ensures var n := |ks|;
            ZeroLeftover(ks) <==>
              && (Paddings(ks) == 2 ==> n >= 4 && ks[n - 3] % 16 == 0)
              && (Paddings(ks) == 1 ==> n >= 4 && ks[n - 2] % 4 == 0)
  {
    if |ks| > 4 && FullGroup(ks) {
      ZeroLeftoverAtSight(ks[4..]);
      DecodedMore(ks);
      var n := |ks|;
      assert ks[4..][n - 7] == ks[n - 3] && ks[4..][n - 6] == ks[n - 2];
    }
  }

  //////////////////////////// shape of encoded text ////////////////////////////

  lemma {:induction false} StrippedWrap(columns: nat, ks: seq<code>)
    requires Printable(ks)
    ensures Stripped(Wrap(columns, Symbols(ks))) == ks
    decreases |ks|
  {
    hide Symbol, Code;
    var t := Symbols(ks);
    if columns == 0 || |t| <= columns {
      CodesOfSymbols(ks);
      SignificantFixed(ks);
    } else {
      var line, rest := ks[..columns], ks[columns..];
      assert t[..columns] == Symbols(line) && t[columns..] == Symbols(rest);
      StrippedWrap(columns, rest);
      CodesOfSymbols(line);
      SignificantFixed(line);
      StrippedNewline(Symbols(line), Wrap(columns, Symbols(rest)));
      assert ks == line + rest;
    }
  }

  /** Decoding encoded and wrapped text is the identity on octets. */
  lemma DecodeWrapped(columns: nat, s: seq<byte>)
    ensures var ks := Stripped(Wrap(columns, Base64(s))); WellFormed(ks) && Decoded(ks) == s
  {
    StrippedWrap(columns, Encoded(s));
    DecodeEncoded(s);
  }

  /** Newlines stand at exactly the positions that end a full line, and never at the end. */
  lemma {:induction false} WrapLayout(columns: nat, t: seq<byte>)
    requires columns > 0 && NL !in t
    ensures var w := Wrap(columns, t);
            && (forall i | 0 <= i < |w| :: w[i] == NL <==> i % (columns + 1) == columns)
            && (t != [] ==> w != [] && w[|w| - 1] != NL)
    decreases |t|
  {
    var w := Wrap(columns, t);
    if |t| <= columns {
      forall i | 0 <= i < |w|
        ensures w[i] == NL <==> i % (columns + 1) == columns
      {
        SmallMod(i, columns + 1);
      }
    } else {
      var tail := Wrap(columns, t[columns..]);
      WrapLayout(columns, t[columns..]);
      assert w == t[..columns] + [NL] + tail;
      forall i | 0 <= i < |w|
        ensures w[i] == NL <==> i % (columns + 1) == columns
      {
        if i <= columns {
          SmallMod(i, columns + 1);
        } else {
          assert w[i] == tail[i - (columns + 1)];
          ModShift(i - (columns + 1), columns + 1);
        }
      }
    }
  }

  /** Character i of a text stands behind i / columns line breaks. */
  lemma {:induction false} WrapAt(columns: nat, t: seq<byte>, i: nat)
    requires columns > 0 && i < |t|
    ensures i + i / columns < |Wrap(columns, t)| && Wrap(columns, t)[i + i / columns] == t[i]
    decreases |t|
  {
    if i < columns {
      SmallDiv(i, columns);
    } else {
      var q := (i - columns) / columns;
      DivShift(i - columns, columns);
      WrapAt(columns, t[columns..], i - columns);
      assert i / columns == q + 1;
      WrapLater(columns, t, i - columns + q);
    }
  }

  lemma WrapLater(columns: nat, t: seq<byte>, j: nat)
    requires 0 < columns < |t| && j < |Wrap(columns, t[columns..])|
    ensures columns + 1 + j < |Wrap(columns, t)|
    ensures Wrap(columns, t)[columns + 1 + j] == Wrap(columns, t[columns..])[j]
  {
  }

  lemma {:induction false} WrapLength(columns: nat, t: seq<byte>)
    requires columns > 0
    ensures |Wrap(columns, t)| == |t| + (if |t| == 0 then 0 else (|t| - 1) / columns)
    decreases |t|
  {
    if |t| <= columns {
      if t != [] {
        SmallDiv(|t| - 1, columns);
      }
    } else {
      WrapLength(columns, t[columns..]);
      DivShift(|t| - columns - 1, columns);
    }
  }
}
