/** The shift-and-mask macros of src/base64.c compute the fields and octets of Base64Spec. */
module Base64Bits {
  import opened Base64Spec

  // The macros on 8-bit words.

  function MacroEncode1(a: bv8): bv8 { (a >> 2) & 0x3F }
  function MacroEncode2(a: bv8, b: bv8): bv8 { ((a << 4) & 0x30) + ((b >> 4) & 0x0F) }
  function MacroEncode3(b: bv8, c: bv8): bv8 { ((b << 2) & 0x3C) + ((c >> 6) & 0x03) }
  function MacroEncode4(c: bv8): bv8 { c & 0x3F }
  function MacroDecode1(a: bv8, b: bv8): bv8 { (a << 2) | ((b & 0x3F) >> 4) }
  function MacroDecode2(b: bv8, c: bv8): bv8 { (b << 4) | ((c & 0x3F) >> 2) }
  function MacroDecode3(c: bv8, d: bv8): bv8 { (c << 6) | (d & 0x3F) }

  // Single shifts and masks as arithmetic.

  lemma Shr2(a: bv8)
    ensures (a >> 2) as int == a as int / 4
  {
  }

  lemma Shr4(a: bv8)
    ensures (a >> 4) as int == a as int / 16
  {
  }

  lemma Shr6(a: bv8)
    ensures (a >> 6) as int == a as int / 64
  {
  }

  lemma Mask2(a: bv8)
    ensures (a & 0x03) as int == a as int % 4
  {
  }

  lemma Mask4(a: bv8)
    ensures (a & 0x0F) as int == a as int % 16
  {
  }

  lemma Mask6(a: bv8)
    ensures (a & 0x3F) as int == a as int % 64
  {
  }

  lemma Join2(x: bv8, y: bv8, z: bv8)
    requires x < 64 && y < 4 && z == (x << 2) | y
    ensures z as int == x as int * 4 + y as int
  {
  }

  lemma Join4(x: bv8, y: bv8, z: bv8)
    requires x < 16 && y < 16 && z == (x << 4) | y
    ensures z as int == x as int * 16 + y as int
  {
  }

  lemma Join6(x: bv8, y: bv8, z: bv8)
    requires x < 4 && y < 64 && z == (x << 6) | y
    ensures z as int == x as int * 64 + y as int
  {
  }

  lemma Encode2Macro(a: bv8, b: bv8)
    ensures MacroEncode2(a, b) as int == Encode2(a as int, b as int)
  {
    Mask2(a);
    Shr4(b);
    Join4(a & 0x03, b >> 4, MacroEncode2(a, b));
  }

  lemma Encode1Macro(a: bv8)
    ensures MacroEncode1(a) as int == Encode1(a as int)
  {
    Shr2(a);
    assert MacroEncode1(a) == a >> 2;
  }

  lemma Encode3Macro(b: bv8, c: bv8)
    ensures MacroEncode3(b, c) as int == Encode3(b as int, c as int)
  {
    Mask4(b);
    Shr6(c);
    Join2(b & 0x0F, c >> 6, MacroEncode3(b, c));
  }

  lemma Encode4Macro(c: bv8)
    ensures MacroEncode4(c) as int == Encode4(c as int)
  {
    Mask6(c);
  }

  // Codes of letters are below 64.

  lemma Decode1Macro(a: bv8, b: bv8)
    requires a as int < 64 && b as int < 64
    ensures MacroDecode1(a, b) as int == Decode1(a as int, b as int)
  {
    Shr4(b);
    Join2(a, b >> 4, MacroDecode1(a, b));
  }

  lemma Decode2Macro(b: bv8, c: bv8)
    requires b as int < 64 && c as int < 64
    ensures MacroDecode2(b, c) as int == Decode2(b as int, c as int)
  {
    Mask4(b);
    Shr2(c);
    Join4(b & 0x0F, c >> 2, MacroDecode2(b, c));
  }

  lemma Decode3Macro(c: bv8, d: bv8)
    requires c as int < 64 && d as int < 64
    ensures MacroDecode3(c, d) as int == Decode3(c as int, d as int)
  {
    Mask2(c);
    Join6(c & 0x03, d, MacroDecode3(c, d));
  }
}
