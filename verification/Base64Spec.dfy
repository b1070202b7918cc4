/**
Base64 as the standards state it (section 6.8 of RFC 2045, section 4 of RFC 4648): 24-bit groups,
the 65-character alphabet, padding, line layout and the whitespace a decoder passes over. Nothing
here knows about contexts, chunks or buffers.

Groups are described by codes: 0..63 for the letters, then one code each for padding, whitespace
and everything else. Symbol and Code go between codes and characters.
*/
module Base64Spec {
  import opened Bytes

  type code = k: int | 0 <= k <= 66

  const PAD: code := 64
  const SPACE: code := 65
  const OTHER: code := 66

  const NL: byte := 10

  /** The character of a letter code or of the padding code. */
  function Symbol(k: code): (ch: byte)
    requires k <= PAD
  {
    if k < 26 then 65 + k
    else if k < 52 then 97 + (k - 26)
    else if k < 62 then 48 + (k - 52)
    else if k == 62 then 43
    else if k == 63 then 47
    else 61
  }

  function Code(ch: byte): (k: code) {
    if 65 <= ch <= 90 then ch - 65
    else if 97 <= ch <= 122 then 26 + (ch - 97)
    else if 48 <= ch <= 57 then 52 + (ch - 48)
    else if ch == 43 then 62
    else if ch == 47 then 63
    else if ch == 61 then PAD
    else if ch == 32 || ch == 9 || ch == 13 || ch == 10 then SPACE
    else OTHER
  }

  lemma CodeSymbol(k: code)
    requires k <= PAD
    ensures Code(Symbol(k)) == k && Symbol(k) != 0
  {
  }

  lemma SymbolCode(ch: byte)
    ensures Code(ch) <= PAD ==> Symbol(Code(ch)) == ch
  {
  }

  /** The alphabet: 'A' to 'Z', 'a' to 'z', '0' to '9', '+', '/', and '=' for padding. */
  lemma Alphabet(k: code)
    requires k <= PAD
    ensures k < 26 ==> Symbol(k) == 'A' as int + k
    ensures 26 <= k < 52 ==> Symbol(k) == 'a' as int + (k - 26)
    ensures 52 <= k < 62 ==> Symbol(k) == '0' as int + (k - 52)
    ensures k == 62 ==> Symbol(k) == '+' as int
    ensures k == 63 ==> Symbol(k) == '/' as int
    ensures k == 64 ==> Symbol(k) == '=' as int
  {
  }

  /** The line break is a newline, and four characters are passed over as whitespace. */
  lemma Whitespace(ch: byte)
    ensures NL == '\n' as int
    ensures Code(ch) == SPACE <==> ch == 9 || ch == 10 || ch == 13 || ch == 32
    ensures Code(ch) == OTHER <==>
            ch !in {9, 10, 13, 32} && ch != '=' as int && ch != '+' as int && ch != '/' as int
            && !('A' as int <= ch <= 'Z' as int) && !('a' as int <= ch <= 'z' as int)
            && !('0' as int <= ch <= '9' as int)
  {
  }

  predicate Printable(ks: seq<code>) {
    forall i | 0 <= i < |ks| :: ks[i] <= PAD
  }

  function Symbols(ks: seq<code>): (t: seq<byte>)
    requires Printable(ks)
    ensures |t| == |ks|
    ensures forall i | 0 <= i < |ks| :: t[i] == Symbol(ks[i])
  {
    seq(|ks|, i requires 0 <= i < |ks| => Symbol(ks[i]))
  }

  function Codes(t: seq<byte>): (ks: seq<code>)
    ensures |ks| == |t|
    ensures forall i | 0 <= i < |t| :: ks[i] == Code(t[i])
  {
    seq(|t|, i requires 0 <= i < |t| => Code(t[i]))
  }

  //////////////////////////// fields and octets ////////////////////////////

  // The four 6-bit fields of three octets and the three octets of four fields, as the macros
  // cut and join them; FieldsAre24Bits and OctetsAre24Bits state that both sides are the digits
  // of the same 24-bit number.

  function Encode1(a: byte): (v: code)
    ensures v < 64
  {
    a / 4
  }

  function Encode2(a: byte, b: byte): (v: code)
    ensures v < 64
  {
    a % 4 * 16 + b / 16
  }

  function Encode3(b: byte, c: byte): (v: code)
    ensures v < 64
  {
    b % 16 * 4 + c / 64
  }

  function Encode4(c: byte): (v: code)
    ensures v < 64
  {
    c % 64
  }

  function Decode1(w: code, x: code): (r: byte)
    requires w < 64 && x < 64
  {
    w * 4 + x / 16
  }

  function Decode2(x: code, y: code): (r: byte)
    requires x < 64 && y < 64
  {
    x % 16 * 16 + y / 4
  }

  function Decode3(y: code, z: code): (r: byte)
    requires y < 64 && z < 64
  {
    y % 4 * 64 + z
  }

  lemma FieldsAre24Bits(a: byte, b: byte, c: byte)
    ensures 262144 * (Encode1(a) as int) + 4096 * (Encode2(a, b) as int)
            + 64 * (Encode3(b, c) as int) + Encode4(c) as int
         == 65536 * (a as int) + 256 * (b as int) + c as int
  {
  }

  lemma OctetsAre24Bits(w: code, x: code, y: code, z: code)
    requires w < 64 && x < 64 && y < 64 && z < 64
    ensures 65536 * (Decode1(w, x) as int) + 256 * (Decode2(x, y) as int) + Decode3(y, z) as int
         == 262144 * (w as int) + 4096 * (x as int) + 64 * (y as int) + z as int
  {
  }

  //////////////////////////// encoding ////////////////////////////

  function Encoded(s: seq<byte>): (ks: seq<code>)
    ensures Printable(ks)
  {
    if |s| == 0 then []
    else if |s| == 1 then [Encode1(s[0]), Encode2(s[0], 0), PAD, PAD]
    else if |s| == 2 then [Encode1(s[0]), Encode2(s[0], s[1]), Encode3(s[1], 0), PAD]
    else [Encode1(s[0]), Encode2(s[0], s[1]), Encode3(s[1], s[2]), Encode4(s[2])] + Encoded(s[3..])
  }

  function Base64(s: seq<byte>): (t: seq<byte>) {
    Symbols(Encoded(s))
  }

  /** Breaks text into lines of `columns` characters; 0 means no line breaks. */
  function Wrap(columns: nat, text: seq<byte>): seq<byte>
    decreases |text|
  {
    if columns == 0 || |text| <= columns then text
    else text[..columns] + [NL] + Wrap(columns, text[columns..])
  }

  //////////////////////////// decoding ////////////////////////////

  /** The codes without those of whitespace. */
  function Significant(ks: seq<code>): seq<code> {
    if ks == [] then []
    else if ks[0] == SPACE then Significant(ks[1..])
    else [ks[0]] + Significant(ks[1..])
  }

  predicate AllSpace(ks: seq<code>) {
    forall i | 0 <= i < |ks| :: ks[i] == SPACE
  }

  predicate FullGroup(ks: seq<code>)
    requires |ks| >= 4
  {
    ks[0] < 64 && ks[1] < 64 && ks[2] < 64 && ks[3] < 64
  }

  predicate OnePad(ks: seq<code>) {
    |ks| == 4 && ks[0] < 64 && ks[1] < 64 && ks[2] < 64 && ks[3] == PAD
  }

  predicate TwoPads(ks: seq<code>) {
    |ks| == 4 && ks[0] < 64 && ks[1] < 64 && ks[2] == PAD && ks[3] == PAD
  }

  /** Complete four-letter groups, of which only the last may be padded, and nothing else. */
  predicate WellFormed(ks: seq<code>) {
    if |ks| < 4 then ks == []
    else if FullGroup(ks) then WellFormed(ks[4..])
    else OnePad(ks) || TwoPads(ks)
  }

  /** The octets of a well-formed text: of a padded last group only the octets it holds in full. */
  function Decoded(ks: seq<code>): seq<byte>
    requires WellFormed(ks)
  {
    if ks == [] then []
    else if FullGroup(ks) then
      [Decode1(ks[0], ks[1]), Decode2(ks[1], ks[2]), Decode3(ks[2], ks[3])] + Decoded(ks[4..])
    else if OnePad(ks) then [Decode1(ks[0], ks[1]), Decode2(ks[1], ks[2])]
    else [Decode1(ks[0], ks[1])]
  }

  /** The bits a padded last group does not use are zero. */
  predicate ZeroLeftover(ks: seq<code>)
    requires WellFormed(ks)
  {
    if ks == [] then true
    else if FullGroup(ks) then ZeroLeftover(ks[4..])
    else if OnePad(ks) then ks[2] % 4 == 0
    else ks[1] % 16 == 0
  }

  /** The text without its whitespace characters. */
  function Unspaced(t: seq<byte>): seq<byte> {
    if t == [] then []
    else if Code(t[0]) == SPACE then Unspaced(t[1..])
    else [t[0]] + Unspaced(t[1..])
  }

  /** The codes of the characters a base64 text consists of once whitespace is dropped. */
  function Stripped(t: seq<byte>): seq<code> {
    Significant(Codes(t))
  }
}
