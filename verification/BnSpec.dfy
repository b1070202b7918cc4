/**
What the octets of a big number stand for and what its numerals stand for: big-endian values, the
two's-complement reading, numerals in bases 2 to 16 and the texts a reader accepts.
*/
module BnSpec {
  import opened Bytes

  //////////////////////////// octets ////////////////////////////

  /** 256 to the power n. */
  function P(n: nat): (r: nat)
    ensures r > 0
  {
    if n == 0 then 1 else 256 * P(n - 1)
  }

  function Value(s: seq<byte>): nat {
    if s == [] then 0 else Value(s[..|s| - 1]) * 256 + s[|s| - 1]
  }

  /** The two's-complement reading: a first octet above 127 makes the number negative. */
  function Signed(s: seq<byte>): int {
    if s != [] && s[0] > 127 then Value(s) - P(|s|) else Value(s)
  }

  predicate NoLeadingZero(s: seq<byte>) {
    s == [] || s[0] != 0
  }

  /** The octets from the first that is not zero. */
  function Strip(s: seq<byte>): seq<byte> {
    if s != [] && s[0] == 0 then Strip(s[1..]) else s
  }

  function Complement(s: seq<byte>): (r: seq<byte>)
    ensures |r| == |s|
    ensures forall i | 0 <= i < |s| :: r[i] == 255 - s[i]
  {
    seq(|s|, i requires 0 <= i < |s| => 255 - s[i])
  }

  lemma ComplementIsXor(x: bv8)
    ensures (x ^ 0xFF) as int == 255 - x as int
  {
  }

  /** A non-negative number with nothing to spare: 0 is one octet, and a leading zero octet is
      there only to keep the sign. */
  predicate Minimal(s: seq<byte>) {
    s == [0] || (s != [] && 0 < s[0] <= 127) || (|s| > 1 && s[0] == 0 && s[1] > 127)
  }

  /** What subtracting d does to the octets: a borrow is not carried but divided by 256. */
  function Lowered(s: seq<byte>, d: nat): (r: seq<byte>)
    ensures |r| == |s|
  {
    if s == [] || d == 0 then s
    else
      var init, last := s[..|s| - 1], s[|s| - 1];
      if last < d then Lowered(init, (d - last) / 256) + [0] else init + [last - d]
  }

  /** No remainder is lost on the way: each octet that is too small differs from what is to be
      subtracted by a multiple of 256, and some octet is large enough for the rest. */
  predicate NoBorrow(s: seq<byte>, d: nat) {
    d == 0 ||
    (s != [] &&
     var init, last := s[..|s| - 1], s[|s| - 1];
     last >= d || ((d - last) % 256 == 0 && NoBorrow(init, (d - last) / 256)))
  }

  /** The octets of d without leading zeros. */
  function Octets(d: nat): seq<byte> {
    if d == 0 then [] else Octets(d / 256) + [d % 256]
  }

  /** The number ends in the octets of d, except that in the place of d's first octet it may have a
      larger one. */
  predicate Covers(s: seq<byte>, d: nat) {
    var o, n := Octets(d), |s| - |Octets(d)|;
    d == 0 || (n >= 0 && s[n] >= o[0] && s[n + 1..] == o[1..])
  }

  //////////////////////////// numerals ////////////////////////////

  const PLUS: byte := 43
  const MINUS: byte := 45

  /** The upper-case character of a digit. */
  function DigitChar(d: nat): byte
    requires d < 16
  {
    if d < 10 then 48 + d else 65 + (d - 10)
  }

  /** The digit a character stands for, in either case; -1 for any other character. */
  function CharDigit(ch: byte): int {
    if 48 <= ch <= 57 then ch - 48
    else if 65 <= ch <= 70 then ch - 65 + 10
    else if 97 <= ch <= 102 then ch - 97 + 10
    else -1
  }

  predicate IsBlank(ch: byte) {
    ch == 32 || 9 <= ch <= 13
  }

  predicate IsDigit(ch: byte, base: nat) {
    0 <= CharDigit(ch) < base
  }

  /** The numeral of v without leading zeros. */
  function Numeral(v: nat, base: nat): (t: seq<byte>)
    requires 2 <= base <= 16
    ensures t != []
  {
    if v < base then [DigitChar(v)] else Numeral(v / base, base) + [DigitChar(v % base)]
  }

  function SignedNumeral(v: int, base: nat): seq<byte>
    requires 2 <= base <= 16
  {
    if v < 0 then [MINUS] + Numeral(-v, base) else Numeral(v, base)
  }

  /** The value after reading the digits of t into v, blanks passed over. */
  function Read(v: nat, t: seq<byte>, base: nat): nat
    requires base > 0 && DigitsOnly(t, base)
  {
    if t == [] then v
    else
      var init, ch := t[..|t| - 1], t[|t| - 1];
      if IsBlank(ch) then Read(v, init, base) else Read(v, init, base) * base + CharDigit(ch)
  }

  predicate DigitsOnly(t: seq<byte>, base: nat) {
    forall i | 0 <= i < |t| :: IsBlank(t[i]) || IsDigit(t[i], base)
  }

  function LeadingBlanks(t: seq<byte>): (n: nat)
    ensures n <= |t|
  {
    if t != [] && IsBlank(t[0]) then 1 + LeadingBlanks(t[1..]) else 0
  }

  predicate HasSign(t: seq<byte>) {
    var n := LeadingBlanks(t);
    n < |t| && (t[n] == PLUS || t[n] == MINUS)
  }

  predicate Negative(t: seq<byte>) {
    var n := LeadingBlanks(t);
    n < |t| && t[n] == MINUS
  }

  /** The part of a text behind its leading blanks and optional sign. */
  function Body(t: seq<byte>): seq<byte> {
    t[LeadingBlanks(t) + (if HasSign(t) then 1 else 0)..]
  }

  predicate IsNumeral(t: seq<byte>, base: nat) {
    DigitsOnly(Body(t), base)
  }

  /** The number a text stands for when it is read into a number that was v before. */
  function TextValue(v: nat, t: seq<byte>, base: nat): int
    requires base > 0 && IsNumeral(t, base)
  {
    if Negative(t) then 0 - Read(v, Body(t), base) as int else Read(v, Body(t), base)
  }

  /** The characters of a text that matter: digits in upper case, no blanks. */
  function UpperDigits(t: seq<byte>, base: nat): (r: seq<byte>)
    requires base <= 16 && DigitsOnly(t, base)
  {
    if t == [] then []
    else
      var init, ch := t[..|t| - 1], t[|t| - 1];
      if IsBlank(ch) then UpperDigits(init, base) else UpperDigits(init, base) + [DigitChar(CharDigit(ch))]
  }

  function DropZeros(t: seq<byte>): seq<byte> {
    if t != [] && t[0] == DigitChar(0) then DropZeros(t[1..]) else t
  }

  /** The canonical form of a numeral's text: upper case, no blanks, no leading zeros, at least "0". */
  function Canonical(t: seq<byte>, base: nat): seq<byte>
    requires base <= 16 && DigitsOnly(t, base)
  {
    var r := DropZeros(UpperDigits(t, base));
    if r == [] then [DigitChar(0)] else r
  }
}
