/** The big-number operations of src/bn.c: a number is a Buffer whose contents are big-endian. */
module BigNumbers {
  import opened Arithmetic
  import opened Bytes
  import opened Buffers
  import opened BnSpec
  import opened BnLaws

  //////////////////////////// machine integers ////////////////////////////

  const INT_MAX: nat := 0x7FFF_FFFF

  /** The values the loops of Mul, Add and Div compute before they split them into octet and rest. */
  function MulTerm(multiplier: nat, over: nat, b: byte): nat {
    over + multiplier * b
  }

  function AddTerm(over: nat, b: byte): nat {
    over + b
  }

  function DivTerm(over: nat, b: byte): nat {
    over * 256 + b
  }

  /** No carry below the multiplier overflows a 32-bit int exactly for multipliers up to 2^23. */
  lemma MulFitsInt(multiplier: nat)
    requires multiplier > 0
    ensures (forall over: nat, b: byte | over < multiplier :: MulTerm(multiplier, over, b) <= INT_MAX)
            <==> multiplier <= 0x80_0000
  {
    var top := MulTerm(multiplier, multiplier - 1, 255);
    forall over: nat, b: byte | over < multiplier
      ensures MulTerm(multiplier, over, b) <= top
    {
      MulMonotone(b, 255, multiplier);
    }
  }

  /** No remainder below the divider overflows exactly for dividers up to 2^23. */
  lemma DivFitsInt(divider: nat)
    requires divider > 0
    ensures (forall over: nat, b: byte | over < divider :: DivTerm(over, b) <= INT_MAX)
            <==> divider <= 0x80_0000
  {
    var top := DivTerm(divider - 1, 255);
    assert forall over: nat, b: byte | over < divider :: DivTerm(over, b) <= top;
  }

  /** No carry up to delta overflows exactly when delta leaves room for one octet. */
  lemma AddFitsInt(delta: nat)
    ensures (forall over: nat, b: byte | over <= delta :: AddTerm(over, b) <= INT_MAX)
            <==> delta <= INT_MAX - 255
  {
    var top := AddTerm(delta, 255);
    assert forall over: nat, b: byte | over <= delta :: AddTerm(over, b) <= top;
  }

  //////////////////////////// arithmetic ////////////////////////////

  /** Prepends what is left of a carry, octet by octet. */
  method PrependCarry(bn: Buffer, carry: nat)
    requires bn.Valid()
    modifies bn, bn.data
    ensures bn.Valid() && (bn.data == old(bn.data) || fresh(bn.data))
    ensures Value(bn.Contents()) == old(Value(bn.Contents())) + carry * P(old(bn.size))
    ensures carry == 0 ==> bn.Contents() == old(bn.Contents())
    ensures carry > 0 ==> bn.size > old(bn.size) && bn.Contents()[0] != 0
  {
    hide Value, P;
    var over := carry;
    while over > 0
      invariant over >= 0 && bn.Valid() && (bn.data == old(bn.data) || fresh(bn.data))
      invariant Value(bn.Contents()) + over * P(bn.size) == old(Value(bn.Contents())) + carry * P(old(bn.size))
      invariant over == carry ==> bn.Contents() == old(bn.Contents())
      invariant over != carry ==> bn.size > old(bn.size) && (over == 0 ==> bn.Contents()[0] != 0)
    {
      ghost var s := bn.Contents();
      var ch := over % 256;
      Deposit(over, s);
      bn.Prepend([ch]);
      over := over / 256;
    }
    ZeroTimes(over, P(bn.size));
  }

  /** Multiplies by a positive number, exactly; every octet stored fits. */
  method Mul(bn: Buffer, multiplier: int) returns (ok: bool)
    requires bn.Valid()
    modifies bn, bn.data
    ensures bn.Valid() && (bn.data == old(bn.data) || fresh(bn.data))
    ensures ok <==> multiplier > 0
    ensures !ok ==> bn.Contents() == old(bn.Contents())
    ensures ok ==> Value(bn.Contents()) == multiplier * old(Value(bn.Contents()))
    ensures ok && NoLeadingZero(old(bn.Contents())) ==> NoLeadingZero(bn.Contents())
  {
    hide Value, P;
    if multiplier <= 0 {
      return false;
    }
    ok := true;
    if multiplier == 1 {
      return;
    }
    ghost var s := bn.Contents();
    var over := MulInPlace(bn, multiplier);
    ghost var r := bn.Contents();
    PrependCarry(bn, over);
    if over == 0 && NoLeadingZero(s) {
      StillNoLeadingZero(s, r);
    }
  }

  method MulInPlace(bn: Buffer, multiplier: nat) returns (over: nat)
    requires bn.Valid() && multiplier > 1
    modifies bn.data
    ensures over < multiplier
    ensures Value(bn.Contents()) + over * P(bn.size) == multiplier * old(Value(bn.Contents()))
  {
    hide Value, P;
    ghost var s := bn.Contents();
    var n := bn.size;
    var ii := n;
    over := 0;
    assert s[n..] == [] && bn.data[n..n] == [];
    NothingIsZero();
    ZeroTimes(over, P(0));
    ZeroTimes(Value([]), multiplier);
    while ii > 0
      invariant 0 <= ii <= n == bn.size <= bn.data.Length && over < multiplier
      invariant bn.data[..ii] == s[..ii]
      invariant Value(bn.data[ii..n]) + over * P(n - ii) == multiplier * Value(s[ii..])
    {
      ii := ii - 1;
      ghost var done := bn.data[ii + 1..n];
      assert bn.data[ii] == bn.data[..ii + 1][ii] == s[ii];
      var x := MulTerm(multiplier, over, bn.data[ii]);
      MulStep(multiplier, over, s[ii], x, done, s[ii + 1..]);
      CarryStaysSmall(multiplier, over, s[ii]);
      over := x;
      bn.data[ii] := over % 256;
      over := over / 256;
      assert bn.data[ii..n] == [bn.data[ii]] + done;
      assert s[ii..] == [s[ii]] + s[ii + 1..];
      assert bn.data[..ii] == s[..ii + 1][..ii];
    }
    assert bn.data[0..n] == bn.Contents() && s[0..] == s;
  }

  lemma NothingIsZero()
    ensures Value([]) == 0
  {
  }

  lemma CarryStaysSmall(m: nat, over: nat, b: byte)
    requires m > 1 && over < m
    ensures (over + m * b) / 256 < m
  {
    assert m * b <= m * 255;
  }

  /** Adds a number. A non-negative one is added exactly; a negative one lowers the octets without
      propagating borrows, so the size never changes. */
  method Add(bn: Buffer, delta: int) returns (ok: bool)
    requires bn.Valid()
    modifies bn, bn.data
    ensures bn.Valid() && (bn.data == old(bn.data) || fresh(bn.data)) && ok
    ensures delta >= 0 ==> Value(bn.Contents()) == old(Value(bn.Contents())) + delta
    ensures delta >= 0 ==> bn.size == old(bn.size) || (bn.size > old(bn.size) && bn.Contents()[0] != 0)
    ensures delta >= 0 && NoLeadingZero(old(bn.Contents())) ==> NoLeadingZero(bn.Contents())
    ensures delta < 0 ==> bn.Contents() == Lowered(old(bn.Contents()), -delta) && bn.data == old(bn.data)
  {
    hide Value, P, Lowered;
    ok := true;
    if delta == 0 {
      return;
    }
    if delta > 0 {
      ghost var s := bn.Contents();
      var over := AddInPlace(bn, delta);
      ghost var r := bn.Contents();
      PrependCarry(bn, over);
      if over == 0 && NoLeadingZero(s) {
        StillNoLeadingZero(s, r);
      }
    } else {
      LowerInPlace(bn, -delta);
    }
  }

  method AddInPlace(bn: Buffer, delta: nat) returns (over: nat)
    requires bn.Valid() && delta > 0
    modifies bn.data
    ensures over <= delta
    ensures Value(bn.Contents()) + over * P(bn.size) == old(Value(bn.Contents())) + delta
  {
    hide Value, P;
    ghost var s := bn.Contents();
    ghost var done: seq<byte> := [];
    var n := bn.size;
    var ii := n;
    over := delta;
    assert s[n..] == [] && s[..n] + done == s;
    NothingIsZero();
    PowerOfNothing(over);
    while ii > 0 && over > 0
      invariant 0 <= ii <= n == bn.size == |s| && bn.Valid() && over <= delta
      invariant bn.Contents() == s[..ii] + done && |done| == n - ii
      invariant Value(done) + over * P(n - ii) == Value(s[ii..]) + delta
    {
      ii := ii - 1;
      assert bn.data[ii] == bn.Contents()[ii] == s[ii];
      AddStep(delta, over, s[ii], done, s[ii + 1..]);
      SplitFirst(s, ii);
      over := AddTerm(over, bn.data[ii]);
      Store(bn, ii, over % 256);
      StoredBefore(s, ii, over % 256, done);
      done := [over % 256] + done;
      over := over / 256;
    }
    assert s == s[..ii] + s[ii..];
    ValueConcat(s[..ii], done);
    ValueConcat(s[..ii], s[ii..]);
  }

  lemma PowerOfNothing(x: nat)
    ensures x * P(0) == x
  {
  }

  method LowerInPlace(bn: Buffer, d: nat)
    requires bn.Valid() && d > 0
    modifies bn.data
    ensures bn.Contents() == Lowered(old(bn.Contents()), d)
  {
    hide Lowered, LoweredOctet, StillToLower;
    ghost var s := bn.Contents();
    ghost var done: seq<byte> := [];
    var n := bn.size;
    var ii, over := n, d;
    assert s[..n] == s && s + [] == s;
    assert Lowered(s, d) + [] == Lowered(s, d);
    while ii > 0 && over > 0
      invariant 0 <= ii <= n == bn.size == |s| && bn.Valid() && over >= 0
      invariant bn.Contents() == s[..ii] + done
      invariant Lowered(s, d) == Lowered(s[..ii], over) + done
    {
      ii := ii - 1;
      var tmp := bn.data[ii];
      assert tmp == bn.Contents()[ii] == s[ii];
      LowerStep(s, ii, over, done);
      var octet := LoweredOctet(tmp, over);
      over := StillToLower(tmp, over);
      Store(bn, ii, octet);
      StoredBefore(s, ii, octet, done);
      done := [octet] + done;
    }
    LoweredEnd(s[..ii], over);
  }

  method Store(bn: Buffer, ii: nat, octet: byte)
    requires bn.Valid() && ii < bn.size
    modifies bn.data
    ensures bn.Contents() == old(bn.Contents())[ii := octet]
  {
    bn.data[ii] := octet;
  }

  lemma StoredBefore(s: seq<byte>, k: nat, octet: byte, done: seq<byte>)
    requires k < |s|
    ensures (s[..k + 1] + done)[k := octet] == s[..k] + ([octet] + done)
  {
  }

  lemma LowerStep(s: seq<byte>, k: nat, over: nat, done: seq<byte>)
    requires k < |s| && over > 0
    ensures Lowered(s[..k + 1], over) + done ==
            Lowered(s[..k], StillToLower(s[k], over)) + ([LoweredOctet(s[k], over)] + done)
  {
    assert s[..k + 1][..k] == s[..k];
    LoweredEnd(s[..k], 0);
  }

  /** What subtracting leaves of one octet, and what is left to subtract from those before it. */
  function LoweredOctet(tmp: byte, over: nat): byte {
    if tmp < over then 0 else tmp - over
  }

  function StillToLower(tmp: byte, over: nat): nat {
    if tmp < over then (over - tmp) / 256 else 0
  }

  lemma LoweredEnd(s: seq<byte>, d: nat)
    requires s == [] || d == 0
    ensures Lowered(s, d) == s
  {
  }

  datatype Remainder = Unset | Remainder(value: nat)

  /** Divides by a number above 1: quotient without leading zeros and remainder. Dividing by 1
      changes nothing and leaves the remainder unset. */
  method Div(bn: Buffer, divider: int) returns (ok: bool, mod: Remainder)
    requires bn.Valid()
    modifies bn`size, bn.data
    ensures bn.Valid()
    ensures ok <==> divider > 0
    ensures divider <= 1 ==> bn.Contents() == old(bn.Contents()) && mod == Unset
    ensures divider > 1 ==> && mod.Remainder? && mod.value < divider
                            && old(Value(bn.Contents())) == divider * Value(bn.Contents()) + mod.value
                            && NoLeadingZero(bn.Contents())
  {
    hide Value, P;
    ok, mod := divider > 0, Unset;
    if divider <= 1 {
      return;
    }
    var over := DivInPlace(bn, divider);
    mod := Remainder(over);
    ghost var q := bn.Contents();
    var ii := LeadingZeros(bn);
    ValueOfStrip(q);
    if ii > 0 {
      bn.RemoveHead(ii);
    }
    assert bn.Contents() == Strip(q);
  }

  method DivInPlace(bn: Buffer, divider: nat) returns (over: nat)
    requires bn.Valid() && divider > 1
    modifies bn.data
    ensures over < divider
    ensures old(Value(bn.Contents())) == divider * Value(bn.Contents()) + over
  {
    hide Value, P;
    ghost var s := bn.Contents();
    var n := bn.size;
    var ii := 0;
    over := 0;
    assert s[..0] == [] && bn.data[..0] == [];
    NothingIsZero();
    while ii < n
      invariant 0 <= ii <= n == bn.size <= bn.data.Length && over < divider
      invariant bn.data[ii..n] == s[ii..]
      invariant Value(bn.data[..ii]) * divider + over == Value(s[..ii])
    {
      ghost var q := bn.data[..ii];
      assert bn.data[ii] == bn.data[ii..n][0] == s[ii];
      var x := DivTerm(over, bn.data[ii]);
      QuotientFits(x, divider);
      DivStep(divider, over, s[ii], x / divider, x % divider, q, s[..ii]);
      over := x;
      bn.data[ii] := over / divider;
      over := over % divider;
      assert bn.data[..ii + 1] == q + [bn.data[ii]];
      assert s[..ii + 1] == s[..ii] + [s[ii]];
      assert bn.data[ii + 1..n] == s[ii..][1..];
      ii := ii + 1;
    }
    assert bn.data[..n] == bn.Contents() && s[..n] == s;
  }

  method LeadingZeros(bn: Buffer) returns (ii: nat)
    requires bn.Valid()
    ensures ii <= bn.size && Strip(bn.Contents()) == bn.Contents()[ii..]
  {
    ghost var s := bn.Contents();
    ii := 0;
    while ii < bn.size
      invariant ii <= bn.size && Strip(s) == Strip(s[ii..])
    {
      if bn.data[ii] != 0 {
        break;
      }
      assert s[ii..][1..] == s[ii + 1..];
      ii := ii + 1;
    }
  }
}
