/** Masks of 32 flags, as key types and key usages are held in (src/keys.c). */
module Flags {

  /** Two flag masks have a flag in common. */
  predicate Share(a: bv32, b: bv32) {
    a & b != 0
  }

  predicate NoFlags(a: bv32) {
    a == 0
  }

  /** A mask moved down and up by one place. */
  function Down(x: bv32): bv32 {
    x >> 1
  }

  function Up(x: bv32): bv32 {
    x << 1
  }

  predicate Lowest(x: bv32) {
    x & 1 == 1
  }

  /** Flag i of a mask, counted from the lowest bit. */
  predicate Flag(a: bv32, i: nat) {
    if i == 0 then Lowest(a) else Flag(Down(a), i - 1)
  }

  /** The mask that has flag i alone. */
  function One(i: nat): bv32 {
    if i == 0 then 1 else Up(One(i - 1))
  }

  predicate NoCommonFlag(a: bv32, b: bv32) {
    forall i: nat | i < 32 :: !(Flag(a, i) && Flag(b, i))
  }

  /** Sharing is having one of the 32 flags in common. */
  lemma ShareIsCommonFlag(a: bv32, b: bv32)
    ensures Share(a, b) <==> !NoCommonFlag(a, b)
  {
    hide Flag;
    if a & b != 0 {
      var i := SomeFlag(a & b);
      FlagOfBoth(a, b, i);
    } else {
      forall i: nat | i < 32
        ensures !(Flag(a, i) && Flag(b, i))
      {
        FlagOfBoth(a, b, i);
        ZeroHasNoFlag(i);
      }
    }
  }

  /** A mask of one flag shares it with exactly the masks that have it. */
  lemma {:induction false} ShareOneFlag(i: nat, b: bv32)
    requires i < 32
    ensures Share(One(i), b) <==> Flag(b, i)
    decreases i
  {
    hide Share, Down, Up, Lowest;
    if i == 0 {
      ShareLowest(b);
    } else {
      ShareOneFlag(i - 1, Down(b));
      ShiftAcross(One(i - 1), b);
    }
  }

  lemma ShareLowest(b: bv32)
    ensures Share(1, b) <==> Lowest(b)
  {
  }

  lemma ShiftAcross(m: bv32, b: bv32)
    ensures Share(Up(m), b) <==> Share(m, Down(b))
  {
  }

  lemma ShareUnion(a: bv32, c: bv32, b: bv32)
    ensures Share(a | c, b) <==> Share(a, b) || Share(c, b)
    ensures Share(a, b) <==> Share(b, a)
  {
    Distributes(a, c, b);
    EitherNonZero(a & b, c & b);
    Commutes(a, b);
  }

  lemma Distributes(a: bv32, c: bv32, b: bv32)
    ensures (a | c) & b == (a & b) | (c & b)
  {
  }

  lemma EitherNonZero(x: bv32, y: bv32)
    ensures x | y != 0 <==> x != 0 || y != 0
  {
  }

  lemma Commutes(x: bv32, y: bv32)
    ensures x & y == y & x
  {
  }

  lemma {:induction false} FlagOfBoth(a: bv32, b: bv32, i: nat)
    ensures Flag(a & b, i) <==> Flag(a, i) && Flag(b, i)
    decreases i
  {
    hide Down, Lowest;
    if i == 0 {
      LowestOfBoth(a, b);
    } else {
      DownBoth(a, b);
      FlagOfBoth(Down(a), Down(b), i - 1);
    }
  }

  lemma LowestOfBoth(a: bv32, b: bv32)
    ensures Lowest(a & b) <==> Lowest(a) && Lowest(b)
  {
  }

  lemma DownBoth(a: bv32, b: bv32)
    ensures Down(a & b) == Down(a) & Down(b)
  {
  }

  lemma {:induction false} ZeroHasNoFlag(i: nat)
    ensures !Flag(0, i)
    decreases i
  {
    if i > 0 {
      ZeroHasNoFlag(i - 1);
      assert Down(0) == 0;
    }
  }

  /** A mask moved down n places. */
  function Shifted(x: bv32, n: nat): bv32 {
    if n == 0 then x else Shifted(Down(x), n - 1)
  }

  function Down4(x: bv32): bv32 {
    x >> 4
  }

  lemma ShiftedBy4(x: bv32, n: nat)
    ensures Shifted(x, n + 4) == Shifted(Down4(x), n)
  {
    FourPlaces(x);
    hide Down, Down4;
    assert Shifted(x, n + 4) == Shifted(Down(x), n + 3);
    assert Shifted(Down(x), n + 3) == Shifted(Down(Down(x)), n + 2);
    assert Shifted(Down(Down(x)), n + 2) == Shifted(Down(Down(Down(x))), n + 1);
  }

  lemma FourPlaces(x: bv32)
    ensures Down(Down(Down(Down(x)))) == Down4(x)
  {
  }

  lemma NothingLeft(x: bv32)
    ensures Shifted(x, 32) == 0
  {
    var y := Down4(Down4(Down4(Down4(x))));
    ThirtyTwoPlaces(x);
    SixteenPlaces(x, 16);
    SixteenPlaces(y, 0);
    hide Down, Down4;
  }

  lemma SixteenPlaces(x: bv32, n: nat)
    ensures Shifted(x, n + 16) == Shifted(Down4(Down4(Down4(Down4(x)))), n)
  {
    hide Shifted, Down4;
    ShiftedBy4(x, n + 12);
    ShiftedBy4(Down4(x), n + 8);
    ShiftedBy4(Down4(Down4(x)), n + 4);
    ShiftedBy4(Down4(Down4(Down4(x))), n);
  }

  lemma ThirtyTwoPlaces(x: bv32)
    ensures var y := Down4(Down4(Down4(Down4(x)))); Down4(Down4(Down4(Down4(y)))) == 0
  {
  }

  /** A mask that is not zero has a flag. */
  lemma SomeFlag(x: bv32) returns (i: nat)
    requires x != 0
    ensures i < 32 && Flag(x, i)
  {
    NothingLeft(x);
    i := FlagAmong(x, 32);
  }

  lemma {:induction false} FlagAmong(x: bv32, n: nat) returns (i: nat)
    requires x != 0 && Shifted(x, n) == 0
    ensures i < n && Flag(x, i)
    decreases n
  {
    hide Down, Lowest;
    if Lowest(x) {
      i := 0;
    } else {
      HigherBits(x);
      i := FlagAmong(Down(x), n - 1);
      i := i + 1;
    }
  }

  lemma HigherBits(x: bv32)
    requires x != 0 && !Lowest(x)
    ensures Down(x) != 0
  {
  }
}
