/** Positional notation: what the arithmetic, the comparison and the text conversions rest on. */
module BnLaws {
  import opened Bytes
  import opened BnSpec
  import opened Arithmetic

  //////////////////////////// values ////////////////////////////

  lemma {:induction false} ValueConcat(a: seq<byte>, b: seq<byte>)
    ensures Value(a + b) == Value(a) * P(|b|) + Value(b)
  {
    if b == [] {
      assert a + b == a;
    } else {
      var init, last := b[..|b| - 1], b[|b| - 1];
      assert (a + b)[..|a + b| - 1] == a + init;
      ValueConcat(a, init);
      ScaleOut(Value(a), P(|init|), Value(init), last);
    }
  }

  lemma ScaleOut(x: nat, p: nat, y: nat, last: nat)
    ensures (x * p + y) * 256 + last == x * (256 * p) + (y * 256 + last)
  {
  }

  lemma ValueCons(x: byte, t: seq<byte>)
    ensures Value([x] + t) == x * P(|t|) + Value(t)
  {
    ValueConcat([x], t);
    assert Value([x]) == x by {
      assert [x][..0] == [];
    }
  }

  lemma {:induction false} ValueBound(s: seq<byte>)
    ensures Value(s) < P(|s|)
  {
    if s != [] {
      ValueBound(s[..|s| - 1]);
    }
  }

  /** The two halves of x weigh what x weighs one position further right. */
  lemma Halves(x: nat, p: nat)
    ensures (x % 256) * p + (x / 256) * (256 * p) == x * p
  {
    Distribute(x % 256, 256 * (x / 256), p);
    Regroup3(256, x / 256, p);
    Regroup3(x / 256, 256, p);
  }

  lemma NextPower(n: nat)
    ensures P(n + 1) == 256 * P(n)
  {
  }

  /** How large the first octet is shows in the value. */
  lemma TopOctet(s: seq<byte>, k: nat)
    requires s != []
    ensures s[0] >= k <==> Value(s) >= k * P(|s| - 1)
  {
    assert s == [s[0]] + s[1..];
    ValueCons(s[0], s[1..]);
    ValueBound(s[1..]);
    hide Value, P;
    var top: int := s[0];
    var p := P(|s| - 1);
    if top >= k {
      MulMonotone(k, top, p);
    } else {
      MulMonotone(top + 1, k, p);
      Distribute(top, 1, p);
    }
  }

  lemma {:induction false} ValueOfComplement(s: seq<byte>)
    ensures Value(Complement(s)) == P(|s|) - 1 - Value(s)
  {
    if s != [] {
      var init := s[..|s| - 1];
      ValueOfComplement(init);
      assert Complement(s)[..|s| - 1] == Complement(init);
    }
  }

  lemma {:induction false} ValueInjective(a: seq<byte>, b: seq<byte>)
    requires |a| == |b| && Value(a) == Value(b)
    ensures a == b
  {
    if a != [] {
      var n := |a| - 1;
      DivUnique(Value(a), 256, Value(a[..n]), a[n]);
      DivUnique(Value(b), 256, Value(b[..n]), b[n]);
      ValueInjective(a[..n], b[..n]);
      assert a == a[..n] + [a[n]] && b == b[..n] + [b[n]];
    }
  }

  lemma {:induction false} PowersGrow(m: nat, n: nat)
    requires m <= n
    ensures P(m) <= P(n)
    decreases n
  {
    if m < n {
      PowersGrow(m, n - 1);
    }
  }

  /** A number without leading zeros has as many octets as its value calls for. */
  lemma LeadingOctet(s: seq<byte>)
    requires s != []
    ensures s[0] != 0 <==> Value(s) >= P(|s| - 1)
  {
    TopOctet(s, 1);
  }

  /** A shorter number without a leading zero is smaller. */
  lemma ShorterIsSmaller(a: seq<byte>, b: seq<byte>)
    requires |a| < |b| && b[0] != 0
    ensures Value(a) < Value(b)
  {
    ValueBound(a);
    LeadingOctet(b);
    PowersGrow(|a|, |b| - 1);
  }

  /** Representation without leading zeros is unique. */
  lemma StrippedUnique(a: seq<byte>, b: seq<byte>)
    requires NoLeadingZero(a) && NoLeadingZero(b) && Value(a) == Value(b)
    ensures a == b
  {
    if |a| < |b| {
      ShorterIsSmaller(a, b);
    } else if |b| < |a| {
      ShorterIsSmaller(b, a);
    } else {
      ValueInjective(a, b);
    }
  }

  lemma {:induction false} ValueOfStrip(s: seq<byte>)
    ensures Value(Strip(s)) == Value(s) && NoLeadingZero(Strip(s))
  {
    if s != [] && s[0] == 0 {
      ValueOfStrip(s[1..]);
      assert s == [s[0]] + s[1..];
      ValueCons(s[0], s[1..]);
    }
  }

  //////////////////////////// subtraction without borrow ////////////////////////////

  lemma {:induction false} LoweredNeverBelow(s: seq<byte>, d: nat)
    ensures Value(Lowered(s, d)) >= Value(s) - d
  {
    if s != [] && d != 0 {
      var init, last := s[..|s| - 1], s[|s| - 1];
      var r := Lowered(s, d);
      if last < d {
        LoweredNeverBelow(init, (d - last) / 256);
        assert r[..|r| - 1] == Lowered(init, (d - last) / 256);
      } else {
        assert r[..|r| - 1] == init;
      }
    }
  }

  /** Subtraction is exact exactly when no remainder is lost. */
  lemma {:induction false} LoweredExact(s: seq<byte>, d: nat)
    ensures Value(Lowered(s, d)) == Value(s) - d <==> NoBorrow(s, d)
  {
    if s != [] && d != 0 {
      var init, last := s[..|s| - 1], s[|s| - 1];
      var r := Lowered(s, d);
      if last < d {
        var q := (d - last) / 256;
        LoweredExact(init, q);
        LoweredNeverBelow(init, q);
        assert r[..|r| - 1] == Lowered(init, q);
      } else {
        assert r[..|r| - 1] == init;
      }
    }
  }

  /** No remainder is lost exactly when the number's last octets cover those of d. */
  lemma {:induction false} NoBorrowCovers(s: seq<byte>, d: nat)
    ensures NoBorrow(s, d) <==> Covers(s, d)
    decreases d
  {
    if 0 < d < 256 {
      assert Octets(0) == [] && Octets(d) == [d];
    } else if d >= 256 && s != [] {
      var n := |s| - 1;
      NoBorrowCovers(s[..n], d / 256);
      CoversSnoc(s[..n], s[n], d);
      SameLastOctet(s[n], d);
      assert s == s[..n] + [s[n]];
    }
  }

  lemma SameLastOctet(last: byte, d: nat)
    requires d >= 256
    ensures last < d && ((d - last) % 256 == 0 <==> last == d % 256)
    ensures last == d % 256 ==> (d - last) / 256 == d / 256
  {
  }

  lemma CoversSnoc(init: seq<byte>, last: byte, d: nat)
    requires d >= 256
    ensures Covers(init + [last], d) <==> last == d % 256 && Covers(init, d / 256)
  {
    hide Octets;
    OctetsSnoc(d);
    var o, s := Octets(d / 256), init + [last];
    var n := |init| - |o|;
    if n >= 0 {
      assert s[n + 1..] == init[n + 1..] + [last];
      assert (o + [d % 256])[1..] == o[1..] + [d % 256];
      assert s[n + 1..][|o| - 1] == last && (o[1..] + [d % 256])[|o| - 1] == d % 256;
      assert s[n + 1..][..|o| - 1] == init[n + 1..];
      assert (o[1..] + [d % 256])[..|o| - 1] == o[1..];
    }
  }

  lemma OctetsSnoc(d: nat)
    requires d >= 256
    ensures Octets(d) == Octets(d / 256) + [d % 256] && Octets(d / 256) != []
  {
  }

  /** The octets of d are its number, so that Covers speaks about d. */
  lemma {:induction false} ValueOfOctets(d: nat)
    ensures Value(Octets(d)) == d && NoLeadingZero(Octets(d))
  {
    if d > 0 {
      ValueOfOctets(d / 256);
      ValueSnoc(Octets(d / 256), d % 256);
    }
  }

  /** Subtraction is exact exactly when the number's last octets cover those of d; for a d of one
      octet that is a last octet no smaller than d. */
  lemma SubtractionExact(s: seq<byte>, d: nat)
    ensures Value(Lowered(s, d)) == Value(s) - d <==> Covers(s, d)
    ensures 0 < d < 256 ==> (Covers(s, d) <==> s != [] && s[|s| - 1] >= d)
  {
    LoweredExact(s, d);
    NoBorrowCovers(s, d);
  }

  /** Subtracting at most 255 changes the last octet alone, which does not go below zero. */
  lemma LoweredByOneOctet(s: seq<byte>, d: nat)
    requires s != [] && 0 < d < 256
    ensures var n := |s| - 1;
            Lowered(s, d) == s[..n] + [if s[n] < d then 0 else s[n] - d]
  {
    var n := |s| - 1;
    if s[n] < d {
      SmallDiv(d - s[n], 256);
      assert Lowered(s[..n], 0) == s[..n];
    }
  }

  /** 256 - 1 asks for a borrow and stays 256. */
  lemma LostBorrow()
    ensures Lowered([1, 0], 1) == [1, 0] && !NoBorrow([1, 0], 1) && Value([1, 0]) == 256
  {
    assert [1, 0][..1] == [1] && [1][..0] == [];
    assert Lowered([1], 0) == [1];
  }

  //////////////////////////// two's complement ////////////////////////////

  /** Complementing and adding one negates a positive number whose sign bit is clear. */
  lemma NegatedSigned(s: seq<byte>, r: seq<byte>)
    requires s != [] && s[0] <= 127 && Value(s) > 0
    requires |r| == |s| && Value(r) == P(|s|) - Value(s)
    ensures r[0] > 127 && Signed(r) == -Signed(s)
  {
    TopOctet(s, 128);
    TopOctet(r, 128);
  }

  /** A minimal number is the shortest of all that read as the same non-negative number. */
  lemma MinimalIsShortest(s: seq<byte>, t: seq<byte>)
    requires Minimal(s) && t != [] && Signed(t) == Signed(s)
    ensures |s| <= |t|
  {
    ValueBound(t);
    if |t| < |s| {
      PowersGrow(|t|, |s| - 1);
      LeadingOctet(s);
      TopOctet(t, 128);
      if s[0] == 0 {
        assert s == [s[0]] + s[1..];
        ValueCons(s[0], s[1..]);
        TopOctet(s[1..], 128);
        PowersGrow(|t| - 1, |s| - 2);
      }
    }
  }

  //////////////////////////// steps of the arithmetic loops ////////////////////////////

  lemma MulRing(m: int, over: int, b: int, p: int, v: int, x: int, done: int, w: int)
    requires x == over + m * b && done + over * p == m * v && w == b * p + v
    ensures x * p + done == m * w
  {
    Distribute(over, m * b, p);
    Regroup3(m, b, p);
    DistributeLeft(m, b * p, v);
  }

  /** One step of multiplication: the carry leaves the position it was computed in. */
  lemma MulStep(m: nat, over: nat, b: byte, x: nat, done: seq<byte>, was: seq<byte>)
    requires |done| == |was| && x == over + m * b
    requires Value(done) + over * P(|was|) == m * Value(was)
    ensures Value([x % 256] + done) + x / 256 * P(|was| + 1) == m * Value([b] + was)
  {
    hide Value, P;
    ValueCons(b, was);
    MulRing(m, over, b, P(|was|), Value(was), x, Value(done), Value([b] + was));
    Deposit(x, done);
  }

  /** Writing the low half of x in front and carrying the high half keeps x's weight. */
  lemma Deposit(x: nat, done: seq<byte>)
    ensures Value([x % 256] + done) + x / 256 * P(|done| + 1) == x * P(|done|) + Value(done)
  {
    ValueCons(x % 256, done);
    hide Value, P;
    NextPower(|done|);
    Halves(x, P(|done|));
  }

  /** One step of addition. */
  lemma AddStep(delta: nat, over: nat, b: byte, done: seq<byte>, was: seq<byte>)
    requires |done| == |was|
    requires Value(done) + over * P(|was|) == Value(was) + delta
    ensures var x: nat := over + b;
            Value([x % 256] + done) + x / 256 * P(|was| + 1) == Value([b] + was) + delta
  {
    hide Value, P;
    ValueCons(b, was);
    Deposit(over + b, done);
    Distribute(over, b, P(|was|));
  }

  lemma ValueSnoc(s: seq<byte>, b: byte)
    ensures Value(s + [b]) == Value(s) * 256 + b
  {
    assert (s + [b])[..|s|] == s;
  }

  /** One step of division: the remainder joins the next octet. */
  lemma DivStep(d: nat, over: nat, b: byte, e: byte, r: nat, q: seq<byte>, was: seq<byte>)
    requires Value(q) * d + over == Value(was) && e * d + r == over * 256 + b
    ensures Value(q + [e]) * d + r == Value(was + [b])
  {
    ValueSnoc(q, e);
    ValueSnoc(was, b);
    hide Value, P;
    DivRing(d, over, b, Value(q), e, r, Value(q + [e]));
  }

  lemma DivRing(d: int, over: int, b: int, v: int, e: int, r: int, w: int)
    requires e * d + r == over * 256 + b && w == v * 256 + e
    ensures w * d + r == (v * d + over) * 256 + b
  {
    Distribute(v * 256, e, d);
    Regroup3(256, v, d);
  }

  lemma QuotientFits(x: nat, d: nat)
    requires d > 1 && x < 256 * d
    ensures 0 <= x / d < 256 && x % d < d && (x / d) * d + x % d == x
  {
    var q := x / d;
    if q >= 256 {
      MulMonotone(256, q, d);
    }
  }

  /** Leading zeros of a carry or of a product show in its value. */
  lemma StillNoLeadingZero(s: seq<byte>, r: seq<byte>)
    requires NoLeadingZero(s) && |r| == |s| && Value(r) >= Value(s)
    ensures NoLeadingZero(r)
  {
    if s != [] {
      LeadingOctet(s);
      LeadingOctet(r);
    }
  }
}
