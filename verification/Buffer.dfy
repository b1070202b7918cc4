/**
The growable octet buffer of src/buffer.c. A buffer owns an array of maxSize octets of which the
first `size` are its contents; the rest is slack. An array of length 0 stands for the NULL pointer
the C structure starts with: every allocation there asks for at least 8 octets.
*/
module Buffers {
  import opened Bytes

  datatype AllocMode = Exact | Double

  /** The operations of one buffer, as data, so that whole runs can be spoken about. */
  datatype Op =
    | SetDataOp(bytes: seq<byte>)
    | AppendOp(bytes: seq<byte>)
    | PrependOp(bytes: seq<byte>)
    | RemoveHeadOp(n: nat)
    | RemoveTailOp(n: nat)
    | ReverseOp
    | EmptyOp
    | SetMaxSizeOp(n: nat)
    | SetSizeOp(n: nat)

  /** What an operation means for the sequence of octets a client sees. */
  function Apply(op: Op, s: seq<byte>): seq<byte> {
    match op
    case SetDataOp(bytes) => bytes
    case AppendOp(bytes) => s + bytes
    case PrependOp(bytes) => bytes + s
    case RemoveHeadOp(n) => if n < |s| then s[n..] else []
    case RemoveTailOp(n) => if n < |s| then s[..|s| - n] else []
    case ReverseOp => Reversed(s)
    case EmptyOp => []
    case SetMaxSizeOp(_) => s
    case SetSizeOp(n) => if n <= |s| then s[..n] else s + Zeros(n - |s|)
  }

  function ApplyAll(ops: seq<Op>, s: seq<byte>): seq<byte> {
    if ops == [] then s else Apply(ops[|ops| - 1], ApplyAll(ops[..|ops| - 1], s))
  }

  /** The operations on two buffers, which may also change places. */
  datatype PairOp = First(op: Op) | Second(op: Op) | SwapOp

  function ApplyPair(op: PairOp, s: (seq<byte>, seq<byte>)): (seq<byte>, seq<byte>) {
    match op
    case First(op) => (Apply(op, s.0), s.1)
    case Second(op) => (s.0, Apply(op, s.1))
    case SwapOp => (s.1, s.0)
  }

  function ApplyPairs(ops: seq<PairOp>, s: (seq<byte>, seq<byte>)): (seq<byte>, seq<byte>) {
    if ops == [] then s else ApplyPair(ops[|ops| - 1], ApplyPairs(ops[..|ops| - 1], s))
  }

  /** An operation is no SetSize that cuts the contents it meets. */
  predicate Keeps(op: PairOp, s: (seq<byte>, seq<byte>)) {
    match op
    case First(op) => op.SetSizeOp? ==> |s.0| <= op.n
    case Second(op) => op.SetSizeOp? ==> |s.1| <= op.n
    case SwapOp => true
  }

  predicate AllKeep(ops: seq<PairOp>, s: (seq<byte>, seq<byte>)) {
    forall i | 0 <= i < |ops| :: Keeps(ops[i], ApplyPairs(ops[..i], s))
  }

  /** A run is excluded by nothing but a SetSize below the size it meets. */
  lemma OnlyCutsAreExcluded(ops: seq<PairOp>, s: (seq<byte>, seq<byte>))
    ensures !AllKeep(ops, s) <==>
            exists i | 0 <= i < |ops| ::
              || (ops[i].First? && ops[i].op.SetSizeOp? && ops[i].op.n < |ApplyPairs(ops[..i], s).0|)
              || (ops[i].Second? && ops[i].op.SetSizeOp? && ops[i].op.n < |ApplyPairs(ops[..i], s).1|)
  {
    hide ApplyPairs;
  }

  /** The room asked for when n octets do not fit. */
  function Allocation(mode: AllocMode, n: nat): nat {
    match mode
    case Exact => n + 8
    case Double => 2 * n + 32
  }

  /** The largest request whose allocation, with every step of computing it, stays within a limit. */
  lemma AllocationFits(mode: AllocMode, n: nat, limit: nat)
    requires limit >= 32
    ensures Allocation(mode, n) <= limit <==>
            match mode
            case Exact => n <= limit - 8
            case Double => n <= (limit - 32) / 2
  {
  }

  /** Moves the first n octets up and copies others in front of them. */
  method PutInFront(a: array<byte>, n: nat, bytes: seq<byte>)
    requires n + |bytes| <= a.Length
    modifies a
    ensures a[..n + |bytes|] == bytes + old(a[..n])
    ensures forall i | n + |bytes| <= i < a.Length :: a[i] == old(a[i])
  {
    forall i | 0 <= i < n {
      a[|bytes| + i] := a[i];
    }
    forall i | 0 <= i < |bytes| {
      a[i] := bytes[i];
    }
  }

  /** Exchanges the first n octets end for end. */
  method SwapEnds(a: array<byte>, n: nat)
    requires 1 < n <= a.Length
    modifies a
    ensures a[..n] == Reversed(old(a[..n]))
    ensures forall i | n <= i < a.Length :: a[i] == old(a[i])
  {
    var p, q := 0, n - 1;
    while p < q
      invariant 0 <= p <= n && q == n - 1 - p
      invariant forall i | 0 <= i < p || q < i < n :: a[i] == old(a[n - 1 - i])
      invariant forall i | p <= i <= q || n <= i < a.Length :: a[i] == old(a[i])
    {
      a[p], a[q] := a[q], a[p];
      p, q := p + 1, q - 1;
    }
  }

  class Buffer {
    var data: array<byte>
    var size: nat
    var maxSize: nat
    var allocMode: AllocMode
    const initialSize: nat

    ghost predicate Valid()
      reads this
    {
      size <= maxSize == data.Length
    }

    /** The octets a client sees. */
    ghost function Contents(): seq<byte>
      requires Valid()
      reads this, data
    {
      data[..size]
    }

    /** Every slack octet is zero. */
    ghost predicate Clean()
      requires Valid()
      reads this, data
    {
      forall i | size <= i < maxSize :: data[i] == 0
    }

    constructor Initialize(n: nat, mode: AllocMode, initialSize: nat)
      ensures Valid() && Clean() && fresh(data)
      ensures Contents() == [] && n <= maxSize && allocMode == mode && this.initialSize == initialSize
    {
      data, size, maxSize := new byte[0], 0, 0;
      allocMode := mode;
      this.initialSize := initialSize;
      new;
      SetMaxSize(n);
    }

    /** Zero-fill the octets from index `from` on. */
    method Wipe(from: nat)
      requires Valid() && from <= maxSize
      modifies data
      ensures data[..from] == old(data[..from])
      ensures forall i | from <= i < maxSize :: data[i] == 0
    {
      forall i | from <= i < maxSize {
        data[i] := 0;
      }
    }

    method SetMaxSize(n: nat)
      requires Valid()
      modifies this`data, this`maxSize
      ensures Valid() && Contents() == old(Contents())
      ensures n <= maxSize && old(maxSize) <= maxSize
      ensures n <= old(maxSize) ==> data == old(data)
      ensures n > old(maxSize) ==> fresh(data) && Clean()
      ensures n <= old(maxSize) ==> maxSize == old(maxSize)
      ensures n > old(maxSize) ==>
        var room := if allocMode == Double then 2 * n + 32 else n + 8;
        maxSize == if room < initialSize then initialSize else room
    {
      if n <= maxSize {
        return;
      }
      var newSize := Allocation(allocMode, n);
      if newSize < initialSize {
        newSize := initialSize;
      }
      var newData := new byte[newSize];
      forall i | 0 <= i < maxSize {
        newData[i] := data[i];
      }
      data := newData;
      maxSize := newSize;
      Wipe(size);
    }

    /**
    Gives the buffer a new size. Inside the allocation nothing is written, so growing exposes
    whatever the slack holds; past the allocation the new octets are zero.
    */
    method SetSize(n: nat)
      requires Valid()
      modifies this`data, this`maxSize, this`size
      ensures Valid() && size == n && old(maxSize) <= maxSize
      ensures n <= old(maxSize) ==> data == old(data) && Contents() == old(data[..])[..n]
      ensures n > old(maxSize) ==>
        fresh(data) && Clean() && Contents() == old(Contents()) + Zeros(n - old(size))
      ensures n >= old(size) ==>
        (Contents() == old(Contents()) + Zeros(n - old(size)) <==>
         n > old(maxSize) || forall i | old(size) <= i < n :: old(data[i]) == 0)
      ensures n >= old(size) && old(Clean()) ==> Clean()
    {
      SetMaxSize(n);
      ghost var shown := data[..];
      size := n;
      if old(size) <= n {
        assert Contents() == old(Contents()) + shown[old(size)..n];
        if Contents() == old(Contents()) + Zeros(n - old(size)) {
          forall i | old(size) <= i < n
            ensures data[i] == 0
          {
            assert data[i] == Contents()[i] == Zeros(n - old(size))[i - old(size)];
          }
        }
      }
    }

    method Empty()
      requires Valid()
      modifies this`size, data
      ensures Valid() && Clean() && Contents() == []
    {
      Wipe(0);
      size := 0;
    }

    method SetData(bytes: seq<byte>)
      requires Valid()
      modifies this`data, this`maxSize, this`size, data
      ensures Valid() && Clean() && (data == old(data) || fresh(data))
      ensures Contents() == bytes
    {
      Empty();
      if |bytes| > 0 {
        SetMaxSize(|bytes|);
        forall i | 0 <= i < |bytes| {
          data[i] := bytes[i];
        }
      }
      size := |bytes|;
    }

    method Append(bytes: seq<byte>)
      requires Valid()
      modifies this`data, this`maxSize, this`size, data
      ensures Valid() && (data == old(data) || fresh(data))
      ensures Contents() == old(Contents()) + bytes
      ensures old(Clean()) ==> Clean()
    {
      if |bytes| > 0 {
        SetMaxSize(size + |bytes|);
        forall i | 0 <= i < |bytes| {
          data[size + i] := bytes[i];
        }
        size := size + |bytes|;
      }
    }

    method Prepend(bytes: seq<byte>)
      requires Valid()
      modifies this`data, this`maxSize, this`size, data
      ensures Valid() && (data == old(data) || fresh(data))
      ensures Contents() == bytes + old(Contents())
      ensures old(Clean()) ==> Clean()
    {
      if |bytes| > 0 {
        SetMaxSize(size + |bytes|);
        PutInFront(data, size, bytes);
        size := size + |bytes|;
      }
    }

    method RemoveHead(n: nat)
      requires Valid()
      modifies this`size, data
      ensures Valid() && Clean()
      ensures Contents() == if n < old(size) then old(Contents())[n..] else []
    {
      if n < size {
        size := size - n;
        forall i | 0 <= i < size {
          data[i] := data[n + i];
        }
      } else {
        size := 0;
      }
      Wipe(size);
    }

    method RemoveTail(n: nat)
      requires Valid()
      modifies this`size, data
      ensures Valid() && Clean()
      ensures Contents() == if n < old(size) then old(Contents())[..old(size) - n] else []
    {
      size := if n < size then size - n else 0;
      Wipe(size);
    }

    method Reverse()
      requires Valid()
      modifies data
      ensures Contents() == Reversed(old(Contents()))
      ensures old(Clean()) ==> Clean()
    {
      if size <= 1 {
        return;
      }
      SwapEnds(data, size);
    }

    method Swap(other: Buffer)
      requires Valid() && other.Valid()
      modifies this, other
      ensures Valid() && other.Valid()
      ensures data == old(other.data) && other.data == old(data)
      ensures allocMode == old(other.allocMode) && other.allocMode == old(allocMode)
      ensures Contents() == old(other.Contents()) && other.Contents() == old(Contents())
      ensures old(other.Clean()) ==> Clean()
      ensures old(Clean()) ==> other.Clean()
    {
      data, other.data := other.data, data;
      size, other.size := other.size, size;
      maxSize, other.maxSize := other.maxSize, maxSize;
      allocMode, other.allocMode := other.allocMode, allocMode;
    }

    method Perform(op: Op)
      requires Valid()
      modifies this, data
      ensures Valid() && (data == old(data) || fresh(data))
      ensures old(Clean()) && (op.SetSizeOp? ==> old(size) <= op.n) ==>
        Clean() && Contents() == Apply(op, old(Contents()))
    {
      match op
      case SetDataOp(bytes) => SetData(bytes);
      case AppendOp(bytes) => Append(bytes);
      case PrependOp(bytes) => Prepend(bytes);
      case RemoveHeadOp(n) => RemoveHead(n);
      case RemoveTailOp(n) => RemoveTail(n);
      case ReverseOp => Reverse();
      case EmptyOp => Empty();
      case SetMaxSizeOp(n) => SetMaxSize(n);
      case SetSizeOp(n) => SetSize(n);
    }
  }

  method PerformPair(a: Buffer, b: Buffer, op: PairOp)
    requires a != b && a.data != b.data && a.Valid() && b.Valid() && a.Clean() && b.Clean()
    requires Keeps(op, (a.Contents(), b.Contents()))
    modifies a, b, a.data, b.data
    ensures a.data != b.data && a.Valid() && b.Valid() && a.Clean() && b.Clean()
    ensures a.data == old(a.data) || a.data == old(b.data) || fresh(a.data)
    ensures b.data == old(a.data) || b.data == old(b.data) || fresh(b.data)
    ensures (a.Contents(), b.Contents()) == ApplyPair(op, (old(a.Contents()), old(b.Contents())))
  {
    hide Apply;
    match op
    case First(op) => a.Perform(op);
    case Second(op) => b.Perform(op);
    case SwapOp => a.Swap(b);
  }

  /**
  Any run on two buffers, swaps among them, whose SetSize calls never cut is the same run on two
  plain sequences. It keeps the sizes within the allocations, all slack zero and the arrays apart.
  */
  method RunPair(a: Buffer, b: Buffer, ops: seq<PairOp>)
    requires a != b && a.data != b.data && a.Valid() && b.Valid() && a.Clean() && b.Clean()
    requires AllKeep(ops, (a.Contents(), b.Contents()))
    modifies a, b, a.data, b.data
    ensures a.data != b.data && a.Valid() && b.Valid() && a.Clean() && b.Clean()
    ensures a.data == old(a.data) || a.data == old(b.data) || fresh(a.data)
    ensures b.data == old(a.data) || b.data == old(b.data) || fresh(b.data)
    ensures (a.Contents(), b.Contents()) == ApplyPairs(ops, (old(a.Contents()), old(b.Contents())))
  {
    hide ApplyPair, Keeps;
    ghost var start := (a.Contents(), b.Contents());
    var i := 0;
    while i < |ops|
      invariant 0 <= i <= |ops| && a.data != b.data
      invariant a.Valid() && b.Valid() && a.Clean() && b.Clean()
      invariant (a.data == old(a.data) || a.data == old(b.data) || fresh(a.data))
             && (b.data == old(a.data) || b.data == old(b.data) || fresh(b.data))
      invariant (a.Contents(), b.Contents()) == ApplyPairs(ops[..i], start)
    {
      assert ops[..i + 1][..i] == ops[..i];
      assert Keeps(ops[i], ApplyPairs(ops[..i], start));
      PerformPair(a, b, ops[i]);
      i := i + 1;
    }
    assert ops[..i] == ops;
  }

  /** A run on one buffer, as a run on two. */
  function Firsts(ops: seq<Op>): (r: seq<PairOp>)
    ensures |r| == |ops| && forall i | 0 <= i < |ops| :: r[i] == First(ops[i])
  {
    seq(|ops|, i requires 0 <= i < |ops| => First(ops[i]))
  }

  lemma {:induction false} FirstsApply(ops: seq<Op>, s: seq<byte>, t: seq<byte>)
    ensures ApplyPairs(Firsts(ops), (s, t)) == (ApplyAll(ops, s), t)
  {
    hide Apply;
    if ops != [] {
      var before := ops[..|ops| - 1];
      FirstsApply(before, s, t);
      assert Firsts(ops)[..|ops| - 1] == Firsts(before);
    }
  }

  /** The same for a run on one buffer. */
  method RunOne(b: Buffer, ops: seq<Op>)
    requires b.Valid() && b.Clean() && AllKeep(Firsts(ops), (b.Contents(), []))
    modifies b, b.data
    ensures b.Valid() && b.Clean() && (b.data == old(b.data) || fresh(b.data))
    ensures b.Contents() == ApplyAll(ops, old(b.Contents()))
  {
    hide ApplyPairs, AllKeep, ApplyAll;
    var other := new Buffer.Initialize(0, b.allocMode, b.initialSize);
    FirstsApply(ops, b.Contents(), []);
    RunPair(b, other, Firsts(ops));
  }

  /** Cutting to n octets and growing to m is what it is on a plain sequence exactly when the growth
      reallocates or everything it exposes was zero. */
  method CutAndGrow(b: Buffer, n: nat, m: nat) returns (cut: seq<byte>)
    requires b.Valid() && n <= b.size && n <= m
    modifies b
    ensures b.Valid() && cut == old(b.Contents())[..n]
    ensures b.Contents() == ApplyAll([SetSizeOp(n), SetSizeOp(m)], old(b.Contents())) <==>
            m > old(b.maxSize) || forall i | n <= i < m :: old(b.data[i]) == 0
    ensures m <= old(b.maxSize) ==> b.Contents() == old(b.data[..m])
  {
    ghost var s := b.Contents();
    CutThenGrown(n, m, s);
    b.SetSize(n);
    cut := b.data[..b.size];
    b.SetSize(m);
  }

  lemma CutThenGrown(n: nat, m: nat, s: seq<byte>)
    requires n <= |s| && n <= m
    ensures ApplyAll([SetSizeOp(n), SetSizeOp(m)], s) == s[..n] + Zeros(m - n)
  {
    var ops := [SetSizeOp(n), SetSizeOp(m)];
    assert ops[..1] == [SetSizeOp(n)] && ops[..1][..0] == [];
    assert ApplyAll(ops[..1], s) == s[..n];
    assert m == n ==> s[..n][..n] == s[..n] + Zeros(0);
  }

  /** One octet, cut and grown again, is back, where a plain sequence has a zero. */
  method StaleOctet(b: Buffer, x: byte) returns (cut: seq<byte>)
    requires b.Valid() && b.Clean() && b.Contents() == [x] && x != 0
    modifies b
    ensures b.Valid() && cut == [] && b.Contents() == [x]
    ensures b.Contents() != ApplyAll([SetSizeOp(0), SetSizeOp(1)], [x])
  {
    assert b.data[0] == b.Contents()[0];
    cut := CutAndGrow(b, 0, 1);
  }
}
