/** Octets and the few sequence functions every other module uses. */
module Bytes {

  type byte = x: int | 0 <= x < 256

  /** A run of n zero octets, what memset leaves behind. */
  function Zeros(n: nat): (r: seq<byte>)
    ensures |r| == n
    ensures forall i | 0 <= i < n :: r[i] == 0
  {
    seq(n, _ => 0)
  }

  function Reversed(s: seq<byte>): (r: seq<byte>)
    ensures |r| == |s|
    ensures forall i | 0 <= i < |s| :: r[i] == s[|s| - 1 - i]
  {
    seq(|s|, i requires 0 <= i < |s| => s[|s| - 1 - i])
  }

  lemma ReversedSnoc(s: seq<byte>, x: byte)
    ensures Reversed(s + [x]) == [x] + Reversed(s)
    ensures Reversed(s + []) == [] + Reversed(s)
  {
  }

  /** The concatenation of a sequence of chunks, in order. */
  function Flatten(chunks: seq<seq<byte>>): (r: seq<byte>) {
    if chunks == [] then [] else chunks[0] + Flatten(chunks[1..])
  }

  lemma {:induction false} FlattenSnoc(chunks: seq<seq<byte>>, c: seq<byte>)
    ensures Flatten(chunks + [c]) == Flatten(chunks) + c
  {
    if chunks == [] {
      assert [c][1..] == [];
    } else {
      assert (chunks + [c])[1..] == chunks[1..] + [c];
      FlattenSnoc(chunks[1..], c);
    }
  }

  lemma FlattenNothing(chunks: seq<seq<byte>>)
    ensures Flatten(chunks[..0]) == []
  {
  }

  lemma {:induction false} FlattenSplit(chunks: seq<seq<byte>>, k: nat)
    requires k <= |chunks|
    ensures Flatten(chunks) == Flatten(chunks[..k]) + Flatten(chunks[k..])
    decreases k
  {
    if k == 0 {
      assert chunks[0..] == chunks;
    } else {
      FlattenSplit(chunks[1..], k - 1);
      assert chunks[..k][1..] == chunks[1..][..k - 1];
      assert chunks[1..][k - 1..] == chunks[k..];
    }
  }

  lemma SplitFirst(s: seq<byte>, i: nat)
    requires i < |s|
    ensures s[i..] == [s[i]] + s[i + 1..]
  {
  }

  /** The string an array of octets holds when it is read up to its first NUL. */
  function CString(s: seq<byte>): (r: seq<byte>)
    ensures |r| <= |s| && r == s[..|r|]
    ensures 0 !in r
    ensures |r| < |s| ==> s[|r|] == 0
  {
    if s == [] || s[0] == 0 then [] else [s[0]] + CString(s[1..])
  }

  lemma CStringUnique(s: seq<byte>, n: nat)
    requires n < |s| && s[n] == 0 && 0 !in s[..n]
    ensures CString(s) == s[..n]
  {
  }

  method Strlen(str: array<byte>) returns (n: nat)
    requires 0 in str[..]
    ensures n < str.Length && CString(str[..]) == str[..n]
  {
    ghost var nul :| 0 <= nul < str.Length && str[nul] == 0;
    n := 0;
    while str[n] != 0
      invariant n <= nul && 0 !in str[..n]
      decreases nul - n
    {
      assert str[..n + 1] == str[..n] + [str[n]];
      n := n + 1;
    }
    assert str[..][..n] == str[..n];
    CStringUnique(str[..], n);
  }
}
