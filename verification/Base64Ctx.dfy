/**
The base64 context of src/base64.c and its entry points, working in place on arrays. `off` and
`outSize` describe the window of the output array a C caller passes as a pointer and a length.
*/
module Base64Context {
  import opened Arithmetic
  import opened Bytes
  import opened Base64Spec
  import opened Base64Laws
  import opened Base64Stream
  import opened Base64StreamLaws

  class Ctx {
    var encode: bool
    var columns: nat
    var inByte: byte
    var inPos: nat
    var linePos: nat
    var finished: bool

    ghost function St(): State
      reads this
    {
      State(columns, inByte, inPos, linePos, finished)
    }

    ghost predicate Valid()
      reads this
    {
      inPos <= 3 && (!encode ==> inByte < 64)
    }

    /** Starts at the beginning of a group and of a line; a negative line length is refused. */
    method Initialize(encode: bool, columns: int) returns (ok: bool)
      modifies this
      ensures ok <==> columns >= 0
      ensures this.encode == encode && St() == Fresh(if ok then columns else 0) && Valid()
    {
      this.encode, this.columns := encode, 0;
      inByte, inPos, linePos, finished := 0, 0, 0, false;
      if columns < 0 {
        return false;
      }
      this.columns := columns;
      ok := true;
    }

    static method Create(encode: bool, columns: int) returns (ctx: Ctx?)
      ensures ctx == null <==> columns < 0
      ensures ctx != null ==> fresh(ctx) && ctx.encode == encode && ctx.St() == Fresh(columns) && ctx.Valid()
    {
      ctx := new Ctx;
      var ok := ctx.Initialize(encode, columns);
      if !ok {
        ctx := null;
      }
    }

    //////////////////////////// one character ////////////////////////////

    method EncodeByte(b: byte) returns (status: Status, outByte: byte)
      requires inPos <= 3
      modifies this`inByte, this`inPos, this`linePos
      ensures Step(St(), status, outByte) == EncodeStep(old(St()), b)
      ensures inPos <= 3
    {
      if columns > 0 && linePos >= columns {
        linePos := 0;
        return ConsumeAndRepeat, NL;
      } else if inPos == 0 {
        outByte := Symbol(Encode1(b));
        inByte, linePos, inPos := b, linePos + 1, inPos + 1;
        status := ConsumeAndNext;
      } else if inPos == 1 {
        outByte := Symbol(Encode2(inByte, b));
        inByte, linePos, inPos := b, linePos + 1, inPos + 1;
        status := ConsumeAndNext;
      } else if inPos == 2 {
        outByte := Symbol(Encode3(inByte, b));
        inByte, linePos, inPos := b, linePos + 1, inPos + 1;
        status := ConsumeAndRepeat;
      } else {
        outByte := Symbol(Encode4(inByte));
        linePos, inByte, inPos := linePos + 1, 0, 0;
        status := ConsumeAndNext;
      }
    }

    method EncodeByteFinal() returns (status: Status, outByte: byte)
      requires inPos <= 3
      modifies this`inByte, this`inPos, this`linePos, this`finished
      ensures Step(St(), status, outByte) == EncodeFinalStep(old(St()))
      ensures inPos <= 3
    {
      if inPos == 0 {
        return Done, 0;
      } else if columns > 0 && linePos >= columns {
        linePos := 0;
        return ConsumeAndRepeat, NL;
      } else if !finished {
        finished := true;
        status, outByte := EncodeByte(0);
      } else if inPos < 3 {
        inPos, linePos := inPos + 1, linePos + 1;
        return ConsumeAndRepeat, Symbol(PAD);
      } else {
        linePos, inPos := linePos + 1, 0;
        return ConsumeAndRepeat, Symbol(PAD);
      }
    }

    method DecodeByte(ch: byte) returns (status: Status, outByte: byte)
      requires Decoding(St())
      modifies this`inByte, this`inPos, this`finished
      ensures Step(St(), status, outByte) == DecodeStep(old(St()), Code(ch))
      ensures Decoding(St())
    {
      hide Code, Decode1, Decode2, Decode3;
      outByte := 0;
      if finished && inPos == 0 {
        return Done, 0;
      }
      var k := Code(ch);
      if k == PAD {
        finished := true;
        if inPos == 2 {
          inPos := inPos + 1;
          status := Next;
        } else if inPos == 3 {
          inPos := 0;
          status := Next;
        } else {
          status := Failed;
        }
      } else if k == SPACE {
        status := Next;
      } else if k == OTHER || finished {
        status := Failed;
      } else if inPos == 0 {
        inByte, inPos := k, inPos + 1;
        status := Next;
      } else if inPos == 1 {
        outByte := Decode1(inByte, k);
        inByte, inPos := k, inPos + 1;
        status := ConsumeAndNext;
      } else if inPos == 2 {
        outByte := Decode2(inByte, k);
        inByte, inPos := k, inPos + 1;
        status := ConsumeAndNext;
      } else {
        outByte := Decode3(inByte, k);
        inByte, inPos := 0, 0;
        status := ConsumeAndNext;
      }
    }

    //////////////////////////// chunks ////////////////////////////

    /** Writes as much as fits of what the context owes for the input; all of it is consumed
        exactly when the output fits, and what is still owed is owed for the input not consumed. */
    method Encode(input: array<byte>, inSize: nat, out: array<byte>, off: nat, outSize: nat)
      returns (inRead: nat, outWritten: nat)
      requires inPos <= 3 && inSize <= input.Length && off + outSize <= out.Length && input != out
      modifies this`inByte, this`inPos, this`linePos, out
      ensures inPos <= 3 && outWritten <= outSize && inRead <= inSize
      ensures var whole := Output(old(St()), input[..inSize]);
              && outWritten <= |whole|
              && out[off..off + outWritten] == whole[..outWritten]
              && (inRead == inSize <==> |whole| <= outSize)
              && (inRead == inSize ==> outWritten == |whole| && St() == After(old(St()), input[..inSize]))
              && whole[outWritten..] == Output(St(), input[inRead..inSize])
              && After(old(St()), input[..inSize]) == After(St(), input[inRead..inSize])
      ensures forall i | 0 <= i < out.Length && !(off <= i < off + outWritten) :: out[i] == old(out[i])
    {
      hide Output, After, EncodeStep;
      ghost var whole := Output(St(), input[..inSize]);
      ghost var end := After(St(), input[..inSize]);
      ghost var done: seq<byte> := [];
      var i, o := 0, 0;
      while i < inSize && o < outSize
        invariant i <= inSize && o <= outSize && inPos <= 3
        invariant |done| == o && forall j | 0 <= j < o :: out[off + j] == done[j]
        invariant whole == done + Output(St(), input[i..inSize])
        invariant end == After(St(), input[i..inSize])
        invariant forall j | 0 <= j < out.Length && !(off <= j < off + o) :: out[j] == old(out[j])
        decreases outSize - o
      {
        ghost var rest := input[i + 1..inSize];
        EncodeStepMeaning(St(), input[i], rest);
        assert input[i..inSize] == [input[i]] + rest;
        var status, ch := EncodeByte(input[i]);
        out[off + o] := ch;
        o := o + 1;
        if status == ConsumeAndNext {
          i := i + 1;
        }
        MoveOne(done, ch, Output(St(), input[i..inSize]));
        done := done + [ch];
      }
      if i < inSize {
        EncodeStepMeaning(St(), input[i], input[i + 1..inSize]);
        assert input[i..inSize] == [input[i]] + input[i + 1..inSize];
      } else {
        assert input[i..inSize] == [];
        OutputNothing(St());
      }
      SliceIs(out, off, done);
      inRead, outWritten := i, o;
    }

    /** Completes the last group; it needs one position more than it writes. */
    method EncodeFinal(out: array<byte>, off: nat, outSize: nat) returns (ok: bool, outWritten: nat)
      requires inPos <= 3 && off + outSize <= out.Length
      modifies this`inByte, this`inPos, this`linePos, this`finished, out
      ensures inPos <= 3
      ensures ok <==> |FinalOutput(old(St()))| < outSize
      ensures ok ==> && outWritten == |FinalOutput(old(St()))|
                     && out[off..off + outWritten] == FinalOutput(old(St()))
                     && out[off + outWritten] == 0 && inPos == 0
      ensures forall i | 0 <= i < out.Length && !(off <= i < off + outSize) :: out[i] == old(out[i])
    {
      hide FinalOutput, EncodeFinalStep;
      ghost var whole := FinalOutput(St());
      var status, o := Next, 0;
      while o < outSize && status != Done
        invariant o <= outSize && inPos <= 3
        invariant whole == out[off..off + o] + FinalOutput(St())
        invariant status == Done ==> inPos == 0 && o < outSize
        invariant forall j | 0 <= j < out.Length && !(off <= j < off + outSize) :: out[j] == old(out[j])
        decreases outSize - o, status != Done
      {
        EncodeFinalStepMeaning(St());
        ghost var done := out[off..off + o];
        var ch;
        status, ch := EncodeByteFinal();
        if status != Done {
          out[off + o] := ch;
          assert out[off..off + o + 1] == done + [ch];
          o := o + 1;
        }
      }
      EncodeFinalStepMeaning(St());
      ok, outWritten := status == Done, o;
      if ok {
        ghost var done := out[off..off + o];
        out[off + o] := 0;
        assert out[off..off + o] == done;
      }
    }

    /** DecodeByte on the first character of the text [ch] + rest. */
    method DecodeNext(ch: byte, ghost rest: seq<byte>, ghost room: nat) returns (status: Status, outByte: byte)
      requires Decoding(St()) && room > 0
      modifies this`inByte, this`inPos, this`finished
      ensures Decoding(St()) && status != ConsumeAndRepeat
      ensures RunWithin(old(St()), Codes([ch] + rest), room) ==
                if status == Done || status == Failed then Halt(St(), status, [], Codes([ch] + rest))
                else if status == Next then RunWithin(St(), Codes(rest), room)
                else var h := RunWithin(St(), Codes(rest), room - 1); h.(out := [outByte] + h.out)
    {
      hide RunWithin, DecodeStep, Code, Codes;
      RunWithinHead(St(), [ch] + rest, room);
      assert ([ch] + rest)[1..] == rest;
      status, outByte := DecodeByte(ch);
    }

    /** One iteration of the loop of Decode, on the character at position i of the text. */
    method DecodeOne(ch: byte, i: nat, out: array<byte>, off: nat, o: nat, outSize: nat, ghost text: seq<byte>,
                     ghost before: seq<byte>, ghost done: seq<byte>, ghost h: Halt)
      returns (status: Status, ghost wrote: seq<byte>)
      requires Decoding(St()) && i < |text| && ch == text[i] && o == |done| < outSize && off + outSize <= out.Length
      requires |before| == out.Length && out[..] == Filled(before, off, done)
      requires Continues(h, done, RunWithin(St(), Codes(text[i..]), outSize - o))
      modifies this`inByte, this`inPos, this`finished, out
      ensures Decoding(St()) && |wrote| == (if status == ConsumeAndNext then 1 else 0)
      ensures out[..] == Filled(before, off, done + wrote)
      ensures if status == Done || status == Failed then Continues(h, done, Halt(St(), status, [], Codes(text[i..])))
              else Continues(h, done + wrote, RunWithin(St(), Codes(text[i + 1..]), outSize - o - |wrote|))
    {
      hide RunWithin, Codes, Decoding, Continues, Filled;
      SplitFirst(text, i);
      var b;
      status, b := DecodeNext(ch, text[i + 1..], outSize - o);
      wrote := [];
      assert done + wrote == done;
      if status == ConsumeAndNext {
        ContinuesWith(h, done, b, RunWithin(St(), Codes(text[i + 1..]), outSize - o - 1));
        WriteNext(out, off, before, done, off + o, b);
        wrote := [b];
      }
    }

    /** The loop of Decode: every iteration keeps the run over the unread text, which it never
        overwrites because the write index never passes the read index. */
    method DecodeLoop(input: array<byte>, inSize: nat, out: array<byte>, off: nat, outSize: nat, ghost text: seq<byte>)
      returns (status: Status, i: nat, o: nat, ghost done: seq<byte>)
      requires Decoding(St()) && inSize <= input.Length && off + outSize <= out.Length && text == input[..inSize]
      requires input != out || off == 0
      modifies this`inByte, this`inPos, this`finished, out
      ensures Decoding(St()) && |done| == o <= i <= inSize && o <= outSize
      ensures forall j | i <= j < inSize :: input[j] == text[j]
      ensures Halt(St(), if status == Done || status == Failed then status else Next, done, Codes(text[i..]))
              == RunWithin(old(St()), Codes(text), outSize)
      ensures out[..] == Filled(old(out[..]), off, done)
    {
      hide RunWithin, Codes, Decoding;
      ghost var before, h := out[..], RunWithin(St(), Codes(text), outSize);
      ContinuesFromStart(h);
      FilledNothing(before, off);
      hide Continues, Filled;
      status, i, o, done := Next, 0, 0, [];
      assert text[i..] == text;
      while i < inSize && o < outSize
        invariant |done| == o <= i <= inSize && o <= outSize && Decoding(St())
        invariant status != Done && status != Failed
        invariant out[..] == Filled(before, off, done)
        invariant Continues(h, done, RunWithin(St(), Codes(text[i..]), outSize - o))
      {
        assert input[i] == text[i] by {
          Unread(input, inSize, out, off, text, before, done, i);
        }
        ghost var wrote;
        status, wrote := DecodeOne(input[i], i, out, off, o, outSize, text, before, done, h);
        if status == Done || status == Failed {
          assert done + wrote == done;
          break;
        }
        if status == ConsumeAndNext {
          o := o + 1;
        }
        i, done := i + 1, done + wrote;
      }
      if status != Done && status != Failed {
        LoopOver(St(), text[i..], outSize - o);
      }
      ContinuesToEnd(h, done, St(), if status == Done || status == Failed then status else Next, Codes(text[i..]));
      Unread(input, inSize, out, off, text, before, done, i);
    }

    /**
    Decodes the input, which may share the array it writes to when both start at its beginning. A
    run that fits with a position to spare behaves as if the room were unlimited; one that does not
    stops when the room is used up.
    */
    method Decode(input: array<byte>, inSize: nat, out: array<byte>, off: nat, outSize: nat)
      returns (ok: bool, inRead: nat, outWritten: nat)
      requires Decoding(St()) && inSize <= input.Length && off + outSize <= out.Length
      requires input != out || off == 0
      modifies this`inByte, this`inPos, this`finished, out
      ensures Decoding(St()) && outWritten <= outSize && outWritten <= inRead <= inSize
      ensures var h := RunWithin(old(St()), Codes(old(input[..inSize])), outSize);
              && (ok <==> h.status != Failed) && St() == h.state
              && outWritten == |h.out| && out[off..off + outWritten] == h.out
              && (ok ==> (inRead == inSize <==> AllSpace(h.rest)))
      ensures forall i | 0 <= i < out.Length && !(off <= i < off + outWritten) :: out[i] == old(out[i])
    {
      hide RunWithin, DecodeStep, Code, Codes, AllSpace, Decoding;
      var status, i, o, done := DecodeLoop(input, inSize, out, off, outSize, input[..inSize]);
      WrittenPart(out, old(out[..]), off, done);
      hide Filled;
      assert input[i..inSize] == old(input[..inSize])[i..];
      if status == Failed {
        ok, inRead, outWritten := false, i, o;
      } else {
        var end := SkipSpaces(input, i, inSize);
        ok, inRead, outWritten := true, end, o;
      }
    }

    /** The first position from which a character that is not whitespace stands. */
    static method SkipSpaces(input: array<byte>, from: nat, inSize: nat) returns (i: nat)
      requires from <= inSize <= input.Length
      ensures from <= i <= inSize
      ensures i == inSize <==> AllSpace(Codes(input[from..inSize]))
    {
      hide Code;
      ghost var ks := Codes(input[from..inSize]);
      i := from;
      while i < inSize && Code(input[i]) == SPACE
        invariant from <= i <= inSize
        invariant forall j | from <= j < i :: Code(input[j]) == SPACE
      {
        i := i + 1;
      }
      if i < inSize {
        assert ks[i - from] == Code(input[i]);
      }
    }

    //////////////////////////// Update and Final ////////////////////////////

    /** Update on an encoding context: it succeeds exactly when the output fits. */
    method UpdateEncoding(input: array<byte>, inSize: nat, out: array<byte>, off: nat, outSize: nat)
      returns (ok: bool, outWritten: nat)
      requires Valid() && encode && inSize <= input.Length && off + outSize <= out.Length && input != out
      modifies this`inByte, this`inPos, this`linePos, out
      ensures Valid()
      ensures ok <==> |Output(old(St()), input[..inSize])| <= outSize
      ensures ok ==> && outWritten == |Output(old(St()), input[..inSize])|
                     && out[off..off + outWritten] == Output(old(St()), input[..inSize])
                     && St() == After(old(St()), input[..inSize])
      ensures forall i | 0 <= i < out.Length && !(off <= i < off + outSize) :: out[i] == old(out[i])
      ensures forall i | 0 <= i < off :: out[i] == old(out[i])
    {
      var inRead;
      inRead, outWritten := Encode(input, inSize, out, off, outSize);
      ok := inRead == inSize;
    }

    /** Update on a decoding context: with a position to spare it succeeds exactly when the text is
        accepted; without, it fills the room and succeeds exactly when only whitespace is left. */
    method UpdateDecoding(input: array<byte>, inSize: nat, out: array<byte>, off: nat, outSize: nat)
      returns (ok: bool, outWritten: nat)
      requires Valid() && !encode && inSize <= input.Length && off + outSize <= out.Length
      requires input != out || off == 0
      modifies this`inByte, this`inPos, this`finished, out
      ensures Valid() && outWritten <= outSize
      ensures var c, ks := old(St()), Codes(old(input[..inSize]));
              var r := Run(c, ks);
              if |r.out| < outSize then
                && (ok <==> r.ok) && St() == r.state
                && outWritten == |r.out| && out[off..off + outWritten] == r.out
              else
                && outWritten == outSize && out[off..off + outSize] == r.out[..outSize]
                && (ok <==> AllSpace(RunWithin(c, ks, outSize).rest)) && St() == RunWithin(c, ks, outSize).state
      ensures forall i | 0 <= i < out.Length && !(off <= i < off + outWritten) :: out[i] == old(out[i])
    {
      hide Run, RunWithin, Codes, AllSpace;
      RunThatFits(St(), Codes(input[..inSize]), outSize);
      var inRead;
      ok, inRead, outWritten := Decode(input, inSize, out, off, outSize);
      ok := ok && inRead == inSize;
    }

    method Final(out: array<byte>, off: nat, outSize: nat) returns (ok: bool, outWritten: nat)
      requires Valid() && off + outSize <= out.Length
      modifies this`inByte, this`inPos, this`linePos, this`finished, out
      ensures Valid()
      ensures encode ==> && (ok <==> |FinalOutput(old(St()))| < outSize)
                         && (ok ==> outWritten == |FinalOutput(old(St()))|
                                    && out[off..off + outWritten] == FinalOutput(old(St())))
      ensures !encode ==> && (ok <==> outSize > 0 && old(St()).inPos == 0)
                          && (ok ==> outWritten == 0)
      ensures ok && outWritten + 1 < outSize ==> out[off + outWritten] == 0
      ensures !encode ==> forall i | 0 <= i < out.Length && (i != off || outSize <= 1) :: out[i] == old(out[i])
      ensures forall i | 0 <= i < out.Length && !(off <= i < off + outSize) :: out[i] == old(out[i])
    {
      hide FinalOutput;
      outWritten := 0;
      if outSize == 0 {
        return false, 0;
      }
      if encode {
        ok, outWritten := EncodeFinal(out, off, outSize);
      } else {
        ok := inPos == 0;
      }
      if ok && outWritten + 1 < outSize {
        ghost var before := out[off..off + outWritten];
        out[off + outWritten] := 0;
        assert out[off..off + outWritten] == before;
      }
    }
  }

  lemma MoveOne(done: seq<byte>, ch: byte, rest: seq<byte>)
    ensures done + ([ch] + rest) == (done + [ch]) + rest
  {
  }

  /** The loop's outcome h is what it has done followed by the outcome `left` of the rest. */
  predicate Continues(h: Halt, done: seq<byte>, left: Halt) {
    h == left.(out := done + left.out)
  }

  lemma ContinuesFromStart(h: Halt)
    ensures Continues(h, [], h)
  {
    assert [] + h.out == h.out;
  }

  lemma ContinuesWith(h: Halt, done: seq<byte>, ch: byte, next: Halt)
    requires Continues(h, done, next.(out := [ch] + next.out))
    ensures Continues(h, done + [ch], next)
  {
    MoveOne(done, ch, next.out);
  }

  lemma ContinuesToEnd(h: Halt, done: seq<byte>, c: State, status: Status, rest: seq<code>)
    requires Continues(h, done, Halt(c, status, [], rest))
    ensures h == Halt(c, status, done, rest)
  {
    assert done + [] == done;
  }

  /** An array that was `before`, with `done` written from off on. */
  function Filled(before: seq<byte>, off: nat, done: seq<byte>): (r: seq<byte>)
    requires off + |done| <= |before|
    ensures |r| == |before|
  {
    before[..off] + done + before[off + |done|..]
  }

  lemma FilledNothing(before: seq<byte>, off: nat)
    requires off <= |before|
    ensures Filled(before, off, []) == before
  {
  }

  lemma FilledParts(before: seq<byte>, off: nat, done: seq<byte>)
    requires off + |done| <= |before|
    ensures Filled(before, off, done)[off..off + |done|] == done
    ensures forall j | 0 <= j < |before| && !(off <= j < off + |done|) :: Filled(before, off, done)[j] == before[j]
  {
  }

  /** What is written never reaches the text still to be read, even in a shared array. */
  lemma Unread(input: array<byte>, inSize: nat, out: array<byte>, off: nat, text: seq<byte>, before: seq<byte>,
               done: seq<byte>, i: nat)
    requires inSize <= input.Length && |text| == inSize && |done| <= i && off + |done| <= |before|
    requires out[..] == Filled(before, off, done)
    requires if input == out then off == 0 && text == before[..inSize] else text == input[..inSize]
    ensures forall j | i <= j < inSize :: input[j] == text[j]
  {
    FilledParts(before, off, done);
    if input == out {
      forall j | i <= j < inSize
        ensures input[j] == text[j]
      {
        assert input[j] == out[..][j] == before[j];
      }
    }
  }

  lemma WrittenPart(out: array<byte>, before: seq<byte>, off: nat, done: seq<byte>)
    requires off + |done| <= |before| && out[..] == Filled(before, off, done)
    ensures out[off..off + |done|] == done
    ensures forall j | 0 <= j < out.Length && !(off <= j < off + |done|) :: out[j] == before[j]
  {
    FilledParts(before, off, done);
    assert out[off..off + |done|] == out[..][off..off + |done|];
    assert forall j | 0 <= j < out.Length :: out[j] == out[..][j];
  }

  method WriteNext(out: array<byte>, off: nat, ghost before: seq<byte>, ghost done: seq<byte>, at: nat, ch: byte)
    requires off + |done| == at < out.Length == |before| && out[..] == Filled(before, off, done)
    modifies out
    ensures out[..] == Filled(before, off, done + [ch])
  {
    out[at] := ch;
    assert out[..] == Filled(before, off, done)[at := ch];
  }

  lemma SliceIs(a: array<byte>, off: nat, s: seq<byte>)
    requires off + |s| <= a.Length && forall j | 0 <= j < |s| :: a[off + j] == s[j]
    ensures a[off..off + |s|] == s
  {
  }

  lemma LoopOver(c: State, t: seq<byte>, room: nat)
    requires Decoding(c) && (t == [] || room == 0)
    ensures RunWithin(c, Codes(t), room) == Halt(c, Next, [], Codes(t))
  {
    assert t == [] ==> Codes(t) == [];
  }

  //////////////////////////// one-shot entry points ////////////////////////////

  function EncodeSize(columns: nat, inLen: nat): nat {
    var size := 4 * inLen / 3 + 4;
    (if columns > 0 then size + size / columns + 4 else size) + 1
  }

  /** The allocation is always larger than the text. */
  lemma EncodeSizeSuffices(columns: nat, s: seq<byte>)
    ensures |Wrap(columns, Base64(s))| < EncodeSize(columns, |s|)
  {
    hide Encoded, Symbols, Wrap;
    EncodedLength(s);
    var n, most := |Base64(s)|, 4 * |s| / 3 + 4;
    GroupsAtMost(|s|);
    if columns > 0 {
      WrapLength(columns, Base64(s));
      if n > 0 {
        DivMonotone(n - 1, most, columns);
      }
    } else {
      WrapNothing(Base64(s));
    }
  }

  lemma GroupsAtMost(n: nat)
    ensures (n + 2) / 3 * 4 <= 4 * n / 3 + 4
  {
  }

  lemma WrapNothing(t: seq<byte>)
    ensures Wrap(0, t) == t
  {
  }

  /** With sizes up to a limit, the allocation does not overflow if 4 * inLen, which its formula
      computes first, does not. */
  lemma EncodeSizeFits(columns: nat, inLen: nat, limit: nat)
    requires limit >= 64 && 4 * inLen <= limit
    ensures EncodeSize(columns, inLen) <= limit
  {
    var size := 4 * inLen / 3 + 4;
    if columns > 0 {
      DivAtMost(size, columns);
    }
  }

  /** Update and Final over the whole of an array: they succeed exactly when it is longer than the text. */
  method EncodeWhole(ctx: Ctx, input: array<byte>, inSize: nat, ptr: array<byte>) returns (ok: bool, n: nat)
    requires inSize <= input.Length && input != ptr && ctx.encode && ctx.St() == Fresh(ctx.columns)
    modifies ctx, ptr
    ensures ok <==> |Wrap(old(ctx.columns), Base64(input[..inSize]))| < ptr.Length
    ensures ok ==> n < ptr.Length && ptr[..n] == Wrap(old(ctx.columns), Base64(input[..inSize]))
  {
    hide Output, After, FinalOutput, Wrap, Base64;
    EncodedText(ctx.columns, input[..inSize]);
    var updated, final;
    ok, updated := ctx.UpdateEncoding(input, inSize, ptr, 0, ptr.Length);
    n := 0;
    if ok {
      ghost var first := ptr[0..updated];
      ok, final := ctx.Final(ptr, updated, ptr.Length - updated);
      assert ptr[0..updated] == first;
      n := updated + final;
      assert ok ==> ptr[..n] == first + ptr[updated..n];
    }
  }

  /** The character of a value of 6 bits. */
  predicate IsLetter(ch: byte, v: int) {
    || (0 <= v < 26 && ch == 'A' as int + v)
    || (26 <= v < 52 && ch == 'a' as int + (v - 26))
    || (52 <= v < 62 && ch == '0' as int + (v - 52))
    || (v == 62 && ch == '+' as int)
    || (v == 63 && ch == '/' as int)
  }

  /** Where character i of a text stands once the text is broken into lines. */
  function Place(columns: nat, i: nat): nat {
    if columns == 0 then i else i + i / columns
  }

  /** Four characters spell out three octets, of which `count` belong to the input. */
  predicate GroupSpelled(c0: byte, c1: byte, c2: byte, c3: byte, v: int, count: int) {
    && IsLetter(c0, v / 262144) && IsLetter(c1, v / 4096 % 64)
    && (if count > 1 then IsLetter(c2, v / 64 % 64) else c2 == '=' as int)
    && (if count > 2 then IsLetter(c3, v % 64) else c3 == '=' as int)
  }

  /** The 24-bit number of octets 3g to 3g + 2, zero past the end. */
  function GroupValue(s: seq<byte>, g: nat): int {
    65536 * (OctetAt(s, 3 * g) as int) + 256 * (OctetAt(s, 3 * g + 1) as int) + OctetAt(s, 3 * g + 2) as int
  }

  /** A text is the base64 of s in lines of `columns` characters, character by character: newlines at
      the ends of full lines only, and in the other places the characters of every group. */
  predicate Spelled(text: seq<byte>, s: seq<byte>, columns: nat) {
    && (forall i | 0 <= i < |text| :: text[i] == 10 <==> columns > 0 && i % (columns + 1) == columns)
    && (var n := (|s| + 2) / 3 * 4;
        |text| == n + if columns == 0 || n == 0 then 0 else (n - 1) / columns)
    && forall g | 0 <= g < (|s| + 2) / 3 :: GroupPlaced(text, s, columns, g)
  }

  predicate GroupPlaced(text: seq<byte>, s: seq<byte>, columns: nat, g: nat) {
    && Place(columns, 4 * g) < |text| && Place(columns, 4 * g + 1) < |text|
    && Place(columns, 4 * g + 2) < |text| && Place(columns, 4 * g + 3) < |text|
    && GroupSpelled(text[Place(columns, 4 * g)], text[Place(columns, 4 * g + 1)],
                    text[Place(columns, 4 * g + 2)], text[Place(columns, 4 * g + 3)],
                    GroupValue(s, g), |s| - 3 * g)
  }

  lemma EncodingSpelled(columns: nat, s: seq<byte>)
    ensures Spelled(Wrap(columns, Base64(s)), s, columns)
  {
    hide Encoded, Symbol, Wrap, GroupPlaced;
    var t := Base64(s);
    EncodedLength(s);
    forall i | 0 <= i < |t|
      ensures t[i] != 10
    {
      CodeSymbol(Encoded(s)[i]);
      Whitespace(t[i]);
    }
    Whitespace(10);
    if columns == 0 {
      WrapNothing(t);
    } else {
      WrapLayout(columns, t);
      WrapLength(columns, t);
    }
    forall g | 0 <= g < (|s| + 2) / 3
      ensures GroupPlaced(Wrap(columns, t), s, columns, g)
    {
      OneGroupPlaced(columns, s, g);
    }
  }

  lemma OneGroupPlaced(columns: nat, s: seq<byte>, g: nat)
    requires 3 * g < |s|
    ensures GroupPlaced(Wrap(columns, Base64(s)), s, columns, g)
  {
    hide Encoded, Symbol, Wrap, IsLetter, Place;
    EncodedAt(s, g);
    var t, v := Base64(s), GroupValue(s, g);
    CharacterPlaced(columns, t, 4 * g);
    CharacterPlaced(columns, t, 4 * g + 1);
    CharacterPlaced(columns, t, 4 * g + 2);
    CharacterPlaced(columns, t, 4 * g + 3);
    SixBitsSpelled(Encoded(s)[4 * g]);
    SixBitsSpelled(Encoded(s)[4 * g + 1]);
    SixBitsSpelled(Encoded(s)[4 * g + 2]);
    SixBitsSpelled(Encoded(s)[4 * g + 3]);
  }

  lemma SixBitsSpelled(k: code)
    ensures k < 64 ==> IsLetter(Symbol(k), k)
    ensures k == PAD ==> Symbol(k) == '=' as int
  {
  }

  lemma CharacterPlaced(columns: nat, t: seq<byte>, i: nat)
    requires i < |t|
    ensures Place(columns, i) < |Wrap(columns, t)| && Wrap(columns, t)[Place(columns, i)] == t[i]
  {
    if columns == 0 {
      WrapNothing(t);
    } else {
      WrapAt(columns, t, i);
    }
  }

  lemma EncodeSizeIs(columns: nat, inLen: nat)
    ensures var size := 4 * inLen / 3 + 4;
            EncodeSize(columns, inLen) == (if columns > 0 then size + size / columns + 5 else size + 1)
  {
  }

  /** The wrapped base64 of the input as a C string; the only refusal is a negative line length. */
  method Encode(input: array<byte>, inSize: nat, columns: int) returns (res: array?<byte>)
    requires inSize <= input.Length
    ensures res == null <==> columns < 0
    ensures res != null ==> && fresh(res)
                            && |CString(res[..])| < res.Length
                            && CString(res[..]) == Wrap(columns, Base64(input[..inSize]))
                            && Spelled(CString(res[..]), input[..inSize], columns)
    ensures res != null ==> var size := 4 * inSize / 3 + 4;
                            res.Length == (if columns > 0 then size + size / columns + 5 else size + 1)
  {
    var ctx := new Ctx;
    var ok := ctx.Initialize(true, columns);
    if !ok {
      return null;
    }
    EncodeSizeSuffices(columns, input[..inSize]);
    TextWithoutNul(columns, input[..inSize]);
    EncodingSpelled(columns, input[..inSize]);
    EncodeSizeIs(columns, inSize);
    hide Wrap, Base64, EncodeSize, CString, Spelled;
    var ptr := new byte[EncodeSize(ctx.columns, inSize)];
    var n;
    ok, n := EncodeWhole(ctx, input, inSize, ptr);
    if ok {
      ghost var text := ptr[..n];
      ptr[n] := 0;
      assert ptr[..][..n] == text;
      CStringUnique(ptr[..], n);
      res := ptr;
    } else {
      res := null;
    }
  }

  lemma TextWithoutNul(columns: nat, s: seq<byte>)
    ensures 0 !in Wrap(columns, Base64(s))
  {
    forall i | 0 <= i < |Base64(s)|
      ensures Base64(s)[i] != 0
    {
      CodeSymbol(Encoded(s)[i]);
    }
    WrapAddsNewlines(columns, Base64(s));
  }

  lemma {:induction false} WrapAddsNewlines(columns: nat, t: seq<byte>)
    ensures forall ch | ch in Wrap(columns, t) :: ch in t || ch == NL
    decreases |t|
  {
    if columns > 0 && |t| > columns {
      WrapAddsNewlines(columns, t[columns..]);
    }
  }

  /**
  Decodes a text of inSize characters into the window. It succeeds exactly when the text without
  its whitespace is well formed and the room exceeds the number of octets it stands for; the input
  may be the array written to.
  */
  method DecodeInto(input: array<byte>, inSize: nat, out: array<byte>, outSize: nat)
    returns (ok: bool, outWritten: nat)
    requires inSize <= input.Length && outSize <= out.Length
    modifies out
    ensures var ks := Stripped(old(input[..inSize]));
            && (ok <==> WellFormed(ks) && |Decoded(ks)| < outSize)
            && (ok ==> outWritten == |Decoded(ks)| && out[..outWritten] == Decoded(ks))
    ensures ok && outWritten + 1 < outSize ==> out[outWritten] == 0
    ensures ok && outWritten + 1 == outSize ==> out[outWritten] == old(out[outWritten])
    ensures ok ==> forall i | outWritten < i < out.Length :: out[i] == old(out[i])
    ensures forall i | outSize <= i < out.Length :: out[i] == old(out[i])
  {
    ghost var text := input[..inSize];
    OneShotLanguage(text);
    hide Run, Codes, WellFormed, Decoded, Stripped;
    var ctx := new Ctx;
    var updated;
    ok := ctx.Initialize(false, 0);
    ok, updated := ctx.UpdateDecoding(input, inSize, out, 0, outSize);
    if ok {
      ghost var first := out[..updated];
      var final;
      ok, final := ctx.Final(out, updated, outSize - updated);
      assert out[..updated] == first;
      outWritten := updated + final;
    } else {
      outWritten := 0;
    }
  }

  lemma OneShotLanguage(text: seq<byte>)
    ensures var r := Run(Fresh(0), Codes(text));
            var ks := Stripped(text);
            && (Accepts(r) <==> WellFormed(ks))
            && (WellFormed(ks) ==> r.out == Decoded(ks))
  {
    hide Run;
    RunSkipsSpaces(Fresh(0), Codes(text));
    SignificantTwice(Codes(text));
    RunIsDecoded(Fresh(0), Stripped(text));
  }

  /** Decodes a C string over itself: it succeeds exactly on well-formed texts, and leaves the
      octets followed by a NUL. */
  method DecodeInPlace(str: array<byte>) returns (ok: bool, outWritten: nat)
    requires 0 in str[..]
    modifies str
    ensures var ks := Stripped(CString(old(str[..])));
            && (ok <==> WellFormed(ks))
            && (ok ==> outWritten == |Decoded(ks)| < str.Length && str[..outWritten] == Decoded(ks)
                       && str[outWritten] == 0)
    ensures forall i | |CString(old(str[..]))| < i < str.Length :: str[i] == old(str[i])
  {
    var n := Strlen(str);
    ghost var text := str[..n];
    DecodedIsShorter(text);
    hide WellFormed, Decoded, Stripped, CString;
    ok, outWritten := DecodeInto(str, n, str, n + 1);
  }

  /** Encode, then DecodeInPlace on its result: the octets are back, followed by a NUL. */
  method EncodeThenDecode(input: array<byte>, inSize: nat, columns: nat) returns (res: array<byte>)
    requires inSize <= input.Length
    ensures fresh(res) && inSize < res.Length
    ensures res[..inSize] == input[..inSize] && res[inSize] == 0
  {
    DecodeWrapped(columns, input[..inSize]);
    hide Wrap, Base64, WellFormed, Decoded, Stripped, CString;
    res := Encode(input, inSize, columns);
    assert res[|CString(res[..])|] == 0;
    var ok, n := DecodeInPlace(res);
  }

  /** A text decodes to fewer octets than it has characters, unless it is empty. */
  lemma DecodedIsShorter(t: seq<byte>)
    ensures WellFormed(Stripped(t)) ==> |Decoded(Stripped(t))| <= |t| && (t != [] ==> |Decoded(Stripped(t))| < |t|)
  {
    if WellFormed(Stripped(t)) {
      DecodedLength(Stripped(t));
      SignificantLength(Codes(t));
    }
  }

  lemma {:induction false} DecodedLength(ks: seq<code>)
    requires WellFormed(ks)
    ensures 4 * |Decoded(ks)| <= 3 * |ks|
  {
    if ks != [] && FullGroup(ks) {
      DecodedLength(ks[4..]);
    }
  }

  lemma {:induction false} SignificantLength(ks: seq<code>)
    ensures |Significant(ks)| <= |ks|
  {
    if ks != [] {
      SignificantLength(ks[1..]);
    }
  }
}
