/** The base64 transform of src/base64.c: the codec between the transform's two buffers. */
module Base64Transforms {
  import opened Arithmetic
  import opened Bytes
  import opened Buffers
  import opened Base64Spec
  import opened Base64Laws
  import opened Base64Stream
  import opened Base64StreamLaws
  import opened Base64Context

  //////////////////////////// how much a chunk writes ////////////////////////////

  /** A state between input octets whose line position respects the line length. */
  predicate Between(c: State) {
    c.inPos <= 2 && (c.columns > 0 ==> c.linePos <= c.columns)
  }

  /** Line breaks before n more characters of a line that already has linePos. */
  function Breaks(columns: nat, linePos: nat, n: nat): nat {
    if columns == 0 || n == 0 then 0 else (linePos + n - 1) / columns
  }

  /** The number of characters written while n octets are consumed. */
  function OutputLength(c: State, n: nat): nat {
    var letters := n + (c.inPos + n) / 3;
    letters + Breaks(c.columns, c.linePos, letters)
  }

  lemma {:induction false} FieldsLength(p: nat, x: byte, s: seq<byte>)
    requires p <= 2
    ensures |Fields(p, x, s)| == |s| + (p + |s|) / 3
    ensures Position(p, x, s).0 <= 2
    decreases |s|
  {
    hide Encode1, Encode2, Encode3, Encode4;
    if s != [] {
      if p < 2 {
        FieldsLength(p + 1, s[0], s[1..]);
      } else {
        FieldsLength(0, 0, s[1..]);
      }
    }
  }

  lemma {:induction false} LayLength(columns: nat, linePos: nat, t: seq<byte>)
    requires columns > 0 ==> linePos <= columns
    ensures |Lay(columns, linePos, t)| == |t| + Breaks(columns, linePos, |t|)
    ensures columns > 0 ==> LineAfter(columns, linePos, |t|) <= columns
    decreases |t|, columns > 0 && linePos >= columns
  {
    if t == [] {
    } else if columns > 0 && linePos >= columns {
      LayLength(columns, 0, t);
      DivShift(|t| - 1, columns);
    } else {
      LayLength(columns, linePos + 1, t[1..]);
      if columns > 0 && |t| == 1 {
        SmallDiv(linePos, columns);
      }
    }
  }

  lemma OutputHasLength(c: State, s: seq<byte>)
    requires Between(c)
    ensures |Output(c, s)| == OutputLength(c, |s|) && Between(After(c, s))
  {
    hide Fields, Position, Lay, LineAfter, Symbols;
    FieldsLength(c.inPos, c.inByte, s);
    LayLength(c.columns, c.linePos, Symbols(Fields(c.inPos, c.inByte, s)));
  }

  /** The last group takes at most three characters, each with a line break before it. */
  lemma FinalFits(c: State)
    requires Between(c)
    ensures |FinalOutput(c)| <= 6
  {
    hide Symbols, Symbol, Lay;
    var t := Symbols(FinalFields(c.inPos, c.inByte, c.finished));
    LayLength(c.columns, c.linePos, t);
    if c.columns > 0 && |t| > 0 {
      BreaksAtMost(c.columns, c.linePos, |t|);
    }
  }

  lemma BreaksAtMost(columns: nat, linePos: nat, n: nat)
    requires columns > 0 && linePos <= columns && 0 < n <= 3
    ensures Breaks(columns, linePos, n) <= 3
  {
    DivMonotone(linePos + n - 1, 3 * columns, columns);
    DivUnique(3 * columns, columns, 3, 0);
  }

  /** The room asked for before a chunk is processed. */
  function Allotment(encode: bool, columns: nat, n: nat): nat {
    if encode then 4 * n / 3 + 8 + (if columns > 0 then n / columns + 4 else 0)
    else 3 * n / 4 + 8
  }

  /** The encoder's allotment suffices without line breaks and for chunks up to 27 lines' worth. */
  lemma EncodeAllotmentSuffices(c: State, n: nat)
    requires Between(c) && (c.columns == 0 || n <= 27 * c.columns)
    ensures OutputLength(c, n) <= Allotment(true, c.columns, n)
  {
    var letters := n + (c.inPos + n) / 3;
    LettersAtMost(c.inPos, n);
    if c.columns > 0 && letters > 0 {
      BreaksWithin(c.columns, c.linePos, n, letters);
      hide Breaks;
      assert letters + Breaks(c.columns, c.linePos, letters) <= (4 * n / 3 + 1) + (n / c.columns + 10);
    }
  }

  lemma LettersAtMost(p: nat, n: nat)
    requires p <= 2
    ensures n + (p + n) / 3 <= 4 * n / 3 + 1 && (p + n) / 3 <= n / 3 + 1
  {
  }

  /** A chunk of at most 27 lines' worth of octets needs at most 10 line breaks more than the
      allotment counts by its octets. */
  lemma BreaksWithin(m: nat, linePos: nat, n: nat, letters: nat)
    requires m > 0 && linePos <= m && n <= 27 * m && 0 < letters <= n + n / 3 + 1
    ensures Breaks(m, linePos, letters) <= n / m + 10
  {
    assert n / 3 <= 9 * m;
    DivMonotone(linePos + letters - 1, n + 10 * m, m);
    DivUnique(n + 10 * m, m, n / m + 10, n % m);
  }

  /** With sizes up to a limit, no allotment of a chunk overflows whose four-fold length does not. */
  lemma AllotmentFits(encode: bool, columns: nat, n: nat, limit: nat)
    requires limit >= 64 && 4 * n <= limit
    ensures Allotment(encode, columns, n) <= limit
  {
    if columns > 0 {
      DivAtMost(n, columns);
    }
  }

  /** Every chunk of a run meets its allotment in the state the run has reached. */
  predicate Fits(c: State, n: nat) {
    n == 0 || OutputLength(c, n) <= Allotment(true, c.columns, n)
  }

  predicate AllFit(c: State, chunks: seq<seq<byte>>)
    requires c.inPos <= 3
    decreases |chunks|
  {
    chunks == [] || (Fits(c, |chunks[0]|) && AllFit(After(c, chunks[0]), chunks[1..]))
  }

  /** The room for a chunk, written out, and what has to fit into it. */
  lemma RoomForChunk(c: State, s: seq<byte>)
    requires Between(c)
    ensures var room := 4 * |s| / 3 + 8 + (if c.columns > 0 then |s| / c.columns + 4 else 0);
            Allotment(true, c.columns, |s|) == room && (Fits(c, |s|) <==> |s| == 0 || |Output(c, s)| <= room)
  {
    OutputHasLength(c, s);
  }

  /** The number of characters written for the first n octets of a run. */
  function Written(columns: nat, n: nat): nat {
    OutputLength(Fresh(columns), n)
  }

  function Lengths(chunks: seq<seq<byte>>): (ns: seq<nat>)
    ensures |ns| == |chunks| && forall i | 0 <= i < |ns| :: ns[i] == |chunks[i]|
  {
    seq(|chunks|, i requires 0 <= i < |chunks| => |chunks[i]|)
  }

  /** What each chunk adds to the characters written is within its allotment; `before` octets came
      before the first of them. */
  predicate LengthsFit(columns: nat, before: nat, lengths: seq<nat>)
    decreases |lengths|
  {
    lengths == [] ||
    (var n := lengths[0];
     && Written(columns, before + n) - Written(columns, before) <= Allotment(true, columns, n)
     && LengthsFit(columns, before + n, lengths[1..]))
  }

  /** Whether a run meets its allotments depends on the lengths of its chunks alone. */
  lemma {:induction false} AllFitByLengths(columns: nat, s: seq<byte>, chunks: seq<seq<byte>>)
    ensures AllFit(After(Fresh(columns), s), chunks) <==> LengthsFit(columns, |s|, Lengths(chunks))
    decreases |chunks|
  {
    hide OutputLength, Allotment, After, Output, Fields, Position, Lay, LineAfter;
    if chunks != [] {
      var c, t := After(Fresh(columns), s), chunks[0];
      OutputHasLength(Fresh(columns), s);
      OutputHasLength(Fresh(columns), s + t);
      OutputHasLength(c, t);
      OutputConcat(Fresh(columns), s, t);
      AllFitByLengths(columns, s + t, chunks[1..]);
      assert Lengths(chunks)[1..] == Lengths(chunks[1..]);
      NothingFits(c);
    }
  }

  /** The condition on the next chunk of a run, written out: with a letters before it and b behind it,
      each with a line break before every `columns` of them but the first. */
  lemma NextChunkFits(columns: nat, before: nat, n: nat, rest: seq<nat>)
    ensures var a, b := before + before / 3, before + n + (before + n) / 3;
            var breaks := if columns == 0 then 0
                          else (if b == 0 then 0 else (b - 1) / columns) - (if a == 0 then 0 else (a - 1) / columns);
            LengthsFit(columns, before, [n] + rest) <==>
              && b - a + breaks <= 4 * n / 3 + 8 + (if columns > 0 then n / columns + 4 else 0)
              && LengthsFit(columns, before + n, rest)
    ensures LengthsFit(columns, before, [])
  {
    assert ([n] + rest)[1..] == rest;
    WrittenIs(columns, before);
    WrittenIs(columns, before + n);
    AllotmentIs(columns, n);
    hide Written, Allotment;
  }

  lemma WrittenIs(columns: nat, n: nat)
    ensures var letters := n + n / 3;
            Written(columns, n) == letters + if columns == 0 || letters == 0 then 0 else (letters - 1) / columns
  {
  }

  lemma AllotmentIs(columns: nat, n: nat)
    ensures Allotment(true, columns, n) == 4 * n / 3 + 8 + (if columns > 0 then n / columns + 4 else 0)
  {
  }

  /** The condition on a single chunk in lines. */
  lemma OneChunkFits(columns: nat, n: nat)
    requires columns > 0 && n > 0
    ensures var letters := n + n / 3;
            LengthsFit(columns, 0, [n]) <==> letters + (letters - 1) / columns <= 4 * n / 3 + n / columns + 12
  {
    NextChunkFits(columns, 0, n, []);
    hide LengthsFit;
    assert [n] + [] == [n];
  }

  /** 1024 octets in lines of 28 characters need all of their 1413 positions. */
  lemma TightAllotment()
    ensures LengthsFit(28, 0, [1024]) && Written(28, 1024) == 1413 == Allotment(true, 28, 1024)
  {
    hide LengthsFit, Written, Allotment;
    OneChunkFits(28, 1024);
    WrittenIs(28, 1024);
    AllotmentIs(28, 1024);
  }

  lemma NothingFits(c: State)
    requires c.inPos <= 2
    ensures OutputLength(c, 0) <= Allotment(true, c.columns, 0)
  {
  }

  /** No chunk of a run falls short without line breaks or up to 27 lines' worth of octets. */
  lemma {:induction false} SmallChunksFit(c: State, chunks: seq<seq<byte>>)
    requires Between(c) && (c.columns == 0 || forall i | 0 <= i < |chunks| :: |chunks[i]| <= 27 * c.columns)
    ensures AllFit(c, chunks)
    decreases |chunks|
  {
    hide OutputLength, Allotment, After;
    if chunks != [] {
      EncodeAllotmentSuffices(c, |chunks[0]|);
      OutputHasLength(c, chunks[0]);
      SmallChunksFit(After(c, chunks[0]), chunks[1..]);
    }
  }

  /** It does not suffice for every chunk: 42 octets in lines of one character overrun it. */
  lemma EncodeAllotmentFallsShort()
    ensures OutputLength(Fresh(1), 42) > Allotment(true, 1, 42)
  {
  }

  /** Characters a decoding context has seen of its group, less what it has already written. */
  function Owed(inPos: nat): int {
    if inPos == 0 then 0 else 4 - inPos
  }

  lemma {:induction false} RunLength(c: State, ks: seq<code>)
    requires Decoding(c)
    ensures 4 * |Run(c, ks).out| + Owed(Run(c, ks).state.inPos) <= 3 * |ks| + Owed(c.inPos)
    decreases |ks|
  {
    hide Run, Decode1, Decode2, Decode3;
    if ks == [] {
      RunNothing(c);
    } else if Closed(c) {
      RunClosed(c, ks);
    } else {
      RunStep(c, ks);
      var step := DecodeStep(c, ks[0]);
      if step.status != Failed {
        RunLength(step.state, ks[1..]);
      }
    }
  }

  lemma DecodeAllotmentSuffices(c: State, t: seq<byte>)
    requires Decoding(c)
    ensures |Run(c, Codes(t)).out| < Allotment(false, c.columns, |t|)
  {
    hide Run;
    RunLength(c, Codes(t));
  }

  //////////////////////////// the transform ////////////////////////////

  datatype TransformStatus = NotStarted | Working | Finished

  class Transform {
    const ctx: Ctx
    const inBuf: Buffer
    const outBuf: Buffer
    const encoding: bool
    var status: TransformStatus

    ghost predicate Valid()
      reads this, ctx, inBuf, outBuf
    {
      && ctx.Valid() && inBuf.Valid() && outBuf.Valid()
      && inBuf != outBuf && inBuf.data != outBuf.data
      && (status == NotStarted ==> ctx.St() == Fresh(ctx.columns))
      && (status != NotStarted ==> ctx.encode == encoding)
      && (status != Finished && encoding ==> Between(ctx.St()))
    }

    constructor (encoding: bool, columns: nat, mode: AllocMode, initialSize: nat)
      ensures Valid() && fresh(ctx) && fresh(inBuf) && fresh(outBuf) && fresh(inBuf.data) && fresh(outBuf.data)
      ensures this.encoding == encoding && status == NotStarted && ctx.St() == Fresh(columns)
      ensures inBuf.Contents() == [] && outBuf.Contents() == []
    {
      var c := Ctx.Create(false, columns);
      var i := new Buffer.Initialize(0, mode, initialSize);
      var o := new Buffer.Initialize(0, mode, initialSize);
      ctx, inBuf, outBuf := c, i, o;
      this.encoding := encoding;
      status := NotStarted;
    }

    /** Makes what was just written behind the output buffer's contents part of them. */
    method Commit(outLen: nat)
      requires outBuf.Valid() && outBuf.size + outLen <= outBuf.maxSize
      modifies outBuf`data, outBuf`maxSize, outBuf`size
      ensures outBuf.Valid() && outBuf.data == old(outBuf.data)
      ensures outBuf.Contents() == old(outBuf.Contents()) + outBuf.data[old(outBuf.size)..old(outBuf.size) + outLen]
    {
      outBuf.SetSize(outBuf.size + outLen);
    }

    /** Makes room behind the output buffer's contents and encodes the input there. */
    method EncodeBehind(outMaxLen: nat) returns (ok: bool, outLen: nat)
      requires Valid() && encoding && status == Working
      modifies ctx`inByte, ctx`inPos, ctx`linePos, outBuf`data, outBuf`maxSize, outBuf.data
      ensures ctx.Valid() && outBuf.Valid() && (outBuf.data == old(outBuf.data) || fresh(outBuf.data))
      ensures outBuf.Contents() == old(outBuf.Contents())
      ensures var whole := Output(old(ctx.St()), old(inBuf.Contents()));
              && (ok <==> |whole| <= outMaxLen)
              && (ok ==> && outBuf.size + outLen <= outBuf.maxSize
                         && outBuf.data[outBuf.size..outBuf.size + outLen] == whole
                         && ctx.St() == After(old(ctx.St()), old(inBuf.Contents())))
    {
      hide Output, After, Between;
      outBuf.SetMaxSize(outBuf.size + outMaxLen);
      ok, outLen := ctx.UpdateEncoding(inBuf.data, inBuf.size, outBuf.data, outBuf.size, outMaxLen);
    }

    /** The input part of Execute for an encoder. */
    method EncodeChunk() returns (ok: bool)
      requires Valid() && encoding && status == Working
      modifies ctx`inByte, ctx`inPos, ctx`linePos, inBuf`size, inBuf.data,
               outBuf`data, outBuf`maxSize, outBuf`size, outBuf.data
      ensures ctx.Valid() && inBuf.Valid() && outBuf.Valid() && inBuf.data == old(inBuf.data)
      ensures outBuf.data == old(outBuf.data) || fresh(outBuf.data)
      ensures ok <==> OutputLength(old(ctx.St()), old(inBuf.size))
                      <= Allotment(true, ctx.columns, old(inBuf.size)) || old(inBuf.size) == 0
      ensures ok ==> && Between(ctx.St()) && inBuf.Contents() == []
                     && ctx.St() == After(old(ctx.St()), old(inBuf.Contents()))
                     && outBuf.Contents() == old(outBuf.Contents()) + Output(old(ctx.St()), old(inBuf.Contents()))
    {
      hide Output, After;
      ghost var c, input := ctx.St(), inBuf.Contents();
      var inSize := inBuf.size;
      if inSize == 0 {
        assert input == [];
        OutputNothing(c);
        return true;
      }
      OutputHasLength(c, input);
      hide OutputLength, Allotment;
      var outMaxLen := Allotment(true, ctx.columns, inSize);
      var outLen;
      ok, outLen := EncodeBehind(outMaxLen);
      if ok {
        Commit(outLen);
        inBuf.RemoveHead(inSize);
      }
    }

    /** Makes room behind the output buffer's contents, with a position to spare, and decodes the
        input there. */
    method DecodeBehind(outMaxLen: nat) returns (ok: bool, outLen: nat)
      requires Valid() && !encoding && status == Working
      requires |Run(ctx.St(), Codes(inBuf.Contents())).out| < outMaxLen
      modifies ctx`inByte, ctx`inPos, ctx`finished, outBuf`data, outBuf`maxSize, outBuf.data
      ensures ctx.Valid() && outBuf.Valid() && (outBuf.data == old(outBuf.data) || fresh(outBuf.data))
      ensures outBuf.Contents() == old(outBuf.Contents())
      ensures var r := Run(old(ctx.St()), Codes(old(inBuf.Contents())));
              && (ok <==> r.ok)
              && (ok ==> && outBuf.size + outLen <= outBuf.maxSize
                         && outBuf.data[outBuf.size..outBuf.size + outLen] == r.out
                         && ctx.St() == r.state)
    {
      hide Run, Codes, AllSpace, RunWithin;
      outBuf.SetMaxSize(outBuf.size + outMaxLen);
      ok, outLen := ctx.UpdateDecoding(inBuf.data, inBuf.size, outBuf.data, outBuf.size, outMaxLen);
    }

    /** The input part of Execute for a decoder. */
    method DecodeChunk() returns (ok: bool)
      requires Valid() && !encoding && status == Working
      modifies ctx`inByte, ctx`inPos, ctx`finished, inBuf`size, inBuf.data,
               outBuf`data, outBuf`maxSize, outBuf`size, outBuf.data
      ensures ctx.Valid() && inBuf.Valid() && outBuf.Valid() && inBuf.data == old(inBuf.data)
      ensures outBuf.data == old(outBuf.data) || fresh(outBuf.data)
      ensures var r := Run(old(ctx.St()), Codes(old(inBuf.Contents())));
              && (ok <==> r.ok)
              && (ok ==> && inBuf.Contents() == [] && ctx.St() == r.state
                         && outBuf.Contents() == old(outBuf.Contents()) + r.out)
    {
      hide Run, Codes;
      ghost var c, input := ctx.St(), inBuf.Contents();
      var inSize := inBuf.size;
      DecodeAllotmentSuffices(c, input);
      if inSize == 0 {
        assert input == [];
        RunEnd(c);
        return true;
      }
      var outMaxLen := Allotment(false, ctx.columns, inSize);
      var outLen;
      ok, outLen := DecodeBehind(outMaxLen);
      if ok {
        Commit(outLen);
        inBuf.RemoveHead(inSize);
      }
    }

    /** The last part of Execute: its 16 positions always suffice. */
    method FinishOutput() returns (ok: bool)
      requires Valid() && status == Working
      modifies ctx`inByte, ctx`inPos, ctx`linePos, ctx`finished,
               outBuf`data, outBuf`maxSize, outBuf`size, outBuf.data
      ensures ctx.Valid() && outBuf.Valid()
      ensures outBuf.data == old(outBuf.data) || fresh(outBuf.data)
      ensures ok <==> encoding || old(ctx.inPos) == 0
      ensures ok ==> outBuf.Contents() ==
                     old(outBuf.Contents()) + if encoding then FinalOutput(old(ctx.St())) else []
    {
      hide FinalOutput, Between, Symbol;
      ghost var c, before := ctx.St(), outBuf.Contents();
      if encoding {
        FinalFits(c);
      }
      var outSize, outMaxLen := outBuf.size, 16;
      outBuf.SetMaxSize(outSize + outMaxLen);
      var outLen;
      ok, outLen := ctx.Final(outBuf.data, outSize, outMaxLen);
      if ok {
        assert outBuf.Contents() == before;
        Commit(outLen);
      }
    }

    /** Execute, with the room for a chunk as Fits states it. */
    method Work(last: bool) returns (ok: bool)
      requires Valid()
      modifies this`status, ctx, inBuf, outBuf, inBuf.data, outBuf.data
      ensures inBuf.data == old(inBuf.data) && (outBuf.data == old(outBuf.data) || fresh(outBuf.data))
      ensures old(status) == Finished ==> (ok <==> old(inBuf.Contents()) == []) && outBuf.Valid()
                                          && outBuf.Contents() == old(outBuf.Contents()) && Valid()
      ensures old(status) != Finished && encoding ==>
                var c, input := old(ctx.St()), old(inBuf.Contents());
                && (ok <==> Fits(c, |input|))
                && (ok ==> && Valid() && inBuf.Contents() == []
                           && status == (if last then Finished else Working)
                           && ctx.columns == old(ctx.columns)
                           && (!last ==> ctx.St() == After(c, input))
                           && outBuf.Contents() == old(outBuf.Contents()) + Output(c, input)
                                                   + if last then FinalOutput(After(c, input)) else [])
      ensures old(status) != Finished && !encoding ==>
                var r := Run(old(ctx.St()), Codes(old(inBuf.Contents())));
                && (ok <==> r.ok && (last ==> r.state.inPos == 0))
                && (ok ==> && Valid() && inBuf.Contents() == []
                           && status == (if last then Finished else Working)
                           && (!last ==> ctx.St() == r.state)
                           && outBuf.Contents() == old(outBuf.Contents()) + r.out)
    {
      hide Run, Codes, Output, After, FinalOutput, Between, OutputLength, Allotment;
      if status == NotStarted {
        assert ctx.Valid() && ctx.inByte == 0;
        ctx.encode := encoding;
        status := Working;
      }
      if status == Finished {
        return inBuf.size == 0;
      }
      if encoding {
        ok := EncodeChunk();
      } else {
        ok := DecodeChunk();
      }
      if ok && last {
        ok := FinishOutput();
        if ok {
          status := Finished;
        }
      }
    }

    method Execute(last: bool) returns (ok: bool)
      requires Valid()
      modifies this`status, ctx, inBuf, outBuf, inBuf.data, outBuf.data
      ensures inBuf.data == old(inBuf.data) && (outBuf.data == old(outBuf.data) || fresh(outBuf.data))
      ensures old(status) == Finished ==> (ok <==> old(inBuf.Contents()) == []) && outBuf.Valid()
                                          && outBuf.Contents() == old(outBuf.Contents()) && Valid()
      ensures old(status) != Finished && encoding ==>
                var c, input := old(ctx.St()), old(inBuf.Contents());
                var room := 4 * |input| / 3 + 8 + (if c.columns > 0 then |input| / c.columns + 4 else 0);
                && (ok <==> |input| == 0 || |Output(c, input)| <= room)
                && (ok ==> && Valid() && inBuf.Contents() == []
                           && status == (if last then Finished else Working)
                           && ctx.columns == old(ctx.columns)
                           && (!last ==> ctx.St() == After(c, input))
                           && outBuf.Contents() == old(outBuf.Contents()) + Output(c, input)
                                                   + if last then FinalOutput(After(c, input)) else [])
      ensures old(status) != Finished && !encoding ==>
                var r := Run(old(ctx.St()), Codes(old(inBuf.Contents())));
                && (ok <==> r.ok && (last ==> r.state.inPos == 0))
                && (ok ==> && Valid() && inBuf.Contents() == []
                           && status == (if last then Finished else Working)
                           && (!last ==> ctx.St() == r.state)
                           && outBuf.Contents() == old(outBuf.Contents()) + r.out)
    {
      if encoding && status != Finished {
        RoomForChunk(ctx.St(), inBuf.Contents());
      }
      hide Run, Codes, Output, After, FinalOutput, Between, Fits, OutputLength, Allotment;
      ok := Work(last);
    }

    /** Feeds one chunk and executes. */
    method Push(chunk: seq<byte>, last: bool) returns (ok: bool)
      requires Valid() && status != Finished && inBuf.Contents() == []
      modifies this`status, ctx, inBuf, outBuf, inBuf.data, outBuf.data
      ensures inBuf.data == old(inBuf.data) || fresh(inBuf.data)
      ensures outBuf.data == old(outBuf.data) || fresh(outBuf.data)
      ensures encoding ==>
                var c := old(ctx.St());
                && (ok <==> Fits(c, |chunk|))
                && (ok ==> && Valid() && inBuf.Contents() == []
                           && status == (if last then Finished else Working)
                           && (!last ==> ctx.St() == After(c, chunk))
                           && outBuf.Contents() == old(outBuf.Contents()) + Output(c, chunk)
                                                   + if last then FinalOutput(After(c, chunk)) else [])
      ensures !encoding ==>
                var r := Run(old(ctx.St()), Codes(chunk));
                && (ok <==> r.ok && (last ==> r.state.inPos == 0))
                && (ok ==> && Valid() && inBuf.Contents() == []
                           && status == (if last then Finished else Working)
                           && (!last ==> ctx.St() == r.state)
                           && outBuf.Contents() == old(outBuf.Contents()) + r.out)
    {
      if encoding {
        RoomForChunk(ctx.St(), chunk);
      }
      hide Run, Codes, Output, After, FinalOutput, Between, Fits, OutputLength, Allotment;
      inBuf.Append(chunk);
      assert inBuf.Contents() == chunk;
      ok := Execute(last);
    }

    /** Encoding any list of chunks succeeds exactly when every chunk meets its allotment, and then
        writes the wrapped base64 of the whole input. */
    method EncodeAll(chunks: seq<seq<byte>>) returns (ok: bool)
      requires Valid() && encoding && status == NotStarted && inBuf.Contents() == [] && chunks != []
      modifies this`status, ctx, inBuf, outBuf, inBuf.data, outBuf.data
      ensures ok <==> LengthsFit(old(ctx.columns), 0, Lengths(chunks))
      ensures ok ==> && outBuf.Valid() && status == Finished
                     && outBuf.Contents() == old(outBuf.Contents()) + Wrap(old(ctx.columns), Base64(Flatten(chunks)))
    {
      hide Output, After, FinalOutput, Base64, Wrap, OutputLength, Allotment, Between, Flatten, LengthsFit, Lengths;
      ghost var start, columns, before := ctx.St(), ctx.columns, outBuf.Contents();
      ghost var s := [];
      OutputNothing(start);
      FlattenNothing(chunks);
      AllFitByLengths(columns, [], chunks);
      assert chunks[0..] == chunks;
      ok := true;
      var i := 0;
      while ok && i < |chunks|
        invariant i <= |chunks|
        invariant ok ==> Valid() && inBuf.Contents() == [] && s == Flatten(chunks[..i])
        invariant inBuf.data == old(inBuf.data) || fresh(inBuf.data)
        invariant outBuf.data == old(outBuf.data) || fresh(outBuf.data)
        invariant After(start, s).inPos <= 3
        invariant AllFit(start, chunks) <==> ok && AllFit(After(start, s), chunks[i..])
        invariant ok && i < |chunks| ==> && status != Finished && ctx.St() == After(start, s)
                                         && outBuf.Contents() == before + Output(start, s)
        invariant ok && i == |chunks| ==> && status == Finished
                                          && outBuf.Contents() == before + Wrap(columns, Base64(s))
        decreases |chunks| - i, ok
      {
        OutputConcat(start, s, chunks[i]);
        EncodedText(columns, s + chunks[i]);
        FlattenSnoc(chunks[..i], chunks[i]);
        assert chunks[..i + 1] == chunks[..i] + [chunks[i]];
        assert chunks[i..][1..] == chunks[i + 1..];
        ok := Push(chunks[i], i + 1 == |chunks|);
        s := s + chunks[i];
        i := i + 1;
      }
      assert chunks[..|chunks|] == chunks;
    }

    /** Decoding any list of chunks succeeds exactly on well-formed texts and writes their octets. */
    method DecodeAll(chunks: seq<seq<byte>>) returns (ok: bool)
      requires Valid() && !encoding && status == NotStarted && inBuf.Contents() == [] && chunks != []
      modifies this`status, ctx, inBuf, outBuf, inBuf.data, outBuf.data
      ensures var ks := Stripped(Flatten(chunks));
              && (ok <==> WellFormed(ks))
              && (ok ==> outBuf.Valid() && status == Finished
                         && outBuf.Contents() == old(outBuf.Contents()) + Decoded(ks))
    {
      ghost var start, before := ctx.St(), outBuf.Contents();
      DecoderLanguage(ctx.columns, chunks);
      DecoderChunkIndependence(start, chunks);
      hide Run, Codes, WellFormed, Decoded, Stripped, RunChunks, Flatten, FinalOutput, Output, After;
      RunEnd(start);
      FlattenNothing(chunks);
      ok := true;
      var i := 0;
      while ok && i < |chunks|
        invariant i <= |chunks|
        invariant ok ==> Valid() && inBuf.Contents() == []
        invariant inBuf.data == old(inBuf.data) || fresh(inBuf.data)
        invariant outBuf.data == old(outBuf.data) || fresh(outBuf.data)
        invariant var r := Run(start, Codes(Flatten(chunks[..i])));
                  ok ==> && r.ok && outBuf.Contents() == before + r.out
                         && (if i < |chunks| then status != Finished && ctx.St() == r.state
                             else status == Finished && r.state.inPos == 0)
        invariant !ok ==> !Accepts(Run(start, Codes(Flatten(chunks))))
        decreases |chunks| - i, ok
      {
        ok := DecodeNextChunk(chunks, i, start, before);
        i := i + 1;
      }
      assert chunks[..|chunks|] == chunks;
    }

    /** One round of DecodeAll: the run over the first i chunks becomes the run over one more. */
    method DecodeNextChunk(chunks: seq<seq<byte>>, i: nat, ghost start: State, ghost before: seq<byte>)
      returns (ok: bool)
      requires Valid() && !encoding && status != Finished && inBuf.Contents() == [] && i < |chunks| && Decoding(start)
      requires var r := Run(start, Codes(Flatten(chunks[..i])));
               r.ok && ctx.St() == r.state && outBuf.Contents() == before + r.out
      modifies this`status, ctx, inBuf, outBuf, inBuf.data, outBuf.data
      ensures inBuf.data == old(inBuf.data) || fresh(inBuf.data)
      ensures outBuf.data == old(outBuf.data) || fresh(outBuf.data)
      ensures var r := Run(start, Codes(Flatten(chunks[..i + 1])));
              ok ==> && Valid() && inBuf.Contents() == [] && r.ok && outBuf.Contents() == before + r.out
                     && (if i + 1 < |chunks| then status != Finished && ctx.St() == r.state
                         else status == Finished && r.state.inPos == 0)
      ensures !ok ==> !Accepts(Run(start, Codes(Flatten(chunks))))
    {
      hide Run, Codes, Flatten, FinalOutput, Output, After, Between, OutputLength, Allotment;
      RunNextChunk(start, chunks, i);
      assert i + 1 == |chunks| ==> chunks[..i + 1] == chunks;
      ok := Push(chunks[i], i + 1 == |chunks|);
    }
  }
}
