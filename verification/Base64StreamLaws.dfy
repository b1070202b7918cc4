/** Streaming against the reference: chunk independence, the encoder's text, the decoder's language. */
module Base64StreamLaws {
  import opened Bytes
  import opened Base64Spec
  import opened Base64Laws
  import opened Base64Stream

  //////////////////////////// one step of the encoder ////////////////////////////

  /** The first character owed for b and what follows is the one a step writes. */
  lemma EncodeStepMeaning(c: State, b: byte, rest: seq<byte>)
    requires c.inPos <= 3
    ensures var step := EncodeStep(c, b);
            var left := if step.status == ConsumeAndNext then rest else [b] + rest;
            && (step.status == ConsumeAndNext || step.status == ConsumeAndRepeat)
            && Output(c, [b] + rest) == [step.out] + Output(step.state, left)
            && After(c, [b] + rest) == After(step.state, left)
  {
    hide Encode1, Encode2, Encode3, Encode4, Symbol, Symbols, Fields, Position, Lay, LineAfter;
    var ks := Fields(c.inPos, c.inByte, [b] + rest);
    FieldsStep(c.(columns := 0), b, rest);
    if LineFull(c) {
      LayBreak(c.columns, c.linePos, Symbols(ks));
    } else {
      LayStep(c.columns, c.linePos, ks);
    }
  }

  /** The first field owed for b and what follows is the one a step without a line break emits. */
  lemma FieldsStep(c: State, b: byte, rest: seq<byte>)
    requires c.inPos <= 3 && !LineFull(c)
    ensures var step := EncodeStep(c, b);
            var left := if step.status == ConsumeAndNext then rest else [b] + rest;
            var d, ks := step.state, Fields(c.inPos, c.inByte, [b] + rest);
            && ks != [] && step.out == Symbol(ks[0]) && ks[1..] == Fields(d.inPos, d.inByte, left)
            && Position(c.inPos, c.inByte, [b] + rest) == Position(d.inPos, d.inByte, left)
  {
    hide Encode1, Encode2, Encode3, Encode4, Symbol;
    assert ([b] + rest)[1..] == rest;
  }

  lemma LayBreak(columns: nat, linePos: nat, t: seq<byte>)
    requires 0 < columns <= linePos && t != []
    ensures Lay(columns, linePos, t) == [NL] + Lay(columns, 0, t)
    ensures LineAfter(columns, linePos, |t|) == LineAfter(columns, 0, |t|)
  {
  }

  lemma LayStep(columns: nat, linePos: nat, ks: seq<code>)
    requires !(0 < columns <= linePos) && Printable(ks) && ks != []
    ensures Lay(columns, linePos, Symbols(ks)) == [Symbol(ks[0])] + Lay(columns, linePos + 1, Symbols(ks[1..]))
    ensures LineAfter(columns, linePos, |ks|) == LineAfter(columns, linePos + 1, |ks[1..]|)
  {
    assert Symbols(ks)[1..] == Symbols(ks[1..]);
  }

  lemma EncodeFinalStepMeaning(c: State)
    requires c.inPos <= 3
    ensures var step := EncodeFinalStep(c);
            if c.inPos == 0 then step.status == Done && step.state == c && FinalOutput(c) == []
            else && (step.status == ConsumeAndNext || step.status == ConsumeAndRepeat)
                 && step.state.inPos <= 3
                 && FinalOutput(c) == [step.out] + FinalOutput(step.state)
  {
    hide Encode1, Encode2, Encode3, Encode4, Symbol;
    var step := EncodeFinalStep(c);
    var ks := FinalFields(c.inPos, c.inByte, c.finished);
    if c.inPos != 0 && !LineFull(c) {
      var d := step.state;
      assert ks[1..] == FinalFields(d.inPos, d.inByte, d.finished);
      assert Symbols(ks)[1..] == Symbols(ks[1..]);
    }
  }

  //////////////////////////// chunk independence of the encoder ////////////////////////////

  lemma {:induction false} FieldsConcat(p: nat, x: byte, a: seq<byte>, b: seq<byte>)
    requires p <= 3
    ensures var (q, y) := Position(p, x, a);
            && Fields(p, x, a + b) == Fields(p, x, a) + Fields(q, y, b)
            && Position(p, x, a + b) == Position(q, y, b)
    decreases |a|
  {
    hide Encode1, Encode2, Encode3, Encode4;
    if a == [] {
      assert a + b == b;
    } else {
      assert (a + b)[1..] == a[1..] + b;
      var (q, y) := Position(p, x, a);
      var p', x' := if p < 2 then p + 1 else 0, if p < 2 then a[0] else 0;
      FieldsConcat(p', x', a[1..], b);
      Associate(Head(p, x, a[0]), Fields(p', x', a[1..]), Fields(q, y, b));
    }
  }

  /** The fields emitted for one octet. */
  function Head(p: nat, x: byte, b: byte): seq<code>
    requires p <= 3
  {
    if p == 0 then [Encode1(b)]
    else if p == 1 then [Encode2(x, b)]
    else if p == 2 then [Encode3(x, b), Encode4(b)]
    else [Encode4(x)]
  }

  lemma Associate<T>(a: seq<T>, b: seq<T>, c: seq<T>)
    ensures (a + b) + c == a + (b + c)
  {
  }

  lemma {:induction false} LayConcat(columns: nat, linePos: nat, a: seq<byte>, b: seq<byte>)
    ensures Lay(columns, linePos, a + b)
         == Lay(columns, linePos, a) + Lay(columns, LineAfter(columns, linePos, |a|), b)
    ensures LineAfter(columns, linePos, |a| + |b|)
         == LineAfter(columns, LineAfter(columns, linePos, |a|), |b|)
    decreases |a|, columns > 0 && linePos >= columns
  {
    hide LineAfter;
    LineAfterMore(columns, linePos, |a|, |b|);
    LineAfterStep(columns, linePos, |a|);
    var rest := Lay(columns, LineAfter(columns, linePos, |a|), b);
    if a == [] {
      assert a + b == b;
    } else if columns > 0 && linePos >= columns {
      LayConcat(columns, 0, a, b);
      Associate([NL], Lay(columns, 0, a), rest);
    } else {
      assert (a + b)[1..] == a[1..] + b;
      LayConcat(columns, linePos + 1, a[1..], b);
      Associate([a[0]], Lay(columns, linePos + 1, a[1..]), rest);
    }
  }

  lemma LineAfterStep(columns: nat, linePos: nat, n: nat)
    ensures LineAfter(columns, linePos, n) ==
            if n == 0 then linePos
            else if columns > 0 && linePos >= columns then LineAfter(columns, 0, n)
            else LineAfter(columns, linePos + 1, n - 1)
  {
  }

  lemma {:induction false} LineAfterMore(columns: nat, linePos: nat, m: nat, n: nat)
    ensures LineAfter(columns, linePos, m + n) == LineAfter(columns, LineAfter(columns, linePos, m), n)
    decreases m, columns > 0 && linePos >= columns
  {
    if m == 0 {
    } else if columns > 0 && linePos >= columns {
      LineAfterMore(columns, 0, m, n);
    } else {
      LineAfterMore(columns, linePos + 1, m - 1, n);
    }
  }

  lemma SymbolsConcat(a: seq<code>, b: seq<code>)
    requires Printable(a) && Printable(b)
    ensures Symbols(a + b) == Symbols(a) + Symbols(b)
  {
  }

  /** Consuming a and then b writes what consuming a + b writes and ends in the same state. */
  lemma OutputConcat(c: State, a: seq<byte>, b: seq<byte>)
    requires c.inPos <= 3
    ensures Output(c, a + b) == Output(c, a) + Output(After(c, a), b)
    ensures After(c, a + b) == After(After(c, a), b)
  {
    hide Encode1, Encode2, Encode3, Encode4, Symbol, Symbols, Fields, Position, Lay, LineAfter;
    FieldsConcat(c.inPos, c.inByte, a, b);
    var d := After(c, a);
    var ka, kb := Fields(c.inPos, c.inByte, a), Fields(d.inPos, d.inByte, b);
    SymbolsConcat(ka, kb);
    LayConcat(c.columns, c.linePos, Symbols(ka), Symbols(kb));
  }

  /** Successive encoder updates over a list of chunks. */
  function EncodeChunks(c: State, chunks: seq<seq<byte>>): (r: (State, seq<byte>))
    requires c.inPos <= 3
    ensures r.0.inPos <= 3
    decreases |chunks|
  {
    if chunks == [] then (c, [])
    else
      var (d, out) := EncodeChunks(After(c, chunks[0]), chunks[1..]);
      (d, Output(c, chunks[0]) + out)
  }

  lemma {:induction false} EncoderChunkIndependence(c: State, chunks: seq<seq<byte>>)
    requires c.inPos <= 3
    ensures EncodeChunks(c, chunks) == (After(c, Flatten(chunks)), Output(c, Flatten(chunks)))
    decreases |chunks|
  {
    hide Output, After;
    if chunks == [] {
      OutputNothing(c);
    } else {
      OutputConcat(c, chunks[0], Flatten(chunks[1..]));
      EncoderChunkIndependence(After(c, chunks[0]), chunks[1..]);
    }
  }

  lemma OutputNothing(c: State)
    requires c.inPos <= 3
    ensures Output(c, []) == [] && After(c, []) == c
  {
  }

  //////////////////////////// the encoder's text ////////////////////////////

  lemma {:induction false} FieldsAreEncoded(s: seq<byte>)
    ensures var (p, x) := Position(0, 0, s);
            Fields(0, 0, s) + FinalFields(p, x, false) == Encoded(s)
  {
    hide Encode1, Encode2, Encode3, Encode4;
    if |s| >= 3 {
      hide Fields, Position, FinalFields;
      FieldsAreEncoded(s[3..]);
      FieldsOfGroup(s[0], s[1], s[2], s[3..]);
      assert s == [s[0], s[1]] + [s[2]] + s[3..];
      var (p, x) := Position(0, 0, s[3..]);
      Regroup(Encode1(s[0]), Encode2(s[0], s[1]), Encode3(s[1], s[2]), Encode4(s[2]),
              Fields(0, 0, s[3..]), FinalFields(p, x, false));
    } else if |s| == 2 {
      FieldsOfTwo(s[0], s[1]);
      assert s == [s[0], s[1]];
    } else if |s| == 1 {
      assert s[1..] == [];
    }
  }

  lemma FieldsOfGroup(a: byte, b: byte, c: byte, rest: seq<byte>)
    ensures Fields(0, 0, [a, b] + [c] + rest) ==
      [Encode1(a), Encode2(a, b)] + [Encode3(b, c), Encode4(c)] + Fields(0, 0, rest)
    ensures Position(0, 0, [a, b] + [c] + rest) == Position(0, 0, rest)
  {
    hide Fields, Position, Encode1, Encode2, Encode3, Encode4;
    FieldsOfTwo(a, b);
    FieldsOfThird(b, c);
    FieldsConcat(0, 0, [a, b], [c]);
    FieldsConcat(0, 0, [a, b] + [c], rest);
  }

  lemma Regroup<T>(a: T, b: T, c: T, d: T, rest: seq<T>, last: seq<T>)
    ensures [a, b] + [c, d] + rest + last == [a, b, c, d] + (rest + last)
  {
  }

  lemma FieldsOfTwo(a: byte, b: byte)
    ensures Fields(0, 0, [a, b]) == [Encode1(a), Encode2(a, b)]
    ensures Position(0, 0, [a, b]) == (2, b)
  {
    hide Encode1, Encode2, Encode3, Encode4;
    assert [a, b][1..] == [b] && [b][1..] == [];
    assert Fields(1, a, [b]) == [Encode2(a, b)];
    assert Position(1, a, [b]) == (2, b);
  }

  lemma FieldsOfThird(b: byte, c: byte)
    ensures Fields(2, b, [c]) == [Encode3(b, c), Encode4(c)]
    ensures Position(2, b, [c]) == (0, 0)
  {
    hide Encode1, Encode2, Encode3, Encode4;
    assert [c][1..] == [];
  }

  lemma {:induction false} LayIsWrap(columns: nat, t: seq<byte>)
    ensures Lay(columns, 0, t) == Wrap(columns, t)
    decreases |t|
  {
    if columns == 0 || |t| <= columns {
      LayInLine(columns, 0, t);
    } else {
      var line, rest := t[..columns], t[columns..];
      assert t == line + rest;
      LayInLine(columns, 0, line);
      LayConcat(columns, 0, line, rest);
      LayIsWrap(columns, rest);
    }
  }

  lemma {:induction false} LayInLine(columns: nat, linePos: nat, t: seq<byte>)
    requires columns == 0 || linePos + |t| <= columns
    ensures Lay(columns, linePos, t) == t
    ensures LineAfter(columns, linePos, |t|) == linePos + |t|
    decreases |t|
  {
    if t != [] {
      LayInLine(columns, linePos + 1, t[1..]);
    }
  }

  /** Updates over any chunks followed by Final write exactly the wrapped base64 of the input. */
  lemma EncoderWritesBase64(columns: nat, chunks: seq<seq<byte>>)
    ensures var (c, out) := EncodeChunks(Fresh(columns), chunks);
            out + FinalOutput(c) == Wrap(columns, Base64(Flatten(chunks)))
  {
    EncoderChunkIndependence(Fresh(columns), chunks);
    EncodedText(columns, Flatten(chunks));
  }

  lemma EncodedText(columns: nat, s: seq<byte>)
    ensures Output(Fresh(columns), s) + FinalOutput(After(Fresh(columns), s)) == Wrap(columns, Base64(s))
  {
    hide Encoded, Fields, FinalFields, Position, Symbols, Lay, LineAfter;
    var (p, x) := Position(0, 0, s);
    var ka, kb := Fields(0, 0, s), FinalFields(p, x, false);
    FieldsAreEncoded(s);
    SymbolsConcat(ka, kb);
    LayConcat(columns, 0, Symbols(ka), Symbols(kb));
    LayIsWrap(columns, Base64(s));
  }

  /** The layout of the text a whole encoder run writes when lines are limited. */
  lemma EncoderLayout(columns: nat, chunks: seq<seq<byte>>)
    requires columns > 0
    ensures var (c, out) := EncodeChunks(Fresh(columns), chunks);
            var text := out + FinalOutput(c);
            && Stripped(text) == Encoded(Flatten(chunks))
            && (forall i | 0 <= i < |text| :: text[i] == 10 <==> i % (columns + 1) == columns)
            && (text != [] ==> text[|text| - 1] != 10)
  {
    var s := Flatten(chunks);
    EncoderWritesBase64(columns, chunks);
    StrippedWrap(columns, Encoded(s));
    forall i | 0 <= i < |Base64(s)|
      ensures Base64(s)[i] != NL
    {
      CodeSymbol(Encoded(s)[i]);
    }
    WrapLayout(columns, Base64(s));
  }

  //////////////////////////// chunk independence of the decoder ////////////////////////////

  /** Feeding a and then b: the second run starts from the state the first one left. */
  lemma {:induction false} RunConcat(c: State, a: seq<code>, b: seq<code>)
    requires Decoding(c)
    ensures var ra := Run(c, a);
            Run(c, a + b) == if !ra.ok then ra
                             else var rb := Run(ra.state, b); rb.(out := ra.out + rb.out)
    decreases |a|
  {
    hide Decode1, Decode2, Decode3, Run, AllSpace;
    if a == [] {
      assert a + b == b;
      RunNothing(c);
    } else if Closed(c) {
      AllSpaceConcat(a, b);
      RunClosed(c, a);
      RunClosed(c, b);
      RunClosed(c, a + b);
    } else {
      assert (a + b)[1..] == a[1..] + b;
      RunStep(c, a);
      RunStep(c, a + b);
      var step := DecodeStep(c, a[0]);
      if step.status != Failed {
        RunConcat(step.state, a[1..], b);
      }
    }
  }

  lemma RunTextConcat(c: State, a: seq<byte>, b: seq<byte>)
    requires Decoding(c)
    ensures var ra := Run(c, Codes(a));
            Run(c, Codes(a + b)) == if !ra.ok then ra
                                    else var rb := Run(ra.state, Codes(b)); rb.(out := ra.out + rb.out)
  {
    hide Run;
    CodesConcat(a, b);
    RunConcat(c, Codes(a), Codes(b));
  }

  lemma RunClosed(c: State, ks: seq<code>)
    requires Decoding(c) && Closed(c)
    ensures Run(c, ks) == Outcome(c, [], AllSpace(ks))
  {
  }

  lemma AllSpaceConcat(a: seq<code>, b: seq<code>)
    ensures AllSpace(a + b) <==> AllSpace(a) && AllSpace(b)
  {
    if AllSpace(a + b) {
      forall i | 0 <= i < |b|
        ensures b[i] == SPACE
      {
        assert (a + b)[|a| + i] == SPACE;
      }
      forall i | 0 <= i < |a|
        ensures a[i] == SPACE
      {
        assert (a + b)[i] == SPACE;
      }
    }
  }

  /** Successive decoder updates over a list of chunks; the first refusal stops them. */
  function RunChunks(c: State, chunks: seq<seq<byte>>): (r: Outcome)
    requires Decoding(c)
    ensures Decoding(r.state)
    decreases |chunks|
  {
    if chunks == [] then Outcome(c, [], true)
    else
      var first := Run(c, Codes(chunks[0]));
      if !first.ok then first
      else
        var rest := RunChunks(first.state, chunks[1..]);
        rest.(out := first.out + rest.out)
  }

  /** The run over the first k + 1 chunks continues the run over the first k, and a refusal stays. */
  lemma RunNextChunk(c: State, chunks: seq<seq<byte>>, k: nat)
    requires Decoding(c) && k < |chunks|
    ensures var r := Run(c, Codes(Flatten(chunks[..k])));
            var next := Run(c, Codes(Flatten(chunks[..k + 1])));
            && (r.ok ==> var rk := Run(r.state, Codes(chunks[k])); next == rk.(out := r.out + rk.out))
            && (!next.ok ==> !Run(c, Codes(Flatten(chunks))).ok)
  {
    hide Run;
    var s := Flatten(chunks[..k]);
    FlattenSnoc(chunks[..k], chunks[k]);
    assert chunks[..k + 1] == chunks[..k] + [chunks[k]];
    RunTextConcat(c, s, chunks[k]);
    FlattenSplit(chunks, k + 1);
    RunTextConcat(c, Flatten(chunks[..k + 1]), Flatten(chunks[k + 1..]));
  }

  lemma {:induction false} DecoderChunkIndependence(c: State, chunks: seq<seq<byte>>)
    requires Decoding(c)
    ensures RunChunks(c, chunks) == Run(c, Codes(Flatten(chunks)))
    decreases |chunks|
  {
    if chunks != [] {
      hide Run;
      var rest := Flatten(chunks[1..]);
      CodesConcat(chunks[0], rest);
      RunConcat(c, Codes(chunks[0]), Codes(rest));
      var first := Run(c, Codes(chunks[0]));
      if first.ok {
        DecoderChunkIndependence(first.state, chunks[1..]);
      }
    }
  }

  //////////////////////////// the decoder's language ////////////////////////////

  /** Whitespace makes no difference to a run. */
  lemma {:induction false} RunSkipsSpaces(c: State, ks: seq<code>)
    requires Decoding(c)
    ensures Run(c, ks) == Run(c, Significant(ks))
    decreases |ks|
  {
    hide Decode1, Decode2, Decode3;
    if Closed(c) {
      RunClosed(c, ks);
      RunClosed(c, Significant(ks));
      SignificantOfSpaces(ks);
      SignificantOfSpaces(Significant(ks));
      SignificantTwice(ks);
    } else if ks != [] {
      var step := DecodeStep(c, ks[0]);
      if step.status != Failed {
        RunSkipsSpaces(step.state, ks[1..]);
      }
      if ks[0] != SPACE {
        assert Significant(ks)[0] == ks[0] && Significant(ks)[1..] == Significant(ks[1..]);
      }
    }
  }

  lemma {:induction false} SignificantTwice(ks: seq<code>)
    ensures SPACE !in Significant(ks) && Significant(Significant(ks)) == Significant(ks)
  {
    if ks != [] {
      SignificantTwice(ks[1..]);
    }
  }

  /** A run over one character, then the rest. */
  lemma RunStep(c: State, ks: seq<code>)
    requires Decoding(c) && !Closed(c) && ks != []
    ensures var step := DecodeStep(c, ks[0]);
            Run(c, ks) == if step.status == Failed then Outcome(step.state, [], false)
                          else var r := Run(step.state, ks[1..]);
                               if step.status == Next then r else r.(out := [step.out] + r.out)
  {
    hide Decode1, Decode2, Decode3;
  }

  /** The first character of a text decides the first iteration of the loop. */
  lemma RunWithinHead(c: State, t: seq<byte>, room: nat)
    requires Decoding(c) && t != [] && room > 0
    ensures var step := DecodeStep(c, Code(t[0]));
            RunWithin(c, Codes(t), room) ==
              if step.status == Done || step.status == Failed then Halt(step.state, step.status, [], Codes(t))
              else if step.status == Next then RunWithin(step.state, Codes(t[1..]), room)
              else var h := RunWithin(step.state, Codes(t[1..]), room - 1); h.(out := [step.out] + h.out)
  {
    hide Code, Decode1, Decode2, Decode3;
    assert Codes(t)[1..] == Codes(t[1..]);
  }

  /** The loop does what an unlimited run does until the room is used up. */
  lemma {:induction false} RunWithinIsRun(c: State, ks: seq<code>, room: nat)
    requires Decoding(c)
    ensures var h, r := RunWithin(c, ks, room), Run(c, ks);
            && |h.out| <= room && |h.out| + |h.rest| <= |ks|
            && (h.status == Failed ==> |h.out| < room && r == Outcome(h.state, h.out, false))
            && (h.status == Done ==> |h.out| < room && h.rest != [] && r == Outcome(h.state, h.out, AllSpace(h.rest)))
            && (h.status != Failed && h.status != Done ==>
                  && h.status == Next && (|h.out| == room || h.rest == [])
                  && var left := Run(h.state, h.rest); r == left.(out := h.out + left.out))
    decreases |ks|
  {
    hide Decode1, Decode2, Decode3, Run, AllSpace;
    if ks == [] || room == 0 {
    } else if Closed(c) {
      RunClosed(c, ks);
    } else {
      RunStep(c, ks);
      var step := DecodeStep(c, ks[0]);
      if step.status != Failed {
        RunWithinIsRun(step.state, ks[1..], if step.status == Next then room else room - 1);
      }
    }
  }

  /** An unlimited run that leaves a position free is the loop's run. */
  lemma RunThatFits(c: State, ks: seq<code>, room: nat)
    requires Decoding(c)
    ensures var h, r := RunWithin(c, ks, room), Run(c, ks);
            if |r.out| < room then
              && (r.ok <==> h.status != Failed && AllSpace(h.rest))
              && h.out == r.out && h.state == r.state
            else
              h.status == Next && h.out == r.out[..room]
  {
    hide Run, RunWithin, AllSpace;
    RunWithinIsRun(c, ks, room);
    var h := RunWithin(c, ks, room);
    if h.rest == [] {
      RunNothing(h.state);
      AllSpaceNothing();
    }
  }

  lemma AllSpaceNothing()
    ensures AllSpace([])
  {
  }

  lemma RunEnd(c: State)
    requires Decoding(c)
    ensures Run(c, Codes([])) == Outcome(c, [], true)
  {
  }

  /** A run from the start of a group accepts and closes every group exactly on well-formed input. */
  predicate Accepts(r: Outcome) {
    r.ok && r.state.inPos == 0
  }

  lemma {:induction false} RunIsDecoded(c: State, ks: seq<code>)
    requires Decoding(c) && c.inPos == 0 && !c.finished && SPACE !in ks
    ensures Accepts(Run(c, ks)) <==> WellFormed(ks)
    ensures WellFormed(ks) ==> Run(c, ks).out == Decoded(ks)
    decreases |ks|
  {
    hide Decode1, Decode2, Decode3, Run;
    if |ks| < 4 || !FullGroup(ks) {
      RunLastGroup(c, ks);
    } else {
      RunFullGroup(c, ks);
      RunIsDecoded(c.(inByte := 0), ks[4..]);
    }
  }

  lemma RunFullGroup(c: State, ks: seq<code>)
    requires Decoding(c) && c.inPos == 0 && !c.finished && |ks| >= 4 && FullGroup(ks)
    ensures var r := Run(c.(inByte := 0), ks[4..]);
            Run(c, ks) == r.(out := [Decode1(ks[0], ks[1]), Decode2(ks[1], ks[2]), Decode3(ks[2], ks[3])] + r.out)
  {
    hide Decode1, Decode2, Decode3, Run;
    RunFirstHalf(c, ks);
    RunSecondHalf(c.(inByte := ks[1], inPos := 2), ks[2..]);
    assert ks[2..][2..] == ks[4..];
    var r := Run(c.(inByte := 0), ks[4..]);
    var a, b, d := Decode1(ks[0], ks[1]), Decode2(ks[1], ks[2]), Decode3(ks[2], ks[3]);
    assert [a] + ([b, d] + r.out) == [a, b, d] + r.out;
  }

  lemma RunFirstHalf(c: State, ks: seq<code>)
    requires Decoding(c) && c.inPos == 0 && !c.finished && |ks| >= 2 && ks[0] < 64 && ks[1] < 64
    ensures var r := Run(c.(inByte := ks[1], inPos := 2), ks[2..]);
            Run(c, ks) == r.(out := [Decode1(ks[0], ks[1])] + r.out)
  {
    hide Decode1, Decode2, Decode3, Run;
    RunStep(c, ks);
    RunStep(c.(inByte := ks[0], inPos := 1), ks[1..]);
    assert ks[1..][1..] == ks[2..];
  }

  lemma RunSecondHalf(c: State, ks: seq<code>)
    requires Decoding(c) && c.inPos == 2 && !c.finished && |ks| >= 2 && ks[0] < 64 && ks[1] < 64
    ensures var r := Run(c.(inByte := 0, inPos := 0), ks[2..]);
            Run(c, ks) == r.(out := [Decode2(c.inByte, ks[0]), Decode3(ks[0], ks[1])] + r.out)
  {
    hide Decode1, Decode2, Decode3, Run;
    RunStep(c, ks);
    RunStep(c.(inByte := ks[0], inPos := 3), ks[1..]);
    assert ks[1..][1..] == ks[2..];
    JoinTwo(Decode2(c.inByte, ks[0]), Decode3(ks[0], ks[1]), Run(c.(inByte := 0, inPos := 0), ks[2..]).out);
  }

  lemma JoinTwo(a: byte, b: byte, rest: seq<byte>)
    ensures [a] + ([b] + rest) == [a, b] + rest
  {
  }

  lemma RunNothing(c: State)
    requires Decoding(c)
    ensures Run(c, []) == Outcome(c, [], true)
  {
  }

  lemma RunLastGroup(c: State, ks: seq<code>)
    requires Decoding(c) && c.inPos == 0 && !c.finished && SPACE !in ks
    requires |ks| >= 4 ==> !FullGroup(ks)
    ensures Accepts(Run(c, ks)) <==> WellFormed(ks)
    ensures WellFormed(ks) ==> Run(c, ks).out == Decoded(ks)
  {
    hide Decode1, Decode2, Decode3, Run;
    if ks == [] {
      RunNothing(c);
    } else {
      RunStep(c, ks);
      if ks[0] < 64 {
        RunFromSecond(c.(inByte := ks[0], inPos := 1), ks);
      }
    }
  }

  lemma RunFromSecond(c: State, ks: seq<code>)
    requires Decoding(c) && c.inPos == 1 && !c.finished && SPACE !in ks
    requires |ks| >= 1 && c.inByte == ks[0] && (|ks| >= 4 ==> !FullGroup(ks))
    ensures Accepts(Run(c, ks[1..])) <==> WellFormed(ks)
    ensures WellFormed(ks) ==> Run(c, ks[1..]).out == Decoded(ks)
  {
    hide Decode1, Decode2, Decode3, Run;
    if |ks| == 1 {
      RunNothing(c);
    } else {
      RunStep(c, ks[1..]);
      assert ks[1..][1..] == ks[2..];
      if ks[1] < 64 {
        RunFromThird(c.(inByte := ks[1], inPos := 2), ks);
      }
    }
  }

  lemma RunFromThird(c: State, ks: seq<code>)
    requires Decoding(c) && c.inPos == 2 && !c.finished && SPACE !in ks
    requires |ks| >= 2 && ks[0] < 64 && c.inByte == ks[1] && (|ks| >= 4 ==> !FullGroup(ks))
    ensures Accepts(Run(c, ks[2..])) <==> WellFormed(ks)
    ensures WellFormed(ks) ==> [Decode1(ks[0], ks[1])] + Run(c, ks[2..]).out == Decoded(ks)
  {
    hide Decode1, Decode2, Decode3, Run;
    if |ks| == 2 {
      RunNothing(c);
    } else {
      RunStep(c, ks[2..]);
      assert ks[2..][1..] == ks[3..];
      if ks[2] < 64 || ks[2] == PAD {
        RunFromFourth(DecodeStep(c, ks[2]).state, ks);
      }
    }
  }

  lemma RunFromFourth(c: State, ks: seq<code>)
    requires Decoding(c) && c.inPos == 3 && SPACE !in ks
    requires |ks| >= 3 && ks[0] < 64 && ks[1] < 64 && (|ks| >= 4 ==> !FullGroup(ks))
    requires if c.finished then ks[2] == PAD else ks[2] < 64
    ensures Accepts(Run(c, ks[3..])) <==> WellFormed(ks)
    ensures WellFormed(ks) ==> Run(c, ks[3..]).out == []
  {
    hide Decode1, Decode2, Decode3, Run;
    if |ks| == 3 {
      RunNothing(c);
    } else {
      RunStep(c, ks[3..]);
      assert ks[3..][1..] == ks[4..];
      if ks[3] == PAD {
        RunClosed(c.(finished := true, inPos := 0), ks[4..]);
        assert |ks| > 4 ==> ks[4..][0] == ks[4] && ks[4] in ks;
      }
    }
  }

  /** Exactly the well-formed texts, whitespace aside, are accepted, and they decode to their octets. */
  lemma DecoderLanguage(columns: nat, chunks: seq<seq<byte>>)
    ensures var r := RunChunks(Fresh(columns), chunks);
            var ks := Stripped(Flatten(chunks));
            && (Accepts(r) <==> WellFormed(ks))
            && (WellFormed(ks) ==> r.out == Decoded(ks))
  {
    hide Run, RunChunks;
    var text := Flatten(chunks);
    DecoderChunkIndependence(Fresh(columns), chunks);
    RunSkipsSpaces(Fresh(columns), Codes(text));
    SignificantTwice(Codes(text));
    RunIsDecoded(Fresh(columns), Stripped(text));
  }

  /** The codec's law: any chunking of the octets, any line length, any chunking of the text. */
  lemma RoundTrip(columns: nat, input: seq<seq<byte>>, text: seq<seq<byte>>, decoderColumns: nat)
    requires var (c, out) := EncodeChunks(Fresh(columns), input); Flatten(text) == out + FinalOutput(c)
    ensures var r := RunChunks(Fresh(decoderColumns), text); Accepts(r) && r.out == Flatten(input)
  {
    hide Run, RunChunks, EncodeChunks, FinalOutput;
    EncoderWritesBase64(columns, input);
    DecodeWrapped(columns, Flatten(input));
    DecoderLanguage(decoderColumns, text);
  }

  /** Re-encoding what a run decoded gives the text without whitespace back exactly when the
      unused bits of its last group are zero. */
  lemma Reencode(columns: nat, text: seq<seq<byte>>)
    requires Accepts(RunChunks(Fresh(columns), text))
    ensures var r := RunChunks(Fresh(columns), text);
            var ks := Stripped(Flatten(text));
            && WellFormed(ks)
            && (Base64(r.out) == Unspaced(Flatten(text)) <==> ZeroLeftover(ks))
  {
    hide Run, RunChunks;
    DecoderLanguage(columns, text);
    ReencodeText(Flatten(text));
  }
}
