/**
The streaming codec of src/base64.c as a state machine over values: one step per character, the
output a context still owes for the input it is about to get, and what a run of steps amounts to.
*/
module Base64Stream {
  import opened Bytes
  import opened Base64Spec

  datatype Status = ConsumeAndNext | ConsumeAndRepeat | Next | Done | Failed

  datatype State = State(columns: nat, inByte: byte, inPos: nat, linePos: nat, finished: bool)

  datatype Step = Step(state: State, status: Status, out: byte)

  function Fresh(columns: nat): State {
    State(columns, 0, 0, 0, false)
  }

  /** The current line is full: the next character must be preceded by a line break. */
  predicate LineFull(c: State) {
    c.columns > 0 && c.linePos >= c.columns
  }

  //////////////////////////// encoder ////////////////////////////

  /** One call for the input octet b; a Repeat status asks for b to be offered again. */
  function EncodeStep(c: State, b: byte): Step
    requires c.inPos <= 3
  {
    if LineFull(c) then
      Step(c.(linePos := 0), ConsumeAndRepeat, NL)
    else if c.inPos == 0 then
      Step(c.(inByte := b, inPos := 1, linePos := c.linePos + 1), ConsumeAndNext, Symbol(Encode1(b)))
    else if c.inPos == 1 then
      Step(c.(inByte := b, inPos := 2, linePos := c.linePos + 1), ConsumeAndNext, Symbol(Encode2(c.inByte, b)))
    else if c.inPos == 2 then
      Step(c.(inByte := b, inPos := 3, linePos := c.linePos + 1), ConsumeAndRepeat, Symbol(Encode3(c.inByte, b)))
    else
      Step(c.(inByte := 0, inPos := 0, linePos := c.linePos + 1), ConsumeAndNext, Symbol(Encode4(c.inByte)))
  }

  /** One call when the input is over. */
  function EncodeFinalStep(c: State): Step
    requires c.inPos <= 3
  {
    if c.inPos == 0 then
      Step(c, Done, 0)
    else if LineFull(c) then
      Step(c.(linePos := 0), ConsumeAndRepeat, NL)
    else if !c.finished then
      EncodeStep(c.(finished := true), 0)
    else if c.inPos < 3 then
      Step(c.(inPos := c.inPos + 1, linePos := c.linePos + 1), ConsumeAndRepeat, Symbol(PAD))
    else
      Step(c.(inPos := 0, linePos := c.linePos + 1), ConsumeAndRepeat, Symbol(PAD))
  }

  /** The fields a context at position inPos emits while it consumes s, and where it ends up. */
  function Fields(inPos: nat, inByte: byte, s: seq<byte>): (ks: seq<code>)
    requires inPos <= 3
    ensures Printable(ks)
    decreases |s|
  {
    if s == [] then []
    else if inPos == 0 then [Encode1(s[0])] + Fields(1, s[0], s[1..])
    else if inPos == 1 then [Encode2(inByte, s[0])] + Fields(2, s[0], s[1..])
    else if inPos == 2 then [Encode3(inByte, s[0]), Encode4(s[0])] + Fields(0, 0, s[1..])
    else [Encode4(inByte)] + Fields(0, 0, s[1..])
  }

  function Position(inPos: nat, inByte: byte, s: seq<byte>): (r: (nat, byte))
    requires inPos <= 3
    ensures r.0 <= 3
    decreases |s|
  {
    if s == [] then (inPos, inByte)
    else if inPos < 2 then Position(inPos + 1, s[0], s[1..])
    else Position(0, 0, s[1..])
  }

  /** The fields that finish the group a context has started. */
  function FinalFields(inPos: nat, inByte: byte, finished: bool): (ks: seq<code>)
    requires inPos <= 3
    ensures Printable(ks)
  {
    if inPos == 0 then []
    else if finished then seq(4 - inPos, _ => PAD)
    else if inPos == 1 then [Encode2(inByte, 0), PAD, PAD]
    else if inPos == 2 then [Encode3(inByte, 0), PAD]
    else [Encode4(inByte)]
  }

  /** Text laid out in lines when linePos characters of the current line are already written. */
  function Lay(columns: nat, linePos: nat, t: seq<byte>): seq<byte>
    decreases |t|, columns > 0 && linePos >= columns
  {
    if t == [] then []
    else if columns > 0 && linePos >= columns then [NL] + Lay(columns, 0, t)
    else [t[0]] + Lay(columns, linePos + 1, t[1..])
  }

  function LineAfter(columns: nat, linePos: nat, n: nat): nat
    decreases n, columns > 0 && linePos >= columns
  {
    if n == 0 then linePos
    else if columns > 0 && linePos >= columns then LineAfter(columns, 0, n)
    else LineAfter(columns, linePos + 1, n - 1)
  }

  /** Everything a context writes while it consumes s, given room. */
  function Output(c: State, s: seq<byte>): seq<byte>
    requires c.inPos <= 3
  {
    Lay(c.columns, c.linePos, Symbols(Fields(c.inPos, c.inByte, s)))
  }

  function After(c: State, s: seq<byte>): (d: State)
    requires c.inPos <= 3
    ensures d.inPos <= 3 && d.columns == c.columns
  {
    var (p, b) := Position(c.inPos, c.inByte, s);
    c.(inPos := p, inByte := b,
       linePos := LineAfter(c.columns, c.linePos, |Fields(c.inPos, c.inByte, s)|))
  }

  function FinalOutput(c: State): seq<byte>
    requires c.inPos <= 3
  {
    Lay(c.columns, c.linePos, Symbols(FinalFields(c.inPos, c.inByte, c.finished)))
  }

  //////////////////////////// decoder ////////////////////////////

  /** A padded group is complete: only whitespace may follow. */
  predicate Closed(c: State) {
    c.finished && c.inPos == 0
  }

  predicate Decoding(c: State) {
    c.inPos <= 3 && c.inByte < 64
  }

  function DecodeStep(c: State, k: code): (r: Step)
    requires Decoding(c)
    ensures Decoding(r.state) && !r.status.ConsumeAndRepeat?
  {
    if Closed(c) then
      Step(c, Done, 0)
    else if k == PAD then
      var d := c.(finished := true);
      if c.inPos == 2 then Step(d.(inPos := 3), Next, 0)
      else if c.inPos == 3 then Step(d.(inPos := 0), Next, 0)
      else Step(d, Failed, 0)
    else if k == SPACE then
      Step(c, Next, 0)
    else if k == OTHER || c.finished then
      Step(c, Failed, 0)
    else if c.inPos == 0 then
      Step(c.(inByte := k, inPos := 1), Next, 0)
    else if c.inPos == 1 then
      Step(c.(inByte := k, inPos := 2), ConsumeAndNext, Decode1(c.inByte, k))
    else if c.inPos == 2 then
      Step(c.(inByte := k, inPos := 3), ConsumeAndNext, Decode2(c.inByte, k))
    else
      Step(c.(inByte := 0, inPos := 0), ConsumeAndNext, Decode3(c.inByte, k))
  }

  /** What feeding characters to a decoding context amounts to: its state, the octets it wrote,
      and whether every character was accepted. */
  datatype Outcome = Outcome(state: State, out: seq<byte>, ok: bool)

  function Run(c: State, ks: seq<code>): (r: Outcome)
    requires Decoding(c)
    ensures Decoding(r.state)
    decreases |ks|
  {
    if ks == [] then Outcome(c, [], true)
    else
      var step := DecodeStep(c, ks[0]);
      if step.status == Done then Outcome(c, [], AllSpace(ks))
      else if step.status == Failed then Outcome(step.state, [], false)
      else
        var r := Run(step.state, ks[1..]);
        if step.status == Next then r else r.(out := [step.out] + r.out)
  }

  /** Where the decoding loop stops when it may write only `room` octets: its state, the last
      status (Next when it just ran out of text or room), its output and the text not consumed. */
  datatype Halt = Halt(state: State, status: Status, out: seq<byte>, rest: seq<code>)

  function RunWithin(c: State, ks: seq<code>, room: nat): (h: Halt)
    requires Decoding(c)
    ensures Decoding(h.state)
    decreases |ks|
  {
    if ks == [] || room == 0 then Halt(c, Next, [], ks)
    else
      var step := DecodeStep(c, ks[0]);
      if step.status == Done || step.status == Failed then Halt(step.state, step.status, [], ks)
      else if step.status == Next then RunWithin(step.state, ks[1..], room)
      else
        var h := RunWithin(step.state, ks[1..], room - 1);
        h.(out := [step.out] + h.out)
  }
}
