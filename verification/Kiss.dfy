/** KISS frames between the device and the Python interface: the writers of both sides, and the reader. */
module Kiss {
  import opened ByteFields
  import opened Wrappers

  const FEND: byte := 0xC0
  const FESC: byte := 0xDB
  const TFEND: byte := 0xDC
  const TFESC: byte := 0xDD
  const CMD_UNKNOWN: byte := 0xFE
  const CMD_DATA: byte := 0x00
  const CMD_FREQUENCY: byte := 0x01
  const CMD_BANDWIDTH: byte := 0x02
  const CMD_READY: byte := 0x0F
  const MTU := 500

  // ----- escaping

  /** `data.replace(bytes([x]), pair)`. */
  function ReplaceByte(data: seq<byte>, x: byte, pair: seq<byte>): seq<byte> {
    if data == [] then [] else (if data[0] == x then pair else [data[0]]) + ReplaceByte(data[1..], x, pair)
  }

  /** `KISS.escape`: two passes over the data, the escape byte first. */
  function Escape(data: seq<byte>): seq<byte> {
    ReplaceByte(ReplaceByte(data, FESC, [FESC, TFESC]), FEND, [FESC, TFEND])
  }

  /** `escaped_serial_write`: what it writes for one byte. */
  function EscapedByte(b: byte): seq<byte> {
    var first := if b == FEND then [FESC] else [];
    var b1 := if b == FEND then TFEND else b;
    var second := if b1 == FESC then [FESC] else [];
    var b2 := if b1 == FESC then TFESC else b1;
    first + second + [b2]
  }

  function EscapedBytes(data: seq<byte>): seq<byte> {
    if data == [] then [] else EscapedByte(data[0]) + EscapedBytes(data[1..])
  }

  lemma {:induction false} ReplaceAppend(a: seq<byte>, b: seq<byte>, x: byte, pair: seq<byte>)
    ensures ReplaceByte(a + b, x, pair) == ReplaceByte(a, x, pair) + ReplaceByte(b, x, pair)
  {
    if a == [] {
      assert a + b == b;
    } else {
      assert (a + b)[0] == a[0] && (a + b)[1..] == a[1..] + b;
      ReplaceAppend(a[1..], b, x, pair);
    }
  }

  /** The host's two passes and the device's byte at a time give the same bytes. */
  lemma {:induction false} EscapeIsBytewise(data: seq<byte>)
    ensures Escape(data) == EscapedBytes(data)
  {
    if data != [] {
      var b, rest := data[0], data[1..];
      var once := if b == FESC then [FESC, TFESC] else [b];
      ReplaceAppend(once, ReplaceByte(rest, FESC, [FESC, TFESC]), FEND, [FESC, TFEND]);
      assert once[1..] == [] || once[1..] == [TFESC];
      assert [TFESC][1..] == [];
      EscapeIsBytewise(rest);
    }
  }

  /** An escaped body never contains the frame delimiter. */
  lemma {:induction false} NoFendInside(data: seq<byte>)
    ensures FEND !in EscapedBytes(data)
  {
    if data != [] { NoFendInside(data[1..]); }
  }

  function Wrap(command: byte, body: seq<byte>): seq<byte> {
    [FEND, command] + body + [FEND]
  }

  /** The frame `processOutgoing` writes. */
  function DataFrame(payload: seq<byte>): seq<byte> {
    Wrap(CMD_DATA, Escape(payload))
  }

  lemma FrameNotEmpty(payload: seq<byte>)
    ensures DataFrame(payload) != []
  {
  }

  type uint32 = n: int | 0 <= n < 0x1_0000_0000

  function NumberCommand(bandwidth: bool): byte { if bandwidth then CMD_BANDWIDTH else CMD_FREQUENCY }

  /** `kiss_indicate_frequency` and `kiss_indicate_bandwidth`: four bytes, the high-order one first. */
  function NumberFrame(bandwidth: bool, n: uint32): seq<byte> {
    Wrap(NumberCommand(bandwidth), EscapedBytes(Pack(Big, 4, n)))
  }

  // ----- the reader's protocol

  datatype Event =
    | Incoming(data: seq<byte>)
    | Number(bandwidth: bool, value: nat)
    | Ready
    | Other(command: byte, b: byte)

  /** Where in a frame the reader is. `escape` outlives the frame it was seen in. */
  datatype Phase =
    | Outside(escape: bool)
    | Opened(escape: bool)
    | InData(got: seq<byte>, escape: bool)
    | InNumber(bandwidth: bool, got: seq<byte>, escape: bool)
    | InOther(command: byte, escape: bool)

  function Undo(escape: bool, b: byte): byte {
    if escape && b == TFEND then FEND else if escape && b == TFESC then FESC else b
  }

  function Step(phase: Phase, b: byte): Phase {
    if b == FEND then (if phase.InData? then Outside(phase.escape) else Opened(phase.escape)) else
    match phase
    case Outside(_) => phase
    case Opened(escape) =>
      if b == CMD_UNKNOWN then phase
      else if b == CMD_DATA then InData([], escape)
      else if b == CMD_FREQUENCY || b == CMD_BANDWIDTH then InNumber(b == CMD_BANDWIDTH, [], escape)
      else InOther(b, escape)
    case InData(got, escape) =>
      if |got| >= MTU then phase
      else if b == FESC then InData(got, true)
      else InData(got + [Undo(escape, b)], false)
    case InNumber(bandwidth, got, escape) =>
      if b == FESC then InNumber(bandwidth, got, true) else InNumber(bandwidth, got + [Undo(escape, b)], false)
    case InOther(_, _) => phase
  }

  function Events(phase: Phase, b: byte): seq<Event> {
    match phase
    case InData(got, _) => if b == FEND then [Incoming(got)] else []
    case InNumber(bandwidth, got, escape) =>
      if b != FEND && b != FESC && |got| == 3
      then [Number(bandwidth, Unpack(Big, got + [Undo(escape, b)]))] else []
    case InOther(command, _) =>
      if b == FEND then [] else if command == CMD_READY then [Ready] else [Other(command, b)]
    case _ => []
  }

  /** The variables of `readLoop`. */
  class Reader {
    var inFrame: bool
    var escape: bool
    var command: byte
    var dataBuffer: seq<byte>
    var commandBuffer: seq<byte>
    var frequency: Option<nat>
    var bandwidth: Option<nat>

    ghost predicate Shows(phase: Phase)
      reads this
    {
      && escape == phase.escape
      && inFrame == !phase.Outside?
      && dataBuffer == (if phase.InData? then phase.got else [])
      && commandBuffer == (if phase.InNumber? then phase.got else [])
      && match phase
         case Outside(_) => true
         case Opened(_) => command == CMD_UNKNOWN
         case InData(_, _) => command == CMD_DATA
         case InNumber(bw, _, _) => command == NumberCommand(bw)
         case InOther(c, _) => command == c && c !in {CMD_UNKNOWN, CMD_DATA, CMD_FREQUENCY, CMD_BANDWIDTH}
    }

    constructor ()
      ensures Shows(Outside(false))
    {
      inFrame, escape, command, dataBuffer, commandBuffer := false, false, CMD_UNKNOWN, [], [];
      frequency, bandwidth := None, None;
    }

    /** One byte through the loop. */
    method OnByte(b: byte, ghost phase: Phase) returns (events: seq<Event>)
      requires Shows(phase)
      modifies this
      ensures Shows(Step(phase, b)) && events == Events(phase, b)
      ensures forall n: nat :: Number(false, n) in events ==> frequency == Some(n)
      ensures forall n: nat :: Number(true, n) in events ==> bandwidth == Some(n)
      ensures frequency != old(frequency) ==> frequency.Some? && events == [Number(false, frequency.value)]
      ensures bandwidth != old(bandwidth) ==> bandwidth.Some? && events == [Number(true, bandwidth.value)]
    {
      hide Unpack;
      events := [];
      if inFrame && b == FEND && command == CMD_DATA {
        inFrame := false;
        events := [Incoming(dataBuffer)];
        dataBuffer := [];
        commandBuffer := [];
      } else if b == FEND {
        inFrame := true;
        command := CMD_UNKNOWN;
        dataBuffer := [];
        commandBuffer := [];
      } else if inFrame && |dataBuffer| < MTU {
        if |dataBuffer| == 0 && command == CMD_UNKNOWN {
          command := b;
        } else if command == CMD_DATA {
          if b == FESC {
            escape := true;
          } else {
            dataBuffer := dataBuffer + [Undo(escape, b)];
            escape := false;
          }
        } else if command == CMD_FREQUENCY {
          if b == FESC {
            escape := true;
          } else {
            commandBuffer := commandBuffer + [Undo(escape, b)];
            escape := false;
            if |commandBuffer| == 4 {
              frequency := Some(Unpack(Big, commandBuffer));
              events := [Number(false, frequency.value)];
            }
          }
        } else if command == CMD_BANDWIDTH {
          if b == FESC {
            escape := true;
          } else {
            commandBuffer := commandBuffer + [Undo(escape, b)];
            escape := false;
            if |commandBuffer| == 4 {
              bandwidth := Some(Unpack(Big, commandBuffer));
              events := [Number(true, bandwidth.value)];
            }
          }
        } else if command == CMD_READY {
          events := [Ready];
        } else {
          events := [Other(command, b)];
        }
      }
    }
  }

  // ----- streams

  datatype Outcome = Outcome(phase: Phase, events: seq<Event>)

  function Run(phase: Phase, stream: seq<byte>): Outcome
    decreases |stream|
  {
    if stream == [] then Outcome(phase, []) else
    var rest := Run(Step(phase, stream[0]), stream[1..]);
    Outcome(rest.phase, Events(phase, stream[0]) + rest.events)
  }

  lemma RunNothing(phase: Phase)
    ensures Run(phase, []) == Outcome(phase, [])
  {
  }

  lemma RunCons(phase: Phase, b: byte, rest: seq<byte>)
    ensures var after := Run(Step(phase, b), rest);
      Run(phase, [b] + rest) == Outcome(after.phase, Events(phase, b) + after.events)
  {
    hide Step, Events;
    assert ([b] + rest)[1..] == rest;
  }

  lemma {:induction false} RunAppend(phase: Phase, a: seq<byte>, b: seq<byte>)
    ensures var first := Run(phase, a);
      var second := Run(first.phase, b);
      Run(phase, a + b) == Outcome(second.phase, first.events + second.events)
    decreases |a|
  {
    hide Run, Step, Events;
    RunNothing(phase);
    if a == [] {
      assert a + b == b;
    } else {
      RunCons(phase, a[0], a[1..]);
      RunCons(phase, a[0], a[1..] + b);
      RunAppend(Step(phase, a[0]), a[1..], b);
      assert a == [a[0]] + a[1..] && a + b == [a[0]] + (a[1..] + b);
    }
  }

  lemma RunOne(phase: Phase, b: byte)
    ensures Run(phase, [b]) == Outcome(Step(phase, b), Events(phase, b))
  {
    hide Step, Events;
    RunCons(phase, b, []);
    RunNothing(Step(phase, b));
    assert [b] + [] == [b];
  }

  /** An escape left over from an earlier frame would be taken for this byte's. */
  predicate Confused(escape: bool, b: byte) {
    escape && (b == TFEND || b == TFESC)
  }

  /** One escaped byte inside a data frame. */
  lemma DataByteRuns(got: seq<byte>, escape: bool, b: byte)
    requires |got| < MTU
    ensures Run(InData(got, escape), EscapedByte(b)) == Outcome(InData(got + [Undo(escape, b)], false), [])
  {
    hide Run;
    if b == FEND || b == FESC {
      var t := if b == FEND then TFEND else TFESC;
      RunOne(InData(got, true), t);
      RunCons(InData(got, escape), FESC, [t]);
      assert EscapedByte(b) == [FESC] + [t];
    } else {
      assert EscapedByte(b) == [b];
      RunOne(InData(got, escape), b);
    }
  }

  lemma {:induction false} DataRuns(got: seq<byte>, data: seq<byte>)
    requires |got| + |data| <= MTU
    ensures Run(InData(got, false), EscapedBytes(data)) == Outcome(InData(got + data, false), [])
    decreases |data|
  {
    hide Run, EscapedByte;
    if data == [] {
      assert got + data == got;
      RunNothing(InData(got, false));
    } else {
      DataByteRuns(got, false, data[0]);
      DataRuns(got + [data[0]], data[1..]);
      RunAppend(InData(got, false), EscapedByte(data[0]), EscapedBytes(data[1..]));
      assert got + [data[0]] + data[1..] == got + data;
    }
  }

  /** What a leftover escape makes of the payload. */
  function Received(escape: bool, data: seq<byte>): seq<byte> {
    if data == [] then [] else [Undo(escape, data[0])] + data[1..]
  }

  /** The part of a packet that the reader has room for. */
  function Kept(payload: seq<byte>): seq<byte> {
    if |payload| <= 500 then payload else payload[..500]
  }

  /** A data frame met anywhere but inside another data frame: one packet is delivered, the one that was sent
      exactly when it has at most 500 bytes and no leftover escape meets a first byte 0xDC or 0xDD. */
  lemma DataFrameRuns(phase: Phase, payload: seq<byte>)
    requires !phase.InData?
    ensures Run(phase, DataFrame(payload))
      == Outcome(Outside(phase.escape && payload == []), [Incoming(Received(phase.escape, Kept(payload)))])
    ensures Received(phase.escape, Kept(payload)) == payload
      <==> |payload| <= 500 && (payload == [] || !Confused(phase.escape, payload[0]))
  {
    hide Run, EscapedByte, EscapedBytes, Escape;
    EscapeIsBytewise(payload);
    FrameRuns(phase, CMD_DATA, EscapedBytes(payload));
    BodyRuns(phase.escape, payload);
  }

  /** The body of a data frame. */
  lemma BodyRuns(escape: bool, payload: seq<byte>)
    ensures Run(InData([], escape), EscapedBytes(payload))
      == Outcome(InData(Received(escape, Kept(payload)), escape && payload == []), [])
  {
    hide Run, EscapedByte;
    var start, kept := InData([], escape), Kept(payload);
    if payload == [] {
      RunNothing(start);
    } else {
      var rest := kept[1..];
      DataByteRuns([], escape, kept[0]);
      DataRuns([Undo(escape, kept[0])], rest);
      assert kept == [kept[0]] + rest && [] + [Undo(escape, kept[0])] == [Undo(escape, kept[0])];
      RunAppend(start, EscapedByte(kept[0]), EscapedBytes(rest));
      if |payload| > 500 {
        var more := EscapedBytes(payload[500..]);
        EscapedAppend(kept, payload[500..]);
        assert payload == kept + payload[500..];
        NoFendInside(payload[500..]);
        FullIgnores(Received(escape, kept), more);
        RunAppend(start, EscapedBytes(kept), more);
      }
    }
  }

  lemma {:induction false} EscapedAppend(a: seq<byte>, b: seq<byte>)
    ensures EscapedBytes(a + b) == EscapedBytes(a) + EscapedBytes(b)
  {
    hide EscapedByte;
    if a == [] {
      assert a + b == b;
    } else {
      assert (a + b)[0] == a[0] && (a + b)[1..] == a[1..] + b;
      EscapedAppend(a[1..], b);
    }
  }

  /** A full buffer takes nothing up to the end of the frame. */
  lemma {:induction false} FullIgnores(got: seq<byte>, bytes: seq<byte>)
    requires |got| >= 500 && FEND !in bytes
    ensures Run(InData(got, false), bytes) == Outcome(InData(got, false), [])
    decreases |bytes|
  {
    hide Run;
    RunNothing(InData(got, false));
    if bytes != [] {
      assert bytes == [bytes[0]] + bytes[1..];
      RunCons(InData(got, false), bytes[0], bytes[1..]);
      FullIgnores(got, bytes[1..]);
    }
  }

  /** That can happen: a data frame cut short after an escape, then a frame whose payload is the byte 0xDC. */
  lemma LeftoverEscape()
    ensures Run(Outside(false), [FEND, CMD_DATA, FESC, FEND]) == Outcome(Outside(true), [Incoming([])])
    ensures Run(Outside(false), [FEND, CMD_DATA, FESC, FEND] + DataFrame([0xDC]))
      == Outcome(Outside(false), [Incoming([]), Incoming([0xC0])])
  {
    hide Run;
    var cut := [FEND, CMD_DATA, FESC, FEND];
    RunNothing(Outside(true));
    RunCons(InData([], true), FEND, []);
    RunCons(InData([], false), FESC, [FEND]);
    RunCons(Opened(false), CMD_DATA, [FESC, FEND]);
    RunCons(Outside(false), FEND, [CMD_DATA, FESC, FEND]);
    assert [FEND] + [] == [FEND] && [FESC] + [FEND] == [FESC, FEND];
    assert [CMD_DATA] + [FESC, FEND] == [CMD_DATA, FESC, FEND] && [FEND] + [CMD_DATA, FESC, FEND] == cut;
    DataFrameRuns(Outside(true), [0xDC]);
    RunAppend(Outside(false), cut, DataFrame([0xDC]));
  }

  /** The opening of a frame, its body, its end. */
  lemma FrameRuns(phase: Phase, command: byte, body: seq<byte>)
    requires !phase.InData? && command in {CMD_DATA, CMD_FREQUENCY, CMD_BANDWIDTH}
    ensures var start := Step(Opened(phase.escape), command);
      var inside := Run(start, body);
      Run(phase, Wrap(command, body))
        == Outcome(Step(inside.phase, FEND), inside.events + Events(inside.phase, FEND))
  {
    hide Run;
    var start := Step(Opened(phase.escape), command);
    RunOne(Opened(phase.escape), command);
    RunCons(phase, FEND, [command]);
    assert [FEND] + [command] == [FEND, command];
    RunAppend(phase, [FEND, command], body);
    RunAppend(phase, [FEND, command] + body, [FEND]);
    RunOne(Run(start, body).phase, FEND);
  }

  /** One escaped byte of a number. */
  lemma NumberByteRuns(bandwidth: bool, got: seq<byte>, escape: bool, b: byte)
    ensures var read := got + [Undo(escape, b)];
      Run(InNumber(bandwidth, got, escape), EscapedByte(b))
        == Outcome(InNumber(bandwidth, read, false), if |got| == 3 then [Number(bandwidth, Unpack(Big, read))] else [])
  {
    hide Run, Unpack, Pack;
    if b == FEND || b == FESC {
      var t := if b == FEND then TFEND else TFESC;
      RunOne(InNumber(bandwidth, got, true), t);
      RunCons(InNumber(bandwidth, got, escape), FESC, [t]);
      assert EscapedByte(b) == [FESC] + [t];
    } else {
      assert EscapedByte(b) == [b];
      RunOne(InNumber(bandwidth, got, escape), b);
    }
  }

  lemma {:induction false} NumberRuns(bandwidth: bool, got: seq<byte>, rest: seq<byte>)
    requires |got| + |rest| == 4
    ensures Run(InNumber(bandwidth, got, false), EscapedBytes(rest))
      == Outcome(InNumber(bandwidth, got + rest, false),
                 if rest == [] then [] else [Number(bandwidth, Unpack(Big, got + rest))])
    decreases |rest|
  {
    hide Run, EscapedByte, Unpack;
    if rest == [] {
      assert got + rest == got;
      RunNothing(InNumber(bandwidth, got, false));
    } else {
      NumberByteRuns(bandwidth, got, false, rest[0]);
      NumberRuns(bandwidth, got + [rest[0]], rest[1..]);
      RunAppend(InNumber(bandwidth, got, false), EscapedByte(rest[0]), EscapedBytes(rest[1..]));
      assert got + [rest[0]] + rest[1..] == got + rest;
      var value := [Number(bandwidth, Unpack(Big, got + rest))];
      assert [] + value == value && value + [] == value;
      assert rest[1..] == [] ==> got + [rest[0]] == got + rest;
    }
  }

  /** What is read of a report. */
  function NumberRead(escape: bool, n: uint32): nat {
    Unpack(Big, Received(escape, Pack(Big, 4, n)))
  }

  /** A reported frequency or bandwidth: it is recovered exactly when no leftover escape meets a first byte 0xDC or
      0xDD. */
  lemma NumberFrameRuns(phase: Phase, bandwidth: bool, n: uint32)
    requires !phase.InData?
    ensures Run(phase, NumberFrame(bandwidth, n))
      == Outcome(Opened(false), [Number(bandwidth, NumberRead(phase.escape, n))])
    ensures NumberRead(phase.escape, n) == n <==> !Confused(phase.escape, Pack(Big, 4, n)[0])
  {
    var bytes := Pack(Big, 4, n);
    NumberReadRight(phase.escape, n);
    hide Run, Pack, Unpack, EscapedBytes;
    FrameRuns(phase, NumberCommand(bandwidth), EscapedBytes(bytes));
    NumberBytesRun(bandwidth, phase.escape, bytes);
  }

  lemma NumberBytesRun(bandwidth: bool, escape: bool, bytes: seq<byte>)
    requires |bytes| == 4
    ensures var read := Received(escape, bytes);
      Run(InNumber(bandwidth, [], escape), EscapedBytes(bytes))
        == Outcome(InNumber(bandwidth, read, false), [Number(bandwidth, Unpack(Big, read))])
  {
    var first, rest := bytes[0], bytes[1..];
    var start, read := InNumber(bandwidth, [], escape), [Undo(escape, first)];
    assert EscapedBytes(bytes) == EscapedByte(first) + EscapedBytes(rest) && [] + read == read;
    hide Run, Unpack, EscapedByte, EscapedBytes, Undo;
    NumberByteRuns(bandwidth, [], escape, first);
    NumberRuns(bandwidth, read, rest);
    RunAppend(start, EscapedByte(first), EscapedBytes(rest));
    var value := [Number(bandwidth, Unpack(Big, read + rest))];
    assert [] + value == value;
  }

  lemma NumberReadRight(escape: bool, n: uint32)
    ensures NumberRead(escape, n) == n <==> !Confused(escape, Pack(Big, 4, n)[0])
  {
    var bytes := Pack(Big, 4, n);
    FourBytes(n);
    BigFour(bytes);
    BigFour([Undo(escape, bytes[0])] + bytes[1..]);
    hide Unpack;
  }

  lemma FourBytes(n: uint32)
    ensures Unpack(Big, Pack(Big, 4, n)) == n
  {
    assert Pow256(1) == 256 && Pow256(2) == 0x1_0000 && Pow256(4) == 0x1_0000_0000;
    UnpackPack(Big, 4, n);
  }

  // ----- whole conversations

  datatype Sent = Data(payload: seq<byte>) | Report(bandwidth: bool, n: uint32)

  function Frame(s: Sent): seq<byte> {
    match s
    case Data(payload) => DataFrame(payload)
    case Report(bandwidth, n) => NumberFrame(bandwidth, n)
  }

  function Wire(sent: seq<Sent>): seq<byte> {
    if sent == [] then [] else Frame(sent[0]) + Wire(sent[1..])
  }

  function Expected(sent: seq<Sent>): seq<Event> {
    if sent == [] then [] else
    [if sent[0].Data? then Incoming(sent[0].payload) else Number(sent[0].bandwidth, sent[0].n)] + Expected(sent[1..])
  }

  /** Any mixture of data and reports, each packet of at most 500 bytes: every payload is delivered and every
      number recovered, in order, and nothing else. */
  lemma {:induction false} ConversationRuns(phase: Phase, sent: seq<Sent>)
    requires !phase.InData? && !phase.escape
    requires forall s :: s in sent && s.Data? ==> |s.payload| <= 500
    ensures Run(phase, Wire(sent)).events == Expected(sent)
    ensures var after := Run(phase, Wire(sent)).phase; !after.InData? && !after.escape
    decreases |sent|
  {
    hide DataFrame, NumberFrame, Run;
    RunNothing(phase);
    if sent != [] {
      var s := sent[0];
      match s {
        case Data(payload) => DataFrameRuns(phase, payload);
        case Report(bandwidth, n) => NumberFrameRuns(phase, bandwidth, n);
      }
      var next := Run(phase, Frame(s)).phase;
      ConversationRuns(next, sent[1..]);
      RunAppend(phase, Frame(s), Wire(sent[1..]));
    }
  }

  /** Outside a frame, bytes other than the delimiter are ignored. */
  lemma {:induction false} OutsideIgnores(escape: bool, bytes: seq<byte>)
    requires FEND !in bytes
    ensures Run(Outside(escape), bytes) == Outcome(Outside(escape), [])
    decreases |bytes|
  {
    if bytes != [] { OutsideIgnores(escape, bytes[1..]); }
  }

  /** A frame that starts inside an unfinished data frame is lost: its opening delimiter ends the unfinished
      one. From its own end on the reader is in step again. */
  lemma FrameLost(got: seq<byte>, escape: bool, payload: seq<byte>)
    ensures Run(InData(got, escape), DataFrame(payload)) == Outcome(Opened(escape), [Incoming(got)])
  {
    hide Run, EscapedBytes, Escape;
    EscapeIsBytewise(payload);
    NoFendInside(payload);
    var body := [CMD_DATA] + EscapedBytes(payload);
    assert DataFrame(payload) == [FEND] + (body + [FEND]);
    hide DataFrame;
    OutsideIgnores(escape, body);
    RunAppend(Outside(escape), body, [FEND]);
    RunOne(Outside(escape), FEND);
    RunCons(InData(got, escape), FEND, body + [FEND]);
  }

  // ----- flow control on the sending side

  /** The outgoing half of the interface. `written` is what has gone to the serial port. */
  class Sender {
    var online: bool
    var interfaceReady: bool
    const flowControl: bool
    var packetQueue: seq<seq<byte>>
    var lastId: int
    const idInterval: Option<int>
    const idCallsign: Option<seq<byte>>
    var written: seq<byte>
    ghost var submitted: seq<seq<byte>>
    ghost var sent: seq<seq<byte>>
    ghost var identified: seq<bool>  // whether an identification went out ahead of the packet

    /** Packets leave in the order in which they came; one waits only while the device is not ready. What has been
        written is the frames of the packets sent, and nothing else but identifications ahead of some. */
    ghost predicate InOrder()
      reads this
    {
      && submitted == sent + packetQueue
      && (interfaceReady ==> packetQueue == [])
      && (!flowControl ==> interfaceReady)
      && |identified| == |sent|
      && (idCallsign.None? ==> true !in identified)
      && written == OnWire(if idCallsign.Some? then idCallsign.value else [], sent, identified)
    }

    /** An interface that has just come up. */
    constructor (flowControl: bool, idInterval: Option<int>, idCallsign: Option<seq<byte>>)
      ensures InOrder() && online && interfaceReady && submitted == [] && written == [] && packetQueue == []
      ensures lastId == 0
    {
      this.flowControl := flowControl;
      this.idInterval, this.idCallsign := idInterval, idCallsign;
      online, interfaceReady := true, true;
      packetQueue, lastId, written, submitted, sent, identified := [], 0, [], [], [], [];
    }

    /** The identification frame, when one is due. */
    function Identification(now: int): seq<byte>
      reads this
    {
      if idInterval.Some? && idCallsign.Some? && lastId + idInterval.value < now
      then DataFrame(idCallsign.value) else []
    }

    /** What goes on the wire, and the flag and the clock after it: the inner part of `processOutgoing`. */
    method Write(data: seq<byte>, now: int)
      requires interfaceReady
      modifies `interfaceReady, `lastId, `written, `sent, `identified
      ensures interfaceReady == !flowControl
      ensures written == old(written) + old(Identification(now)) + DataFrame(data)
      ensures lastId == if old(Identification(now)) == [] then old(lastId) else now
      ensures sent == old(sent) + [data]
      ensures identified == old(identified) + [old(Identification(now)) != []]
    {
      hide DataFrame;
      if idCallsign.Some? { FrameNotEmpty(idCallsign.value); }
      if flowControl { interfaceReady := false; }
      var frame := [];
      identified := identified + [Identification(now) != []];
      if idInterval.Some? && idCallsign.Some? {
        if lastId + idInterval.value < now {
          lastId := now;
          frame := DataFrame(idCallsign.value);
        }
      }
      frame := frame + DataFrame(data);
      written := written + frame;
      sent := sent + [data];
    }

    /** `processOutgoing` for a new packet: it is written at once when the device is ready, and waits last in line
        when it is not. */
    method Send(data: seq<byte>, now: int)
      requires InOrder()
      modifies this
      ensures InOrder() && online == old(online)
      ensures old(online) ==> submitted == old(submitted) + [data]
      ensures old(online && interfaceReady) ==>
        && written == old(written) + old(Identification(now)) + DataFrame(data)
        && packetQueue == [] && interfaceReady == !flowControl
        && lastId == if old(Identification(now)) == [] then old(lastId) else now
      ensures old(online && !interfaceReady) ==>
        written == old(written) && packetQueue == old(packetQueue) + [data] && !interfaceReady && lastId == old(lastId)
      ensures !old(online) ==> unchanged(this)
    {
      if online {
        OneMoreOnWire(this, data, now);
        submitted := submitted + [data];
        if interfaceReady {
          Write(data, now);
        } else {
          packetQueue := packetQueue + [data];
        }
      }
    }

    /** `process_queue`, when the device reports that it is ready: the oldest packet goes out. */
    method ProcessQueue(now: int)
      requires InOrder()
      modifies this
      ensures online == old(online)
      ensures old(online) ==> InOrder() && submitted == old(submitted)
      ensures old(online) && old(packetQueue) != [] ==>
        && sent == old(sent) + [old(packetQueue)[0]]
        && packetQueue == old(packetQueue)[1..] && interfaceReady == !flowControl
        && written == old(written) + old(Identification(now)) + DataFrame(old(packetQueue)[0])
        && lastId == if old(Identification(now)) == [] then old(lastId) else now
      ensures old(packetQueue) == [] ==>
        interfaceReady && packetQueue == [] && sent == old(sent) && written == old(written) && lastId == old(lastId)
      ensures !old(online) ==>
        && packetQueue == (if old(packetQueue) == [] then [] else old(packetQueue)[1..])
        && interfaceReady && sent == old(sent) && written == old(written) && lastId == old(lastId)
    {
      if |packetQueue| > 0 {
        var data := packetQueue[0];
        OneMoreOnWire(this, data, now);
        packetQueue := packetQueue[1..];
        interfaceReady := true;
        if online { Write(data, now); }
      } else {
        interfaceReady := true;
      }
    }
  }

  /** The frames of the packets, with the identification ahead of those marked. */
  function OnWire(callsign: seq<byte>, sent: seq<seq<byte>>, identified: seq<bool>): seq<byte>
    requires |identified| == |sent|
  {
    if sent == [] then [] else
    var n := |sent| - 1;
    OnWire(callsign, sent[..n], identified[..n])
      + (if identified[n] then DataFrame(callsign) else []) + DataFrame(sent[n])
  }

  lemma OneMoreOnWire(sender: Sender, data: seq<byte>, now: int)
    requires sender.InOrder()
    ensures var callsign := if sender.idCallsign.Some? then sender.idCallsign.value else [];
      OnWire(callsign, sender.sent + [data], sender.identified + [sender.Identification(now) != []])
        == sender.written + sender.Identification(now) + DataFrame(data)
  {
    if sender.idCallsign.Some? { FrameNotEmpty(sender.idCallsign.value); }
    hide DataFrame;
    var callsign := if sender.idCallsign.Some? then sender.idCallsign.value else [];
    var sent, identified := sender.sent + [data], sender.identified + [sender.Identification(now) != []];
    assert sent[..|sent| - 1] == sender.sent && identified[..|sent| - 1] == sender.identified;
  }

  /** Everything written by an interface that never identifies is the frames of its packets, one after the other. */
  lemma {:induction false} WithoutIdentification(callsign: seq<byte>, sent: seq<seq<byte>>, identified: seq<bool>)
    requires |identified| == |sent| && true !in identified
    ensures OnWire(callsign, sent, identified) == Frames(sent)
  {
    if sent != [] {
      var n := |sent| - 1;
      assert sent == sent[..n] + [sent[n]] && !identified[n];
      WithoutIdentification(callsign, sent[..n], identified[..n]);
      FramesAppend(sent[..n], sent[n]);
    }
  }

  function Frames(sent: seq<seq<byte>>): seq<byte> {
    if sent == [] then [] else DataFrame(sent[0]) + Frames(sent[1..])
  }

  lemma {:induction false} FramesAppend(sent: seq<seq<byte>>, data: seq<byte>)
    ensures Frames(sent + [data]) == Frames(sent) + DataFrame(data)
  {
    hide DataFrame;
    if sent == [] {
      assert [data][1..] == [];
    } else {
      assert (sent + [data])[1..] == sent[1..] + [data];
      FramesAppend(sent[1..], data);
    }
  }

  // ----- at the wire

  /** Inside a frame 0xC0 and 0xDB are escaped, and no other byte. */
  lemma EscapedPairs()
    ensures EscapedByte(0xC0) == [0xDB, 0xDC] && EscapedByte(0xDB) == [0xDB, 0xDD]
    ensures forall b: byte :: b != 0xC0 && b != 0xDB ==> EscapedByte(b) == [b]
  {
  }

  lemma DataOnTheWire(payload: seq<byte>)
    ensures DataFrame(payload) == [0xC0, 0x00] + EscapedBytes(payload) + [0xC0]
  {
    hide Escape, EscapedBytes;
    EscapeIsBytewise(payload);
  }

  lemma EscapedFour(a: byte, b: byte, c: byte, d: byte)
    ensures EscapedBytes([a, b, c, d]) == EscapedByte(a) + (EscapedByte(b) + (EscapedByte(c) + EscapedByte(d)))
  {
    hide EscapedByte;
    assert [a, b, c, d][1..] == [b, c, d] && [b, c, d][1..] == [c, d] && [c, d][1..] == [d] && [d][1..] == [];
    assert EscapedBytes([d]) == EscapedByte(d);
    assert EscapedBytes([c, d]) == EscapedByte(c) + EscapedByte(d);
    assert EscapedBytes([b, c, d]) == EscapedByte(b) + (EscapedByte(c) + EscapedByte(d));
  }

  /** A number has its high-order byte first. */
  lemma NumberOnTheWire(bandwidth: bool, n: uint32, a: byte, b: byte, c: byte, d: byte)
    requires n == Weighed(a, b, c, d)
    ensures NumberFrame(bandwidth, n)
      == [0xC0, if bandwidth then 0x02 else 0x01]
         + (EscapedByte(a) + (EscapedByte(b) + (EscapedByte(c) + EscapedByte(d)))) + [0xC0]
  {
    hide EscapedByte, EscapedBytes;
    BigBytes(n, a, b, c, d);
    EscapedFour(a, b, c, d);
  }

  lemma BigBytes(n: uint32, a: byte, b: byte, c: byte, d: byte)
    requires n == Weighed(a, b, c, d)
    ensures Pack(Big, 4, n) == [a, b, c, d]
  {
    assert n / 256 == Weighed(0, a, b, c) && n % 256 == d;
    assert Weighed(0, a, b, c) / 256 == Weighed(0, 0, a, b) && Weighed(0, 0, a, b) / 256 == a;
    assert Pack(Big, 1, a) == [a] && Pack(Big, 2, Weighed(0, 0, a, b)) == [a, b];
    assert Pack(Big, 3, Weighed(0, a, b, c)) == [a, b, c];
  }

  /** The byte for no command yet, sent as a command, leaves the next one to be the command. */
  lemma UnknownCommandIgnored(command: byte, value: byte)
    requires command != 0xC0 && command != 0xFE
    ensures Run(Outside(false), [0xC0, 0xFE, command, value]) == Run(Outside(false), [0xC0, command, value])
  {
    hide Run;
    RunCons(Outside(false), 0xC0, [0xFE, command, value]);
    RunCons(Outside(false), 0xC0, [command, value]);
    RunCons(Opened(false), 0xFE, [command, value]);
    assert [0xFE] + [command, value] == [0xFE, command, value];
    assert [0xC0, 0xFE, command, value] == [0xC0] + [0xFE, command, value];
    assert [0xC0, command, value] == [0xC0] + [command, value];
  }

  /** And what the reader makes of the short ones. */
  lemma ReadOffTheWire()
    ensures Run(Outside(false), [0xC0, 0x0F, 0x01]).events == [Ready]
    ensures Run(Outside(false), [0xC0, 0x03, 0x07]).events == [Other(0x03, 0x07)]
    ensures Run(Outside(false), [0xC0, 0xFE, 0x0F, 0x01]).events == [Ready]
  {
    hide Run;
    CommandRuns(0x0F, 0x01);
    UnknownCommandIgnored(0x0F, 0x01);
    CommandRuns(0x03, 0x07);
  }

  lemma CommandRuns(command: byte, b: byte)
    requires command !in {CMD_UNKNOWN, CMD_DATA, CMD_FREQUENCY, CMD_BANDWIDTH, FEND} && b != FEND
    ensures Run(Outside(false), [0xC0, command, b]).events == Events(InOther(command, false), b)
  {
    hide Run;
    RunOne(InOther(command, false), b);
    RunCons(Opened(false), command, [b]);
    RunCons(Outside(false), 0xC0, [command, b]);
    assert [command] + [b] == [command, b] && [0xC0] + [command, b] == [0xC0, command, b];
  }
}
