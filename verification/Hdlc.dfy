/** HDLC framing as the TCP interface uses it: flags around a frame, octets stuffed as in section 4.2 of
    RFC 1662, and no check sequence. */
module Hdlc {
  import opened ByteFields

  const FLAG: byte := 0x7E
  const ESC: byte := 0x7D

  /** `b ^ 0x20`. */
  function Flip(b: byte): byte {
    if b / 32 % 2 == 1 then b - 32 else b + 32
  }

  lemma FlipTwice(b: byte)
    ensures Flip(Flip(b)) == b
  {
  }

  function StuffByte(b: byte): seq<byte> {
    if b == FLAG || b == ESC then [ESC, Flip(b)] else [b]
  }

  function Stuff(payload: seq<byte>): seq<byte> {
    if payload == [] then [] else StuffByte(payload[0]) + Stuff(payload[1..])
  }

  function Frame(payload: seq<byte>): seq<byte> {
    [FLAG] + Stuff(payload) + [FLAG]
  }

  lemma {:induction false} StuffAppend(a: seq<byte>, b: seq<byte>)
    ensures Stuff(a + b) == Stuff(a) + Stuff(b)
  {
    hide StuffByte;
    if a == [] {
      assert a + b == b;
    } else {
      StuffAppend(a[1..], b);
      assert (a + b)[0] == a[0] && (a + b)[1..] == a[1..] + b;
      assert Stuff(a + b) == StuffByte(a[0]) + (Stuff(a[1..]) + Stuff(b));
    }
  }

  /** The two octets that are escaped, and into what; a frame stands between two 0x7E. */
  lemma EscapedPairs(payload: seq<byte>)
    ensures StuffByte(0x7E) == [0x7D, 0x5E] && StuffByte(0x7D) == [0x7D, 0x5D]
    ensures forall b: byte :: b != 0x7E && b != 0x7D ==> StuffByte(b) == [b]
    ensures Frame(payload) == [0x7E] + Stuff(payload) + [0x7E]
  {
  }

  lemma StuffNothing()
    ensures Stuff([]) == []
  {
  }

  lemma StuffOne(b: byte)
    ensures Stuff([b]) == StuffByte(b)
  {
    assert [b][1..] == [];
  }

  /** `encode` appends to `out`. */
  method Encode(input: seq<byte>, start: seq<byte>) returns (out: seq<byte>)
    ensures out == start + Frame(input)
  {
    hide Stuff;
    out := start + [FLAG];
    StuffNothing();
    for i := 0 to |input|
      invariant out == start + [FLAG] + Stuff(input[..i])
    {
      var b := input[i];
      assert input[..i + 1] == input[..i] + [b];
      StuffOne(b);
      StuffAppend(input[..i], [b]);
      if b == FLAG || b == ESC {
        out := out + [ESC];
        out := out + [Flip(b)];
      } else {
        out := out + [b];
      }
    }
    assert input[..|input|] == input;
    out := out + [FLAG];
  }

  /** Between its flags a frame has no flag: no payload can end a frame early. */
  lemma {:induction false} StuffHasNoFlag(payload: seq<byte>)
    ensures FLAG !in Stuff(payload)
  {
    if payload != [] { StuffHasNoFlag(payload[1..]); }
  }

  // ----- what a stream of octets means

  /** What stands between two flags, with escapes undone; an escape that is cut off stands for nothing. */
  function Unstuff(segment: seq<byte>): seq<byte> {
    if segment == [] then []
    else if segment[0] != ESC then [segment[0]] + Unstuff(segment[1..])
    else if |segment| == 1 then []
    else [Flip(segment[1])] + Unstuff(segment[2..])
  }

  lemma {:induction false} UnstuffStuff(payload: seq<byte>)
    ensures Unstuff(Stuff(payload)) == payload
  {
    if payload != [] {
      var b, rest := payload[0], payload[1..];
      UnstuffStuff(rest);
      FlipTwice(b);
      assert Stuff(payload)[|StuffByte(b)|..] == Stuff(rest);
    }
  }

  function FlagAt(s: seq<byte>): (i: nat)
    ensures i <= |s|
    ensures FLAG !in s[..i]
    ensures if FLAG in s then i < |s| && s[i] == FLAG else i == |s|
  {
    if s == [] || s[0] == FLAG then 0 else
    var i := 1 + FlagAt(s[1..]);
    assert s[..i] == [s[0]] + s[1..][..i - 1];
    i
  }

  function NonEmpty(payload: seq<byte>): seq<seq<byte>> {
    if payload == [] then [] else [payload]
  }

  /** The frames after a flag: each ends at the next flag. */
  function FramesAfterFlag(s: seq<byte>): seq<seq<byte>>
    decreases |s|
  {
    var i := FlagAt(s);
    if i == |s| then [] else NonEmpty(Unstuff(s[..i])) + FramesAfterFlag(s[i + 1..])
  }

  /** All frames of a stream; what comes before the first flag is noise. */
  function Frames(s: seq<byte>): seq<seq<byte>> {
    var i := FlagAt(s);
    if i == |s| then [] else FramesAfterFlag(s[i + 1..])
  }

  lemma {:induction false} FlagFirst(segment: seq<byte>, rest: seq<byte>)
    requires FLAG !in segment
    ensures FlagAt(segment + [FLAG] + rest) == |segment|
  {
    var t := segment + [FLAG] + rest;
    if segment != [] {
      assert t[1..] == segment[1..] + [FLAG] + rest;
      FlagFirst(segment[1..], rest);
    }
  }

  /** A stream up to its first flag, and from there on. */
  lemma AtFlag(segment: seq<byte>, rest: seq<byte>)
    requires FLAG !in segment
    ensures FramesAfterFlag(segment + [FLAG] + rest) == NonEmpty(Unstuff(segment)) + FramesAfterFlag(rest)
    ensures Frames(segment + [FLAG] + rest) == FramesAfterFlag(rest)
  {
    hide FlagAt, Unstuff;
    FlagFirst(segment, rest);
    var t := segment + [FLAG] + rest;
    assert t[..|segment|] == segment && t[|segment| + 1..] == rest;
  }

  lemma NoFlag(s: seq<byte>)
    requires FLAG !in s
    ensures FramesAfterFlag(s) == [] && Frames(s) == []
  {
  }

  lemma Split(s: seq<byte>) returns (segment: seq<byte>, rest: seq<byte>)
    requires FLAG in s
    ensures FLAG !in segment && s == segment + [FLAG] + rest
  {
    var i := FlagAt(s);
    segment, rest := s[..i], s[i + 1..];
  }

  /** An octet after the last flag does not complete a frame. */
  lemma {:induction false} FramesOfOctet(s: seq<byte>, b: byte)
    requires b != FLAG
    ensures FramesAfterFlag(s + [b]) == FramesAfterFlag(s) && Frames(s + [b]) == Frames(s)
    decreases |s|
  {
    hide Unstuff, FramesAfterFlag, Frames, FlagAt;
    if FLAG in s {
      var segment, rest := Split(s);
      assert s + [b] == segment + [FLAG] + (rest + [b]);
      AtFlag(segment, rest);
      AtFlag(segment, rest + [b]);
      FramesOfOctet(rest, b);
    } else {
      NoFlag(s);
      NoFlag(s + [b]);
    }
  }

  /** A flag completes the segment before it. */
  lemma {:induction false} OneMoreFrame(s: seq<byte>, segment: seq<byte>)
    requires (s == [] || s[|s| - 1] == FLAG) && FLAG !in segment
    ensures FramesAfterFlag(s + (segment + [FLAG])) == FramesAfterFlag(s) + NonEmpty(Unstuff(segment))
    ensures Frames(s + (segment + [FLAG])) == Frames(s) + if s == [] then [] else NonEmpty(Unstuff(segment))
    decreases |s|
  {
    hide Unstuff, FramesAfterFlag, Frames, FlagAt;
    NoFlag([]);
    var t := s + (segment + [FLAG]);
    if s == [] {
      assert t == segment + [FLAG] + [];
      AtFlag(segment, []);
    } else {
      var segment0, rest0 := Split(s);
      assert rest0 != [] ==> rest0[|rest0| - 1] == s[|s| - 1];
      assert t == segment0 + [FLAG] + (rest0 + (segment + [FLAG]));
      AtFlag(segment0, rest0);
      AtFlag(segment0, rest0 + (segment + [FLAG]));
      OneMoreFrame(rest0, segment);
    }
  }

  lemma {:induction false} FramesOfOctets(s: seq<byte>, octets: seq<byte>)
    requires FLAG !in octets
    ensures Frames(s + octets) == Frames(s)
  {
    hide Frames;
    if octets == [] {
      assert s + octets == s;
    } else {
      assert s + octets == (s + octets[..|octets| - 1]) + [octets[|octets| - 1]];
      FramesOfOctets(s, octets[..|octets| - 1]);
      FramesOfOctet(s + octets[..|octets| - 1], octets[|octets| - 1]);
    }
  }

  /** After noise, or after a flag and a segment. */
  lemma FramesOfFlag(before: seq<byte>, segment: seq<byte>)
    requires FLAG !in segment && (before == [] || before[|before| - 1] == FLAG)
    ensures Frames(before + segment + [FLAG])
      == Frames(before + segment) + if before == [] then [] else NonEmpty(Unstuff(segment))
  {
    hide Unstuff, Frames;
    FramesOfOctets(before, segment);
    OneMoreFrame(before, segment);
    NoFlag([]);
    hide NonEmpty;
    Associate(before, segment, [FLAG]);
  }

  lemma Associate(a: seq<byte>, b: seq<byte>, c: seq<byte>)
    ensures a + b + c == a + (b + c)
  {
  }

  // ----- the decoder

  /** The segment ends in an escape that is still to be completed. */
  predicate CutOff(segment: seq<byte>) {
    if segment == [] then false
    else if segment[0] != ESC then CutOff(segment[1..])
    else if |segment| == 1 then true
    else CutOff(segment[2..])
  }

  lemma NothingHeld()
    ensures Unstuff([]) == [] && !CutOff([])
  {
  }

  lemma {:induction false} OneMore(segment: seq<byte>, b: byte)
    ensures Unstuff(segment + [b]) == Unstuff(segment)
        + if CutOff(segment) then [Flip(b)] else if b == ESC then [] else [b]
    ensures CutOff(segment + [b]) <==> !CutOff(segment) && b == ESC
    decreases |segment|
  {
    if segment != [] {
      if segment[0] != ESC {
        assert (segment + [b])[1..] == segment[1..] + [b];
        OneMore(segment[1..], b);
      } else if |segment| > 1 {
        assert (segment + [b])[2..] == segment[2..] + [b];
        OneMore(segment[2..], b);
      }
    }
  }

  /** The decoder's fields after the octets `fed`; `segment` is what has come since the last flag. */
  ghost predicate Holds(
    fed: seq<byte>, before: seq<byte>, segment: seq<byte>, inFrame: bool, buf: seq<byte>, escape: bool)
  {
    && fed == before + segment && FLAG !in segment
    && inFrame == (before != [])
    && (if inFrame
        then before[|before| - 1] == FLAG && buf == Unstuff(segment) && escape == CutOff(segment)
        else buf == [] && !escape)
  }

  ghost predicate HoldsSome(fed: seq<byte>, inFrame: bool, buf: seq<byte>, escape: bool) {
    exists before, segment :: Holds(fed, before, segment, inFrame, buf, escape)
  }

  lemma HoldsNothing()
    ensures HoldsSome([], false, [], false)
  {
    assert Holds([], [], [], false, [], false);
  }

  lemma HoldsFlag(fed: seq<byte>, inFrame: bool, buf: seq<byte>, escape: bool)
    requires HoldsSome(fed, inFrame, buf, escape)
    ensures HoldsSome(fed + [FLAG], true, [], false)
    ensures Frames(fed + [FLAG]) == Frames(fed) + if inFrame then NonEmpty(buf) else []
  {
    hide Frames, Unstuff, CutOff;
    var before, segment :| Holds(fed, before, segment, inFrame, buf, escape);
    FramesOfFlag(before, segment);
    NothingHeld();
    assert Holds(fed + [FLAG], fed + [FLAG], [], true, [], false);
  }

  lemma HoldsOctet(fed: seq<byte>, inFrame: bool, buf: seq<byte>, escape: bool, b: byte)
    requires HoldsSome(fed, inFrame, buf, escape) && b != FLAG
    ensures Frames(fed + [b]) == Frames(fed)
    ensures !inFrame ==> HoldsSome(fed + [b], inFrame, buf, escape)
    ensures inFrame ==>
      HoldsSome(fed + [b], true, buf + if escape then [Flip(b)] else if b == ESC then [] else [b], !escape && b == ESC)
  {
    hide Frames, Unstuff, CutOff, Flip;
    var before, segment :| Holds(fed, before, segment, inFrame, buf, escape);
    FramesOfOctet(fed, b);
    OneMore(segment, b);
    assert fed + [b] == before + (segment + [b]);
    var next := buf + if escape then [Flip(b)] else if b == ESC then [] else [b];
    assert !inFrame ==> Holds(fed + [b], before, segment + [b], inFrame, buf, escape);
    assert inFrame ==> Holds(fed + [b], before, segment + [b], true, next, !escape && b == ESC);
  }

  class Decoder {
    var buf: seq<byte>
    var inFrame: bool
    var escape: bool
    ghost var fed: seq<byte>

    ghost predicate Valid()
      reads this
    {
      HoldsSome(fed, inFrame, buf, escape)
    }

    constructor ()
      ensures fed == [] && Valid()
    {
      buf, inFrame, escape, fed := [], false, false, [];
      new;
      HoldsNothing();
    }

    method Reset()
      modifies this
      ensures fed == [] && Valid()
    {
      buf, inFrame, escape, fed := [], false, false, [];
      HoldsNothing();
    }

    /** `feed`: `frames` is what the callback gets, no frame or one. */
    method Feed(b: byte) returns (frames: seq<seq<byte>>)
      requires Valid()
      modifies this
      ensures fed == old(fed) + [b] && Valid()
      ensures Frames(fed) == old(Frames(fed)) + frames
    {
      hide Frames, HoldsSome, Flip;
      frames := [];
      if b == FLAG {
        HoldsFlag(fed, inFrame, buf, escape);
        if inFrame && |buf| > 0 { frames := [buf]; }
        buf := [];
        inFrame := true;
        escape := false;
        fed := fed + [b];
        return;
      }
      HoldsOctet(fed, inFrame, buf, escape, b);
      fed := fed + [b];
      if !inFrame { return; }
      if escape {
        buf := buf + [Flip(b)];
        escape := false;
      } else if b == ESC {
        escape := true;
        assert buf + [] == buf;
      } else {
        buf := buf + [b];
      }
    }
  }

  /** A whole stream, octet by octet. */
  method Decode(stream: seq<byte>) returns (frames: seq<seq<byte>>)
    ensures frames == Frames(stream)
  {
    hide Frames;
    var decoder := new Decoder();
    frames := [];
    NothingFed();
    for i := 0 to |stream|
      invariant fresh(decoder) && decoder.Valid() && decoder.fed == stream[..i] && frames == Frames(stream[..i])
    {
      assert stream[..i + 1] == stream[..i] + [stream[i]];
      var more := decoder.Feed(stream[i]);
      frames := frames + more;
    }
    assert stream[..|stream|] == stream;
  }

  lemma NothingFed()
    ensures Frames([]) == []
  {
  }

  // ----- round trip

  function Wire(payloads: seq<seq<byte>>): seq<byte> {
    if payloads == [] then [] else Wire(payloads[..|payloads| - 1]) + Frame(payloads[|payloads| - 1])
  }

  function NonEmpties(payloads: seq<seq<byte>>): seq<seq<byte>> {
    if payloads == [] then [] else NonEmpties(payloads[..|payloads| - 1]) + NonEmpty(payloads[|payloads| - 1])
  }

  /** One frame after any octets: its opening flag ends what came before, and nothing else is added. */
  lemma FrameDecodes(noise: seq<byte>, payload: seq<byte>)
    ensures Frames(noise + Frame(payload)) == Frames(noise + [FLAG]) + NonEmpty(payload)
  {
    hide Frames, Stuff, Unstuff;
    StuffHasNoFlag(payload);
    UnstuffStuff(payload);
    var before, segment := noise + [FLAG], Stuff(payload);
    FramesOfFlag(before, segment);
    FramesOfOctets(before, segment);
    assert noise + Frame(payload) == before + segment + [FLAG];
  }

  lemma FlagAfterFlag(s: seq<byte>)
    requires s != [] && s[|s| - 1] == FLAG
    ensures Frames(s + [FLAG]) == Frames(s)
  {
    hide Frames, Unstuff;
    FramesOfFlag(s, []);
    NothingHeld();
    assert s + [] == s;
  }

  /** After any prefix, however it was cut or garbled, the frames that follow deliver exactly their payloads,
      in order; empty ones are dropped. */
  lemma {:induction false} StreamDecodes(noise: seq<byte>, payloads: seq<seq<byte>>)
    requires payloads != []
    ensures Frames(noise + Wire(payloads)) == Frames(noise + [FLAG]) + NonEmpties(payloads)
  {
    hide Frames, Frame;
    var n := |payloads| - 1;
    var front := payloads[..n];
    FrameEnds(payloads[n]);
    var s := noise + Wire(front);
    FrameDecodes(s, payloads[n]);
    assert noise + Wire(payloads) == s + Frame(payloads[n]);
    if n == 0 {
      assert s == noise;
    } else {
      StreamDecodes(noise, front);
      FrameEnds(front[n - 1]);
      FlagAfterFlag(s);
    }
  }

  lemma FrameEnds(payload: seq<byte>)
    ensures |Frame(payload)| >= 2 && Frame(payload)[|Frame(payload)| - 1] == FLAG
  {
  }
}
