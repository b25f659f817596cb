/** Improv Wi-Fi packets on a serial line that also carries other traffic. */
module Improv {
  import opened Arith
  import opened ByteFields
  import opened Wrappers

  const MAGIC_BYTES: seq<byte> := [73, 77, 80, 82, 79, 86] // "IMPROV"
  const PROTO_VERSION: byte := 1

  datatype Event = Packet(ptype: byte, payload: seq<byte>) | BadChecksum

  function Sum(bytes: seq<byte>): nat {
    if bytes == [] then 0 else Sum(bytes[..|bytes| - 1]) + bytes[|bytes| - 1]
  }

  lemma SumSnoc(bytes: seq<byte>, b: byte)
    ensures Sum(bytes + [b]) == Sum(bytes) + b
  {
    assert (bytes + [b])[..|bytes|] == bytes;
  }

  /** Everything before the checksum. */
  function Body(ptype: byte, length: byte, payload: seq<byte>): seq<byte> {
    MAGIC_BYTES + [PROTO_VERSION, ptype, length] + payload
  }

  function Frame(ptype: byte, payload: seq<byte>): seq<byte>
    requires |payload| < 256
  {
    Body(ptype, |payload|, payload) + [Sum(Body(ptype, |payload|, payload)) % 256]
  }

  // ----- the format, octet by octet

  /** `unframed` is what has come since the last packet. */
  datatype Phase =
    | Waiting(unframed: seq<byte>)
    | Version
    | Type
    | Length(ptype: byte)
    | Data(ptype: byte, length: byte, got: seq<byte>)
    | Checksum(ptype: byte, length: byte, got: seq<byte>)

  predicate EndsWithMagic(s: seq<byte>) {
    |s| >= 6 && s[|s| - 6..] == MAGIC_BYTES
  }

  function Step(phase: Phase, b: byte): Phase {
    match phase
    case Waiting(unframed) =>
      if EndsWithMagic(unframed + [b]) then Version else Waiting(unframed + [b])
    case Version => if b == PROTO_VERSION then Type else Waiting([])
    case Type => Length(b)
    case Length(ptype) => if b == 0 then Checksum(ptype, b, []) else Data(ptype, b, [])
    case Data(ptype, length, got) =>
      if |got| + 1 >= length then Checksum(ptype, length, got + [b]) else Data(ptype, length, got + [b])
    case Checksum(_, _, _) => Waiting([])
  }

  /** What an octet leads to. */
  function Events(phase: Phase, b: byte): seq<Event> {
    match phase
    case Checksum(ptype, length, got) =>
      [if b == Sum(Body(ptype, length, got)) % 256 then Packet(ptype, got) else BadChecksum]
    case _ => []
  }

  /** Whether the octet goes on to the KISS side. */
  predicate Forwards(phase: Phase) { phase.Waiting? }

  // ----- the magic, matched with one index

  /** The first `k` octets of the magic end `s`. */
  predicate Matches(s: seq<byte>, k: nat) {
    k <= 6 && k <= |s| && s[|s| - k..] == MAGIC_BYTES[..k]
  }

  /** `k` is the length of the longest beginning of the magic that ends `s`. */
  ghost predicate Longest(s: seq<byte>, k: nat) {
    Matches(s, k) && forall j :: k < j <= 6 ==> !Matches(s, j)
  }

  lemma MatchesSnoc(s: seq<byte>, b: byte, j: nat)
    requires j < 6
    ensures Matches(s + [b], j + 1) <==> Matches(s, j) && b == MAGIC_BYTES[j]
  {
    var t := s + [b];
    if j <= |s| {
      assert t[|t| - (j + 1)..] == s[|s| - j..] + [b];
      assert MAGIC_BYTES[..j + 1] == MAGIC_BYTES[..j] + [MAGIC_BYTES[j]];
      var x, y := s[|s| - j..] + [b], MAGIC_BYTES[..j] + [MAGIC_BYTES[j]];
      assert x[..j] == s[|s| - j..] && y[..j] == MAGIC_BYTES[..j];
    }
  }

  /** The magic has no end that is also its beginning: only one match can be under way. */
  lemma OneMatch(s: seq<byte>, j: nat, k: nat)
    requires Matches(s, j) && Matches(s, k) && j < k
    ensures j == 0
  {
    if j > 0 {
      MatchedOctet(s, k, k - j);
      MatchedOctet(s, j, 0);
    }
  }

  lemma MatchedOctet(s: seq<byte>, k: nat, i: nat)
    requires Matches(s, k) && i < k
    ensures s[|s| - k + i] == MAGIC_BYTES[i]
  {
    assert s[|s| - k..][i] == MAGIC_BYTES[..k][i];
  }

  /** How the index moves: on with the match, or back to the start of a new one. */
  lemma NextMatch(s: seq<byte>, b: byte, k: nat)
    requires k < 6 && Longest(s, k)
    ensures b == MAGIC_BYTES[k] ==> Longest(s + [b], k + 1)
    ensures b != MAGIC_BYTES[k] ==> Longest(s + [b], if b == MAGIC_BYTES[0] then 1 else 0)
  {
    hide Matches;
    AlwaysMatches(s);
    AlwaysMatches(s + [b]);
    forall i | 0 < i <= 6
      ensures Matches(s + [b], i) ==> b == MAGIC_BYTES[i - 1] && (i == k + 1 || i == 1)
    {
      MatchesSnoc(s, b, i - 1);
      if Matches(s + [b], i) && i - 1 < k { OneMatch(s, i - 1, k); }
    }
    MatchesSnoc(s, b, k);
    MatchesSnoc(s, b, 0);
  }

  lemma AlwaysMatches(s: seq<byte>)
    ensures Matches(s, 0)
  {
  }

  lemma WholeMagic(s: seq<byte>)
    ensures EndsWithMagic(s) <==> Matches(s, 6)
  {
    assert MAGIC_BYTES[..6] == MAGIC_BYTES;
  }

  // ----- the parser

  datatype ParseState = WaitMagic | WaitVersion | WaitType | WaitLength | WaitData | WaitChecksum

  class Parser {
    var state: ParseState
    var magicIdx: nat
    var packetType: byte
    var length: byte
    var dataReceived: nat
    var checksum: nat
    const data: array<byte>

    /** The fields stand for a phase; the checksum is the sum of the packet so far. */
    ghost predicate Shows(phase: Phase)
      reads this, data
    {
      && data.Length == 256
      && match phase
         case Waiting(unframed) =>
           && state == WaitMagic && magicIdx < 6 && Longest(unframed, magicIdx)
           && checksum == Sum(MAGIC_BYTES[..magicIdx])
         case Version => state == WaitVersion && checksum == Sum(MAGIC_BYTES)
         case Type => state == WaitType && checksum == Sum(MAGIC_BYTES + [PROTO_VERSION])
         case Length(ptype) =>
           state == WaitLength && packetType == ptype && checksum == Sum(MAGIC_BYTES + [PROTO_VERSION, ptype])
         case Data(ptype, n, got) =>
           && state == WaitData && packetType == ptype && length == n && dataReceived == |got| < n
           && data[..dataReceived] == got && checksum == Sum(Body(ptype, n, got))
         case Checksum(ptype, n, got) =>
           && state == WaitChecksum && packetType == ptype && length == n == |got|
           && data[..length] == got && checksum == Sum(Body(ptype, n, got))
    }

    constructor ()
      ensures Shows(Waiting([])) && fresh(data)
    {
      state, magicIdx, packetType, length, dataReceived, checksum := WaitMagic, 0, 0, 0, 0, 0;
      data := new byte[256](_ => 0);
      new;
      NoMatchYet();
    }

    method ResetParser()
      requires data.Length == 256
      modifies this
      ensures Shows(Waiting([]))
      ensures state == WaitMagic && magicIdx == 0 && checksum == 0 && dataReceived == 0
    {
      state := WaitMagic;
      magicIdx := 0;
      checksum := 0;
      dataReceived := 0;
      NoMatchYet();
    }

    /** `on_byte`: `consumed` is its result, `events` what reaches the dispatch point. */
    method OnByte(b: byte, ghost phase: Phase) returns (consumed: bool, events: seq<Event>)
      requires Shows(phase)
      modifies this, data
      ensures Shows(Step(phase, b))
      ensures events == Events(phase, b)
      ensures consumed == !Forwards(phase)
    {
      hide Longest, Sum;
      events := [];
      match state {
        case WaitMagic =>
          MagicOctet(b, phase.unframed);
          return false, [];
        case WaitVersion =>
          Sums(b, phase);
          checksum := checksum + b;
          if b != PROTO_VERSION { ResetParser(); return true, []; }
          state := WaitType;
        case WaitType =>
          Sums(b, phase);
          checksum := checksum + b;
          packetType := b;
          state := WaitLength;
        case WaitLength =>
          Sums(b, phase);
          checksum := checksum + b;
          length := b;
          dataReceived := 0;
          state := if length == 0 then WaitChecksum else WaitData;
        case WaitData =>
          Sums(b, phase);
          data[dataReceived] := b;
          dataReceived := dataReceived + 1;
          checksum := checksum + b;
          if dataReceived >= length { state := WaitChecksum; }
        case WaitChecksum =>
          if b == checksum % 256 {
            events := [Packet(packetType, data[..length])];
          } else {
            events := [BadChecksum];
          }
          ResetParser();
      }
      consumed := true;
    }

    /** The waiting state. */
    method MagicOctet(b: byte, ghost unframed: seq<byte>)
      requires Shows(Waiting(unframed))
      modifies this
      ensures Shows(Step(Waiting(unframed), b))
    {
      NextMatch(unframed, b, magicIdx);
      WholeMagic(unframed + [b]);
      MagicSums(magicIdx);
      if b == MAGIC_BYTES[magicIdx] {
        if magicIdx == 0 { checksum := 0; }
        checksum := checksum + b;
        magicIdx := magicIdx + 1;
        if magicIdx == 6 { state := WaitVersion; }
      } else {
        magicIdx := if b == MAGIC_BYTES[0] then 1 else 0;
        checksum := if b == MAGIC_BYTES[0] then b else 0;
      }
    }
  }

  lemma NoMatchYet()
    ensures Longest([], 0) && Sum(MAGIC_BYTES[..0]) == 0
  {
  }

  lemma MagicSums(k: nat)
    requires k < 6
    ensures Sum(MAGIC_BYTES[..k + 1]) == Sum(MAGIC_BYTES[..k]) + MAGIC_BYTES[k]
    ensures Sum(MAGIC_BYTES[..0]) == 0 && Sum(MAGIC_BYTES[..1]) == MAGIC_BYTES[0]
    ensures MAGIC_BYTES[..6] == MAGIC_BYTES
  {
    SumSnoc(MAGIC_BYTES[..k], MAGIC_BYTES[k]);
    assert MAGIC_BYTES[..k + 1] == MAGIC_BYTES[..k] + [MAGIC_BYTES[k]];
    SumSnoc([], MAGIC_BYTES[0]);
    assert MAGIC_BYTES[..1] == [] + [MAGIC_BYTES[0]];
  }

  /** One more octet in the sum. */
  lemma Sums(b: byte, phase: Phase)
    ensures match phase
      case Version => Sum(MAGIC_BYTES + [b]) == Sum(MAGIC_BYTES) + b
      case Type => Sum(MAGIC_BYTES + [PROTO_VERSION, b]) == Sum(MAGIC_BYTES + [PROTO_VERSION]) + b
      case Length(ptype) => Sum(Body(ptype, b, [])) == Sum(MAGIC_BYTES + [PROTO_VERSION, ptype]) + b
      case Data(ptype, length, got) => Sum(Body(ptype, length, got + [b])) == Sum(Body(ptype, length, got)) + b
      case _ => true
  {
    hide Sum;
    match phase
    case Version => SumSnoc(MAGIC_BYTES, b);
    case Type =>
      SumSnoc(MAGIC_BYTES + [PROTO_VERSION], b);
      assert MAGIC_BYTES + [PROTO_VERSION] + [b] == MAGIC_BYTES + [PROTO_VERSION, b];
    case Length(ptype) =>
      SumSnoc(MAGIC_BYTES + [PROTO_VERSION, ptype], b);
      assert MAGIC_BYTES + [PROTO_VERSION, ptype] + [b] == Body(ptype, b, []);
    case Data(ptype, length, got) =>
      SumSnoc(Body(ptype, length, got), b);
      assert Body(ptype, length, got) + [b] == Body(ptype, length, got + [b]);
    case _ =>
  }

  // ----- streams

  /** The phase after a stream, the packets and failures in it, and the octets passed on. */
  datatype Outcome = Outcome(phase: Phase, events: seq<Event>, forwarded: seq<byte>)

  function Run(phase: Phase, stream: seq<byte>): Outcome
    decreases |stream|
  {
    if stream == [] then Outcome(phase, [], []) else
    var b := stream[0];
    var rest := Run(Step(phase, b), stream[1..]);
    Outcome(rest.phase, Events(phase, b) + rest.events, (if Forwards(phase) then [b] else []) + rest.forwarded)
  }

  /** Feeding a parser octet by octet. */
  method Feed(parser: Parser, ghost phase: Phase, stream: seq<byte>)
    returns (events: seq<Event>, forwarded: seq<byte>)
    requires parser.Shows(phase)
    modifies parser, parser.data
    ensures parser.Shows(Run(phase, stream).phase)
    ensures events == Run(phase, stream).events && forwarded == Run(phase, stream).forwarded
  {
    hide Step, Events, Forwards, Run;
    events, forwarded := [], [];
    ghost var now := phase;
    assert stream[0..] == stream;
    for i := 0 to |stream|
      invariant parser.Shows(now)
      invariant Run(phase, stream).phase == Run(now, stream[i..]).phase
      invariant Run(phase, stream).events == events + Run(now, stream[i..]).events
      invariant Run(phase, stream).forwarded == forwarded + Run(now, stream[i..]).forwarded
    {
      assert stream[i..] == [stream[i]] + stream[i + 1..];
      RunCons(now, stream[i], stream[i + 1..]);
      var consumed, more := parser.OnByte(stream[i], now);
      events := events + more;
      if !consumed { forwarded := forwarded + [stream[i]]; }
      now := Step(now, stream[i]);
    }
    RunNothing(now);
    assert stream[|stream|..] == [];
  }

  lemma RunNothing(phase: Phase)
    ensures Run(phase, []) == Outcome(phase, [], [])
  {
  }

  lemma RunCons(phase: Phase, b: byte, rest: seq<byte>)
    ensures var after := Run(Step(phase, b), rest);
      Run(phase, [b] + rest)
        == Outcome(after.phase, Events(phase, b) + after.events,
                   (if Forwards(phase) then [b] else []) + after.forwarded)
  {
    hide Step, Events, Forwards;
    assert ([b] + rest)[1..] == rest;
  }

  lemma {:induction false} RunAppend(phase: Phase, a: seq<byte>, b: seq<byte>)
    ensures var first := Run(phase, a);
      var second := Run(first.phase, b);
      Run(phase, a + b) == Outcome(second.phase, first.events + second.events, first.forwarded + second.forwarded)
    decreases |a|
  {
    hide Run, Step, Events, Forwards;
    RunNothing(phase);
    if a == [] {
      assert a + b == b;
    } else {
      RunCons(phase, a[0], a[1..]);
      RunCons(phase, a[0], a[1..] + b);
      RunAppend(Step(phase, a[0]), a[1..], b);
      assert a == [a[0]] + a[1..] && a + b == [a[0]] + (a[1..] + b);
    }
  }

  /** The magic occurs nowhere in `s`. */
  ghost predicate MagicFree(s: seq<byte>) {
    forall n :: 0 <= n <= |s| ==> !EndsWithMagic(s[..n])
  }

  /** Other traffic passes unchanged. */
  lemma {:induction false} GarbagePasses(unframed: seq<byte>, g: seq<byte>)
    requires MagicFree(unframed + g)
    ensures Run(Waiting(unframed), g) == Outcome(Waiting(unframed + g), [], g)
    decreases |g|
  {
    hide EndsWithMagic;
    if g == [] {
      assert unframed + g == unframed;
    } else {
      var now := unframed + [g[0]];
      assert (unframed + g)[..|unframed| + 1] == now;
      assert now + g[1..] == unframed + g;
      GarbagePasses(now, g[1..]);
    }
  }

  /** A whole magic right after other traffic is recognised at its last octet, not before. */
  lemma NoEarlyMagic(s: seq<byte>)
    requires MagicFree(s)
    ensures MagicFree(s + MAGIC_BYTES[..5])
    ensures EndsWithMagic(s + MAGIC_BYTES)
  {
    var t := s + MAGIC_BYTES[..5];
    forall n | 0 <= n <= |t| ensures !EndsWithMagic(t[..n]) {
      if n <= |s| {
        assert t[..n] == s[..n];
      } else {
        var k := n - |s|;
        assert t[..n][n - k..] == MAGIC_BYTES[..k];
        assert Matches(t[..n], k);
        WholeMagic(t[..n]);
        if Matches(t[..n], 6) { OneMatch(t[..n], k, 6); }
      }
    }
  }

  lemma MagicRecognised(unframed: seq<byte>, g: seq<byte>)
    requires MagicFree(unframed + g)
    ensures Run(Waiting(unframed), g + MAGIC_BYTES) == Outcome(Version, [], g + MAGIC_BYTES)
  {
    hide EndsWithMagic, MagicFree, Run;
    var most := g + MAGIC_BYTES[..5];
    NoEarlyMagic(unframed + g);
    assert unframed + g + MAGIC_BYTES[..5] == unframed + most;
    GarbagePasses(unframed, most);
    var last := [MAGIC_BYTES[5]];
    assert g + MAGIC_BYTES == most + last;
    RunAppend(Waiting(unframed), most, last);
    assert unframed + most + last == unframed + g + MAGIC_BYTES;
    RunOne(Waiting(unframed + most), MAGIC_BYTES[5]);
  }

  lemma RunOne(phase: Phase, b: byte)
    ensures Run(phase, [b]) == Outcome(Step(phase, b), Events(phase, b), if Forwards(phase) then [b] else [])
  {
    hide Step, Events, Forwards;
    assert [b][1..] == [];
  }

  lemma HeaderRuns(ptype: byte, length: byte)
    ensures Run(Version, [PROTO_VERSION, ptype, length])
      == Outcome(if length == 0 then Checksum(ptype, 0, []) else Data(ptype, length, []), [], [])
  {
    var h := [PROTO_VERSION, ptype, length];
    assert h[1..] == [ptype, length] && h[1..][1..] == [length];
    RunOne(Length(ptype), length);
  }

  lemma {:induction false} DataRuns(ptype: byte, length: byte, got: seq<byte>, rest: seq<byte>)
    requires |got| + |rest| == length && rest != []
    ensures Run(Data(ptype, length, got), rest) == Outcome(Checksum(ptype, length, got + rest), [], [])
    decreases |rest|
  {
    var now := got + [rest[0]];
    if |rest| == 1 {
      assert rest == [rest[0]];
      RunOne(Data(ptype, length, got), rest[0]);
    } else {
      assert now + rest[1..] == got + rest;
      DataRuns(ptype, length, now, rest[1..]);
    }
  }

  lemma PayloadRuns(ptype: byte, payload: seq<byte>)
    requires |payload| < 256
    ensures Run(Version, [PROTO_VERSION, ptype, |payload|] + payload)
      == Outcome(Checksum(ptype, |payload|, payload), [], [])
  {
    hide Run;
    var header := [PROTO_VERSION, ptype, |payload|];
    HeaderRuns(ptype, |payload|);
    if payload == [] {
      assert header + payload == header;
    } else {
      DataRuns(ptype, |payload|, [], payload);
      RunAppend(Version, header, payload);
      assert [] + payload == payload;
    }
  }

  /** A packet with any last octet, after any traffic without the magic: the packet is dispatched exactly when the
      octet is the sum of all others, and otherwise an error is. Just the traffic and the magic are passed on, and
      the parser is ready for the next packet. */
  lemma LastOctetDecides(unframed: seq<byte>, g: seq<byte>, ptype: byte, payload: seq<byte>, c: byte)
    requires MagicFree(unframed + g) && |payload| < 256
    ensures var body := Body(ptype, |payload|, payload);
      Run(Waiting(unframed), g + (body + [c]))
        == Outcome(Waiting([]), [if c == Sum(body) % 256 then Packet(ptype, payload) else BadChecksum], g + MAGIC_BYTES)
  {
    hide Run, Sum, MagicFree;
    var inner, body := [PROTO_VERSION, ptype, |payload|] + payload, Body(ptype, |payload|, payload);
    MagicRecognised(unframed, g);
    PayloadRuns(ptype, payload);
    RunAppend(Waiting(unframed), g + MAGIC_BYTES, inner);
    RunOne(Checksum(ptype, |payload|, payload), c);
    RunAppend(Waiting(unframed), g + MAGIC_BYTES + inner, [c]);
    assert g + (body + [c]) == g + MAGIC_BYTES + inner + [c];
  }

  /** A packet after any traffic without the magic: exactly that packet is dispatched, exactly the traffic and
      the magic are passed on, and the parser is ready for the next one. */
  lemma PacketParses(unframed: seq<byte>, g: seq<byte>, ptype: byte, payload: seq<byte>)
    requires MagicFree(unframed + g) && |payload| < 256
    ensures Run(Waiting(unframed), g + Frame(ptype, payload))
      == Outcome(Waiting([]), [Packet(ptype, payload)], g + MAGIC_BYTES)
  {
    hide Run, Sum, MagicFree, Body;
    LastOctetDecides(unframed, g, ptype, payload, Sum(Body(ptype, |payload|, payload)) % 256);
  }

  /** Another version: nothing is dispatched, and the rest is traffic. */
  lemma OtherVersion(unframed: seq<byte>, g: seq<byte>, version: byte)
    requires MagicFree(unframed + g) && version != 1
    ensures Run(Waiting(unframed), g + MAGIC_BYTES + [version]) == Outcome(Waiting([]), [], g + MAGIC_BYTES)
  {
    hide Run, MagicFree;
    MagicRecognised(unframed, g);
    RunOne(Version, version);
    RunAppend(Waiting(unframed), g + MAGIC_BYTES, [version]);
  }

  // ----- what any stream dispatches

  /** The octets of a packet up to this phase. */
  function Opening(phase: Phase): seq<byte> {
    match phase
    case Waiting(_) => []
    case Version => MAGIC_BYTES
    case Type => MAGIC_BYTES + [PROTO_VERSION]
    case Length(ptype) => MAGIC_BYTES + [PROTO_VERSION, ptype]
    case Data(ptype, length, got) => Body(ptype, length, got)
    case Checksum(ptype, length, got) => Body(ptype, length, got)
  }

  ghost predicate WaitsAfter(s: seq<byte>) {
    Run(Waiting([]), s).phase.Waiting?
  }

  /** What a stream ends in when it leads to `phase`: the opening of a packet, met while waiting; or traffic in which
      no magic was recognised. */
  ghost predicate LeadsTo(s: seq<byte>, phase: Phase) {
    match phase
    case Waiting(u) =>
      && |u| <= |s| && MagicFree(u) && s[|s| - |u|..] == u
      && forall n: nat :: |s| - |u| <= n <= |s| ==> WaitsAfter(s[..n])
    case _ =>
      var h := Opening(phase);
      && |h| <= |s| && s[|s| - |h|..] == h && WaitsAfter(s[..|s| - |h|])
      && (phase.Data? ==> |phase.got| < phase.length)
      && (phase.Checksum? ==> |phase.got| == phase.length)
  }

  lemma {:induction false} StreamLeads(s: seq<byte>)
    ensures LeadsTo(s, Run(Waiting([]), s).phase)
    decreases |s|
  {
    hide Run, LeadsTo;
    if s == [] {
      RunNothing(Waiting([]));
      EmptyLeads();
    } else {
      var front, b := s[..|s| - 1], s[|s| - 1];
      StreamLeads(front);
      RunSnoc(front, b);
      assert s == front + [b];
      OctetLeads(front, b, Run(Waiting([]), front).phase);
    }
  }

  lemma EmptyLeads()
    requires Run(Waiting([]), []).phase == Waiting([])
    ensures LeadsTo([], Waiting([]))
  {
    hide Run;
    var none: seq<byte> := [];
    assert none[..0] == none;
  }

  lemma RunSnoc(front: seq<byte>, b: byte)
    ensures var before := Run(Waiting([]), front);
      && Run(Waiting([]), front + [b]).phase == Step(before.phase, b)
      && Run(Waiting([]), front + [b]).events == before.events + Events(before.phase, b)
  {
    hide Run, Step, Events;
    RunAppend(Waiting([]), front, [b]);
    RunOne(Run(Waiting([]), front).phase, b);
  }

  lemma OctetLeads(front: seq<byte>, b: byte, phase: Phase)
    requires LeadsTo(front, phase) && Run(Waiting([]), front + [b]).phase == Step(phase, b)
    ensures LeadsTo(front + [b], Step(phase, b))
  {
    hide Run;
    var s := front + [b];
    if phase.Waiting? {
      TrafficLeads(front, b, phase.unframed);
    } else {
      var h, next := Opening(phase), Step(phase, b);
      if next.Waiting? {
        assert next == Waiting([]) && s[..|s|] == s;
      } else {
        assert Opening(next) == h + [b];
        assert s[|s| - |h| - 1..] == h + [b] && s[..|s| - |h| - 1] == front[..|front| - |h|];
      }
    }
  }

  lemma TrafficLeads(front: seq<byte>, b: byte, u: seq<byte>)
    requires LeadsTo(front, Waiting(u)) && Run(Waiting([]), front + [b]).phase == Step(Waiting(u), b)
    ensures LeadsTo(front + [b], Step(Waiting(u), b))
  {
    hide Run, EndsWithMagic;
    var s, v := front + [b], u + [b];
    if EndsWithMagic(v) {
      MagicAtEnd(front, b, u);
    } else {
      assert s[|s| - |v|..] == v;
      forall n | 0 <= n <= |v| ensures !EndsWithMagic(v[..n]) {
        if n <= |u| { assert v[..n] == u[..n]; } else { assert v[..n] == v; }
      }
      forall n: nat | |s| - |v| <= n <= |s| ensures WaitsAfter(s[..n]) {
        if n <= |front| { assert s[..n] == front[..n]; } else { assert s[..n] == s; }
      }
    }
  }

  lemma MagicAtEnd(front: seq<byte>, b: byte, u: seq<byte>)
    requires LeadsTo(front, Waiting(u)) && EndsWithMagic(u + [b])
    ensures LeadsTo(front + [b], Version)
  {
    hide Run, MagicFree;
    var s, v := front + [b], u + [b];
    var n := |s| - 6;
    assert s[n..] == v[|v| - 6..] by { assert s[|s| - |v|..] == v; }
    assert s[..n] == front[..n] && WaitsAfter(front[..n]);
  }

  /** The stream ends in a packet with last octet `c`, whose magic was met while waiting. */
  ghost predicate EndsIn(s: seq<byte>, ptype: byte, payload: seq<byte>, c: byte) {
    && |payload| < 256 && |s| >= |payload| + 10
    && s[|s| - |payload| - 10..] == Body(ptype, |payload|, payload) + [c]
    && WaitsAfter(s[..|s| - |payload| - 10])
  }

  /** For every stream: its last octet dispatches a packet exactly when the stream ends in that packet with the
      right checksum, an error exactly when it ends in a packet with a wrong one, and nothing else at all. */
  lemma DispatchIff(front: seq<byte>, b: byte, events: seq<Event>)
    ensures Run(Waiting([]), front + [b]).events == Run(Waiting([]), front).events + events <==>
      if exists ptype, payload :: EndsIn(front + [b], ptype, payload, b) then
        exists ptype, payload :: EndsIn(front + [b], ptype, payload, b)
          && events == [if b == Sum(Body(ptype, |payload|, payload)) % 256 then Packet(ptype, payload) else BadChecksum]
      else events == []
  {
    hide Run, Sum, Body, EndsIn;
    var s, phase := front + [b], Run(Waiting([]), front).phase;
    RunSnoc(front, b);
    StreamLeads(front);
    SameRest(Run(Waiting([]), front).events, events, Events(phase, b));
    if phase.Checksum? {
      InChecksum(front, b, phase);
      forall ptype, payload | EndsIn(s, ptype, payload, b)
        ensures ptype == phase.ptype && payload == phase.got
      {
        AtLastOctet(front, b, ptype, payload);
      }
    } else {
      forall ptype, payload | EndsIn(s, ptype, payload, b) ensures false {
        AtLastOctet(front, b, ptype, payload);
      }
    }
  }

  lemma SameRest<T>(a: seq<T>, b: seq<T>, c: seq<T>)
    ensures a + b == a + c <==> b == c
  {
    assert (a + b)[|a|..] == b && (a + c)[|a|..] == c;
  }

  lemma InChecksum(front: seq<byte>, b: byte, phase: Phase)
    requires phase.Checksum? && LeadsTo(front, phase)
    ensures EndsIn(front + [b], phase.ptype, phase.got, b) && phase.length == |phase.got|
  {
    hide Run;
    var s, n := front + [b], |front| - |Opening(phase)|;
    assert |Opening(phase)| == |phase.got| + 9;
    assert s[n..] == front[n..] + [b] && s[..n] == front[..n];
  }

  /** Before the last octet of such a packet the parser waits for its checksum. */
  lemma AtLastOctet(front: seq<byte>, b: byte, ptype: byte, payload: seq<byte>)
    requires EndsIn(front + [b], ptype, payload, b)
    ensures Run(Waiting([]), front).phase == Checksum(ptype, |payload|, payload)
  {
    hide Run, MagicFree;
    var s := front + [b];
    var n := |s| - |payload| - 10;
    var g, inner := s[..n], [PROTO_VERSION, ptype, |payload|] + payload;
    StreamLeads(g);
    var u := Run(Waiting([]), g).phase.unframed;
    assert s[n..][..|payload| + 9] == Body(ptype, |payload|, payload);
    assert front == g + (MAGIC_BYTES + inner);
    assert u + [] == u && [] + MAGIC_BYTES == MAGIC_BYTES;
    MagicRecognised(u, []);
    PayloadRuns(ptype, payload);
    RunAppend(Waiting(u), MAGIC_BYTES, inner);
    RunAppend(Waiting([]), g, MAGIC_BYTES + inner);
  }

  /** The octets of a packet: of type 3 and without payload, and of type 1 with one octet. */
  lemma OnTheWire()
    ensures Frame(3, []) == [0x49, 0x4D, 0x50, 0x52, 0x4F, 0x56, 0x01, 0x03, 0x00, 0xE1]
    ensures Frame(1, [2]) == [0x49, 0x4D, 0x50, 0x52, 0x4F, 0x56, 0x01, 0x01, 0x01, 0x02, 0xE2]
  {
    MagicSum();
    hide Sum;
    Sums(1, Version);
    Sums(3, Type);
    Sums(0, Length(3));
    Sums(1, Type);
    Sums(1, Length(1));
    Sums(2, Data(1, 1, []));
    var two: seq<byte> := [2];
    assert [] + two == two && Sum(Body(1, 1, two)) == 482 && Sum(Body(3, 0, [])) == 481;
  }

  lemma MagicSum()
    ensures Sum(MAGIC_BYTES) == 477
  {
    hide Sum;
    MagicSums(0);
    MagicSums(1);
    MagicSums(2);
    MagicSums(3);
    MagicSums(4);
    MagicSums(5);
  }

  /** A packet and the traffic before it. */
  datatype Part = Part(garbage: seq<byte>, ptype: byte, payload: seq<byte>)

  ghost predicate Good(part: Part) {
    MagicFree(part.garbage) && |part.payload| < 256
  }

  ghost function Wire(parts: seq<Part>): seq<byte>
    requires forall part :: part in parts ==> Good(part)
  {
    if parts == [] then [] else
    assert Good(parts[0]);
    parts[0].garbage + Frame(parts[0].ptype, parts[0].payload) + Wire(parts[1..])
  }

  function Packets(parts: seq<Part>): seq<Event> {
    if parts == [] then [] else [Packet(parts[0].ptype, parts[0].payload)] + Packets(parts[1..])
  }

  function Passed(parts: seq<Part>): seq<byte> {
    if parts == [] then [] else parts[0].garbage + MAGIC_BYTES + Passed(parts[1..])
  }

  lemma {:induction false} StreamParses(parts: seq<Part>)
    requires forall part :: part in parts ==> Good(part)
    ensures Run(Waiting([]), Wire(parts)) == Outcome(Waiting([]), Packets(parts), Passed(parts))
  {
    hide MagicFree, Frame;
    if parts != [] {
      var part := parts[0];
      assert Good(part);
      var first := part.garbage + Frame(part.ptype, part.payload);
      assert [] + part.garbage == part.garbage;
      PacketParses([], part.garbage, part.ptype, part.payload);
      StreamParses(parts[1..]);
      RunAppend(Waiting([]), first, Wire(parts[1..]));
    }
  }

  // ----- the sending side

  /** `memcpy` to the end of what is in the buffer. */
  method Put(buf: array<byte>, pos: nat, bytes: seq<byte>) returns (end: nat)
    requires pos + |bytes| <= buf.Length
    modifies buf
    ensures end == pos + |bytes| && buf[..end] == old(buf[..pos]) + bytes
  {
    forall i | 0 <= i < |bytes| { buf[pos + i] := bytes[i]; }
    end := pos + |bytes|;
  }

  /** `write_frame`: the octets given to the one `Serial.write`. */
  method WriteFrame(ptype: byte, payload: seq<byte>) returns (out: seq<byte>)
    requires |payload| < 256
    ensures out == Frame(ptype, payload)
  {
    var buf := new byte[265](_ => 0);
    var pos := Put(buf, 0, MAGIC_BYTES);
    pos := Put(buf, pos, [PROTO_VERSION, ptype, |payload|]);
    pos := Put(buf, pos, payload);
    assert buf[..pos] == Body(ptype, |payload|, payload);
    var cs := SumOctets(buf, pos);
    pos := Put(buf, pos, [cs]);
    out := buf[..pos];
  }

  /** The checksum loop of `write_frame`. */
  method SumOctets(buf: array<byte>, pos: nat) returns (cs: byte)
    requires pos <= buf.Length
    ensures cs == Sum(buf[..pos]) % 256
  {
    cs := 0;
    for i := 0 to pos
      invariant cs == Sum(buf[..i]) % 256
    {
      SumSnoc(buf[..i], buf[i]);
      assert buf[..i + 1] == buf[..i] + [buf[i]];
      ModSum(Sum(buf[..i]), buf[i]);
      cs := (cs + buf[i]) % 256;
    }
  }

  lemma ModSum(a: nat, b: nat)
    ensures (a % 256 + b) % 256 == (a + b) % 256
  {
  }

  /** The strings that a result carries from position `pos` on: nulls are skipped, and what does not fit in 255
      octets is cut. */
  function Written(strings: seq<Option<seq<byte>>>, pos: nat): (written: seq<seq<byte>>)
    requires pos <= 255
    ensures pos + |Prefixed(written)| <= 255
    ensures forall s :: s in written ==> |s| < 256
    decreases |strings|
  {
    if strings == [] then [] else
    match strings[0]
    case None => Written(strings[1..], pos)
    case Some(s) =>
      if pos >= 254 then [] else
      var cut := s[..Min(|s|, 254 - pos)];
      [cut] + Written(strings[1..], pos + 1 + |cut|)
  }

  /** A length octet before each string. */
  function Prefixed(strings: seq<seq<byte>>): seq<byte> {
    if strings == [] then [] else
    (if |strings[0]| < 256 then [|strings[0]|] else [0]) + strings[0] + Prefixed(strings[1..])
  }

  function Given(strings: seq<Option<seq<byte>>>): seq<seq<byte>> {
    if strings == [] then [] else
    (if strings[0].Some? then [strings[0].value] else []) + Given(strings[1..])
  }

  /** What a host reads from the octets after the command and its length. */
  function ReadStrings(bytes: seq<byte>): Option<seq<seq<byte>>>
    decreases |bytes|
  {
    if bytes == [] then Some([]) else
    if 1 + bytes[0] > |bytes| then None else
    match ReadStrings(bytes[1 + bytes[0]..])
    case None => None
    case Some(rest) => Some([bytes[1..1 + bytes[0]]] + rest)
  }

  lemma {:induction false} ReadPrefixed(strings: seq<seq<byte>>)
    requires forall s :: s in strings ==> |s| < 256
    ensures ReadStrings(Prefixed(strings)) == Some(strings)
  {
    if strings != [] {
      var s, rest := strings[0], strings[1..];
      assert s in strings && |s| < 256;
      ReadPrefixed(rest);
      ReadOne(s, Prefixed(rest));
      assert strings == [s] + rest;
    }
  }

  lemma ReadOne(s: seq<byte>, rest: seq<byte>)
    requires |s| < 256
    ensures ReadStrings([|s|] + s + rest) == match ReadStrings(rest)
      case None => None
      case Some(others) => Some([s] + others)
  {
    var bytes := [|s|] + s + rest;
    assert bytes[0] == |s| && bytes[1..1 + |s|] == s && bytes[1 + |s|..] == rest;
  }

  lemma PrefixedCons(s: seq<byte>, rest: seq<seq<byte>>)
    ensures |Prefixed([s] + rest)| == 1 + |s| + |Prefixed(rest)|
  {
    assert ([s] + rest)[1..] == rest;
  }

  predicate LastIsEmpty(strings: seq<seq<byte>>) {
    strings != [] && strings[|strings| - 1] == []
  }

  /** Whether `strings` fit from `pos` on: an empty string does not go into the last octet. */
  predicate Fit(strings: seq<seq<byte>>, pos: nat) {
    strings == [] || pos + |Prefixed(strings)| <= if LastIsEmpty(strings) then 254 else 255
  }

  lemma FitCons(s: seq<byte>, rest: seq<seq<byte>>, pos: nat)
    ensures Fit([s] + rest, pos) <==> pos < 254 && |s| <= 254 - pos && Fit(rest, pos + 1 + |s|)
  {
    hide Prefixed;
    PrefixedCons(s, rest);
    assert rest == [] ==> |Prefixed(rest)| == 0 by { PrefixedNone(rest); }
    PrefixedSome(rest);
  }

  lemma PrefixedNone(strings: seq<seq<byte>>)
    ensures strings == [] ==> Prefixed(strings) == []
  {
  }

  lemma PrefixedSome(strings: seq<seq<byte>>)
    ensures strings != [] ==> |Prefixed(strings)| >= 1
  {
  }

  lemma WrittenCons(first: Option<seq<byte>>, rest: seq<Option<seq<byte>>>, pos: nat)
    requires pos <= 255
    ensures Given([first] + rest) == (if first.Some? then [first.value] else []) + Given(rest)
    ensures first.None? ==> Written([first] + rest, pos) == Written(rest, pos)
    ensures first.Some? && pos >= 254 ==> Written([first] + rest, pos) == []
    ensures first.Some? && pos < 254 ==>
      var cut := first.value[..Min(|first.value|, 254 - pos)];
      Written([first] + rest, pos) == [cut] + Written(rest, pos + 1 + |cut|)
  {
    assert ([first] + rest)[1..] == rest;
  }

  /** The first of the strings given, the last of them perhaps cut. */
  ghost predicate CutOf(written: seq<seq<byte>>, given: seq<seq<byte>>) {
    && |written| <= |given| && (forall i :: 0 <= i < |written| - 1 ==> written[i] == given[i])
    && (written != [] ==> written[|written| - 1] <= given[|written| - 1])
  }

  lemma CutCons(cut: seq<byte>, s: seq<byte>, written: seq<seq<byte>>, given: seq<seq<byte>>)
    requires CutOf(written, given) && cut <= s && (cut == s || written == [])
    ensures CutOf([cut] + written, [s] + given)
  {
    var w, g := [cut] + written, [s] + given;
    forall i | 0 <= i < |w| - 1 ensures w[i] == g[i] {
      if i > 0 { assert written[i - 1] == given[i - 1]; }
    }
  }

  /** Strings are carried in order, and cut only where the 255 octets, or all but one of them, are used up. */
  lemma {:induction false} WrittenCut(strings: seq<Option<seq<byte>>>, pos: nat)
    requires pos <= 255
    ensures CutOf(Written(strings, pos), Given(strings))
    ensures Written(strings, pos) != Given(strings) ==> pos + |Prefixed(Written(strings, pos))| >= 254
    decreases |strings|, 0
  {
    if strings != [] {
      hide Written, Given, Prefixed, CutOf;
      var first, rest := strings[0], strings[1..];
      assert strings == [first] + rest;
      WrittenCons(first, rest, pos);
      PrefixedNone([]);
      if first.None? {
        WrittenCut(rest, pos);
        assert [] + Given(rest) == Given(rest);
      } else if pos < 254 {
        OneCut(first.value, rest, pos);
      } else {
        NothingCut(Given(strings));
      }
    }
  }

  lemma {:induction false} OneCut(s: seq<byte>, rest: seq<Option<seq<byte>>>, pos: nat)
    requires pos < 254
    ensures var cut := s[..Min(|s|, 254 - pos)];
      var written, given := [cut] + Written(rest, pos + 1 + |cut|), [s] + Given(rest);
      CutOf(written, given) && (written != given ==> pos + |Prefixed(written)| >= 254)
    decreases |rest|, 1
  {
    hide Written, Given, Prefixed, CutOf;
    var cut := s[..Min(|s|, 254 - pos)];
    var next := pos + 1 + |cut|;
    WrittenCut(rest, next);
    PrefixedCons(cut, Written(rest, next));
    if |cut| < |s| { PrefixedSome(Written(rest, next)); }
    CutCons(cut, s, Written(rest, next), Given(rest));
  }

  lemma NothingCut(given: seq<seq<byte>>)
    ensures CutOf([], given)
  {
  }

  /** All strings arrive whole exactly when they fit. */
  lemma {:induction false} WrittenWhole(strings: seq<Option<seq<byte>>>, pos: nat)
    requires pos <= 255
    ensures Written(strings, pos) == Given(strings) <==> Fit(Given(strings), pos)
    decreases |strings|
  {
    if strings != [] {
      hide Written, Given, Fit;
      var first, rest := strings[0], strings[1..];
      assert strings == [first] + rest;
      WrittenCons(first, rest, pos);
      if first.None? {
        WrittenWhole(rest, pos);
        assert [] + Given(rest) == Given(rest);
      } else {
        var s := first.value;
        FitCons(s, Given(rest), pos);
        if pos < 254 {
          var cut := s[..Min(|s|, 254 - pos)];
          WrittenWhole(rest, pos + 1 + |cut|);
          SameCons(cut, Written(rest, pos + 1 + |cut|), s, Given(rest));
        }
      }
    }
  }

  lemma SameCons(a: seq<byte>, as_: seq<seq<byte>>, b: seq<byte>, bs: seq<seq<byte>>)
    ensures [a] + as_ == [b] + bs <==> a == b && as_ == bs
  {
    var x, y := [a] + as_, [b] + bs;
    assert x[0] == a && y[0] == b && x[1..] == as_ && y[1..] == bs;
  }

  lemma NothingWritten(strings: seq<Option<seq<byte>>>, pos: nat)
    requires pos <= 255 && strings == []
    ensures Written(strings, pos) == []
  {
  }

  /** `send_rpc_result`: the payload of the result packet. */
  method SendRpcResult(cmd: byte, strings: seq<Option<seq<byte>>>) returns (payload: seq<byte>)
    ensures |payload| <= 255
    ensures payload == [cmd, |Prefixed(Written(strings, 2))|] + Prefixed(Written(strings, 2))
  {
    hide Written, Prefixed;
    var buf := new byte[256](_ => 0);
    buf[0] := cmd;
    var innerLenPos, innerStart := 1, 2;
    ghost var done;
    var pos;
    pos, done := PutStrings(buf, innerStart, strings);
    buf[innerLenPos] := pos - innerStart;
    payload := buf[..pos];
    assert payload == payload[..2] + buf[innerStart..pos];
  }

  /** The loop over the strings. */
  method PutStrings(buf: array<byte>, start: nat, strings: seq<Option<seq<byte>>>)
    returns (pos: nat, ghost done: seq<seq<byte>>)
    requires buf.Length == 256 && start == 2
    modifies buf
    ensures done == Written(strings, start)
    ensures start <= pos <= 255 && buf[start..pos] == Prefixed(done) && buf[..start] == old(buf[..start])
  {
    hide Written, Prefixed;
    pos, done := start, [];
    PrefixedNone(done);
    assert strings[0..] == strings;
    for i := 0 to |strings|
      invariant start <= pos <= 255 && buf[start..pos] == Prefixed(done) && buf[..start] == old(buf[..start])
      invariant Written(strings, start) == done + Written(strings[i..], pos)
    {
      assert strings[i..] == [strings[i]] + strings[i + 1..];
      WrittenCons(strings[i], strings[i + 1..], pos);
      if strings[i].None? { continue; }
      var s := strings[i].value;
      if pos >= 254 { return; }
      var slen := Min(|s|, 254 - pos);
      PrefixedSnoc(done, s[..slen]);
      pos := PutString(buf, pos, s[..slen]);
      done := done + [s[..slen]];
    }
    NothingWritten(strings[|strings|..], pos);
  }

  /** The length octet, and the string. */
  method PutString(buf: array<byte>, pos: nat, s: seq<byte>) returns (end: nat)
    requires pos + 1 + |s| <= buf.Length && |s| < 256 && pos >= 2
    modifies buf
    ensures end == pos + 1 + |s|
    ensures buf[..2] == old(buf[..2]) && buf[2..end] == old(buf[2..pos]) + [|s|] + s
  {
    end := Put(buf, pos, [|s|]);
    end := Put(buf, end, s);
    assert buf[..end] == old(buf[..pos]) + [|s|] + s;
    assert buf[2..end] == buf[..end][2..] && buf[..2] == buf[..end][..2];
    assert old(buf[2..pos]) == old(buf[..pos])[2..] && old(buf[..2]) == old(buf[..pos])[..2];
  }

  lemma {:induction false} PrefixedSnoc(strings: seq<seq<byte>>, s: seq<byte>)
    requires |s| < 256
    ensures Prefixed(strings + [s]) == Prefixed(strings) + [|s|] + s
  {
    if strings == [] {
      assert strings + [s] == [s] && [s][1..] == [];
    } else {
      assert (strings + [s])[1..] == strings[1..] + [s];
      PrefixedSnoc(strings[1..], s);
    }
  }
}
