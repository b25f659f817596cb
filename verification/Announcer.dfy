/** When the announcer submits which interface. */
module Announcer {
  import opened Arith
  import opened Wrappers

  const WORD := 0x1_0000_0000
  const TICK_PERIOD_MS := 60_000

  type uint32 = n: int | 0 <= n < WORD

  type Name = string

  /** An interface as the loop over the transport's interfaces sees it. `buildable` is whether
      `build_for_interface` and the encoding succeed. */
  datatype Interface = Interface(name: Name, discoverable: bool, buildable: bool)

  type Times = map<Name, uint32>

  /** The recorded time of the last announce, 0 for none. */
  function LastOf(last: Times, n: Name): uint32 {
    if n in last then last[n] else 0
  }

  /** How long ago that was; an interface never announced counts as just due. */
  function Since(last: Times, n: Name, now: uint32, interval: uint32): uint32 {
    if LastOf(last, n) == 0 then interval else (now - LastOf(last, n)) % WORD
  }

  /** Times wrap in 32 bits, and so does their difference. */
  lemma SinceWraps(last: Times, n: Name, now: uint32, interval: uint32)
    requires LastOf(last, n) > 0
    ensures Since(last, n, now, interval)
      == if LastOf(last, n) <= now then now - LastOf(last, n) else 0x1_0000_0000 + now - LastOf(last, n)
  {
  }

  predicate Due(last: Times, i: Interface, now: uint32, interval: uint32) {
    i.discoverable && Since(last, i.name, now, interval) >= interval && Since(last, i.name, now, interval) > 0
  }

  /** Entry `k` is due, none is staler, and none before it is as stale. */
  predicate Chosen(last: Times, interfaces: seq<Interface>, now: uint32, interval: uint32, k: nat) {
    && k < |interfaces| && Due(last, interfaces[k], now, interval)
    && (forall j :: 0 <= j < |interfaces| && Due(last, interfaces[j], now, interval)
         ==> Since(last, interfaces[j].name, now, interval) <= Since(last, interfaces[k].name, now, interval))
    && (forall j :: 0 <= j < k && Due(last, interfaces[j], now, interval)
         ==> Since(last, interfaces[j].name, now, interval) < Since(last, interfaces[k].name, now, interval))
  }

  predicate NoneDue(last: Times, interfaces: seq<Interface>, now: uint32, interval: uint32) {
    forall j :: 0 <= j < |interfaces| ==> !Due(last, interfaces[j], now, interval)
  }

  predicate Sendable(i: Interface) {
    i.buildable && i.name != ""
  }

  /** A tick at `now`, with the worker free, submits interface `n`. */
  ghost predicate Sends(last: Times, interfaces: seq<Interface>, now: uint32, interval: uint32, n: Name) {
    exists k: nat :: Chosen(last, interfaces, now, interval, k) && interfaces[k].name == n && Sendable(interfaces[k])
  }

  /** Or it submits none: none is due, or the one chosen cannot be announced. */
  ghost predicate SendsNothing(last: Times, interfaces: seq<Interface>, now: uint32, interval: uint32) {
    || NoneDue(last, interfaces, now, interval)
    || exists k: nat :: Chosen(last, interfaces, now, interval, k) && !Sendable(interfaces[k])
  }

  class Announcer {
    var lastTick: uint32
    var last: Times

    constructor ()
      ensures lastTick == 0 && last == map[]
    {
      lastTick, last := 0, map[];
    }

    predicate Throttled(now: uint32)
      reads this
    {
      (now - lastTick) % WORD < TICK_PERIOD_MS && lastTick != 0
    }

    /** The loop over the interfaces. */
    method Select(interfaces: seq<Interface>, now: uint32, interval: uint32) returns (due: Option<nat>)
      ensures due.Some? ==> Chosen(last, interfaces, now, interval, due.value)
      ensures due.None? ==> NoneDue(last, interfaces, now, interval)
    {
      hide Since;
      due := None;
      var overdue: uint32 := 0;
      for i := 0 to |interfaces|
        invariant due.None? ==> overdue == 0 && NoneDue(last, interfaces[..i], now, interval)
        invariant due.Some? ==>
          && Chosen(last, interfaces[..i], now, interval, due.value)
          && overdue == Since(last, interfaces[due.value].name, now, interval)
      {
        assert interfaces[..i + 1] == interfaces[..i] + [interfaces[i]];
        if !interfaces[i].discoverable { continue; }
        var since := Since(last, interfaces[i].name, now, interval);
        if since < interval { continue; }
        if since > overdue {
          overdue := since;
          due := Some(i);
        }
      }
      assert interfaces[..|interfaces|] == interfaces;
    }

    /** `tick`. `ready` is whether the destination exists, `free` whether the stamp worker takes the job. */
    method Tick(interfaces: seq<Interface>, now: uint32, interval: uint32, enabled: bool, ready: bool, free: bool)
      returns (submitted: Option<Name>)
      modifies this
      ensures !enabled || !ready || old(Throttled(now)) ==>
        submitted == None && last == old(last) && lastTick == old(lastTick)
      ensures enabled && ready && !old(Throttled(now)) ==> lastTick == now
      ensures enabled && ready && (old(lastTick) == 0 || (now - old(lastTick)) % 0x1_0000_0000 >= 60_000) ==>
        lastTick == now
      ensures old(lastTick) != 0 && (now - old(lastTick)) % 0x1_0000_0000 < 60_000 ==>
        submitted == None && last == old(last) && lastTick == old(lastTick)
      ensures submitted == None ==> last == old(last)
      ensures !free ==> submitted == None
      ensures submitted.Some? ==>
        && last == old(last)[submitted.value := now]
        && Sends(old(last), interfaces, now, interval, submitted.value)
      ensures enabled && ready && !old(Throttled(now)) && free && submitted == None ==>
        SendsNothing(last, interfaces, now, interval)
    {
      if !enabled || !ready { return None; }
      if Throttled(now) { return None; }
      lastTick := now;
      var due := Select(interfaces, now, interval);
      if due.None? || interfaces[due.value].name == "" { return None; }
      if !interfaces[due.value].buildable { return None; }
      if !free { return None; }
      last := last[interfaces[due.value].name := now];
      return Some(interfaces[due.value].name);
    }

    /** The callback of a finished job. */
    method OnDone(n: Name, now: uint32)
      modifies `last
      ensures last == old(last)[n := now]
    {
      last := last[n := now];
    }
  }

  // ----- who is chosen

  lemma NoWrap(last: Times, n: Name, now: uint32, interval: uint32)
    requires 0 < LastOf(last, n) <= now
    ensures Since(last, n, now, interval) == now - LastOf(last, n)
  {
  }

  lemma OneChosen(last: Times, interfaces: seq<Interface>, now: uint32, interval: uint32, j: nat, k: nat)
    requires Chosen(last, interfaces, now, interval, j) && Chosen(last, interfaces, now, interval, k)
    ensures j == k
  {
    hide Since;
  }

  /** Of those announced before, entry `k` is the stalest, the first of equals. */
  ghost predicate Stalest(last: Times, interfaces: seq<Interface>, k: nat) {
    && k < |interfaces| && interfaces[k].discoverable && LastOf(last, interfaces[k].name) > 0
    && forall j :: 0 <= j < |interfaces| && j != k && interfaces[j].discoverable && LastOf(last, interfaces[j].name) > 0
         ==> LastOf(last, interfaces[j].name) >= LastOf(last, interfaces[k].name) + if j < k then 1 else 0
  }

  ghost predicate NewBefore(last: Times, interfaces: seq<Interface>, k: nat)
    requires k <= |interfaces|
  {
    exists j :: 0 <= j < k && interfaces[j].discoverable && LastOf(last, interfaces[j].name) == 0
  }

  ghost predicate Past(last: Times, now: uint32) {
    forall n :: LastOf(last, n) <= now
  }

  /** An interface announced before is chosen exactly when its interval is over and it is the stalest; at the
      very end of the interval a new one listed before it would go first. */
  lemma AnnouncedChosenIff(last: Times, interfaces: seq<Interface>, now: uint32, interval: uint32, k: nat)
    requires k < |interfaces| && LastOf(last, interfaces[k].name) > 0 && Past(last, now) && interval > 0
    ensures var end := LastOf(last, interfaces[k].name) + interval;
      Chosen(last, interfaces, now, interval, k)
      <==> Stalest(last, interfaces, k) && end <= now && (end == now ==> !NewBefore(last, interfaces, k))
  {
    hide Since;
    forall j | 0 <= j < |interfaces|
      ensures Since(last, interfaces[j].name, now, interval)
        == if LastOf(last, interfaces[j].name) == 0 then interval else now - LastOf(last, interfaces[j].name)
    {
      SinceOf(last, interfaces[j].name, now, interval);
    }
  }

  lemma SinceOf(last: Times, n: Name, now: uint32, interval: uint32)
    requires LastOf(last, n) <= now
    ensures Since(last, n, now, interval) == if LastOf(last, n) == 0 then interval else now - LastOf(last, n)
  {
  }

  /** An interface never announced is chosen exactly when it is the first such one, and no other is overdue, nor
      just due and listed before it. */
  lemma NewChosenIff(last: Times, interfaces: seq<Interface>, now: uint32, interval: uint32, k: nat)
    requires k < |interfaces| && interfaces[k].discoverable && LastOf(last, interfaces[k].name) == 0 && interval > 0
    requires Past(last, now)
    ensures Chosen(last, interfaces, now, interval, k)
      <==> forall j :: 0 <= j < |interfaces| && j != k && interfaces[j].discoverable ==>
             if LastOf(last, interfaces[j].name) == 0 then k < j
             else now - LastOf(last, interfaces[j].name) < interval + if j < k then 0 else 1
  {
    hide Since;
    forall j | 0 <= j < |interfaces|
      ensures Since(last, interfaces[j].name, now, interval)
        == if LastOf(last, interfaces[j].name) == 0 then interval else now - LastOf(last, interfaces[j].name)
    {
      SinceOf(last, interfaces[j].name, now, interval);
    }
  }

  /** Where any is due, one is chosen. */
  lemma {:induction false} SomeChosen(last: Times, interfaces: seq<Interface>, now: uint32, interval: uint32, n: nat)
    returns (k: nat)
    requires n <= |interfaces| && !NoneDue(last, interfaces[..n], now, interval)
    ensures Chosen(last, interfaces[..n], now, interval, k)
  {
    hide Since;
    var front := interfaces[..n - 1];
    assert interfaces[..n] == front + [interfaces[n - 1]];
    if NoneDue(last, front, now, interval) {
      k := n - 1;
    } else {
      k := SomeChosen(last, interfaces, now, interval, n - 1);
      if Due(last, interfaces[n - 1], now, interval)
        && Since(last, interfaces[n - 1].name, now, interval) > Since(last, interfaces[k].name, now, interval) {
        k := n - 1;
      }
    }
  }

  // ----- runs

  /** What can happen: a tick submits an interface or none, or the callback of a job records its end. */
  datatype Event = Ticked(at: uint32, sent: Option<Name>) | Done(at: uint32, name: Name)

  predicate About(e: Event, n: Name) {
    if e.Done? then e.name == n else e.sent == Some(n)
  }

  function Recorded(last: Times, e: Event): Times {
    match e
    case Ticked(at, Some(n)) => last[n := at]
    case Ticked(_, None) => last
    case Done(at, n) => last[n := at]
  }

  ghost predicate Happens(last: Times, e: Event, interfaces: seq<Interface>, interval: uint32) {
    match e
    case Ticked(now, Some(n)) => Sends(last, interfaces, now, interval, n)
    case Ticked(now, None) => SendsNothing(last, interfaces, now, interval)
    case Done(_, _) => true
  }

  /** The times recorded after the first `k` events. */
  function After(start: Times, events: seq<Event>, k: nat): Times
    requires k <= |events|
  {
    if k == 0 then start else Recorded(After(start, events, k - 1), events[k - 1])
  }

  lemma AfterNext(start: Times, events: seq<Event>, k: nat)
    requires k < |events|
    ensures After(start, events, k + 1) == Recorded(After(start, events, k), events[k])
  {
  }

  lemma RecordedOther(last: Times, e: Event, n: Name)
    ensures LastOf(Recorded(last, e), n) == if About(e, n) then e.at else LastOf(last, n)
  {
  }

  /** The clock does not run backwards, and starts after 0. */
  ghost predicate Clocked(start: Times, events: seq<Event>) {
    && (forall k :: 0 <= k < |events| ==> events[k].at > 0)
    && (forall j, k :: 0 <= j <= k < |events| ==> events[j].at <= events[k].at)
    && (forall n, k :: n in start && 0 <= k < |events| ==> start[n] <= events[k].at)
  }

  /** A run with fixed interfaces and interval, and a worker that is free at every tick. */
  ghost predicate IsRun(start: Times, events: seq<Event>, interfaces: seq<Interface>, interval: uint32) {
    && Clocked(start, events)
    && forall k :: 0 <= k < |events| ==> Happens(After(start, events, k), events[k], interfaces, interval)
  }

  /** What is recorded never lies ahead of the next event. */
  lemma {:induction false} RecordedIsPast(start: Times, events: seq<Event>, k: nat, j: nat, n: Name)
    requires Clocked(start, events) && k <= j < |events|
    ensures LastOf(After(start, events, k), n) <= events[j].at
  {
    if k > 0 {
      RecordedIsPast(start, events, k - 1, j, n);
      RecordedOther(After(start, events, k - 1), events[k - 1], n);
    }
  }

  lemma AllPast(start: Times, events: seq<Event>, k: nat)
    requires Clocked(start, events) && k < |events|
    ensures Past(After(start, events, k), events[k].at)
  {
    forall n ensures LastOf(After(start, events, k), n) <= events[k].at {
      RecordedIsPast(start, events, k, k, n);
    }
  }

  /** From an event about `n` on, its recorded time is at least that event's. */
  lemma {:induction false} RecordedSince(start: Times, events: seq<Event>, i: nat, k: nat, n: Name)
    requires Clocked(start, events) && i < k <= |events| && About(events[i], n)
    ensures LastOf(After(start, events, k), n) >= events[i].at
  {
    hide After, Recorded, LastOf;
    AfterNext(start, events, k - 1);
    RecordedOther(After(start, events, k - 1), events[k - 1], n);
    if k > i + 1 { RecordedSince(start, events, i, k - 1, n); }
  }

  /** Two submissions of one interface lie at least the interval apart. */
  lemma SubmissionsApart(
    start: Times, events: seq<Event>, interfaces: seq<Interface>, interval: uint32, i: nat, j: nat, n: Name)
    requires IsRun(start, events, interfaces, interval) && i < j < |events|
    requires events[i] == Ticked(events[i].at, Some(n)) && events[j] == Ticked(events[j].at, Some(n))
    ensures events[j].at - events[i].at >= interval
  {
    hide Sends, After, LastOf;
    var before := After(start, events, j);
    RecordedSince(start, events, i, j, n);
    RecordedIsPast(start, events, j, j, n);
    assert Happens(before, events[j], interfaces, interval);
    SentIsStale(before, interfaces, events[j].at, interval, n);
  }

  lemma SentIsStale(last: Times, interfaces: seq<Interface>, now: uint32, interval: uint32, n: Name)
    requires Sends(last, interfaces, now, interval, n) && 0 < LastOf(last, n) <= now
    ensures now - LastOf(last, n) >= interval
  {
    hide Since;
    NoWrap(last, n, now, interval);
  }

  // ----- how long an announced interface waits

  /** The discoverable interfaces that can still go before `x`. */
  function Ahead(last: Times, interfaces: seq<Interface>, x: Name): set<Name> {
    set i | i in interfaces && i.discoverable && i.name != x
      && (LastOf(last, i.name) == 0 || LastOf(last, i.name) <= LastOf(last, x)) :: i.name
  }

  function Discoverable(interfaces: seq<Interface>): set<Name> {
    set i | i in interfaces && i.discoverable :: i.name
  }

  predicate AllSendable(interfaces: seq<Interface>) {
    forall i :: i in interfaces && i.discoverable ==> Sendable(i)
  }

  function Submissions(events: seq<Event>, a: nat, b: nat): nat
    requires a <= b <= |events|
  {
    if a == b then 0 else
    Submissions(events, a, b - 1) + if events[b - 1].Ticked? && events[b - 1].sent.Some? then 1 else 0
  }

  function Ticks(events: seq<Event>, a: nat, b: nat): nat
    requires a <= b <= |events|
  {
    if a == b then 0 else Ticks(events, a, b - 1) + if events[b - 1].Ticked? then 1 else 0
  }

  /** Nothing happens to `x` from event `a` to event `b`. */
  ghost predicate Waits(events: seq<Event>, x: Name, a: nat, b: nat) {
    a <= b <= |events| && forall k :: a <= k < b ==> !About(events[k], x)
  }

  lemma {:induction false} WaitsUnchanged(start: Times, events: seq<Event>, x: Name, a: nat, b: nat)
    requires Waits(events, x, a, b)
    ensures LastOf(After(start, events, b), x) == LastOf(After(start, events, a), x)
  {
    hide LastOf, Recorded, About;
    if b > a {
      assert Waits(events, x, a, b - 1) && !About(events[b - 1], x);
      WaitsUnchanged(start, events, x, a, b - 1);
      RecordedOther(After(start, events, b - 1), events[b - 1], x);
    }
  }

  /** While `x` is due, whoever is submitted was ahead of it. */
  lemma SentWasAhead(last: Times, interfaces: seq<Interface>, interval: uint32, x: Name, now: uint32, n: Name)
    requires 0 < LastOf(last, x) && LastOf(last, x) + interval <= now && interval > 0
    requires x in Discoverable(interfaces)
    requires Sends(last, interfaces, now, interval, n) && n != x && LastOf(last, n) <= now
    ensures n in Ahead(last, interfaces, x)
  {
    hide Since;
    var i :| i in interfaces && i.name == x && i.discoverable;
    var j :| 0 <= j < |interfaces| && interfaces[j] == i;
    var k: nat :| Chosen(last, interfaces, now, interval, k) && interfaces[k].name == n;
    NoWrap(last, x, now, interval);
    assert Due(last, interfaces[j], now, interval);
    SinceOf(last, n, now, interval);
    assert interfaces[k] in interfaces;
  }

  /** An announced interface that is due waits for at most as many others as were ahead of it. */
  lemma {:induction false} WaitIsBounded(
    start: Times, events: seq<Event>, interfaces: seq<Interface>, interval: uint32, x: Name, a: nat, b: nat)
    requires IsRun(start, events, interfaces, interval) && interval > 0 && Waits(events, x, a, b)
    requires x in Discoverable(interfaces) && LastOf(After(start, events, a), x) > 0
    requires a < b ==> LastOf(After(start, events, a), x) + interval <= events[a].at
    ensures Submissions(events, a, b) + |Ahead(After(start, events, b), interfaces, x)|
      <= |Ahead(After(start, events, a), interfaces, x)|
  {
    hide IsRun, Ahead, After, LastOf, Discoverable, About;
    if b > a {
      assert Waits(events, x, a, b - 1);
      WaitIsBounded(start, events, interfaces, interval, x, a, b - 1);
      WaitStep(start, events, interfaces, interval, x, a, b - 1);
    }
  }

  /** Each submission takes one of those ahead; nothing else adds one. */
  lemma WaitStep(
    start: Times, events: seq<Event>, interfaces: seq<Interface>, interval: uint32, x: Name, a: nat, k: nat)
    requires IsRun(start, events, interfaces, interval) && interval > 0 && Waits(events, x, a, k + 1) && a <= k
    requires x in Discoverable(interfaces) && LastOf(After(start, events, a), x) > 0
    requires LastOf(After(start, events, a), x) + interval <= events[a].at
    ensures |Ahead(After(start, events, k + 1), interfaces, x)|
      + (if events[k].Ticked? && events[k].sent.Some? then 1 else 0)
      <= |Ahead(After(start, events, k), interfaces, x)|
  {
    hide Sends, SendsNothing, Ahead, After, LastOf, Discoverable;
    var e, before := events[k], After(start, events, k);
    assert Waits(events, x, a, k) && !About(e, x);
    WaitsUnchanged(start, events, x, a, k);
    AfterNext(start, events, k);
    assert events[a].at <= e.at && Happens(before, e, interfaces, interval);
    match e
    case Ticked(at, Some(n)) =>
      RecordedIsPast(start, events, k, k, n);
      AheadShrinks(before, interfaces, x, n, at);
      SentWasAhead(before, interfaces, interval, x, at, n);
    case Ticked(_, None) =>
    case Done(at, n) =>
      RecordedIsPast(start, events, k, k, n);
      AheadShrinks(before, interfaces, x, n, at);
  }

  /** Recording a time after `x`'s takes a name out of those ahead. */
  lemma AheadShrinks(last: Times, interfaces: seq<Interface>, x: Name, n: Name, now: uint32)
    requires n != x && 0 < LastOf(last, x) && LastOf(last, n) <= now && now > 0
    ensures Ahead(last[n := now], interfaces, x) <= Ahead(last, interfaces, x)
    ensures |Ahead(last[n := now], interfaces, x)| <= |Ahead(last, interfaces, x)|
    ensures n in Ahead(last, interfaces, x) && LastOf(last, x) < now ==>
      |Ahead(last[n := now], interfaces, x)| < |Ahead(last, interfaces, x)|
  {
    var before, after := Ahead(last, interfaces, x), Ahead(last[n := now], interfaces, x);
    forall m | m in after ensures m in before {
      var i :| i in interfaces && i.discoverable && i.name == m;
      if m != n { assert LastOf(last[n := now], m) == LastOf(last, m); }
    }
    Fewer(after, before);
    if n in before && LastOf(last, x) < now {
      assert n !in after;
      Fewer(after, before - {n});
    }
  }

  lemma Fewer<T>(a: set<T>, b: set<T>)
    requires a <= b
    ensures |a| <= |b|
  {
    assert b == a + (b - a);
  }

  /** Announced interface `u` stays staler than `x`, or as stale and listed before it, whatever the time. */
  predicate GoesFirst(last: Times, interfaces: seq<Interface>, u: nat, x: nat)
    requires u < |interfaces| && x < |interfaces|
  {
    && interfaces[u].discoverable && LastOf(last, interfaces[u].name) > 0
    && LastOf(last, interfaces[u].name) + (if u < x then 0 else 1) <= LastOf(last, interfaces[x].name)
  }

  /** `x` can be sent, and so can all that go before it. At the very end of its interval, when it is not yet
      `late`, new ones listed before it go first too. */
  ghost predicate Clear(last: Times, interfaces: seq<Interface>, x: nat, late: bool)
    requires x < |interfaces|
  {
    && Sendable(interfaces[x])
    && (forall u: nat :: u < |interfaces| && u != x && GoesFirst(last, interfaces, u, x) ==> Sendable(interfaces[u]))
    && (!late ==> forall u: nat :: u < x && interfaces[u].discoverable && LastOf(last, interfaces[u].name) == 0 ==>
         Sendable(interfaces[u]))
  }

  /** Of `N` discoverable interfaces, at most `N - 1` others are submitted while one is due, and no tick goes by
      without a submission when it and those that go first can be sent. */
  lemma WaitsForEachOnce(
    start: Times, events: seq<Event>, interfaces: seq<Interface>, interval: uint32, x: nat, a: nat, b: nat)
    requires IsRun(start, events, interfaces, interval) && interval > 0
    requires x < |interfaces| && interfaces[x].discoverable && Waits(events, interfaces[x].name, a, b)
    requires LastOf(After(start, events, a), interfaces[x].name) > 0
    requires a < b ==> LastOf(After(start, events, a), interfaces[x].name) + interval <= events[a].at
    ensures Submissions(events, a, b) <= |Discoverable(interfaces)| - 1
    ensures a < b && Clear(After(start, events, a), interfaces, x,
                           LastOf(After(start, events, a), interfaces[x].name) + interval < events[a].at)
      ==> Ticks(events, a, b) <= |Discoverable(interfaces)| - 1
  {
    hide IsRun, After, LastOf, About, Clear;
    var all, n, last := Discoverable(interfaces), interfaces[x].name, After(start, events, a);
    assert interfaces[x] in interfaces && n in all;
    WaitIsBounded(start, events, interfaces, interval, n, a, b);
    Fewer(Ahead(last, interfaces, n), all - {n});
    if a < b && Clear(last, interfaces, x, LastOf(last, n) + interval < events[a].at) {
      forall k | a <= k < b && events[k].Ticked?
        ensures !SendsNothing(After(start, events, k), interfaces, events[k].at, interval)
      {
        ClearTick(start, events, interfaces, interval, x, a, k);
      }
      TicksSubmit(start, events, interfaces, interval, a, b);
    }
  }

  /** While `x` waits, none is added to those that go first. */
  lemma {:induction false} GoesFirstBefore(
    start: Times, events: seq<Event>, interfaces: seq<Interface>, u: nat, x: nat, a: nat, k: nat)
    requires Clocked(start, events) && u < |interfaces| && x < |interfaces|
    requires Waits(events, interfaces[x].name, a, k)
    requires a < k ==> LastOf(After(start, events, a), interfaces[x].name) < events[a].at
    ensures GoesFirst(After(start, events, k), interfaces, u, x) ==>
      GoesFirst(After(start, events, a), interfaces, u, x)
    ensures LastOf(After(start, events, k), interfaces[u].name) == 0 ==>
      LastOf(After(start, events, a), interfaces[u].name) == 0
  {
    hide After, LastOf, Recorded, About;
    if a < k {
      var e, before := events[k - 1], After(start, events, k - 1);
      assert Waits(events, interfaces[x].name, a, k - 1) && !About(e, interfaces[x].name);
      GoesFirstBefore(start, events, interfaces, u, x, a, k - 1);
      WaitsUnchanged(start, events, interfaces[x].name, a, k - 1);
      AfterNext(start, events, k - 1);
      RecordedOther(before, e, interfaces[u].name);
      RecordedOther(before, e, interfaces[x].name);
      assert events[a].at <= e.at && e.at > 0;
    }
  }

  /** Whoever is chosen while `x` is due: `x` itself, one that goes first, or at the very end of the interval a
      new one listed before it. */
  lemma ChosenWhileDue(last: Times, interfaces: seq<Interface>, interval: uint32, x: nat, now: uint32, c: nat)
    requires x < |interfaces| && interfaces[x].discoverable && interval > 0 && Past(last, now)
    requires 0 < LastOf(last, interfaces[x].name) && LastOf(last, interfaces[x].name) + interval <= now
    requires Chosen(last, interfaces, now, interval, c)
    ensures c == x || GoesFirst(last, interfaces, c, x)
      || (LastOf(last, interfaces[c].name) == 0 && c < x && LastOf(last, interfaces[x].name) + interval == now)
  {
    hide Since;
    SinceOf(last, interfaces[x].name, now, interval);
    SinceOf(last, interfaces[c].name, now, interval);
    assert Due(last, interfaces[x], now, interval);
  }

  /** While `x` is due and clear, every tick submits. */
  lemma ClearTick(
    start: Times, events: seq<Event>, interfaces: seq<Interface>, interval: uint32, x: nat, a: nat, k: nat)
    requires IsRun(start, events, interfaces, interval) && interval > 0 && a <= k < |events|
    requires x < |interfaces| && interfaces[x].discoverable && Waits(events, interfaces[x].name, a, k)
    requires var since := LastOf(After(start, events, a), interfaces[x].name);
      since > 0 && since + interval <= events[a].at
      && Clear(After(start, events, a), interfaces, x, since + interval < events[a].at)
    ensures !SendsNothing(After(start, events, k), interfaces, events[k].at, interval)
  {
    hide After, LastOf, About, Happens, GoesFirst;
    var last, now := After(start, events, k), events[k].at;
    WaitsUnchanged(start, events, interfaces[x].name, a, k);
    AllPast(start, events, k);
    assert events[a].at <= now;
    DueIsDue(last, interfaces, interval, x, now);
    forall c: nat | Chosen(last, interfaces, now, interval, c) ensures Sendable(interfaces[c]) {
      ChosenWhileDue(last, interfaces, interval, x, now, c);
      GoesFirstBefore(start, events, interfaces, c, x, a, k);
      ChosenListed(last, interfaces, now, interval, c);
    }
    hide Chosen, NoneDue;
  }

  lemma ChosenListed(last: Times, interfaces: seq<Interface>, now: uint32, interval: uint32, c: nat)
    requires Chosen(last, interfaces, now, interval, c)
    ensures c < |interfaces| && interfaces[c].discoverable
  {
  }

  lemma DueIsDue(last: Times, interfaces: seq<Interface>, interval: uint32, x: nat, now: uint32)
    requires x < |interfaces| && interfaces[x].discoverable && interval > 0 && LastOf(last, interfaces[x].name) <= now
    requires LastOf(last, interfaces[x].name) > 0 ==> LastOf(last, interfaces[x].name) + interval <= now
    ensures !NoneDue(last, interfaces, now, interval)
  {
    hide Since;
    SinceOf(last, interfaces[x].name, now, interval);
    assert Due(last, interfaces[x], now, interval);
  }

  lemma {:induction false} TicksSubmit(
    start: Times, events: seq<Event>, interfaces: seq<Interface>, interval: uint32, a: nat, b: nat)
    requires IsRun(start, events, interfaces, interval) && a <= b <= |events|
    requires forall k :: a <= k < b && events[k].Ticked? ==>
      !SendsNothing(After(start, events, k), interfaces, events[k].at, interval)
    ensures Ticks(events, a, b) == Submissions(events, a, b)
  {
    hide After, SendsNothing, Sends;
    if b > a {
      TicksSubmit(start, events, interfaces, interval, a, b - 1);
      assert Happens(After(start, events, b - 1), events[b - 1], interfaces, interval);
    }
  }

  /** When nobody is ahead of a due interface, it is the one that is submitted. */
  lemma NobodyAhead(last: Times, interfaces: seq<Interface>, interval: uint32, x: Name, now: uint32, n: Name)
    requires 0 < LastOf(last, x) && LastOf(last, x) + interval <= now && interval > 0
    requires x in Discoverable(interfaces)
    requires Ahead(last, interfaces, x) == {} && LastOf(last, n) <= now
    requires Sends(last, interfaces, now, interval, n)
    ensures n == x
  {
    if n != x {
      SentWasAhead(last, interfaces, interval, x, now, n);
    }
  }

  // ----- interfaces that cannot be announced

  lemma StalestStays(last: Times, interfaces: seq<Interface>, k: nat, e: Event)
    requires Stalest(last, interfaces, k) && !About(e, interfaces[k].name) && Past(last, e.at)
    requires e.at > LastOf(last, interfaces[k].name)
    ensures Stalest(Recorded(last, e), interfaces, k)
  {
    hide LastOf, Recorded, About;
    forall j | 0 <= j < |interfaces| {
      RecordedOther(last, e, interfaces[j].name);
    }
  }

  /** No job for `n` ends from event `a` on. */
  ghost predicate NoJobEnds(events: seq<Event>, n: Name, a: nat) {
    forall k :: a <= k < |events| && events[k].Done? ==> events[k].name != n
  }

  /** The stalest of the announced interfaces, when it can no longer be built, blocks all others for good: from
      the end of its interval on no tick submits anything, whatever other jobs still end. */
  lemma {:induction false} UnbuildableBlocks(
    start: Times, events: seq<Event>, interfaces: seq<Interface>, interval: uint32, u: nat, a: nat, b: nat)
    requires IsRun(start, events, interfaces, interval) && interval > 0 && a <= b < |events|
    requires Stalest(After(start, events, a), interfaces, u) && !Sendable(interfaces[u])
    requires LastOf(After(start, events, a), interfaces[u].name) + interval < events[a].at
    requires NoJobEnds(events, interfaces[u].name, a)
    ensures Stalest(After(start, events, b), interfaces, u) && Waits(events, interfaces[u].name, a, b + 1)
    ensures events[b].Ticked? ==> events[b].sent == None
  {
    hide After, LastOf, Stalest, Recorded, Sends, SendsNothing;
    StalestIs(After(start, events, a), interfaces, u);
    var n, before := interfaces[u].name, After(start, events, b);
    if b > a {
      UnbuildableBlocks(start, events, interfaces, interval, u, a, b - 1);
      AllPast(start, events, b - 1);
      assert Waits(events, n, a, b - 1);
      WaitsUnchanged(start, events, n, a, b - 1);
      AfterNext(start, events, b - 1);
      StalestStays(After(start, events, b - 1), interfaces, u, events[b - 1]);
    }
    assert Waits(events, n, a, b);
    AllPast(start, events, b);
    StalestIs(before, interfaces, u);
    WaitsUnchanged(start, events, n, a, b);
    AnnouncedChosenIff(before, interfaces, events[b].at, interval, u);
    assert events[a].at <= events[b].at && Happens(before, events[b], interfaces, interval);
    ChosenUnsent(before, interfaces, events[b].at, interval, u);
  }

  lemma StalestIs(last: Times, interfaces: seq<Interface>, k: nat)
    requires Stalest(last, interfaces, k)
    ensures k < |interfaces| && LastOf(last, interfaces[k].name) > 0
  {
  }

  ghost predicate DistinctNames(interfaces: seq<Interface>) {
    forall i, j :: 0 <= i < j < |interfaces| ==> interfaces[i].name != interfaces[j].name
  }

  /** From `now` on `u`, which cannot be sent, goes before `x`: for good, since its time never changes. */
  predicate Blocks(last: Times, interfaces: seq<Interface>, u: nat, x: nat, now: uint32, interval: uint32)
    requires u < |interfaces| && x < |interfaces|
  {
    && u != x && interfaces[u].discoverable && !Sendable(interfaces[u])
    && if LastOf(last, interfaces[x].name) > 0 then GoesFirst(last, interfaces, u, x)
       else if LastOf(last, interfaces[u].name) > 0 then
         LastOf(last, interfaces[u].name) + interval + (if u < x then 0 else 1) <= now
       else u < x
  }

  ghost predicate NoneBlocks(last: Times, interfaces: seq<Interface>, x: nat, now: uint32, interval: uint32)
    requires x < |interfaces|
  {
    forall u: nat :: u < |interfaces| ==> !Blocks(last, interfaces, u, x, now, interval)
  }

  /** Whoever is blocked by an interface that cannot be sent is never submitted again, nor for the first time. */
  lemma {:induction false} BlockedWaits(
    start: Times, events: seq<Event>, interfaces: seq<Interface>, interval: uint32, u: nat, x: nat, a: nat, b: nat)
    requires IsRun(start, events, interfaces, interval) && interval > 0 && a <= b <= |events|
    requires u < |interfaces| && x < |interfaces| && DistinctNames(interfaces)
    requires a < b ==> Blocks(After(start, events, a), interfaces, u, x, events[a].at, interval)
    requires NoJobEnds(events, interfaces[u].name, a) && NoJobEnds(events, interfaces[x].name, a)
    ensures Waits(events, interfaces[u].name, a, b) && Waits(events, interfaces[x].name, a, b)
  {
    hide After, LastOf, Recorded, Sends, SendsNothing, Sendable;
    if b > a {
      var e, before := events[b - 1], After(start, events, b - 1);
      BlockedWaits(start, events, interfaces, interval, u, x, a, b - 1);
      WaitsUnchanged(start, events, interfaces[u].name, a, b - 1);
      WaitsUnchanged(start, events, interfaces[x].name, a, b - 1);
      AllPast(start, events, b - 1);
      assert events[a].at <= e.at && Happens(before, e, interfaces, interval);
      BlockedUnsent(before, interfaces, e.at, interval, u, x);
    }
  }

  lemma BlockedUnsent(last: Times, interfaces: seq<Interface>, now: uint32, interval: uint32, u: nat, x: nat)
    requires u < |interfaces| && x < |interfaces| && DistinctNames(interfaces) && interval > 0 && Past(last, now)
    requires Blocks(last, interfaces, u, x, now, interval)
    ensures !Sends(last, interfaces, now, interval, interfaces[u].name)
    ensures !Sends(last, interfaces, now, interval, interfaces[x].name)
  {
    hide Since;
    SinceOf(last, interfaces[u].name, now, interval);
    SinceOf(last, interfaces[x].name, now, interval);
    assert Due(last, interfaces[x], now, interval) ==> Due(last, interfaces[u], now, interval);
  }

  /** An interface whose interval is over has its turn within `N` ticks exactly when it can be sent and so can
      every interface that goes before it. */
  lemma TurnIff(
    start: Times, events: seq<Event>, interfaces: seq<Interface>, interval: uint32, x: nat, a: nat, b: nat)
    requires IsRun(start, events, interfaces, interval) && interval > 0 && a < b <= |events|
    requires DistinctNames(interfaces) && x < |interfaces| && interfaces[x].discoverable
    requires LastOf(After(start, events, a), interfaces[x].name) > 0
    requires LastOf(After(start, events, a), interfaces[x].name) + interval < events[a].at
    requires Ticks(events, a, b) >= |Discoverable(interfaces)|
    requires NoJobEnds(events, interfaces[x].name, a)
    requires forall u: nat :: u < |interfaces| && !Sendable(interfaces[u]) ==> NoJobEnds(events, interfaces[u].name, a)
    ensures !Waits(events, interfaces[x].name, a, b) <==> Clear(After(start, events, a), interfaces, x, true)
  {
    var n, last := interfaces[x].name, After(start, events, a);
    hide IsRun, After, LastOf, About, GoesFirst, NoJobEnds, DistinctNames, Waits;
    if Waits(events, n, a, b) {
      WaitsForEachOnce(start, events, interfaces, interval, x, a, b);
    } else if !Sendable(interfaces[x]) {
      UnsendableWaits(start, events, interfaces, interval, x, a, b);
    } else if u: nat :| u < |interfaces| && u != x && GoesFirst(last, interfaces, u, x) && !Sendable(interfaces[u]) {
      GoesFirstBlocks(last, interfaces, u, x, events[a].at, interval);
      BlockedWaits(start, events, interfaces, interval, u, x, a, b);
    }
  }

  lemma GoesFirstBlocks(last: Times, interfaces: seq<Interface>, u: nat, x: nat, now: uint32, interval: uint32)
    requires u < |interfaces| && x < |interfaces| && u != x && !Sendable(interfaces[u])
    requires GoesFirst(last, interfaces, u, x)
    ensures Blocks(last, interfaces, u, x, now, interval)
  {
  }

  lemma UnsendableWaits(
    start: Times, events: seq<Event>, interfaces: seq<Interface>, interval: uint32, x: nat, a: nat, b: nat)
    requires IsRun(start, events, interfaces, interval) && a <= b <= |events|
    requires DistinctNames(interfaces) && x < |interfaces| && !Sendable(interfaces[x])
    requires NoJobEnds(events, interfaces[x].name, a)
    ensures Waits(events, interfaces[x].name, a, b)
  {
    hide After, SendsNothing;
    forall k | a <= k < b ensures !About(events[k], interfaces[x].name) {
      assert Happens(After(start, events, k), events[k], interfaces, interval);
    }
  }

  lemma {:induction false} CountNames(interfaces: seq<Interface>)
    requires DistinctNames(interfaces) && forall i :: i in interfaces ==> i.discoverable
    ensures |Discoverable(interfaces)| == |interfaces|
  {
    if interfaces != [] {
      var front, last := interfaces[..|interfaces| - 1], interfaces[|interfaces| - 1];
      CountNames(front);
      assert interfaces == front + [last];
      assert Discoverable(interfaces) == Discoverable(front) + {last.name};
    }
  }

  /** Where the chosen one cannot be announced, nothing is. */
  lemma ChosenUnsent(last: Times, interfaces: seq<Interface>, now: uint32, interval: uint32, k: nat)
    requires Chosen(last, interfaces, now, interval, k) && !Sendable(interfaces[k])
    ensures SendsNothing(last, interfaces, now, interval)
    ensures forall n :: !Sends(last, interfaces, now, interval, n)
  {
    hide Chosen;
    forall n ensures !Sends(last, interfaces, now, interval, n) {
      forall j: nat | Chosen(last, interfaces, now, interval, j) ensures j == k {
        OneChosen(last, interfaces, now, interval, j, k);
      }
    }
  }

  // ----- when every interface has its turn

  /** The names submitted from event `a` to event `b`. */
  function Submitted(events: seq<Event>, a: nat, b: nat): set<Name>
    requires a <= b <= |events|
  {
    set k | a <= k < b && events[k].Ticked? && events[k].sent.Some? :: events[k].sent.value
  }

  /** In less than an interval no interface is submitted twice. */
  lemma {:induction false} NoneTwice(
    start: Times, events: seq<Event>, interfaces: seq<Interface>, interval: uint32, a: nat, b: nat)
    requires IsRun(start, events, interfaces, interval) && a <= b <= |events|
    requires a < b ==> events[b - 1].at - events[a].at < interval
    ensures Submissions(events, a, b) == |Submitted(events, a, b)|
    ensures Submitted(events, a, b) <= Discoverable(interfaces)
  {
    hide After, Happens, Discoverable, Submitted;
    SubmittedNext(events, a, b);
    if b > a {
      var e := events[b - 1];
      assert events[a].at <= e.at && (b - 1 > a ==> events[b - 2].at <= e.at);
      NoneTwice(start, events, interfaces, interval, a, b - 1);
      if e.Ticked? && e.sent.Some? {
        NotYet(start, events, interfaces, interval, a, b - 1, e.sent.value);
      }
    }
  }

  lemma SubmittedNext(events: seq<Event>, a: nat, b: nat)
    requires a <= b <= |events|
    ensures a == b ==> Submitted(events, a, b) == {}
    ensures b > a ==> var sent := if events[b - 1].Ticked? then events[b - 1].sent else None;
      Submitted(events, a, b) == Submitted(events, a, b - 1) + if sent.Some? then {sent.value} else {}
  {
  }

  lemma NotYet(
    start: Times, events: seq<Event>, interfaces: seq<Interface>, interval: uint32, a: nat, b: nat, n: Name)
    requires IsRun(start, events, interfaces, interval) && a <= b < |events|
    requires events[b] == Ticked(events[b].at, Some(n)) && events[b].at - events[a].at < interval
    ensures n in Discoverable(interfaces) && n !in Submitted(events, a, b)
  {
    hide After, Discoverable, Sends, SendsNothing;
    assert Happens(After(start, events, b), events[b], interfaces, interval);
    SentIsListed(After(start, events, b), interfaces, events[b].at, interval, n);
    if n in Submitted(events, a, b) {
      var k :| a <= k < b && events[k].Ticked? && events[k].sent == Some(n);
      assert events[a].at <= events[k].at;
      SubmissionsApart(start, events, interfaces, interval, k, b, n);
    }
  }

  lemma SentIsListed(last: Times, interfaces: seq<Interface>, now: uint32, interval: uint32, n: Name)
    requires Sends(last, interfaces, now, interval, n)
    ensures n in Discoverable(interfaces)
  {
    hide Since, LastOf;
    var k: nat :| Chosen(last, interfaces, now, interval, k) && interfaces[k].name == n;
    assert interfaces[k] in interfaces;
  }

  /** When as many ticks as there are discoverable interfaces pass in less than one interval, a new interface is
      submitted in one of them, provided that it can be sent and no other comes to block it meanwhile. */
  lemma NewHasTurn(
    start: Times, events: seq<Event>, interfaces: seq<Interface>, interval: uint32, x: nat, a: nat, b: nat)
    requires IsRun(start, events, interfaces, interval) && interval > 0 && a < b <= |events|
    requires x < |interfaces| && interfaces[x].discoverable && Sendable(interfaces[x])
    requires LastOf(After(start, events, a), interfaces[x].name) == 0
    requires NoneBlocks(After(start, events, a), interfaces, x, events[b - 1].at, interval)
    requires Ticks(events, a, b) >= |Discoverable(interfaces)| && events[b - 1].at - events[a].at < interval
    ensures !Waits(events, interfaces[x].name, a, b)
  {
    hide IsRun, After, LastOf, NoneBlocks;
    var n := interfaces[x].name;
    if Waits(events, n, a, b) {
      forall k | a <= k < b && events[k].Ticked?
        ensures !SendsNothing(After(start, events, k), interfaces, events[k].at, interval)
      {
        assert Waits(events, n, a, k);
        NewTick(start, events, interfaces, interval, x, a, b, k);
      }
      TicksSubmit(start, events, interfaces, interval, a, b);
      NoneTwice(start, events, interfaces, interval, a, b);
      assert n !in Submitted(events, a, b);
      assert interfaces[x] in interfaces;
      Fewer(Submitted(events, a, b), Discoverable(interfaces) - {n});
    }
  }

  lemma NewTick(
    start: Times, events: seq<Event>, interfaces: seq<Interface>, interval: uint32, x: nat, a: nat, b: nat, k: nat)
    requires IsRun(start, events, interfaces, interval) && interval > 0 && a <= k < b <= |events|
    requires x < |interfaces| && interfaces[x].discoverable && Sendable(interfaces[x])
    requires LastOf(After(start, events, a), interfaces[x].name) == 0 && Waits(events, interfaces[x].name, a, k)
    requires NoneBlocks(After(start, events, a), interfaces, x, events[b - 1].at, interval)
    requires events[b - 1].at - events[a].at < interval
    ensures !SendsNothing(After(start, events, k), interfaces, events[k].at, interval)
  {
    hide After, LastOf, About, Happens, Sendable;
    var last, now := After(start, events, k), events[k].at;
    WaitsUnchanged(start, events, interfaces[x].name, a, k);
    AllPast(start, events, k);
    assert events[a].at <= now <= events[b - 1].at;
    DueIsDue(last, interfaces, interval, x, now);
    forall c: nat | Chosen(last, interfaces, now, interval, c) ensures Sendable(interfaces[c]) {
      ChosenListed(last, interfaces, now, interval, c);
      UnsentBlocks(last, interfaces, interval, x, now, c);
      TimeBefore(start, events, interfaces[c].name, a, k);
      assert !Blocks(After(start, events, a), interfaces, c, x, events[b - 1].at, interval);
    }
    hide Chosen, NoneDue;
  }

  /** Whoever is chosen in place of a new interface, and cannot be sent, blocks it. */
  lemma UnsentBlocks(last: Times, interfaces: seq<Interface>, interval: uint32, x: nat, now: uint32, c: nat)
    requires x < |interfaces| && interfaces[x].discoverable && interval > 0 && Past(last, now)
    requires LastOf(last, interfaces[x].name) == 0 && Sendable(interfaces[x])
    requires Chosen(last, interfaces, now, interval, c)
    ensures Sendable(interfaces[c]) || Blocks(last, interfaces, c, x, now, interval)
  {
    hide Since, Sendable;
    SinceOf(last, interfaces[x].name, now, interval);
    SinceOf(last, interfaces[c].name, now, interval);
    assert Due(last, interfaces[x], now, interval);
  }

  /** A recorded time is an old one, or that of a later event. */
  lemma {:induction false} TimeBefore(start: Times, events: seq<Event>, n: Name, a: nat, k: nat)
    requires Clocked(start, events) && a <= k <= |events|
    ensures var before, now := LastOf(After(start, events, a), n), LastOf(After(start, events, k), n);
      now == before || (a < k && events[a].at <= now)
  {
    hide After, LastOf, Recorded, About;
    if a < k {
      TimeBefore(start, events, n, a, k - 1);
      AfterNext(start, events, k - 1);
      RecordedOther(After(start, events, k - 1), events[k - 1], n);
      assert events[a].at <= events[k - 1].at;
    }
  }

  // ----- the bound is sharp

  /** All can be sent. */
  ghost predicate AllReady(interfaces: seq<Interface>) {
    DistinctNames(interfaces) && forall i :: i in interfaces ==> i.discoverable && Sendable(i)
  }

  /** `n` ticks, `t` apart, in which the first `k` interfaces are submitted in turn. */
  function Turns(interfaces: seq<Interface>, t: nat, k: nat, n: nat): (events: seq<Event>)
    requires 0 < k <= |interfaces| && n * t < WORD
    ensures |events| == n
  {
    seq(n, i requires 0 <= i < n => TurnAt(interfaces, t, k, n, i))
  }

  function TurnAt(interfaces: seq<Interface>, t: nat, k: nat, n: nat, i: nat): (e: Event)
    requires 0 < k <= |interfaces| && n * t < WORD && i < n
  {
    MulLe(i + 1, n, t);
    Ticked((i + 1) * t, Some(interfaces[i % k].name))
  }

  /** How many ticks before the last of `i` interface `j` had its turn. */
  function Ago(k: nat, i: nat, j: nat): nat
    requires k > 0
  {
    (i - 1 - j) % k
  }

  /** When each was last submitted, after `i` such ticks. */
  ghost predicate InTurn(last: Times, interfaces: seq<Interface>, t: nat, k: nat, i: nat)
    requires k > 0
  {
    forall j: nat :: j < |interfaces| ==>
      LastOf(last, interfaces[j].name) == if j < k && j < i then (i - Ago(k, i, j)) * t else 0
  }

  lemma AgoNext(k: nat, i: nat, j: nat)
    requires j < k
    ensures Ago(k, i + 1, j) == if j == i % k then 0 else Ago(k, i, j) + 1
    ensures j < i ==> Ago(k, i, j) < i && if j == i % k then Ago(k, i, j) == k - 1 else Ago(k, i, j) < k - 1
    ensures i < k ==> i % k == i
  {
    ModBelow(i, k);
    ModShift(i, k, j);
    ModShift(i, k, j + 1);
    assert Ago(k, i, j) == (i - (j + 1)) % k && Ago(k, i + 1, j) == (i - j) % k;
    hide Ago;
  }

  lemma ModShift(i: nat, k: nat, d: nat)
    requires 0 < k && d <= k
    ensures (i - d) % k == if d <= i % k then i % k - d else i % k - d + k
  {
    var q, m := i / k, i % k;
    assert i == q * k + m;
    if d <= m {
      DivModUnique(i - d, k, q, m - d);
    } else {
      SpanOf(q, 1, k);
      DivModUnique(i - d, k, q - 1, m - d + k);
    }
  }

  lemma {:induction false} StillInTurn(interfaces: seq<Interface>, t: nat, k: nat, n: nat, i: nat)
    requires 0 < k <= |interfaces| && n * t < WORD && t > 0 && DistinctNames(interfaces) && i <= n
    ensures InTurn(After(map[], Turns(interfaces, t, k, n), i), interfaces, t, k, i)
  {
    hide InTurn, LastOf, TurnAt;
    var events := Turns(interfaces, t, k, n);
    if i > 0 {
      StillInTurn(interfaces, t, k, n, i - 1);
      TurnNext(After(map[], events, i - 1), interfaces, t, k, n, i - 1);
    } else {
      NoTurnYet(interfaces, t, k);
    }
  }

  lemma NoTurnYet(interfaces: seq<Interface>, t: nat, k: nat)
    requires k > 0
    ensures InTurn(map[], interfaces, t, k, 0)
  {
  }

  lemma TurnNext(last: Times, interfaces: seq<Interface>, t: nat, k: nat, n: nat, i: nat)
    requires 0 < k <= |interfaces| && n * t < WORD && i < n && DistinctNames(interfaces)
    requires InTurn(last, interfaces, t, k, i)
    ensures InTurn(Recorded(last, TurnAt(interfaces, t, k, n, i)), interfaces, t, k, i + 1)
  {
    hide Ago, LastOf, Recorded;
    var e := TurnAt(interfaces, t, k, n, i);
    forall j: nat | j < |interfaces|
      ensures LastOf(Recorded(last, e), interfaces[j].name)
        == if j < k && j < i + 1 then (i + 1 - Ago(k, i + 1, j)) * t else 0
    {
      RecordedOther(last, e, interfaces[j].name);
      if j < k { AgoNext(k, i, j); }
    }
  }

  lemma TurnIsSent(last: Times, interfaces: seq<Interface>, t: nat, k: nat, n: nat, i: nat, interval: uint32)
    requires 0 < k < |interfaces| && n * t < WORD && t > 0 && i < n && AllReady(interfaces)
    requires (k - 1) * t < interval <= k * t && InTurn(last, interfaces, t, k, i)
    ensures Happens(last, TurnAt(interfaces, t, k, n, i), interfaces, interval)
  {
    hide Chosen, Sendable;
    TurnIsChosen(last, interfaces, t, k, n, i, interval);
    hide AllReady, InTurn;
    assert Sends(last, interfaces, TurnAt(interfaces, t, k, n, i).at, interval, interfaces[i % k].name);
  }

  lemma TurnIsChosen(last: Times, interfaces: seq<Interface>, t: nat, k: nat, n: nat, i: nat, interval: uint32)
    requires 0 < k < |interfaces| && n * t < WORD && t > 0 && i < n && AllReady(interfaces)
    requires (k - 1) * t < interval <= k * t && InTurn(last, interfaces, t, k, i)
    ensures Chosen(last, interfaces, TurnAt(interfaces, t, k, n, i).at, interval, i % k)
    ensures Sendable(interfaces[i % k])
  {
    hide *;
    var now, c := TurnAt(interfaces, t, k, n, i).at, i % k;
    forall j: nat | j < |interfaces|
      ensures interfaces[j].discoverable && Sendable(interfaces[j])
      ensures var since := Since(last, interfaces[j].name, now, interval);
        if j == c then since >= interval else since < interval || (since == interval && c < j)
    {
      TurnSince(last, interfaces, t, k, n, i, interval, j);
    }
    FirstIsChosen(last, interfaces, now, interval, c);
  }

  lemma FirstIsChosen(last: Times, interfaces: seq<Interface>, now: uint32, interval: uint32, c: nat)
    requires c < |interfaces| && interval > 0 && forall j: nat :: j < |interfaces| ==> interfaces[j].discoverable
    requires forall j: nat :: j < |interfaces| ==>
      var since := Since(last, interfaces[j].name, now, interval);
      if j == c then since >= interval else since < interval || (since == interval && c < j)
    ensures Chosen(last, interfaces, now, interval, c)
  {
    hide Since;
  }

  lemma TurnSince(
    last: Times, interfaces: seq<Interface>, t: nat, k: nat, n: nat, i: nat, interval: uint32, j: nat)
    requires 0 < k < |interfaces| && n * t < WORD && t > 0 && i < n && AllReady(interfaces) && j < |interfaces|
    requires (k - 1) * t < interval <= k * t && InTurn(last, interfaces, t, k, i)
    ensures interfaces[j].discoverable && Sendable(interfaces[j])
    ensures var since := Since(last, interfaces[j].name, TurnAt(interfaces, t, k, n, i).at, interval);
      if j == i % k then since >= interval else since < interval || (since == interval && i % k < j)
  {
    var now, before := TurnAt(interfaces, t, k, n, i).at, LastOf(last, interfaces[j].name);
    assert interfaces[j] in interfaces;
    hide Since, LastOf, Sendable, AllReady, Ago, InTurn;
    if j < k { AgoNext(k, i, j); }
    if j < k && j < i { TurnGap(t, k, i, j, interval); }
    ModBelow(i, k);
    SinceOf(last, interfaces[j].name, now, interval);
  }

  lemma ModBelow(i: nat, k: nat)
    requires k > 0
    ensures 0 <= i % k < k && (i % k == i || i % k + k <= i)
  {
    var q := i / k;
    assert i == q * k + i % k;
    if q >= 1 { MulLe(1, q, k); } else { MulLe(q, 0, k); }
  }

  /** How long ago interface `j` had its turn, at tick `i`. */
  lemma TurnGap(t: nat, k: nat, i: nat, j: nat, interval: uint32)
    requires t > 0 && j < k && j < i && (k - 1) * t < interval <= k * t
    ensures Ago(k, i, j) < i
    ensures var before, now := (i - Ago(k, i, j)) * t, (i + 1) * t;
      0 < before <= now && if j == i % k then now - before >= interval else now - before < interval
  {
    AgoNext(k, i, j);
    var ago := Ago(k, i, j);
    hide Ago;
    SpanOf(i + 1, i - ago, t);
    MulLe(1, i - ago, t);
    MulLe(0, ago + 1, t);
    if j != i % k { MulLe(ago + 1, k - 1, t); }
  }

  lemma SpanOf(a: int, b: int, t: int)
    ensures a * t - b * t == (a - b) * t
  {
  }

  /** Where `k` ticks take an interval, the first `k` interfaces can take turns, and the last one is never
      submitted. */
  lemma LastStarves(interfaces: seq<Interface>, t: nat, k: nat, n: nat, interval: uint32)
    requires AllReady(interfaces) && t > 0 && n * t < WORD && 0 < k < |interfaces|
    requires (k - 1) * t < interval <= k * t
    ensures IsRun(map[], Turns(interfaces, t, k, n), interfaces, interval)
    ensures Regular(Turns(interfaces, t, k, n), 0, n, t)
    ensures Waits(Turns(interfaces, t, k, n), interfaces[|interfaces| - 1].name, 0, n)
  {
    hide TurnAt, Regular, Waits, AllReady, Happens, InTurn;
    TurnsAreRegular(interfaces, t, k, n);
    var events := Turns(interfaces, t, k, n);
    forall i | 0 <= i < n ensures Happens(After(map[], events, i), events[i], interfaces, interval) {
      ReadyIsDistinct(interfaces);
      StillInTurn(interfaces, t, k, n, i);
      TurnIsSent(After(map[], events, i), interfaces, t, k, n, i, interval);
    }
    hide After;
    LastNotTurned(interfaces, t, k, n);
  }

  lemma ReadyIsDistinct(interfaces: seq<Interface>)
    requires AllReady(interfaces)
    ensures DistinctNames(interfaces)
  {
  }

  lemma TurnsAreRegular(interfaces: seq<Interface>, t: nat, k: nat, n: nat)
    requires 0 < k <= |interfaces| && t > 0 && n * t < WORD
    ensures Regular(Turns(interfaces, t, k, n), 0, n, t) && Clocked(map[], Turns(interfaces, t, k, n))
  {
    var events := Turns(interfaces, t, k, n);
    forall i: nat | i < n ensures events[i].Ticked? && events[i].at > 0 && events[i].at == events[0].at + i * t {
      MulLe(1, i + 1, t);
      SpanOf(i + 1, 1, t);
    }
    forall i: nat, j: nat | i <= j < n ensures events[i].at <= events[j].at { MulLe(i + 1, j + 1, t); }
  }

  lemma LastNotTurned(interfaces: seq<Interface>, t: nat, k: nat, n: nat)
    requires AllReady(interfaces) && 0 < k < |interfaces| && n * t < WORD
    ensures Waits(Turns(interfaces, t, k, n), interfaces[|interfaces| - 1].name, 0, n)
  {
    var events := Turns(interfaces, t, k, n);
    forall i: nat | i < n ensures !About(events[i], interfaces[|interfaces| - 1].name) {
      ModBelow(i, k);
    }
  }

  /** From event `a` on, `n` ticks `t` apart. */
  ghost predicate Regular(events: seq<Event>, a: nat, n: nat, t: nat) {
    && a + n <= |events|
    && forall k :: a <= k < a + n ==> events[k].Ticked? && events[k].at == events[a].at + (k - a) * t
  }

  lemma {:induction false} RegularTicks(events: seq<Event>, a: nat, n: nat, t: nat)
    requires Regular(events, a, n, t)
    ensures Ticks(events, a, a + n) == n
  {
    if n > 0 { RegularTicks(events, a, n - 1, t); }
  }

  /** In every run with ticks `t` apart, each new interface is submitted within as many ticks as there are
      interfaces. */
  ghost predicate AllHaveTurns(interfaces: seq<Interface>, interval: uint32, t: nat) {
    forall start, events, a: nat, x: nat ::
      x < |interfaces| && a + |interfaces| <= |events| && IsRun(start, events, interfaces, interval)
      && Regular(events, a, |interfaces|, t) && LastOf(After(start, events, a), interfaces[x].name) == 0
      ==> !Waits(events, interfaces[x].name, a, a + |interfaces|)
  }

  /** That is so exactly when that many ticks take less than one interval. */
  lemma AllHaveTurnsIff(interfaces: seq<Interface>, interval: uint32, t: nat)
    requires AllReady(interfaces) && interfaces != [] && interval > 0 && t > 0 && |interfaces| * t < WORD
    ensures AllHaveTurns(interfaces, interval, t) <==> (|interfaces| - 1) * t < interval
  {
    hide IsRun, AllReady, Regular, Waits, LastOf, After;
    var n := |interfaces|;
    if (n - 1) * t < interval {
      forall start, events, a: nat, x: nat |
        x < n && a + n <= |events| && IsRun(start, events, interfaces, interval) && Regular(events, a, n, t)
        && LastOf(After(start, events, a), interfaces[x].name) == 0
        ensures !Waits(events, interfaces[x].name, a, a + n)
      {
        HasTurn(start, events, interfaces, interval, t, a, x);
      }
    } else {
      var k := TicksInInterval(interval, t, n);
      var events := Turns(interfaces, t, k, n);
      LastStarves(interfaces, t, k, n, interval);
      assert LastOf(After(map[], events, 0), interfaces[n - 1].name) == 0 by { NothingRecorded(events); }
    }
  }

  lemma NothingRecorded(events: seq<Event>)
    ensures forall m :: LastOf(After(map[], events, 0), m) == 0
  {
  }

  lemma TicksInInterval(interval: nat, t: nat, n: nat) returns (k: nat)
    requires n > 0 && 0 < interval <= (n - 1) * t && t > 0
    ensures 0 < k < n && (k - 1) * t < interval <= k * t
  {
    k := CeilDiv(interval, t);
    CeilDivBounds(interval, t);
    SpanOf(k, 1, t);
    if k >= n { MulLe(n - 1, k - 1, t); }
  }

  lemma HasTurn(
    start: Times, events: seq<Event>, interfaces: seq<Interface>, interval: uint32, t: nat, a: nat, x: nat)
    requires AllReady(interfaces) && interval > 0 && x < |interfaces| && (|interfaces| - 1) * t < interval
    requires IsRun(start, events, interfaces, interval) && Regular(events, a, |interfaces|, t)
    requires LastOf(After(start, events, a), interfaces[x].name) == 0
    ensures !Waits(events, interfaces[x].name, a, a + |interfaces|)
  {
    hide IsRun, LastOf, After, Waits;
    var n := |interfaces|;
    RegularTicks(events, a, n, t);
    CountNames(interfaces);
    assert interfaces[x] in interfaces && events[a + n - 1].at == events[a].at + (n - 1) * t;
    forall u: nat | u < n ensures Sendable(interfaces[u]) { assert interfaces[u] in interfaces; }
    NewHasTurn(start, events, interfaces, interval, x, a, a + n);
  }

  function Label(i: nat): Name
    requires i < 26
  {
    [('a' as int + i) as char]
  }

  function Six(): seq<Interface> {
    seq(6, i requires 0 <= i < 6 => Interface(Label(i), true, true))
  }

  /** With the least interval of five minutes and a tick each minute, six interfaces are too many. */
  lemma SixthStarves(n: nat)
    requires n * 60_000 < WORD
    ensures IsRun(map[], Turns(Six(), 60_000, 5, n), Six(), 300_000)
    ensures AllReady(Six()) && Waits(Turns(Six(), 60_000, 5, n), Label(5), 0, n)
  {
    SixReady();
    LastStarves(Six(), 60_000, 5, n, 300_000);
    hide IsRun;
  }

  lemma SixReady()
    ensures AllReady(Six())
  {
    forall i, j | 0 <= i < j < 6 ensures Six()[i].name != Six()[j].name {
      assert Label(i)[0] != Label(j)[0];
    }
  }

  // ----- the main loop

  /** What reaches the announcer: a turn of the main loop, or the worker's callback. */
  datatype Input = Pulse(at: uint32) | Finished(at: uint32, name: Name)

  ghost predicate TicksApart(events: seq<Event>) {
    forall i, j :: 0 <= i < j < |events| && events[i].Ticked? && events[j].Ticked? ==>
      events[j].at - events[i].at >= 60_000
  }

  ghost predicate Until(events: seq<Event>, at: uint32) {
    forall i :: 0 <= i < |events| ==> 0 < events[i].at <= at
  }

  ghost predicate TicksUntil(events: seq<Event>, at: uint32) {
    forall i :: 0 <= i < |events| && events[i].Ticked? ==> events[i].at <= at
  }

  /** Any sequence of turns and callbacks is such a run, and its ticks lie at least the tick period apart. */
  method Serve(announcer: Announcer, inputs: seq<Input>, interfaces: seq<Interface>, interval: uint32)
    returns (events: seq<Event>)
    requires forall k :: 0 <= k < |inputs| ==> inputs[k].at > 0
    requires forall j, k :: 0 <= j <= k < |inputs| ==> inputs[j].at <= inputs[k].at
    requires forall k :: 0 <= k < |inputs| ==> announcer.lastTick <= inputs[k].at
    requires forall n, k :: n in announcer.last && 0 <= k < |inputs| ==> announcer.last[n] <= inputs[k].at
    modifies announcer
    ensures IsRun(old(announcer.last), events, interfaces, interval) && TicksApart(events)
    ensures announcer.last == After(old(announcer.last), events, |events|)
  {
    hide IsRun, After, Sends, SendsNothing, TicksApart, TicksUntil, Until;
    events := [];
    ghost var start := announcer.last;
    NoRun(start, interfaces, interval);
    for k := 0 to |inputs|
      invariant IsRun(start, events, interfaces, interval) && TicksApart(events)
      invariant announcer.last == After(start, events, |events|)
      invariant k < |inputs| ==> announcer.lastTick <= inputs[k].at && Until(events, inputs[k].at)
      invariant TicksUntil(events, announcer.lastTick)
    {
      match inputs[k] {
      case Pulse(at) =>
        ghost var before := announcer.lastTick;
        var throttled := announcer.Throttled(at);
        var sent := announcer.Tick(interfaces, at, interval, true, true, true);
        if !throttled {
          RunExtends(start, events, interfaces, interval, Ticked(at, sent));
          TickExtends(events, Ticked(at, sent), before);
          events := events + [Ticked(at, sent)];
        }
      case Finished(at, n) =>
        announcer.OnDone(n, at);
        RunExtends(start, events, interfaces, interval, Done(at, n));
        TickExtends(events, Done(at, n), announcer.lastTick);
        events := events + [Done(at, n)];
      }
      if k + 1 < |inputs| { UntilLater(events, inputs[k].at, inputs[k + 1].at); }
    }
  }

  lemma NoRun(start: Times, interfaces: seq<Interface>, interval: uint32)
    ensures IsRun(start, [], interfaces, interval) && TicksApart([]) && After(start, [], 0) == start
    ensures forall at: uint32 :: Until([], at) && TicksUntil([], at)
  {
  }

  lemma UntilLater(events: seq<Event>, at: uint32, later: uint32)
    requires Until(events, at) && at <= later
    ensures Until(events, later)
  {
  }

  lemma TickExtends(events: seq<Event>, e: Event, lastTick: uint32)
    requires TicksApart(events) && TicksUntil(events, lastTick) && Until(events, e.at) && lastTick <= e.at && e.at > 0
    requires e.Ticked? && lastTick != 0 ==> e.at - lastTick >= TICK_PERIOD_MS
    ensures TicksApart(events + [e]) && Until(events + [e], e.at)
    ensures TicksUntil(events + [e], if e.Ticked? then e.at else lastTick)
  {
  }

  lemma RunExtends(start: Times, events: seq<Event>, interfaces: seq<Interface>, interval: uint32, e: Event)
    requires IsRun(start, events, interfaces, interval) && Until(events, e.at) && e.at > 0
    requires forall n :: n in start ==> start[n] <= e.at
    requires Happens(After(start, events, |events|), e, interfaces, interval)
    ensures IsRun(start, events + [e], interfaces, interval)
    ensures After(start, events + [e], |events| + 1) == Recorded(After(start, events, |events|), e)
  {
    hide Happens, Recorded, After;
    var longer := events + [e];
    forall k | 0 <= k <= |events| ensures After(start, longer, k) == After(start, events, k) {
      AfterFront(start, events, e, k);
    }
    AfterNext(start, longer, |events|);
  }

  lemma {:induction false} AfterFront(start: Times, events: seq<Event>, e: Event, k: nat)
    requires k <= |events|
    ensures After(start, events + [e], k) == After(start, events, k)
  {
    if k > 0 { AfterFront(start, events, e, k - 1); }
  }

  // ----- blocking, at concrete interfaces

  const V := Interface("v", true, true)
  const U := Interface("u", true, false)
  const X := Interface("x", true, true)
  const FIVE_MINUTES: uint32 := 300_000

  lemma RunOfOne(start: Times, interfaces: seq<Interface>, e: Event)
    requires e.at > 0 && Happens(start, e, interfaces, FIVE_MINUTES)
    requires forall n :: n in start ==> start[n] <= e.at
    ensures IsRun(start, [e], interfaces, FIVE_MINUTES) && After(start, [e], 1) == Recorded(start, e)
  {
    NoRun(start, interfaces, FIVE_MINUTES);
    RunExtends(start, [], interfaces, FIVE_MINUTES, e);
    assert [] + [e] == [e];
  }

  lemma VTakesTurn()
    ensures Happens(map["v" := 500, "u" := 1000, "x" := 61000], Ticked(400_000, Some("v")), [V, U, X], FIVE_MINUTES)
  {
    assert Chosen(map["v" := 500, "u" := 1000, "x" := 61000], [V, U, X], 400_000, FIVE_MINUTES, 0);
  }

  lemma UChosen(now: uint32)
    requires 460_000 <= now <= 520_000
    ensures Happens(map["v" := 400_000, "u" := 1000, "x" := 61000], Ticked(now, None), [V, U, X], FIVE_MINUTES)
  {
    assert Chosen(map["v" := 400_000, "u" := 1000, "x" := 61000], [V, U, X], now, FIVE_MINUTES, 1);
  }

  const TIMES: Times := map["v" := 500, "u" := 1000, "x" := 61000]

  lemma VThenNobody()
    ensures IsRun(TIMES, [Ticked(400_000, Some("v")), Ticked(460_000, None), Ticked(520_000, None)], [V, U, X],
                  FIVE_MINUTES)
  {
    var first, second, third := Ticked(400_000, Some("v")), Ticked(460_000, None), Ticked(520_000, None);
    var after: Times := map["v" := 400_000, "u" := 1000, "x" := 61000];
    assert Recorded(TIMES, first) == after;
    VTakesTurn();
    UChosen(second.at);
    UChosen(third.at);
    hide Happens, IsRun;
    RunOfOne(TIMES, [V, U, X], first);
    RunExtends(TIMES, [first], [V, U, X], FIVE_MINUTES, second);
    RunExtends(TIMES, [first, second], [V, U, X], FIVE_MINUTES, third);
    assert [first] + [second] == [first, second] && [first, second] + [third] == [first, second, third];
  }

  /** Last announced in the order `v`, `u`, `x`, with `u` no longer to be built: `v` has its turn, and then `x` waits
      for good, although `u` is not the stalest when `x` falls due. */
  lemma BlockedInBetween()
    ensures var interfaces := [V, U, X];
      var events := [Ticked(400_000, Some("v")), Ticked(460_000, None), Ticked(520_000, None)];
      && IsRun(TIMES, events, interfaces, FIVE_MINUTES) && Ticks(events, 0, 3) == |Discoverable(interfaces)|
      && !Stalest(TIMES, interfaces, 1) && GoesFirst(TIMES, interfaces, 1, 2) && Waits(events, "x", 0, 3)
  {
    VThenNobody();
    hide IsRun;
    CountNames([V, U, X]);
    hide Discoverable;
    assert [V, U, X][0] == V && LastOf(TIMES, "v") == 500 && LastOf(TIMES, "u") == 1000;
  }

  lemma XTakesTurn()
    ensures Happens(map["u" := 61000, "x" := 1000], Ticked(400_000, Some("x")), [U, X], FIVE_MINUTES)
  {
    assert Chosen(map["u" := 61000, "x" := 1000], [U, X], 400_000, FIVE_MINUTES, 1);
  }

  lemma ThenU()
    ensures Happens(map["u" := 61000, "x" := 400_000], Ticked(460_000, None), [U, X], FIVE_MINUTES)
  {
    assert Chosen(map["u" := 61000, "x" := 400_000], [U, X], 460_000, FIVE_MINUTES, 0);
  }

  /** With `x` announced before `u`, it does have its turn. */
  lemma NotBlocked()
    ensures var interfaces, last: Times := [U, X], map["u" := 61000, "x" := 1000];
      var events := [Ticked(400_000, Some("x")), Ticked(460_000, None)];
      && IsRun(last, events, interfaces, FIVE_MINUTES) && Ticks(events, 0, 2) == |Discoverable(interfaces)|
      && !GoesFirst(last, interfaces, 0, 1)
  {
    var interfaces, last: Times := [U, X], map["u" := 61000, "x" := 1000];
    var first, second := Ticked(400_000, Some("x")), Ticked(460_000, None);
    CountNames(interfaces);
    assert Recorded(last, first) == map["u" := 61000, "x" := 400_000];
    XTakesTurn();
    ThenU();
    hide Happens, IsRun, Discoverable;
    RunOfOne(last, interfaces, first);
    RunExtends(last, [first], interfaces, FIVE_MINUTES, second);
    assert [first] + [second] == [first, second];
  }
}
