/**
 * socket::impl at lock granularity: any number of threads run send_packet, on_connected, on_disconnect and
 * on_close, one read, write, locked section or call through m_client at a time. Packets are numbered as
 * emitted.
 */
module SocketThreads {
  /** Where a thread stands in a call: `p` is the packet being emitted, `f` a packet popped and not yet sent. */
  datatype Frame =
    | SendEnter(p: nat) | SendTest(p: nat) | SendDrain(p: nat) | SendHeld(p: nat, f: nat) | SendLast(p: nat) | SendPush(p: nat)
    | ConnEnter | ConnTest | ConnSet | ConnOpen | ConnListen | ConnDrain | ConnHeld(f: nat)
    | DiscEnter | DiscTest | DiscSet | DiscClear
    | CloseEnter | CloseSet | CloseClear

  /** `client` is whether m_client is set; a thread is its stack of calls, the innermost last. */
  datatype State = State(
    client: bool, connected: bool, queue: seq<nat>,
    emitted: nat, sent: seq<nat>, dropped: seq<nat>, threads: seq<seq<Frame>>)

  function Start(n: nat): State {
    State(true, false, [], 0, [], [], seq(n, i => []))
  }

  // The steps

  /** The call has tested m_client, does not test it again, and may still go on to use it. */
  predicate UsesClient(f: Frame) {
    match f
    case SendTest(_) | SendDrain(_) | SendHeld(_, _) | SendLast(_) => true
    case ConnTest | ConnSet | ConnOpen | ConnListen | ConnDrain | ConnHeld(_) => true
    case _ => false
  }

  predicate ClientInUse(threads: seq<seq<Frame>>) {
    exists t, i :: 0 <= t < |threads| && 0 <= i < |threads[t]| && UsesClient(threads[t][i])
  }

  /** What the innermost call becomes; nothing when it returns. */
  datatype Moved = Moved(s: State, frames: seq<Frame>)

  function Advance(s: State, f: Frame): Moved {
    match f
    case SendEnter(p) => if s.client then Moved(s, [SendTest(p)]) else Moved(s.(dropped := s.dropped + [p]), [])
    case SendTest(p) => Moved(s, [if s.connected then SendDrain(p) else SendPush(p)])
    case SendDrain(p) =>
      if s.queue == [] then Moved(s, [SendLast(p)]) else Moved(s.(queue := s.queue[1..]), [SendHeld(p, s.queue[0])])
    case SendHeld(p, f) => Moved(s.(sent := s.sent + [f]), [SendDrain(p)])
    case SendLast(p) => Moved(s.(sent := s.sent + [p]), [])
    case SendPush(p) => Moved(s.(queue := s.queue + [p]), [])
    case ConnEnter => Moved(s, if s.client then [ConnTest] else [])
    case ConnTest => Moved(s, if s.connected then [] else [ConnSet])
    case ConnSet => Moved(s.(connected := true), [ConnOpen])
    case ConnOpen => Moved(s, [ConnListen])
    case ConnListen => Moved(s, [ConnDrain])
    case ConnDrain =>
      if s.queue == [] then Moved(s, []) else Moved(s.(queue := s.queue[1..]), [ConnHeld(s.queue[0])])
    case ConnHeld(f) => Moved(s.(sent := s.sent + [f]), [ConnDrain])
    case DiscEnter => Moved(s, if s.client then [DiscTest] else [])
    case DiscTest => Moved(s, if s.connected then [DiscSet] else [])
    case DiscSet => Moved(s.(connected := false), [DiscClear])
    case DiscClear => Moved(s.(queue := [], dropped := s.dropped + s.queue), [])
    case CloseEnter => if s.client then Moved(s.(client := false), [CloseSet]) else Moved(s, [])
    case CloseSet => Moved(s.(connected := false), [CloseClear])
    case CloseClear => Moved(s.(queue := [], dropped := s.dropped + s.queue), [])
  }

  /** What happens next, and in which thread. */
  datatype Event = Emit(t: nat) | Connected(t: nat) | Disconnected(t: nat) | Close(t: nat) | Go(t: nat)

  /**
   * Packets may be emitted by an idle thread or by the open listener, inside the call of its thread.
   */
  predicate Enabled(s: State, e: Event) {
    && e.t < |s.threads|
    && var stack := s.threads[e.t];
       match e
       case Emit(_) => stack == [] || stack[|stack| - 1] == ConnListen
       case Go(_) => stack != []
       case _ => stack == []
  }

  function Step(s: State, e: Event): State
    requires Enabled(s, e)
  {
    var stack := s.threads[e.t];
    match e
    case Emit(t) => s.(emitted := s.emitted + 1, threads := s.threads[t := stack + [SendEnter(s.emitted)]])
    case Connected(t) => s.(threads := s.threads[t := [ConnEnter]])
    case Disconnected(t) => s.(threads := s.threads[t := [DiscEnter]])
    case Close(t) => s.(threads := s.threads[t := [CloseEnter]])
    case Go(t) =>
      var m := Advance(s, stack[|stack| - 1]);
      m.s.(threads := s.threads[t := stack[..|stack| - 1] + m.frames])
  }

  predicate Runs(s: State, events: seq<Event>)
    decreases |events|
  {
    events == [] || (Enabled(s, events[0]) && Runs(Step(s, events[0]), events[1..]))
  }

  function Run(s: State, events: seq<Event>): State
    requires Runs(s, events)
    decreases |events|
  {
    if events == [] then s else Run(Step(s, events[0]), events[1..])
  }

  // Conservation

  /** How often a packet stands in a list. */
  function Count(line: seq<nat>, p: nat): nat {
    if line == [] then 0 else (if line[0] == p then 1 else 0) + Count(line[1..], p)
  }

  lemma {:induction false} CountConcat(a: seq<nat>, b: seq<nat>, p: nat)
    ensures Count(a + b, p) == Count(a, p) + Count(b, p)
    decreases |a|
  {
    if a == [] {
      assert a + b == b;
    } else {
      CountConcat(a[1..], b, p);
      assert (a + b)[1..] == a[1..] + b;
    }
  }

  /** The packets that a call has in its hands. */
  function InHand(f: Frame): seq<nat> {
    match f
    case SendHeld(p, f) => [f, p]
    case SendEnter(p) => [p]
    case SendTest(p) => [p]
    case SendDrain(p) => [p]
    case SendLast(p) => [p]
    case SendPush(p) => [p]
    case ConnHeld(f) => [f]
    case _ => []
  }

  function HeldBy(stack: seq<Frame>, p: nat): nat {
    if stack == [] then 0 else Count(InHand(stack[0]), p) + HeldBy(stack[1..], p)
  }

  function HeldByAll(threads: seq<seq<Frame>>, p: nat): nat {
    if threads == [] then 0 else HeldBy(threads[0], p) + HeldByAll(threads[1..], p)
  }

  /** The number of places that a packet is in: sent, queued, dropped, or in the hands of a call. */
  function Places(s: State, p: nat): nat {
    Count(s.sent, p) + Count(s.queue, p) + Count(s.dropped, p) + HeldByAll(s.threads, p)
  }

  ghost predicate Conserved(s: State) {
    forall p: nat :: Places(s, p) == if p < s.emitted then 1 else 0
  }

  lemma {:induction false} HeldByUpdate(threads: seq<seq<Frame>>, t: nat, stack: seq<Frame>, p: nat)
    requires t < |threads|
    ensures HeldByAll(threads[t := stack], p) == HeldByAll(threads, p) - HeldBy(threads[t], p) + HeldBy(stack, p)
    decreases |threads|
  {
    hide HeldBy;
    var next := threads[t := stack];
    assert next[0] == if t == 0 then stack else threads[0];
    if t == 0 {
      assert next[1..] == threads[1..];
    } else {
      HeldByUpdate(threads[1..], t - 1, stack, p);
      assert next[1..] == threads[1..][t - 1 := stack];
    }
  }

  lemma {:induction false} HeldByConcat(a: seq<Frame>, b: seq<Frame>, p: nat)
    ensures HeldBy(a + b, p) == HeldBy(a, p) + HeldBy(b, p)
    decreases |a|
  {
    hide InHand;
    if a == [] {
      assert a + b == b;
    } else {
      HeldByConcat(a[1..], b, p);
      assert (a + b)[1..] == a[1..] + b;
    }
  }

  lemma HeldByOne(f: Frame, p: nat)
    ensures HeldBy([f], p) == Count(InHand(f), p)
  {
    assert HeldBy([f][1..], p) == 0;
  }

  lemma CountOne(q: nat, p: nat)
    ensures Count([q], p) == if q == p then 1 else 0
  {
    assert Count([q][1..], p) == 0;
  }

  /** A step of a call moves packets between places, and neither loses nor copies one. */
  lemma {:induction false} AdvanceMoves(s: State, f: Frame, p: nat)
    ensures var m := Advance(s, f);
            && m.s.emitted == s.emitted && m.s.threads == s.threads && |m.frames| <= 1
            && Count(m.s.sent, p) + Count(m.s.queue, p) + Count(m.s.dropped, p) + HeldBy(m.frames, p)
               == Count(s.sent, p) + Count(s.queue, p) + Count(s.dropped, p) + Count(InHand(f), p)
  {
    hide Count, HeldBy, InHand;
    var m := Advance(s, f);
    assert HeldBy([], p) == 0 && Count([], p) == 0 by { EmptyCounts(p); }
    if m.frames != [] {
      HeldByOne(m.frames[0], p);
      assert m.frames == [m.frames[0]];
    }
    if IsSend(f) {
      SendMoves(s, f, p);
    } else {
      OtherMoves(s, f, p);
    }
  }

  /** What the calls before and after a step have in their hands. */
  function Hands(frames: seq<Frame>): seq<nat>
    requires |frames| <= 1
  {
    if frames == [] then [] else InHand(frames[0])
  }

  lemma {:induction false} SendMoves(s: State, f: Frame, p: nat)
    requires IsSend(f)
    ensures var m := Advance(s, f);
            && |m.frames| <= 1
            && Count(m.s.sent, p) + Count(m.s.queue, p) + Count(m.s.dropped, p) + Count(Hands(m.frames), p)
               == Count(s.sent, p) + Count(s.queue, p) + Count(s.dropped, p) + Count(InHand(f), p)
  {
    EmptyCounts(p);
    hide Count;
    match f
    case SendEnter(q) => CountConcat(s.dropped, [q], p);
    case SendTest(q) =>
    case SendDrain(q) =>
      if s.queue != [] {
        CountFirst(s.queue, p);
        CountFirst([s.queue[0], q], p);
      }
    case SendHeld(q, g) =>
      CountConcat(s.sent, [g], p);
      CountFirst([g, q], p);
    case SendLast(q) => CountConcat(s.sent, [q], p);
    case SendPush(q) => CountConcat(s.queue, [q], p);
  }

  lemma {:induction false} OtherMoves(s: State, f: Frame, p: nat)
    requires !IsSend(f)
    ensures var m := Advance(s, f);
            && |m.frames| <= 1
            && Count(m.s.sent, p) + Count(m.s.queue, p) + Count(m.s.dropped, p) + Count(Hands(m.frames), p)
               == Count(s.sent, p) + Count(s.queue, p) + Count(s.dropped, p) + Count(InHand(f), p)
  {
    EmptyCounts(p);
    hide Count;
    match f
    case ConnDrain =>
      if s.queue != [] {
        CountFirst(s.queue, p);
      }
    case ConnHeld(g) => CountConcat(s.sent, [g], p);
    case DiscClear => CountConcat(s.dropped, s.queue, p);
    case CloseClear => CountConcat(s.dropped, s.queue, p);
    case _ =>
  }

  lemma CountFirst(line: seq<nat>, p: nat)
    requires line != []
    ensures Count(line, p) == Count([line[0]], p) + Count(line[1..], p)
  {
    assert line == [line[0]] + line[1..];
    CountConcat([line[0]], line[1..], p);
  }

  lemma EmptyCounts(p: nat)
    ensures HeldBy([], p) == 0 && Count([], p) == 0
  {
  }

  lemma GoIs(s: State, t: nat)
    requires Enabled(s, Go(t))
    ensures var stack := s.threads[t];
            var rest, m := stack[..|stack| - 1], Advance(s, stack[|stack| - 1]);
            && Step(s, Go(t)) == m.s.(threads := s.threads[t := rest + m.frames])
            && rest + [stack[|stack| - 1]] == stack
  {
  }

  lemma {:induction false} StepCounts(s: State, e: Event, p: nat)
    requires Enabled(s, e)
    ensures Places(Step(s, e), p) == Places(s, p) + if e.Emit? && p == s.emitted then 1 else 0
    ensures Step(s, e).emitted == s.emitted + (if e.Emit? then 1 else 0) && |Step(s, e).threads| == |s.threads|
  {
    hide Advance, HeldBy, HeldByAll, Count, ClientInUse;
    var stack, u := s.threads[e.t], Step(s, e);
    EmptyCounts(p);
    HeldByUpdate(s.threads, e.t, u.threads[e.t], p);
    match e
    case Emit(t) =>
      HeldByConcat(stack, [SendEnter(s.emitted)], p);
      HeldByOne(SendEnter(s.emitted), p);
      CountOne(s.emitted, p);
    case Connected(t) => HeldByOne(ConnEnter, p);
    case Disconnected(t) => HeldByOne(DiscEnter, p);
    case Close(t) => HeldByOne(CloseEnter, p);
    case Go(t) =>
      var rest, f := stack[..|stack| - 1], stack[|stack| - 1];
      GoIs(s, t);
      AdvanceMoves(s, f, p);
      HeldByConcat(rest, [f], p);
      HeldByOne(f, p);
      HeldByConcat(rest, Advance(s, f).frames, p);
  }

  lemma {:induction false} NoneHeldAtStart(n: nat, p: nat)
    ensures Places(Start(n), p) == 0
  {
    if n > 0 {
      NoneHeldAtStart(n - 1, p);
      assert Start(n).threads[1..] == Start(n - 1).threads;
    }
  }

  lemma {:induction false} RunConserves(s: State, events: seq<Event>)
    requires Conserved(s) && Runs(s, events)
    ensures Conserved(Run(s, events))
    decreases |events|
  {
    hide Places, Step, Enabled;
    if events != [] {
      var u := Step(s, events[0]);
      forall p: nat ensures Places(u, p) == if p < u.emitted then 1 else 0 {
        StepCounts(s, events[0], p);
      }
      RunConserves(u, events[1..]);
    }
  }

  /**
   * Under every interleaving, each packet emitted so far is in exactly one place: sent once, queued,
   * dropped, or in the hands of one call.
   */
  lemma {:induction false} InOnePlace(n: nat, events: seq<Event>, p: nat)
    requires Runs(Start(n), events)
    ensures var s := Run(Start(n), events);
            Count(s.sent, p) + Count(s.queue, p) + Count(s.dropped, p) + HeldByAll(s.threads, p)
            == if p < s.emitted then 1 else 0
  {
    hide Count, HeldByAll;
    assert Conserved(Start(n)) by {
      forall p: nat ensures Places(Start(n), p) == 0 {
        NoneHeldAtStart(n, p);
      }
    }
    RunConserves(Start(n), events);
    assert Places(Run(Start(n), events), p) == if p < Run(Start(n), events).emitted then 1 else 0;
  }

  // m_client is set where it is used

  predicate ClientSafe(s: State) {
    ClientInUse(s.threads) ==> s.client
  }

  /** on_close goes on to clear m_client only when no call in flight relies on it. */
  predicate Waits(s: State, e: Event)
    requires Enabled(s, e)
  {
    Clears(s, e) ==> !ClientInUse(s.threads)
  }

  predicate Clears(s: State, e: Event)
    requires Enabled(s, e)
  {
    e.Go? && s.threads[e.t][|s.threads[e.t]| - 1] == CloseEnter
  }

  /** A frame that uses m_client after a step was there before, or is what such a call or its test became. */
  lemma {:induction false} UseIsOld(s: State, e: Event, t: nat, i: nat)
    requires Enabled(s, e) && t < |s.threads|
    requires i < |Step(s, e).threads[t]| && UsesClient(Step(s, e).threads[t][i])
    ensures ClientInUse(s.threads) || (s.client && !Clears(s, e))
  {
    hide UsesClient, Advance;
    var u, stack := Step(s, e), s.threads[e.t];
    var g := u.threads[t][i];
    ClientUse(s, g, if stack == [] then SendEnter(0) else stack[|stack| - 1]);
    if t != e.t {
      assert UsesClient(s.threads[t][i]);
    } else if e.Go? {
      GoIs(s, t);
      AdvanceMoves(s, stack[|stack| - 1], 0);
      if i < |stack| - 1 {
        assert UsesClient(s.threads[t][i]);
      } else {
        assert [g] == Advance(s, stack[|stack| - 1]).frames;
        assert UsesClient(stack[|stack| - 1]) ==> UsesClient(s.threads[t][|stack| - 1]);
      }
    } else {
      assert i < |stack| ==> UsesClient(s.threads[t][i]);
    }
  }

  /** When m_client is cleared, the calls that use it are still there. */
  lemma {:induction false} ClearLeavesUse(s: State, e: Event)
    requires Enabled(s, e) && Clears(s, e) && ClientInUse(s.threads)
    ensures ClientInUse(Step(s, e).threads) && !Step(s, e).client
  {
    hide UsesClient;
    var t, i :| 0 <= t < |s.threads| && 0 <= i < |s.threads[t]| && UsesClient(s.threads[t][i]);
    GoIs(s, e.t);
    ClientUse(s, CloseEnter, CloseEnter);
    assert UsesClient(Step(s, e).threads[t][i]);
  }

  /** A step keeps m_client set for those who use it exactly when on_close waits for them. */
  lemma {:induction false} StepClientSafe(s: State, e: Event)
    requires ClientSafe(s) && Enabled(s, e)
    ensures ClientSafe(Step(s, e)) <==> Waits(s, e)
  {
    hide UsesClient, Step;
    var u := Step(s, e);
    StepCounts(s, e, 0);
    if !Waits(s, e) {
      ClearLeavesUse(s, e);
    } else if ClientInUse(u.threads) {
      var t, i :| 0 <= t < |u.threads| && 0 <= i < |u.threads[t]| && UsesClient(u.threads[t][i]);
      UseIsOld(s, e, t, i);
      OnlyCloseClears(s, e);
    }
  }

  lemma OnlyCloseClears(s: State, e: Event)
    requires Enabled(s, e)
    ensures s.client && !Step(s, e).client ==> Clears(s, e)
  {
  }

  /** A call comes to use m_client only from its test, or from using it already. */
  lemma ClientUse(s: State, g: Frame, f: Frame)
    ensures g.SendEnter? || g.ConnEnter? || g.DiscEnter? || g.CloseEnter? ==> !UsesClient(g)
    ensures Advance(s, f).frames == [g] && UsesClient(g) ==> (s.client && f != CloseEnter) || UsesClient(f)
  {
  }

  /** In every state of the run m_client is set where a call relies on it. */
  predicate SafeThroughout(s: State, events: seq<Event>)
    requires Runs(s, events)
    decreases |events|
  {
    ClientSafe(s) && (events == [] || SafeThroughout(Step(s, events[0]), events[1..]))
  }

  predicate ClosesWait(s: State, events: seq<Event>)
    requires Runs(s, events)
    decreases |events|
  {
    events == [] || (Waits(s, events[0]) && ClosesWait(Step(s, events[0]), events[1..]))
  }

  lemma {:induction false} SafeIffWaits(s: State, events: seq<Event>)
    requires ClientSafe(s) && Runs(s, events)
    ensures SafeThroughout(s, events) <==> ClosesWait(s, events)
    decreases |events|
  {
    hide ClientSafe, Step, Enabled, Waits;
    if events != [] {
      var u := Step(s, events[0]);
      StepClientSafe(s, events[0]);
      if ClientSafe(u) {
        SafeIffWaits(u, events[1..]);
      } else {
        assert !SafeThroughout(u, events[1..]);
      }
    }
  }

  /**
   * Under every interleaving of any number of threads: no call ever relies on an m_client that is gone,
   * if and only if each on_close clears it only when no call in flight relies on it.
   */
  lemma {:induction false} RunClientSafe(n: nat, events: seq<Event>)
    requires Runs(Start(n), events)
    ensures SafeThroughout(Start(n), events) <==> ClosesWait(Start(n), events)
  {
    assert ClientSafe(Start(n));
    SafeIffWaits(Start(n), events);
  }

  // One thread

  function Numbers(n: nat): (r: seq<nat>)
    ensures |r| == n && forall i :: 0 <= i < n ==> r[i] == i
  {
    seq(n, i => i)
  }

  predicate Increasing(line: seq<nat>) {
    forall i, j :: 0 <= i < j < |line| ==> line[i] < line[j]
  }

  /** The packet popped and not yet sent, and the packet that is being emitted. */
  function Popped(stack: seq<Frame>): seq<nat> {
    if stack == [] then []
    else match stack[|stack| - 1]
      case SendHeld(_, f) => [f]
      case ConnHeld(f) => [f]
      case _ => []
  }

  function Pending(stack: seq<Frame>): seq<nat> {
    if stack == [] then []
    else match stack[|stack| - 1]
      case SendEnter(p) => [p]
      case SendTest(p) => [p]
      case SendDrain(p) => [p]
      case SendHeld(p, _) => [p]
      case SendLast(p) => [p]
      case SendPush(p) => [p]
      case _ => []
  }

  /** The packets in the order in which they leave. */
  function Line(s: State): seq<nat>
    requires |s.threads| == 1
  {
    Joined(s.sent, Popped(s.threads[0]), s.queue, Pending(s.threads[0]))
  }

  function Joined(sent: seq<nat>, popped: seq<nat>, queue: seq<nat>, pending: seq<nat>): seq<nat> {
    sent + popped + queue + pending
  }

  predicate IsSend(f: Frame) {
    f.SendEnter? || f.SendTest? || f.SendDrain? || f.SendHeld? || f.SendLast? || f.SendPush?
  }

  /** A single thread's stack: one call, or an emit inside the open listener. */
  predicate Shape(stack: seq<Frame>) {
    |stack| <= 2 && (|stack| == 2 ==> stack[0] == ConnListen && IsSend(stack[1]))
  }

  /** What a single thread knows where it stands; `f` is its innermost call. */
  predicate Local(s: State, f: Frame) {
    match f
    case SendLast(_) => s.queue == [] && s.connected
    case SendDrain(_) => s.connected
    case SendHeld(_, _) => s.connected
    case SendPush(_) => !s.connected
    case ConnSet => !s.connected
    case ConnOpen | ConnListen | ConnDrain | ConnHeld(_) => s.connected
    case DiscSet => s.connected && Drained(s)
    case ConnEnter | ConnTest | DiscEnter | DiscTest | CloseEnter => Drained(s)
    case DiscClear => s.client ==> s.queue == []
    case CloseSet | CloseClear => !s.client
    case _ => true
  }

  /** Between calls a connected socket has nothing queued. */
  predicate Drained(s: State) {
    s.client && s.connected ==> s.queue == []
  }

  predicate Knows(s: State, stack: seq<Frame>) {
    && Shape(stack) && (stack == [] ==> Drained(s)) && (stack != [] ==> Local(s, stack[|stack| - 1]))
    && (|stack| == 2 ==> s.connected)
  }

  /** What leaves is in the order of emission; nothing is missing while the client is there. */
  predicate Ordered(s: State)
    requires |s.threads| == 1
  {
    && Increasing(Line(s)) && (forall i :: 0 <= i < |Line(s)| ==> Line(s)[i] < s.emitted)
    && (s.client ==> s.dropped == [] && Line(s) == Numbers(s.emitted))
  }

  predicate OneThread(s: State) {
    |s.threads| == 1 && Knows(s, s.threads[0]) && Ordered(s)
  }

  lemma {:induction false} AdvanceKnows(s: State, f: Frame, inner: bool, threads: seq<seq<Frame>>)
    requires Local(s, f) && (inner ==> s.connected && IsSend(f))
    ensures var m := Advance(s, f);
            var u := m.s.(threads := threads);
            && (m.frames != [] ==> Local(u, m.frames[0]) && (inner ==> IsSend(m.frames[0])))
            && (m.frames == [] && !inner ==> Drained(u))
            && (inner ==> u.connected && Local(u, ConnListen))
  {
  }

  lemma {:induction false} GoKnows(s: State)
    requires OneThread(s) && Enabled(s, Go(0))
    ensures Knows(Step(s, Go(0)), Step(s, Go(0)).threads[0])
  {
    hide Ordered, Advance, Local, Drained, IsSend;
    GoIs(s, 0);
    var stack, u := s.threads[0], Step(s, Go(0));
    var f := stack[|stack| - 1];
    var rest, frames := stack[..|stack| - 1], Advance(s, f).frames;
    AdvanceMoves(s, f, 0);
    AdvanceKnows(s, f, |stack| == 2, u.threads);
    if |stack| == 2 {
      assert rest == [ConnListen];
      assert frames != [] ==> rest + frames == [ConnListen, frames[0]];
    } else {
      assert rest == [] && rest + frames == frames;
    }
  }

  /** How packets move along the line. */
  lemma Along(sent: seq<nat>, queue: seq<nat>, x: nat, pending: seq<nat>)
    ensures Joined(sent + [x], [], queue, pending) == Joined(sent, [x], queue, pending)
    ensures Joined(sent, [], queue + [x], []) == Joined(sent, [], queue, [x])
    ensures Joined(sent + [x], [], [], []) == Joined(sent, [], [], [x])
    ensures queue != [] ==> Joined(sent, [queue[0]], queue[1..], pending) == Joined(sent, [], queue, pending)
    ensures Joined(sent, [], queue, []) <= Joined(sent, [], queue, pending)
    ensures Joined(sent, [], [], []) <= Joined(sent, [], queue, [])
  {
    assert queue != [] ==> queue == [queue[0]] + queue[1..];
  }

  /** A step keeps the line, or cuts it when the client is gone. */
  lemma {:induction false} AdvanceLine(s: State, f: Frame)
    requires Local(s, f)
    ensures var m := Advance(s, f);
            var before := Joined(s.sent, Popped([f]), s.queue, Pending([f]));
            var after := Joined(m.s.sent, Popped(m.frames), m.s.queue, Pending(m.frames));
            && (after == before || (!m.s.client && after <= before))
            && m.s.emitted == s.emitted && (m.s.client ==> s.client && m.s.dropped == s.dropped)
  {
    hide Joined;
    match f
    case SendEnter(p) => Along(s.sent, s.queue, p, [p]);
    case SendDrain(p) => Along(s.sent, s.queue, 0, [p]);
    case SendHeld(p, g) => Along(s.sent, s.queue, g, [p]);
    case SendLast(p) => Along(s.sent, s.queue, p, [p]);
    case SendPush(p) => Along(s.sent, s.queue, p, [p]);
    case ConnDrain => Along(s.sent, s.queue, 0, []);
    case ConnHeld(g) => Along(s.sent, s.queue, g, []);
    case DiscClear =>
      Along(s.sent, s.queue, 0, []);
      assert s.client ==> s.dropped + [] == s.dropped;
    case CloseClear => Along(s.sent, s.queue, 0, []);
    case _ =>
  }

  lemma {:induction false} GoLine(s: State)
    requires OneThread(s) && Enabled(s, Go(0))
    ensures var u := Step(s, Go(0));
            && (Line(u) == Line(s) || (!u.client && Line(u) <= Line(s)))
            && u.emitted == s.emitted && (u.client ==> s.client && u.dropped == s.dropped)
  {
    hide Ordered, Advance, Local, Joined, Popped, Pending;
    GoIs(s, 0);
    var stack := s.threads[0];
    var f := stack[|stack| - 1];
    AdvanceLine(s, f);
    AdvanceMoves(s, f, 0);
    var rest := stack[..|stack| - 1];
    assert rest == [] || rest == [ConnListen];
    LastFrame(rest, [f]);
    LastFrame(rest, Advance(s, f).frames);
  }

  lemma LastFrame(rest: seq<Frame>, frames: seq<Frame>)
    requires |frames| <= 1 && (rest == [] || rest == [ConnListen])
    ensures Popped(rest + frames) == Popped(frames) && Pending(rest + frames) == Pending(frames)
  {
  }

  lemma CutOrdered(line: seq<nat>, whole: seq<nat>)
    requires line <= whole && Increasing(whole)
    ensures Increasing(line)
  {
    assert forall i :: 0 <= i < |line| ==> line[i] == whole[i];
  }

  lemma {:induction false} EmitOrdered(s: State)
    requires OneThread(s) && Enabled(s, Emit(0))
    ensures OneThread(Step(s, Emit(0)))
  {
    hide Ordered, Line, Drained;
    var stack, u := s.threads[0], Step(s, Emit(0));
    assert u.threads[0] == stack + [SendEnter(s.emitted)];
    assert stack != [] ==> stack == [ConnListen];
    EmitLine(s);
    MoreOrdered(s, u);
  }

  lemma {:induction false} EmitLine(s: State)
    requires |s.threads| == 1 && (s.threads[0] == [] || s.threads[0] == [ConnListen])
    ensures Line(Step(s, Emit(0))) == Line(s) + [s.emitted]
  {
    hide Joined;
    assert [ConnListen] + [SendEnter(s.emitted)] == [ConnListen, SendEnter(s.emitted)];
    LastJoins(s.sent, s.queue, s.emitted);
  }

  lemma LastJoins(sent: seq<nat>, queue: seq<nat>, p: nat)
    ensures Joined(sent, [], queue, [p]) == Joined(sent, [], queue, []) + [p]
  {
  }

  lemma {:induction false} MoreOrdered(s: State, u: State)
    requires |s.threads| == 1 == |u.threads| && Ordered(s) && Line(u) == Line(s) + [s.emitted]
    requires u.emitted == s.emitted + 1 && u.client == s.client && u.dropped == s.dropped
    ensures Ordered(u)
  {
    hide Line;
    assert s.client ==> Numbers(u.emitted) == Numbers(s.emitted) + [s.emitted];
  }

  lemma {:induction false} StepOneThread(s: State, e: Event)
    requires OneThread(s) && Enabled(s, e)
    ensures OneThread(Step(s, e))
  {
    match e
    case Emit(t) => EmitOrdered(s);
    case Go(t) =>
      hide Advance, Line, Knows, Ordered;
      GoKnows(s);
      GoLine(s);
      LessOrdered(s, Step(s, e));
    case _ =>
      hide Joined, Ordered;
      LessOrdered(s, Step(s, e));
  }

  lemma {:induction false} LessOrdered(s: State, u: State)
    requires |s.threads| == 1 == |u.threads| && Ordered(s) && u.emitted == s.emitted
    requires Line(u) == Line(s) || (!u.client && Line(u) <= Line(s))
    requires u.client ==> s.client && u.dropped == s.dropped
    ensures Ordered(u)
  {
    hide Line, Increasing, Numbers;
    CutOrdered(Line(u), Line(s));
    assert forall i :: 0 <= i < |Line(u)| ==> Line(u)[i] == Line(s)[i];
  }

  lemma {:induction false} RunOneThread(s: State, events: seq<Event>)
    requires OneThread(s) && Runs(s, events)
    ensures OneThread(Run(s, events))
    decreases |events|
  {
    hide OneThread, Step, Enabled;
    if events != [] {
      StepOneThread(s, events[0]);
      RunOneThread(Step(s, events[0]), events[1..]);
    }
  }

  /**
   * In every run of a single thread, with the open listener emitting inside on_connected, packets are
   * sent in the order of emission; while the client is there none is skipped, and between calls all
   * that is not sent is queued - nothing once connected.
   */
  lemma {:induction false} SentInOrder(events: seq<Event>)
    requires Runs(Start(1), events)
    ensures var s := Run(Start(1), events);
            && |s.threads| == 1 && Increasing(s.sent)
            && (s.client ==> s.sent <= Numbers(s.emitted))
            && (s.client && s.threads[0] == [] ==> s.sent + s.queue == Numbers(s.emitted))
            && (s.client && s.threads[0] == [] && s.connected ==> s.sent == Numbers(s.emitted))
  {
    hide OneThread, Runs, Run, Start, Numbers, Increasing;
    StartsInOrder();
    RunOneThread(Start(1), events);
    LineIsSent(Run(Start(1), events));
  }

  lemma LineIsSent(s: State)
    requires OneThread(s)
    ensures |s.threads| == 1 && Increasing(s.sent)
    ensures s.client ==> s.sent <= Numbers(s.emitted)
    ensures s.client && s.threads[0] == [] ==> s.sent + s.queue == Numbers(s.emitted)
    ensures s.client && s.threads[0] == [] && s.connected ==> s.sent == Numbers(s.emitted)
  {
    hide Increasing, Numbers, Local;
    CutOrdered(s.sent, Line(s));
    if s.threads[0] == [] {
      assert Line(s) == s.sent + s.queue;
      assert s.queue == [] ==> s.sent + s.queue == s.sent;
    }
  }

  lemma StartsInOrder()
    ensures OneThread(Start(1))
  {
    var s := Start(1);
    assert s.threads[0] == [] && Line(s) == [] == Numbers(0);
  }

  // Two threads

  /** A state of two threads, with the client there and nothing dropped. */
  function Two(connected: bool, queue: seq<nat>, emitted: nat, sent: seq<nat>, a: seq<Frame>, b: seq<Frame>): State {
    State(true, connected, queue, emitted, sent, [], [a, b])
  }

  /** The run goes on with one event, to the state `u`. */
  lemma {:induction false} Then(s: State, events: seq<Event>, e: Event, u: State) returns (more: seq<Event>)
    requires Runs(s, events) && Enabled(Run(s, events), e) && Step(Run(s, events), e) == u
    ensures Runs(s, more) && Run(s, more) == u && more == events + [e]
    decreases |events|
  {
    hide Step, Enabled;
    more := events + [e];
    if events == [] {
      assert more[0] == e && more[1..] == [];
      assert Runs(u, []) && Run(u, []) == u;
    } else {
      var tail := Then(Step(s, events[0]), events[1..], e, u);
      assert more[0] == events[0] && more[1..] == tail;
    }
  }

  /** Thread 0 goes one step on, from a call `a` that it alone makes; likewise thread 1. */
  lemma {:induction false} Go0(events: seq<Event>, s: State, a: Frame) returns (more: seq<Event>)
    requires |s.threads| == 2 && s.threads[0] == [a]
    requires Runs(Start(2), events) && Run(Start(2), events) == s
    ensures Runs(Start(2), more)
    ensures Run(Start(2), more) == Advance(s, a).s.(threads := [Advance(s, a).frames, s.threads[1]])
  {
    hide Runs, Run, Advance;
    var u := Advance(s, a).s.(threads := [Advance(s, a).frames, s.threads[1]]);
    AdvanceMoves(s, a, 0);
    assert [a][..0] + Advance(s, a).frames == Advance(s, a).frames;
    assert s.threads[0 := Advance(s, a).frames] == u.threads;
    more := Then(Start(2), events, Go(0), u);
  }

  lemma {:induction false} Go1(events: seq<Event>, s: State, b: Frame) returns (more: seq<Event>)
    requires |s.threads| == 2 && s.threads[1] == [b]
    requires Runs(Start(2), events) && Run(Start(2), events) == s
    ensures Runs(Start(2), more)
    ensures Run(Start(2), more) == Advance(s, b).s.(threads := [s.threads[0], Advance(s, b).frames])
  {
    hide Runs, Run, Advance;
    var u := Advance(s, b).s.(threads := [s.threads[0], Advance(s, b).frames]);
    AdvanceMoves(s, b, 0);
    assert [b][..0] + Advance(s, b).frames == Advance(s, b).frames;
    assert s.threads[1 := Advance(s, b).frames] == u.threads;
    more := Then(Start(2), events, Go(1), u);
  }

  /** Thread 0 emits packet `n`. */
  lemma {:induction false} Emit0(events: seq<Event>, connected: bool, n: nat, b: seq<Frame>) returns (more: seq<Event>)
    requires Runs(Start(2), events) && Run(Start(2), events) == Two(connected, [], n, [], [], b)
    ensures Runs(Start(2), more) && Run(Start(2), more) == Two(connected, [], n + 1, [], [SendEnter(n)], b)
  {
    hide Runs, Run;
    assert [] + [SendEnter(n)] == [SendEnter(n)];
    var u := Two(connected, [], n + 1, [], [SendEnter(n)], b);
    assert Two(connected, [], n, [], [], b).threads[0 := [SendEnter(n)]] == u.threads;
    more := Then(Start(2), events, Emit(0), u);
  }

  /** While thread 0 does not move, thread 1 connects as far as its drain loop. */
  lemma {:induction false} Connect1(events: seq<Event>, queue: seq<nat>, n: nat, a: seq<Frame>) returns (more: seq<Event>)
    requires Runs(Start(2), events) && Run(Start(2), events) == Two(false, queue, n, [], a, [])
    ensures Runs(Start(2), more) && Run(Start(2), more) == Two(true, queue, n, [], a, [ConnDrain])
  {
    hide Runs, Run;
    var u := Two(false, queue, n, [], a, [ConnEnter]);
    assert Two(false, queue, n, [], a, []).threads[1 := [ConnEnter]] == u.threads;
    more := Then(Start(2), events, Connected(1), u);
    more := Go1(more, Two(false, queue, n, [], a, [ConnEnter]), ConnEnter);
    more := Go1(more, Two(false, queue, n, [], a, [ConnTest]), ConnTest);
    more := Go1(more, Two(false, queue, n, [], a, [ConnSet]), ConnSet);
    more := Go1(more, Two(true, queue, n, [], a, [ConnOpen]), ConnOpen);
    more := Go1(more, Two(true, queue, n, [], a, [ConnListen]), ConnListen);
  }

  /** Thread 0 has found the socket unconnected and is about to queue packet 0. */
  lemma {:induction false} AboutToPush() returns (events: seq<Event>)
    ensures Runs(Start(2), events) && Run(Start(2), events) == Two(false, [], 1, [], [SendPush(0)], [])
  {
    hide Runs, Run;
    assert Start(2).threads == [[], []];
    StartRuns();
    events := Emit0([], false, 0, []);
    events := Go0(events, Two(false, [], 1, [], [SendEnter(0)], []), SendEnter(0));
    events := Go0(events, Two(false, [], 1, [], [SendTest(0)], []), SendTest(0));
  }

  lemma StartRuns()
    ensures Runs(Start(2), []) && Run(Start(2), []) == Start(2)
  {
  }

  /** A run of two threads in which packet 1 has overtaken packet 0. */
  lemma {:induction false} OutOfOrder() returns (events: seq<Event>)
    ensures Runs(Start(2), events) && Run(Start(2), events) == Two(true, [], 2, [1, 0], [], [ConnDrain])
  {
    hide Runs, Run;
    events := AboutToPush();
    events := Go0(events, Two(false, [], 1, [], [SendPush(0)], []), SendPush(0));
    events := Connect1(events, [0], 1, []);
    events := Go1(events, Two(true, [0], 1, [], [], [ConnDrain]), ConnDrain);
    events := Emit0(events, true, 1, [ConnHeld(0)]);
    events := Go0(events, Two(true, [], 2, [], [SendEnter(1)], [ConnHeld(0)]), SendEnter(1));
    events := Go0(events, Two(true, [], 2, [], [SendTest(1)], [ConnHeld(0)]), SendTest(1));
    events := Go0(events, Two(true, [], 2, [], [SendDrain(1)], [ConnHeld(0)]), SendDrain(1));
    events := Go0(events, Two(true, [], 2, [], [SendLast(1)], [ConnHeld(0)]), SendLast(1));
    events := Go1(events, Two(true, [], 2, [1], [], [ConnHeld(0)]), ConnHeld(0));
  }

  /** A run of two threads that leaves a packet queued although the socket is connected and no call is running. */
  lemma {:induction false} QueuedWhileConnected() returns (events: seq<Event>)
    ensures Runs(Start(2), events) && Run(Start(2), events) == Two(true, [0], 1, [], [], [])
  {
    hide Runs, Run;
    events := AboutToPush();
    events := Connect1(events, [], 1, [SendPush(0)]);
    events := Go1(events, Two(true, [], 1, [], [SendPush(0)], [ConnDrain]), ConnDrain);
    events := Go0(events, Two(true, [], 1, [], [SendPush(0)], []), SendPush(0));
  }

  /** The socket is connected, and thread 0 is about to send packet 0. */
  lemma {:induction false} AboutToSend() returns (events: seq<Event>)
    ensures Runs(Start(2), events) && Run(Start(2), events) == Two(true, [], 1, [], [SendLast(0)], [])
  {
    hide Runs, Run;
    StartRuns();
    assert Start(2).threads == [[], []];
    events := Connect1([], [], 0, []);
    events := Go1(events, Two(true, [], 0, [], [], [ConnDrain]), ConnDrain);
    events := Emit0(events, true, 0, []);
    events := Go0(events, Two(true, [], 1, [], [SendEnter(0)], []), SendEnter(0));
    events := Go0(events, Two(true, [], 1, [], [SendTest(0)], []), SendTest(0));
    events := Go0(events, Two(true, [], 1, [], [SendDrain(0)], []), SendDrain(0));
  }

  /** A run of two threads in which on_close does not wait, and a packet is sent through a client that is gone. */
  lemma {:induction false} SentThroughNothing() returns (events: seq<Event>)
    ensures Runs(Start(2), events)
    ensures var s := Run(Start(2), events);
            && !s.client && s.sent == []
            && Enabled(s, Go(0)) && Step(s, Go(0)).sent == [0] && !Step(s, Go(0)).client
  {
    hide Runs, Run;
    events := AboutToSend();
    var u := Two(true, [], 1, [], [SendLast(0)], [CloseEnter]);
    assert Two(true, [], 1, [], [SendLast(0)], []).threads[1 := [CloseEnter]] == u.threads;
    events := Then(Start(2), events, Close(1), u);
    events := Go1(events, u, CloseEnter);
    assert Run(Start(2), events) == u.(client := false, threads := [[SendLast(0)], [CloseSet]]);
    assert [] + [0] == [0];
  }

  // Any number of threads

  /** The same state beside `k` more threads, all idle. */
  function Beside(s: State, k: nat): State {
    s.(threads := s.threads + seq(k, i => []))
  }

  lemma {:induction false} StepBeside(s: State, e: Event, k: nat)
    requires Enabled(s, e)
    ensures Enabled(Beside(s, k), e) && Step(Beside(s, k), e) == Beside(Step(s, e), k)
  {
    hide Advance;
    var idle: seq<seq<Frame>> := seq(k, i => []);
    var stack := s.threads[e.t];
    if e.Go? {
      AdvanceBeside(s, stack[|stack| - 1], k);
    }
    var t := Step(s, e).threads[e.t];
    assert (s.threads + idle)[e.t := t] == s.threads[e.t := t] + idle;
  }

  /** A step of a call does not look at the threads. */
  lemma AdvanceBeside(s: State, f: Frame, k: nat)
    ensures Advance(Beside(s, k), f) == Moved(Beside(Advance(s, f).s, k), Advance(s, f).frames)
  {
  }

  lemma {:induction false} RunBeside(s: State, events: seq<Event>, k: nat)
    requires Runs(s, events)
    ensures Runs(Beside(s, k), events) && Run(Beside(s, k), events) == Beside(Run(s, events), k)
    decreases |events|
  {
    hide Enabled, Step, Beside;
    if events != [] {
      StepBeside(s, events[0], k);
      RunBeside(Step(s, events[0]), events[1..], k);
    }
  }

  lemma StartBeside(n: nat)
    requires n >= 2
    ensures Start(n) == Beside(Start(2), n - 2)
  {
  }

  lemma {:induction false} NoThreads(events: seq<Event>)
    requires Runs(Start(0), events)
    ensures Run(Start(0), events) == State(true, false, [], 0, [], [], [])
  {
  }

  /** Whatever happens, packets are sent in the order in which they were emitted. */
  ghost predicate KeepsOrder(n: nat) {
    forall events :: Runs(Start(n), events) ==> Increasing(Run(Start(n), events).sent)
  }

  /** A connected socket, its client there, with no call running. */
  predicate Idle(s: State) {
    s.client && s.connected && forall t :: 0 <= t < |s.threads| ==> s.threads[t] == []
  }

  /** Whatever happens, an idle socket has sent all that was emitted. */
  ghost predicate SendsAll(n: nat) {
    forall events :: Runs(Start(n), events) && Idle(Run(Start(n), events)) ==>
      Run(Start(n), events).sent == Numbers(Run(Start(n), events).emitted)
  }

  lemma {:induction false} OrderFails(n: nat)
    requires n >= 2
    ensures !KeepsOrder(n)
  {
    hide Runs, Run;
    var events := OutOfOrder();
    StartBeside(n);
    RunBeside(Start(2), events, n - 2);
    assert Run(Start(n), events).sent == [1, 0];
    assert [1, 0][0] > [1, 0][1];
    assert !Increasing(Run(Start(n), events).sent);
  }

  lemma {:induction false} SendsAllFails(n: nat)
    requires n >= 2
    ensures !SendsAll(n)
  {
    hide Runs, Run;
    var events := QueuedWhileConnected();
    StartBeside(n);
    RunBeside(Start(2), events, n - 2);
    var s := Run(Start(n), events);
    assert Idle(s) && s.sent == [] && |Numbers(s.emitted)| == 1;
  }

  /** Packets are sent in the order of emission in every run if and only if there is at most one thread. */
  lemma {:induction false} OrderIffOneThread(n: nat)
    ensures KeepsOrder(n) <==> n <= 1
  {
    hide Runs, Run, Increasing;
    if n >= 2 {
      OrderFails(n);
    } else {
      forall events | Runs(Start(n), events)
        ensures Increasing(Run(Start(n), events).sent)
      {
        AtMostOne(n, events);
      }
    }
  }

  /**
   * An idle, connected socket has sent everything emitted, in every run, if and only if there is at most
   * one thread.
   */
  lemma {:induction false} SendsAllIffOneThread(n: nat)
    ensures SendsAll(n) <==> n <= 1
  {
    hide Runs, Run, Numbers;
    if n >= 2 {
      SendsAllFails(n);
    } else {
      forall events | Runs(Start(n), events) && Idle(Run(Start(n), events))
        ensures Run(Start(n), events).sent == Numbers(Run(Start(n), events).emitted)
      {
        AtMostOne(n, events);
      }
    }
  }

  lemma {:induction false} AtMostOne(n: nat, events: seq<Event>)
    requires n <= 1 && Runs(Start(n), events)
    ensures var s := Run(Start(n), events);
            Increasing(s.sent) && (Idle(s) ==> s.sent == Numbers(s.emitted))
  {
    hide Runs, Run, Start;
    if n == 0 {
      NoThreads(events);
    } else {
      hide Increasing, Numbers;
      SentInOrder(events);
    }
  }
}
