/** When a call goes through m_client although on_close has cleared it: exactly from which states, and in which runs. */
module SocketClient {
  import opened SocketThreads

  /** The call is about to go through m_client: to send a packet, or to tell that the socket is open. */
  predicate CallsClient(f: Frame) {
    f.SendHeld? || f.SendLast? || f.ConnHeld? || f.ConnOpen?
  }

  function Top(s: State, t: nat): Frame
    requires t < |s.threads| && s.threads[t] != []
  {
    s.threads[t][|s.threads[t]| - 1]
  }

  /** The step goes through m_client, and m_client is gone. */
  predicate CallsGone(s: State, e: Event)
    requires Enabled(s, e)
  {
    e.Go? && CallsClient(Top(s, e.t)) && !s.client
  }

  predicate NeverGone(s: State, events: seq<Event>)
    requires Runs(s, events)
    decreases |events|
  {
    events == [] || (!CallsGone(s, events[0]) && NeverGone(Step(s, events[0]), events[1..]))
  }

  lemma CallIsUse(s: State, e: Event)
    requires Enabled(s, e)
    ensures CallsGone(s, e) ==> !ClientSafe(s)
  {
    if e.Go? && CallsClient(Top(s, e.t)) {
      assert UsesClient(s.threads[e.t][|s.threads[e.t]| - 1]);
    }
  }

  lemma {:induction false} SafeNeverGone(s: State, events: seq<Event>)
    requires ClientSafe(s) && Runs(s, events) && ClosesWait(s, events)
    ensures NeverGone(s, events)
    decreases |events|
  {
    hide Step, Waits;
    if events != [] {
      CallIsUse(s, events[0]);
      hide ClientSafe, Enabled, CallsGone;
      StepClientSafe(s, events[0]);
      SafeNeverGone(Step(s, events[0]), events[1..]);
    }
  }

  /** If each on_close waits for the calls in flight that may use m_client, no call goes through a client that is gone. */
  lemma {:induction false} WaitingIsEnough(n: nat, events: seq<Event>)
    requires Runs(Start(n), events) && ClosesWait(Start(n), events)
    ensures NeverGone(Start(n), events)
  {
    assert ClientSafe(Start(n));
    SafeNeverGone(Start(n), events);
  }

  // From which states it can come to that

  /** Some way of going on comes to a call through a client that is gone. */
  ghost predicate CanCallGone(s: State) {
    exists events: seq<Event>, e: Event ::
      Runs(s, events) && Enabled(Run(s, events), e) && CallsGone(Run(s, events), e)
  }

  predicate Has(threads: seq<seq<Frame>>, P: Frame -> bool) {
    exists t, i :: 0 <= t < |threads| && 0 <= i < |threads[t]| && P(threads[t][i])
  }

  /** These calls go through m_client whatever the others do. */
  predicate Sure(f: Frame) {
    CallsClient(f) || f.SendDrain? || f.ConnSet?
  }

  predicate TestsToSend(f: Frame) { f.SendTest? }
  predicate TestsToOpen(f: Frame) { f.ConnTest? }

  /** These calls set m_connected to false, the first of them if it is true. */
  predicate Unsets(f: Frame) { f.DiscTest? || f.DiscSet? || f.CloseSet? }

  /** These calls are about to take packets from the queue. */
  predicate Drains(f: Frame) { f.ConnListen? || f.ConnDrain? }

  /** These calls put a packet into the queue, the first of them unless the socket is connected. */
  predicate Pushes(f: Frame) { f.SendTest? || f.SendPush? }

  /**
   * While m_client is set: there are two threads, and one of them is not about to clear it. When it is gone: a
   * call is on its way to it and will not be turned back, or can be let through by another.
   */
  predicate Doomed(s: State) {
    if s.client then |s.threads| >= 2 && exists t :: 0 <= t < |s.threads| && s.threads[t] != [CloseEnter]
    else
      || Has(s.threads, Sure)
      || (Has(s.threads, TestsToSend) && s.connected)
      || (Has(s.threads, TestsToOpen) && (!s.connected || Has(s.threads, Unsets)))
      || (Has(s.threads, Drains) && (s.queue != [] || Has(s.threads, Pushes)))
  }

  predicate Shapes(s: State) {
    forall t :: 0 <= t < |s.threads| ==> Shape(s.threads[t])
  }

  lemma {:induction false} ReachNow(s: State, e: Event)
    requires Enabled(s, e) && CallsGone(s, e)
    ensures CanCallGone(s)
  {
    assert Runs(s, []) && Run(s, []) == s;
  }

  lemma {:induction false} ReachStep(s: State, e: Event)
    requires Enabled(s, e) && CanCallGone(Step(s, e))
    ensures CanCallGone(s)
  {
    hide Enabled, Step, CallsGone;
    var events: seq<Event>, last: Event :|
      Runs(Step(s, e), events) && Enabled(Run(Step(s, e), events), last) && CallsGone(Run(Step(s, e), events), last);
    var all := [e] + events;
    assert all[0] == e && all[1..] == events;
    assert Runs(s, all) && Run(s, all) == Run(Step(s, e), events);
  }

  /** A step of the innermost call of thread t. */
  lemma {:induction false} Going(s: State, t: nat)
    requires t < |s.threads| && s.threads[t] != []
    ensures Enabled(s, Go(t))
    ensures var u, m := Step(s, Go(t)), Advance(s, Top(s, t));
            && |m.frames| <= 1 && u == m.s.(threads := u.threads) && |u.threads| == |s.threads|
            && u.threads[t] == s.threads[t][..|s.threads[t]| - 1] + m.frames
            && (m.frames != [] ==> u.threads[t] != [] && Top(u, t) == m.frames[0])
            && forall i :: 0 <= i < |s.threads| && i != t ==> u.threads[i] == s.threads[i]
  {
    hide Advance;
    GoIs(s, t);
    AdvanceMoves(s, Top(s, t), 0);
  }

  lemma {:induction false} SureReaches(s: State, t: nat)
    requires !s.client && t < |s.threads| && s.threads[t] != [] && Sure(Top(s, t))
    ensures CanCallGone(s)
    decreases if CallsClient(Top(s, t)) then 0 else 1
  {
    hide CanCallGone;
    Going(s, t);
    if CallsClient(Top(s, t)) {
      ReachNow(s, Go(t));
    } else {
      hide Step, Enabled;
      SureReaches(Step(s, Go(t)), t);
      ReachStep(s, Go(t));
    }
  }

  /** A send that finds the socket connected. */
  lemma {:induction false} SendReaches(s: State, t: nat)
    requires !s.client && s.connected && t < |s.threads| && s.threads[t] != [] && Top(s, t).SendTest?
    ensures CanCallGone(s)
  {
    hide CanCallGone;
    Going(s, t);
    hide Step, Enabled;
    SureReaches(Step(s, Go(t)), t);
    ReachStep(s, Go(t));
  }

  /** An on_connected that finds the socket unconnected. */
  lemma {:induction false} OpenReaches(s: State, t: nat)
    requires !s.client && !s.connected && t < |s.threads| && s.threads[t] != [] && Top(s, t).ConnTest?
    ensures CanCallGone(s)
  {
    hide CanCallGone;
    Going(s, t);
    hide Step, Enabled;
    SureReaches(Step(s, Go(t)), t);
    ReachStep(s, Go(t));
  }

  /** The same, when another call makes it unconnected. */
  lemma {:induction false} UnsetReaches(s: State, t: nat, other: nat)
    requires !s.client && t < |s.threads| && s.threads[t] != [] && Top(s, t).ConnTest?
    requires other < |s.threads| && s.threads[other] != [] && Unsets(Top(s, other))
    ensures CanCallGone(s)
    decreases if Top(s, other).DiscTest? then 1 else 0
  {
    hide CanCallGone;
    Going(s, other);
    hide Step, Enabled;
    var u := Step(s, Go(other));
    if !s.connected {
      OpenReaches(s, t);
      return;
    } else if Top(s, other).DiscTest? {
      UnsetReaches(u, t, other);
    } else {
      OpenReaches(u, t);
    }
    ReachStep(s, Go(other));
  }

  /** A drain loop that finds a packet. */
  lemma {:induction false} DrainReaches(s: State, t: nat)
    requires !s.client && s.queue != [] && t < |s.threads| && (s.threads[t] == [ConnListen] || s.threads[t] == [ConnDrain])
    ensures CanCallGone(s)
    decreases if s.threads[t] == [ConnListen] then 1 else 0
  {
    hide CanCallGone;
    Going(s, t);
    hide Step, Enabled;
    var u := Step(s, Go(t));
    if s.threads[t] == [ConnListen] {
      assert u.threads[t] == [ConnDrain];
      DrainReaches(u, t);
    } else {
      SureReaches(u, t);
    }
    ReachStep(s, Go(t));
  }

  /** The open listener in the middle of an emit, where there will be a packet in the queue behind it. */
  lemma {:induction false} ListenReaches(s: State, t: nat)
    requires !s.client && t < |s.threads| && |s.threads[t]| == 2 && s.threads[t][0] == ConnListen && IsSend(s.threads[t][1])
    requires s.queue != [] || Pushes(s.threads[t][1])
    ensures CanCallGone(s)
    decreases if s.threads[t][1].SendTest? then 1 else 0
  {
    hide CanCallGone;
    var f := s.threads[t][1];
    assert f == Top(s, t);
    if Sure(f) {
      SureReaches(s, t);
      return;
    } else if f.SendTest? && s.connected {
      SendReaches(s, t);
      return;
    }
    Going(s, t);
    hide Step, Enabled;
    var u := Step(s, Go(t));
    assert s.threads[t][..1] == [ConnListen];
    if f.SendTest? {
      ListenReaches(u, t);
    } else {
      DrainReaches(u, t);
    }
    ReachStep(s, Go(t));
  }

  /** A drain loop, before or behind the listener, that will find a packet. */
  lemma {:induction false} DrainsReach(s: State, t: nat)
    requires !s.client && t < |s.threads| && s.threads[t] != [] && Shape(s.threads[t]) && Drains(s.threads[t][0])
    requires s.queue != []
    ensures CanCallGone(s)
  {
    hide CanCallGone;
    if |s.threads[t]| == 2 {
      ListenReaches(s, t);
    } else {
      assert s.threads[t] == [s.threads[t][0]];
      DrainReaches(s, t);
    }
  }

  /** The same, when another call puts the packet into the queue. */
  lemma {:induction false} PushReaches(s: State, t: nat, other: nat)
    requires !s.client && t < |s.threads| && s.threads[t] != [] && Shape(s.threads[t]) && Drains(s.threads[t][0])
    requires other < |s.threads| && s.threads[other] != [] && Pushes(Top(s, other))
    ensures CanCallGone(s)
    decreases if Top(s, other).SendTest? then 1 else 0
  {
    hide CanCallGone;
    if t == other {
      ListenReaches(s, t);
    } else if Top(s, other).SendTest? && s.connected {
      SendReaches(s, other);
    } else {
      Going(s, other);
      hide Step, Enabled;
      var u := Step(s, Go(other));
      if Top(s, other).SendTest? {
        PushReaches(u, t, other);
      } else {
        DrainsReach(u, t);
      }
      ReachStep(s, Go(other));
    }
  }

  /** Every frame but the open listener's is the innermost of its thread; the listener's is the outermost. */
  lemma OnTop(s: State, t: nat, i: nat)
    requires Shapes(s) && t < |s.threads| && i < |s.threads[t]|
    ensures !s.threads[t][i].ConnListen? ==> s.threads[t][i] == Top(s, t)
    ensures Drains(s.threads[t][i]) ==> i == 0
  {
    assert Shape(s.threads[t]);
  }

  lemma {:induction false} HasOnTop(s: State, P: Frame -> bool) returns (t: nat)
    requires Shapes(s) && Has(s.threads, P) && !P(ConnListen)
    ensures t < |s.threads| && s.threads[t] != [] && P(Top(s, t))
  {
    hide Shapes;
    var k, i :| 0 <= k < |s.threads| && 0 <= i < |s.threads[k]| && P(s.threads[k][i]);
    OnTop(s, k, i);
    t := k;
  }

  /** With m_client gone, a doomed state comes to a call through it. */
  lemma {:induction false} GoneReaches(s: State)
    requires !s.client && Shapes(s) && Doomed(s)
    ensures CanCallGone(s)
  {
    hide CanCallGone, Shapes, Has;
    if Has(s.threads, Sure) {
      var t := HasOnTop(s, Sure);
      SureReaches(s, t);
    } else if Has(s.threads, TestsToSend) && s.connected {
      var t := HasOnTop(s, TestsToSend);
      SendReaches(s, t);
    } else if Has(s.threads, TestsToOpen) && (!s.connected || Has(s.threads, Unsets)) {
      var t := HasOnTop(s, TestsToOpen);
      if s.connected {
        var other := HasOnTop(s, Unsets);
        UnsetReaches(s, t, other);
      } else {
        OpenReaches(s, t);
      }
    } else {
      var t := HasDrain(s);
      if s.queue != [] {
        DrainsReach(s, t);
      } else {
        var other := HasOnTop(s, Pushes);
        PushReaches(s, t, other);
      }
    }
  }

  lemma {:induction false} HasDrain(s: State) returns (t: nat)
    requires Shapes(s) && Has(s.threads, Drains)
    ensures t < |s.threads| && s.threads[t] != [] && Shape(s.threads[t]) && Drains(s.threads[t][0])
  {
    var k, i :| 0 <= k < |s.threads| && 0 <= i < |s.threads[k]| && Drains(s.threads[k][i]);
    OnTop(s, k, i);
    t := k;
  }

  // While m_client is there

  /** How far the innermost call is from its end; the queue counts while it is drained. */
  function Stage(f: Frame): nat {
    match f
    case SendEnter(_) => 5
    case SendTest(_) => 4
    case SendDrain(_) | SendHeld(_, _) => 3
    case SendLast(_) => 2
    case SendPush(_) => 1
    case ConnEnter => 9
    case ConnTest => 8
    case ConnSet => 7
    case ConnOpen => 6
    case ConnListen => 5
    case ConnDrain | ConnHeld(_) => 3
    case DiscEnter | CloseEnter => 4
    case DiscTest => 3
    case DiscSet | CloseSet => 2
    case DiscClear | CloseClear => 1
  }

  function Work(s: State, f: Frame): nat {
    2 * |s.queue| + if f.SendHeld? || f.ConnHeld? then 1 else 0
  }

  /** A thread that is not about to clear m_client goes one step towards its end. */
  lemma {:induction false} Towards(s: State, t: nat)
    requires s.client && Shapes(s) && t < |s.threads| && s.threads[t] != [] && s.threads[t] != [CloseEnter]
    ensures Enabled(s, Go(t))
    ensures var u := Step(s, Go(t));
            && u.client && Shapes(u) && |u.threads| == |s.threads| && u.threads[t] != [CloseEnter]
            && (forall i :: 0 <= i < |s.threads| && i != t ==> u.threads[i] == s.threads[i])
            && (|u.threads[t]| < |s.threads[t]| ||
                (|u.threads[t]| == |s.threads[t]| && u.threads[t] != [] &&
                 (Stage(Top(u, t)) < Stage(Top(s, t)) ||
                  (Stage(Top(u, t)) == Stage(Top(s, t)) && Work(u, Top(u, t)) < Work(s, Top(s, t))))))
  {
    Going(s, t);
    ShapeStep(s, Go(t));
    hide Step, Enabled;
    assert Shape(s.threads[t]);
    var f := Top(s, t);
    assert f != CloseEnter;
    AdvanceTowards(s, f);
    NotClosing(s.threads[t][..|s.threads[t]| - 1], Advance(s, f).frames);
  }

  lemma NotClosing(rest: seq<Frame>, frames: seq<Frame>)
    requires frames != [CloseEnter] && |frames| <= 1 && (rest == [] || rest == [ConnListen])
    ensures rest + frames != [CloseEnter]
  {
    if rest == [] {
      assert rest + frames == frames;
    } else {
      assert (rest + frames)[0] == ConnListen;
    }
  }

  lemma AdvanceTowards(s: State, f: Frame)
    requires f != CloseEnter && s.client
    ensures var m := Advance(s, f);
            && m.s.client && m.frames != [CloseEnter]
            && (m.frames != [] ==>
                  Stage(m.frames[0]) < Stage(f) ||
                  (Stage(m.frames[0]) == Stage(f) && Work(m.s, m.frames[0]) < Work(s, f)))
  {
    match f
    case SendDrain(_) => assert s.queue != [] ==> |s.queue[1..]| == |s.queue| - 1;
    case ConnDrain => assert s.queue != [] ==> |s.queue[1..]| == |s.queue| - 1;
    case _ =>
  }

  lemma {:induction false} ShapeStep(s: State, e: Event)
    requires Shapes(s) && Enabled(s, e)
    ensures Shapes(Step(s, e))
  {
    var u, stack := Step(s, e), s.threads[e.t];
    assert Shape(stack);
    if e.Go? {
      Going(s, e.t);
      AdvanceShape(s, Top(s, e.t));
      hide Advance;
      assert |stack| == 2 ==> stack[..1] == [stack[0]];
    }
    assert Shape(u.threads[e.t]);
    forall t | 0 <= t < |u.threads| ensures Shape(u.threads[t]) {
      assert t != e.t ==> u.threads[t] == s.threads[t];
    }
  }

  lemma AdvanceShape(s: State, f: Frame)
    ensures IsSend(f) && Advance(s, f).frames != [] ==> IsSend(Advance(s, f).frames[0])
  {
  }

  /** Thread b may use m_client, and thread a clears it under its feet. */
  lemma {:induction false} ClientReaches(s: State, a: nat, b: nat)
    requires s.client && Shapes(s) && a < |s.threads| && b < |s.threads| && a != b && s.threads[b] != [CloseEnter]
    ensures CanCallGone(s)
    decreases if s.threads[a] == [CloseEnter] then 0 else 1,
              if s.threads[a] == [CloseEnter] then |s.threads[b]| else |s.threads[a]|,
              var t := if s.threads[a] == [CloseEnter] then b else a;
              if s.threads[t] == [] then 0 else Stage(Top(s, t)),
              var t := if s.threads[a] == [CloseEnter] then b else a;
              if s.threads[t] == [] then 0 else Work(s, Top(s, t))
  {
    hide CanCallGone, Shapes, Stage, Work;
    if s.threads[a] == [CloseEnter] && s.threads[b] == [] {
      IdleReaches(s, a, b);
    } else if s.threads[a] == [CloseEnter] {
      Towards(s, b);
      hide Step, Enabled;
      ClientReaches(Step(s, Go(b)), a, b);
      ReachStep(s, Go(b));
    } else if s.threads[a] == [] {
      assert Enabled(s, Close(a));
      ShapeStep(s, Close(a));
      ClientReaches(Step(s, Close(a)), a, b);
      ReachStep(s, Close(a));
    } else {
      Towards(s, a);
      hide Step, Enabled;
      ClientReaches(Step(s, Go(a)), a, b);
      ReachStep(s, Go(a));
    }
  }

  /** Thread b begins a call and tests m_client, and then thread a clears it. */
  lemma {:induction false} IdleReaches(s: State, a: nat, b: nat)
    requires s.client && a < |s.threads| && b < |s.threads| && a != b
    requires s.threads[a] == [CloseEnter] && s.threads[b] == []
    ensures CanCallGone(s)
  {
    hide CanCallGone;
    var e := if s.connected then Emit(b) else Connected(b);
    assert Enabled(s, e);
    TestReaches(Step(s, e), a, b);
    ReachStep(s, e);
  }

  lemma {:induction false} TestReaches(s: State, a: nat, b: nat)
    requires s.client && a < |s.threads| && b < |s.threads| && a != b && s.threads[a] == [CloseEnter]
    requires |s.threads[b]| == 1
    requires var f := s.threads[b][0];
             if s.connected then f.SendEnter? || f.SendTest? || f.SendDrain? else f.ConnEnter? || f.ConnTest? || f.ConnSet?
    ensures CanCallGone(s)
    decreases Stage(s.threads[b][0])
  {
    hide CanCallGone;
    Going(s, a);
    Going(s, b);
    hide Step, Enabled;
    if Sure(s.threads[b][0]) {
      SureReaches(Step(s, Go(a)), b);
      ReachStep(s, Go(a));
    } else {
      TestReaches(Step(s, Go(b)), a, b);
      ReachStep(s, Go(b));
    }
  }

  lemma {:induction false} DoomedReaches(s: State)
    requires Shapes(s) && Doomed(s)
    ensures CanCallGone(s)
  {
    if s.client {
      var b: nat :| b < |s.threads| && s.threads[b] != [CloseEnter];
      ClientReaches(s, if b == 0 then 1 else 0, b);
    } else {
      GoneReaches(s);
    }
  }

  // From the other states it never comes to that

  /** The frames that a step puts in place of the innermost one, or on top. */
  function Placed(s: State, e: Event): seq<Frame>
    requires Enabled(s, e)
  {
    match e
    case Emit(_) => [SendEnter(s.emitted)]
    case Connected(_) => [ConnEnter]
    case Disconnected(_) => [DiscEnter]
    case Close(_) => [CloseEnter]
    case Go(t) => Advance(s, Top(s, t)).frames
  }

  lemma {:induction false} HasStep(s: State, e: Event, P: Frame -> bool)
    requires Enabled(s, e) && Has(Step(s, e).threads, P)
    ensures Has(s.threads, P) || exists f <- Placed(s, e) :: P(f)
  {
    hide Advance;
    var u, stack := Step(s, e), s.threads[e.t];
    if e.Go? {
      Going(s, e.t);
    }
    var t, i :| 0 <= t < |u.threads| && 0 <= i < |u.threads[t]| && P(u.threads[t][i]);
    if t != e.t || i < |u.threads[t]| - |Placed(s, e)| {
      assert u.threads[t][i] == s.threads[t][i];
    } else {
      assert u.threads[t][i] in Placed(s, e);
    }
  }

  lemma TopHas(s: State, t: nat, P: Frame -> bool)
    requires t < |s.threads| && s.threads[t] != [] && P(Top(s, t))
    ensures Has(s.threads, P)
  {
  }

  /** With m_client gone, a state that is not doomed stays so, whatever happens. */
  lemma {:induction false} GoneStays(s: State, e: Event)
    requires !s.client && !Doomed(s) && Enabled(s, e)
    ensures !CallsGone(s, e) && !Doomed(Step(s, e))
  {
    var u := Step(s, e);
    if e.Go? {
      Going(s, e.t);
      TopKinds(s, e.t);
    }
    StepKinds(s, e);
    PlacedKinds(s, e);
    GoneFields(s, e);
    hide Has, Step, Placed;
  }

  /** What a step without m_client can do to the flags and the queue. */
  lemma GoneFields(s: State, e: Event)
    requires Enabled(s, e) && !s.client
    ensures var u := Step(s, e);
            && !u.client
            && (u.connected && !s.connected ==> e.Go? && Sure(Top(s, e.t)))
            && (s.connected && !u.connected ==> e.Go? && (Top(s, e.t).DiscSet? || Top(s, e.t).CloseSet?))
            && (u.queue != [] && s.queue == [] ==> e.Go? && Top(s, e.t).SendPush?)
  {
  }

  /** What the innermost frame is, the state has. */
  lemma TopKinds(s: State, t: nat)
    requires t < |s.threads| && s.threads[t] != []
    ensures Sure(Top(s, t)) ==> Has(s.threads, Sure)
    ensures TestsToSend(Top(s, t)) ==> Has(s.threads, TestsToSend)
    ensures TestsToOpen(Top(s, t)) ==> Has(s.threads, TestsToOpen)
    ensures Unsets(Top(s, t)) ==> Has(s.threads, Unsets)
    ensures Drains(Top(s, t)) ==> Has(s.threads, Drains)
    ensures Pushes(Top(s, t)) ==> Has(s.threads, Pushes)
  {
    hide Sure, TestsToSend, TestsToOpen, Unsets, Drains, Pushes;
  }

  /** What the state has after a step, it had before, or the step has placed it. */
  lemma {:induction false} StepKinds(s: State, e: Event)
    requires Enabled(s, e)
    ensures var u := Step(s, e);
            && (Has(u.threads, Sure) ==> Has(s.threads, Sure) || exists f <- Placed(s, e) :: Sure(f))
            && (Has(u.threads, TestsToSend) ==> Has(s.threads, TestsToSend) || exists f <- Placed(s, e) :: TestsToSend(f))
            && (Has(u.threads, TestsToOpen) ==> Has(s.threads, TestsToOpen) || exists f <- Placed(s, e) :: TestsToOpen(f))
            && (Has(u.threads, Unsets) ==> Has(s.threads, Unsets) || exists f <- Placed(s, e) :: Unsets(f))
            && (Has(u.threads, Drains) ==> Has(s.threads, Drains) || exists f <- Placed(s, e) :: Drains(f))
            && (Has(u.threads, Pushes) ==> Has(s.threads, Pushes) || exists f <- Placed(s, e) :: Pushes(f))
  {
    hide Has, Step, Placed, Sure, TestsToSend, TestsToOpen, Unsets, Drains, Pushes;
    var u := Step(s, e);
    if Has(u.threads, Sure) { HasStep(s, e, Sure); }
    if Has(u.threads, TestsToSend) { HasStep(s, e, TestsToSend); }
    if Has(u.threads, TestsToOpen) { HasStep(s, e, TestsToOpen); }
    if Has(u.threads, Unsets) { HasStep(s, e, Unsets); }
    if Has(u.threads, Drains) { HasStep(s, e, Drains); }
    if Has(u.threads, Pushes) { HasStep(s, e, Pushes); }
  }

  /** With m_client gone, what a step places comes from what was there. */
  lemma PlacedKinds(s: State, e: Event)
    requires Enabled(s, e) && !s.client
    ensures forall f <- Placed(s, e) ::
              && (e.Go? || !(Sure(f) || TestsToSend(f) || TestsToOpen(f) || Unsets(f) || Drains(f) || Pushes(f)))
              && (Sure(f) ==> Sure(Top(s, e.t)) || (Top(s, e.t).SendTest? && s.connected) || (Top(s, e.t).ConnTest? && !s.connected)
                              || (Top(s, e.t).ConnDrain? && s.queue != []))
              && !TestsToSend(f) && !TestsToOpen(f)
              && (Unsets(f) ==> Top(s, e.t).DiscTest? && s.connected)
              && (Drains(f) ==> Top(s, e.t).ConnOpen? || Top(s, e.t).ConnListen? || Top(s, e.t).ConnHeld?)
              && (Pushes(f) ==> Top(s, e.t).SendTest? && !s.connected)
  {
  }

  /** While m_client is there, the same: only when no thread can use it is it cleared. */
  lemma {:induction false} ClientStays(s: State, e: Event)
    requires s.client && Shapes(s) && !Doomed(s) && Enabled(s, e)
    ensures !CallsGone(s, e) && !Doomed(Step(s, e))
  {
    hide Has;
    if e.Go? && Top(s, e.t) == CloseEnter {
      LastClose(s, e.t);
    } else {
      ClientKept(s, e);
    }
  }

  lemma {:induction false} ClientKept(s: State, e: Event)
    requires s.client && !Doomed(s) && Enabled(s, e) && !(e.Go? && Top(s, e.t) == CloseEnter)
    ensures !Doomed(Step(s, e))
  {
    OthersClose(s, e.t);
    hide Has;
    if |s.threads| == 1 && e.Go? {
      Going(s, e.t);
    }
  }

  /** on_close clears m_client: the other threads, if any, are about to do the same. */
  lemma {:induction false} LastClose(s: State, t: nat)
    requires s.client && Shapes(s) && !Doomed(s) && t < |s.threads| && s.threads[t] != [] && Top(s, t) == CloseEnter
    ensures !Doomed(Step(s, Go(t)))
  {
    assert Shape(s.threads[t]);
    assert s.threads[t] == [CloseEnter];
    Going(s, t);
    var u := Step(s, Go(t));
    assert [CloseEnter][..0] + [CloseSet] == [CloseSet] == u.threads[t];
    hide Step, Doomed, Shapes;
    forall k | 0 <= k < |u.threads| ensures u.threads[k] == [CloseEnter] || u.threads[k] == [CloseSet] {
      OthersClose(s, k);
    }
    NothingLeft(u);
  }

  lemma OthersClose(s: State, k: nat)
    requires s.client && !Doomed(s) && k < |s.threads|
    ensures s.threads[k] == [CloseEnter] || |s.threads| == 1
  {
  }

  lemma {:induction false} NothingLeft(u: State)
    requires !u.client && forall k :: 0 <= k < |u.threads| ==> u.threads[k] == [CloseEnter] || u.threads[k] == [CloseSet]
    ensures !Doomed(u)
  {
    forall t, i | 0 <= t < |u.threads| && 0 <= i < |u.threads[t]|
      ensures u.threads[t][i] == CloseEnter || u.threads[t][i] == CloseSet
    {
      assert u.threads[t] == [CloseEnter] || u.threads[t] == [CloseSet];
    }
  }

  lemma {:induction false} CalmStays(s: State, events: seq<Event>)
    requires Shapes(s) && !Doomed(s) && Runs(s, events)
    ensures Shapes(Run(s, events)) && !Doomed(Run(s, events)) && NeverGone(s, events)
    decreases |events|
  {
    hide Doomed, Shapes, Enabled, Step, CallsGone;
    if events != [] {
      ShapeStep(s, events[0]);
      if s.client {
        ClientStays(s, events[0]);
      } else {
        GoneStays(s, events[0]);
      }
      CalmStays(Step(s, events[0]), events[1..]);
    }
  }

  lemma {:induction false} RunShapes(s: State, events: seq<Event>)
    requires Shapes(s) && Runs(s, events)
    ensures Shapes(Run(s, events))
    decreases |events|
  {
    hide Shapes, Enabled, Step;
    if events != [] {
      ShapeStep(s, events[0]);
      RunShapes(Step(s, events[0]), events[1..]);
    }
  }

  lemma {:induction false} DoomedIff(s: State)
    requires Shapes(s)
    ensures CanCallGone(s) <==> Doomed(s)
  {
    hide Shapes, Doomed, CallsGone, Enabled;
    if Doomed(s) {
      DoomedReaches(s);
    } else if CanCallGone(s) {
      var events: seq<Event>, e: Event :|
        Runs(s, events) && Enabled(Run(s, events), e) && CallsGone(Run(s, events), e);
      CalmStays(s, events);
      var u := Run(s, events);
      if u.client {
        ClientStays(u, e);
      } else {
        GoneStays(u, e);
      }
    }
  }

  /**
   * In every state that any number of threads can come to: some way of going on calls through an m_client that
   * is gone, if and only if the state is doomed.
   */
  lemma {:induction false} GoneIffDoomed(n: nat, events: seq<Event>)
    requires Runs(Start(n), events)
    ensures CanCallGone(Run(Start(n), events)) <==> Doomed(Run(Start(n), events))
  {
    hide Runs, Run, CanCallGone, Doomed;
    assert Shapes(Start(n));
    RunShapes(Start(n), events);
    DoomedIff(Run(Start(n), events));
  }

  /** Some run of n threads calls through an m_client that is gone, if and only if there is more than one thread. */
  lemma {:induction false} GoneIffManyThreads(n: nat)
    ensures CanCallGone(Start(n)) <==> n >= 2
  {
    hide CanCallGone;
    assert Shapes(Start(n));
    DoomedIff(Start(n));
    if n >= 2 {
      assert Start(n).threads[0] != [CloseEnter];
    }
  }

  /** Four events: packet 0 is emitted and has passed the test of m_client when another thread clears it. */
  const PASSED_BY: seq<Event> := [Emit(0), Go(0), Close(1), Go(1)]

  /**
   * on_close need not wait for every call: after these events, on an unconnected socket, it has not waited, and
   * yet no call can ever go through m_client.
   */
  lemma {:induction false} WaitingIsNotNeeded()
    ensures Runs(Start(2), PASSED_BY) && !ClosesWait(Start(2), PASSED_BY) && NeverGone(Start(2), PASSED_BY)
    ensures !CanCallGone(Run(Start(2), PASSED_BY))
  {
    hide CanCallGone, ClientInUse, Doomed, Step, Enabled, Waits;
    var s1 := State(true, false, [], 1, [], [], [[SendEnter(0)], []]);
    var s2 := s1.(threads := [[SendTest(0)], []]);
    var s3 := s1.(threads := [[SendTest(0)], [CloseEnter]]);
    var s4 := s1.(client := false, threads := [[SendTest(0)], [CloseSet]]);
    Emits(Start(2), s1);
    Tests(s1, s2);
    Begins(s2, s3);
    ClearsNow(s3, s4);
    FourEvents(Start(2), s1, s2, s3, s4);
    NotDoomed(s4);
    DoomedIff(s4);
  }

  lemma {:induction false} Emits(s: State, u: State)
    requires s == Start(2) && u == State(true, false, [], 1, [], [], [[SendEnter(0)], []])
    ensures Enabled(s, Emit(0)) && Step(s, Emit(0)) == u
  {
    assert s.threads == [[], []];
    StepIs(s, Emit(0), [SendEnter(0)], u);
  }

  lemma {:induction false} Tests(s: State, u: State)
    requires s == State(true, false, [], 1, [], [], [[SendEnter(0)], []]) && u == s.(threads := [[SendTest(0)], []])
    ensures Enabled(s, Go(0)) && Step(s, Go(0)) == u
  {
    StepIs(s, Go(0), [SendTest(0)], u);
  }

  lemma {:induction false} Begins(s: State, u: State)
    requires s.threads == [[SendTest(0)], []] && u == s.(threads := [[SendTest(0)], [CloseEnter]])
    ensures Enabled(s, Close(1)) && Step(s, Close(1)) == u
  {
    StepIs(s, Close(1), [CloseEnter], u);
  }

  lemma {:induction false} ClearsNow(s: State, u: State)
    requires s.client && s.threads == [[SendTest(0)], [CloseEnter]]
    requires u == s.(client := false, threads := [[SendTest(0)], [CloseSet]])
    ensures Enabled(s, Go(1)) && Step(s, Go(1)) == u && !Waits(s, Go(1))
  {
    StepIs(s, Go(1), [CloseSet], u);
    assert UsesClient(s.threads[0][0]);
  }

  /** A step of a thread that makes at most one call. */
  lemma {:induction false} StepIs(s: State, e: Event, placed: seq<Frame>, u: State)
    requires Enabled(s, e) && |s.threads[e.t]| <= 1 && Placed(s, e) == placed && (s.threads[e.t] != [] ==> e.Go?)
    requires s.threads[e.t := placed] == u.threads
    requires if e.Go? then u == Advance(s, Top(s, e.t)).s.(threads := u.threads)
             else u == s.(emitted := u.emitted, threads := u.threads) && u.emitted == s.emitted + if e.Emit? then 1 else 0
    ensures Step(s, e) == u
  {
    hide Advance;
    if e.Go? {
      assert s.threads[e.t][..0] + placed == placed;
      GoIs(s, e.t);
    } else {
      assert [] + placed == placed;
    }
  }

  lemma NotDoomed(s: State)
    requires !s.client && !s.connected && s.threads == [[SendTest(0)], [CloseSet]]
    ensures Shapes(s) && !Doomed(s)
  {
    assert forall t, i :: 0 <= t < |s.threads| && 0 <= i < |s.threads[t]| ==>
      s.threads[t][i] == SendTest(0) || s.threads[t][i] == CloseSet;
  }

  lemma {:induction false} FourEvents(s0: State, s1: State, s2: State, s3: State, s4: State)
    requires Enabled(s0, Emit(0)) && Step(s0, Emit(0)) == s1 && Enabled(s1, Go(0)) && Step(s1, Go(0)) == s2
    requires Enabled(s2, Close(1)) && Step(s2, Close(1)) == s3 && Enabled(s3, Go(1)) && Step(s3, Go(1)) == s4
    requires s1.client && s3.client && !Waits(s3, Go(1))
    ensures Runs(s0, PASSED_BY) && !ClosesWait(s0, PASSED_BY) && NeverGone(s0, PASSED_BY) && Run(s0, PASSED_BY) == s4
  {
    hide Enabled, Step, Waits;
    assert PASSED_BY[1..] == [Go(0), Close(1), Go(1)];
    assert [Go(0), Close(1), Go(1)][1..] == [Close(1), Go(1)];
    assert [Close(1), Go(1)][1..] == [Go(1)];
    assert [Go(1)][1..] == [];
    assert Runs(s4, []) && Run(s4, []) == s4 && NeverGone(s4, []);
    assert Runs(s3, [Go(1)]) && Run(s3, [Go(1)]) == s4 && NeverGone(s3, [Go(1)]) && !ClosesWait(s3, [Go(1)]);
    assert Runs(s2, [Close(1), Go(1)]) && Run(s2, [Close(1), Go(1)]) == s4 && NeverGone(s2, [Close(1), Go(1)]);
    assert !ClosesWait(s2, [Close(1), Go(1)]);
    assert Runs(s1, PASSED_BY[1..]) && Run(s1, PASSED_BY[1..]) == s4 && NeverGone(s1, PASSED_BY[1..]);
    assert !ClosesWait(s1, PASSED_BY[1..]);
  }
}
