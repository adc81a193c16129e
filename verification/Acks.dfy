/** The acknowledgement callbacks of socket::impl: which is called, and how often. */
module Acks {
  import opened Bytes

  /**
   * s_global_event_id, which all sockets share, and m_acks of one socket. A callback is known by the number
   * of ids that had been handed out, to whatever socket, when it was registered; `taken` counts them all.
   */
  datatype Acks = Acks(nextId: nat, table: map<nat, nat>, taken: nat, mine: set<nat>, called: seq<nat>)

  /** A socket that is made when `taken` ids have been handed out. */
  function Fresh(taken: nat): Acks {
    Acks(IdOf(taken), map[], taken, {}, [])
  }

  /** emit with a callback. The id is unsigned and wraps around. */
  function Register(a: Acks): Acks {
    Acks((a.nextId + 1) % TWO_TO_THE_32, a.table[a.nextId := a.taken], a.taken + 1, a.mine + {a.taken}, a.called)
  }

  /** Another socket takes an id. */
  function Elsewhere(a: Acks): Acks {
    a.(nextId := (a.nextId + 1) % TWO_TO_THE_32, taken := a.taken + 1)
  }

  /** on_socketio_ack: the callback under that id, if any, is taken out and called. */
  function Answer(a: Acks, id: nat): Acks {
    if id in a.table then a.(table := a.table - {id}, called := a.called + [a.table[id]]) else a
  }

  datatype Event = Registers | OthersRegister | Answers(id: nat)

  function Step(a: Acks, e: Event): Acks {
    match e
    case Registers => Register(a)
    case OthersRegister => Elsewhere(a)
    case Answers(id) => Answer(a, id)
  }

  function Run(a: Acks, events: seq<Event>): Acks
    decreases |events|
  {
    if events == [] then a else Run(Step(a, events[0]), events[1..])
  }

  /** The id under which callback k is registered. */
  function IdOf(k: nat): nat {
    (1 + k) % TWO_TO_THE_32
  }

  predicate Waiting(a: Acks, k: nat) {
    IdOf(k) in a.table && a.table[IdOf(k)] == k
  }

  /** A later callback of this socket has got the same id. */
  predicate Replaced(a: Acks, k: nat) {
    exists j <- a.mine :: j > k && IdOf(j) == IdOf(k)
  }

  ghost predicate Inv(a: Acks) {
    && a.nextId == IdOf(a.taken)
    && (forall k <- a.mine :: k < a.taken)
    && (forall id <- a.table :: a.table[id] in a.mine && IdOf(a.table[id]) == id && a.table[id] !in a.called)
    && (forall i :: 0 <= i < |a.called| ==> a.called[i] in a.mine)
    && (forall i, j :: 0 <= i < j < |a.called| ==> a.called[i] != a.called[j])
    && (forall k <- a.mine :: k !in a.called ==> (Waiting(a, k) <==> !Replaced(a, k)))
  }

  /** Two callbacks share an id exactly when 2^32 ids lie between them, or a multiple. */
  lemma SameId(j: nat, k: nat)
    requires j < k && IdOf(j) == IdOf(k)
    ensures k >= j + TWO_TO_THE_32
  {
  }

  lemma NextId(k: nat)
    ensures (IdOf(k) + 1) % TWO_TO_THE_32 == IdOf(k + 1)
  {
  }

  lemma {:induction false} RegisterInv(a: Acks)
    requires Inv(a)
    ensures Inv(Register(a))
  {
    hide IdOf;
    NextId(a.taken);
    var u := Register(a);
    assert a.taken in u.mine && a.taken !in a.called;
    forall k <- u.mine | k !in u.called
      ensures Waiting(u, k) <==> !Replaced(u, k)
    {
      if k != a.taken {
        assert Replaced(a, k) ==> Replaced(u, k);
        assert Replaced(u, k) ==> Replaced(a, k) || IdOf(k) == IdOf(a.taken);
      }
    }
  }

  lemma {:induction false} ElsewhereInv(a: Acks)
    requires Inv(a)
    ensures Inv(Elsewhere(a))
  {
    hide IdOf;
    NextId(a.taken);
    var u := Elsewhere(a);
    forall k <- u.mine ensures Replaced(u, k) <==> Replaced(a, k) {
    }
  }

  lemma {:induction false} AnswerInv(a: Acks, id: nat)
    requires Inv(a)
    ensures Inv(Answer(a, id))
  {
    hide IdOf;
    if id in a.table {
      var u, k := Answer(a, id), a.table[id];
      assert forall j: nat :: j in u.called <==> j in a.called || j == k;
      forall j <- u.mine ensures Replaced(u, j) <==> Replaced(a, j) {
      }
    }
  }

  lemma {:induction false} RunInv(a: Acks, events: seq<Event>)
    requires Inv(a)
    ensures Inv(Run(a, events))
    decreases |events|
  {
    hide Inv, Step;
    if events != [] {
      StepInv(a, events[0]);
      RunInv(Step(a, events[0]), events[1..]);
    }
  }

  lemma StepInv(a: Acks, e: Event)
    requires Inv(a)
    ensures Inv(Step(a, e))
  {
    hide Inv;
    match e
    case Registers => RegisterInv(a);
    case OthersRegister => ElsewhereInv(a);
    case Answers(id) => AnswerInv(a, id);
  }

  lemma StartInv(taken: nat)
    ensures Inv(Fresh(taken))
  {
  }

  /**
   * In every run of a socket beside others each callback is called at most once; one that is not called yet
   * is waiting if and only if no later callback of this socket has its id, so at least until 2^32 ids have
   * been handed out after it.
   */
  lemma {:induction false} CalledOnce(taken: nat, events: seq<Event>)
    ensures var a := Run(Fresh(taken), events);
            && (forall i, j :: 0 <= i < j < |a.called| ==> a.called[i] != a.called[j])
            && (forall k <- a.mine :: k in a.called || (Waiting(a, k) <==> !Replaced(a, k)))
            && (forall k <- a.mine :: a.taken <= k + TWO_TO_THE_32 ==> !Replaced(a, k))
  {
    hide Run, IdOf;
    StartInv(taken);
    RunInv(Fresh(taken), events);
    var a := Run(Fresh(taken), events);
    forall k <- a.mine | a.taken <= k + TWO_TO_THE_32
      ensures !Replaced(a, k)
    {
      forall j <- a.mine | j > k ensures IdOf(j) != IdOf(k) {
        if IdOf(j) == IdOf(k) {
          SameId(k, j);
        }
      }
    }
  }
}
