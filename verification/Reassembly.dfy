/** What any sequence of payloads dispatches, with any number of announcing headers among them. */
module Reassembly {
  import opened Bytes
  import opened MessageSpec
  import opened PacketSpec
  import opened ManagerSpec

  /** A text payload whose packet has to wait for attachments. */
  predicate Announces(payload: bytes) {
    !IsBinary(payload) && Parse(EMPTY, payload).outcome == More
  }

  function Announced(payload: bytes): (p: Packet)
    requires Announces(payload)
    ensures p.buffers != []
  {
    Parse(EMPTY, payload).packet
  }

  /** How many binary payloads the packet waits for: one even if it announces none. */
  function Needed(p: Packet): nat {
    if p.pending == 0 then 1 else p.pending
  }

  function LastTrue(marks: seq<bool>, k: nat): (r: Option<nat>)
    requires k <= |marks|
    ensures r.Some? ==> r.value < k && marks[r.value]
    ensures forall i: nat :: (r.Some? ==> r.value < i) && i < k ==> !marks[i]
  {
    if k == 0 then None else if marks[k - 1] then Some(k - 1) else LastTrue(marks, k - 1)
  }

  function FirstTrue(marks: seq<bool>, k: nat): (r: nat)
    requires k <= |marks|
    ensures k <= r <= |marks| && (r < |marks| ==> marks[r])
    ensures forall i :: k <= i < r ==> !marks[i]
    decreases |marks| - k
  {
    if k == |marks| || marks[k] then k else FirstTrue(marks, k + 1)
  }

  function Headers(payloads: seq<bytes>): (marks: seq<bool>)
    ensures |marks| == |payloads|
    ensures forall i :: 0 <= i < |payloads| ==> marks[i] == Announces(payloads[i])
  {
    seq(|payloads|, i requires 0 <= i < |payloads| => Announces(payloads[i]))
  }

  /** The last announcing header before position k. */
  function LastHeader(payloads: seq<bytes>, k: nat): (r: Option<nat>)
    requires k <= |payloads|
    ensures r.Some? ==> r.value < k && Announces(payloads[r.value])
  {
    LastTrue(Headers(payloads), k)
  }

  /** The first announcing header behind position h, or the end. */
  function NextHeader(payloads: seq<bytes>, h: nat): (k: nat)
    requires h < |payloads|
    ensures h < k <= |payloads|
  {
    FirstTrue(Headers(payloads), h + 1)
  }

  lemma LastHeaderIs(payloads: seq<bytes>, k: nat)
    requires k <= |payloads|
    ensures var r := LastHeader(payloads, k);
            forall i: nat :: (r.Some? ==> r.value < i) && i < k ==> !Announces(payloads[i])
    ensures k > 0 ==> LastHeader(payloads, k) ==
                      if Announces(payloads[k - 1]) then Some(k - 1) else LastHeader(payloads, k - 1)
  {
    hide Announces;
  }

  lemma NextHeaderIs(payloads: seq<bytes>, h: nat)
    requires h < |payloads|
    ensures var k := NextHeader(payloads, h);
            && (k < |payloads| ==> Announces(payloads[k]))
            && forall i :: h < i < k ==> !Announces(payloads[i])
  {
    hide Announces;
  }

  /** The contents of the binary payloads behind position h and before position k. */
  function Since(payloads: seq<bytes>, h: nat, k: nat): seq<bytes>
    requires h < k <= |payloads|
  {
    Attached(payloads[h + 1..k])
  }

  /** A binary payload that is the last one that the last header before it waits for. */
  predicate Completes(payloads: seq<bytes>, k: nat)
    requires k < |payloads|
  {
    && IsBinary(payloads[k])
    && var h := LastHeader(payloads, k);
       h.Some? && |Since(payloads, h.value, k + 1)| == Needed(Announced(payloads[h.value]))
  }

  /** The packet with its attachments, or nothing where an assertion fails; one that announces none stays as it is. */
  function Assembled(p: Packet, attachments: seq<bytes>): Option<Packet>
    requires p.buffers != []
  {
    if p.pending == 0 then Some(p)
    else
      var message := FromText(p.buffers[0], p.buffers[1..] + attachments);
      if message == None then None else Some(Completed(p, attachments, message.value))
  }

  function AssembledAt(payloads: seq<bytes>, k: nat): Option<Packet>
    requires k < |payloads| && Completes(payloads, k)
  {
    var h := LastHeader(payloads, k).value;
    Assembled(Announced(payloads[h]), Since(payloads, h, k + 1))
  }

  predicate AbortsAt(payloads: seq<bytes>, k: nat)
    requires k < |payloads|
  {
    if IsBinary(payloads[k]) then Completes(payloads, k) && AssembledAt(payloads, k) == None
    else Parse(EMPTY, payloads[k]).outcome == Aborts
  }

  /** What is dispatched at position k: a packet parsed at once, or one that its last attachment completes. */
  function DispatchedAt(payloads: seq<bytes>, k: nat): seq<Packet>
    requires k < |payloads|
  {
    if !IsBinary(payloads[k]) then PlainPacket(payloads[k])
    else if Completes(payloads, k) && AssembledAt(payloads, k).Some? then [AssembledAt(payloads, k).value]
    else []
  }

  function DispatchedBefore(payloads: seq<bytes>, k: nat): seq<Packet>
    requires k <= |payloads|
  {
    if k == 0 then [] else DispatchedBefore(payloads, k - 1) + DispatchedAt(payloads, k - 1)
  }

  /** The packet that still waits: the last header's, while too few binary payloads have come since. */
  function Waiting(payloads: seq<bytes>, k: nat): Option<Packet>
    requires k <= |payloads|
  {
    var h := LastHeader(payloads, k);
    if h == None then None
    else
      var p, got := Announced(payloads[h.value]), Since(payloads, h.value, k);
      if |got| >= Needed(p) then None
      else Some(p.(pending := p.pending - |got|, buffers := p.buffers + got))
  }

  lemma {:induction false} AttachedConcat(a: seq<bytes>, b: seq<bytes>)
    ensures Attached(a + b) == Attached(a) + Attached(b)
    decreases |a|
  {
    hide AttachedOne;
    if a == [] {
      assert a + b == b;
    } else {
      AttachedConcat(a[1..], b);
      assert (a + b)[1..] == a[1..] + b;
    }
  }

  lemma {:induction false} SinceNext(payloads: seq<bytes>, h: nat, k: nat)
    requires h < k < |payloads|
    ensures Since(payloads, h, k + 1) == Since(payloads, h, k) + AttachedOne(payloads[k])
  {
    hide AttachedOne;
    var s := payloads[h + 1..k + 1];
    assert s == payloads[h + 1..k] + [payloads[k]];
    AttachedConcat(payloads[h + 1..k], [payloads[k]]);
    var rest: seq<bytes> := [payloads[k]][1..];
    assert rest == [] && Attached([payloads[k]]) == AttachedOne(payloads[k]) + Attached(rest);
  }

  lemma SinceNone(payloads: seq<bytes>, h: nat)
    requires h < |payloads|
    ensures Since(payloads, h, h + 1) == []
  {
    assert payloads[h + 1..h + 1] == [];
  }

  /** A text payload whose parse does not fail an assertion. */
  lemma {:induction false} TextPut(m: Manager, payload: bytes)
    requires !IsBinary(payload) && Parse(EMPTY, payload).outcome != Aborts && !m.aborted && Valid(m)
    ensures PutPayload(m, payload) ==
            if Announces(payload) then m.(partial := Some(Announced(payload)))
            else m.(out := m.out + PlainPacket(payload))
    ensures Announces(payload) ==> PlainPacket(payload) == []
  {
    hide Parse;
    assert m.out + [] == m.out;
  }

  /** A text payload at position k. */
  lemma {:induction false} TextStep(payloads: seq<bytes>, k: nat, m: Manager)
    requires k < |payloads| && !IsBinary(payloads[k]) && !AbortsAt(payloads, k)
    requires m == Manager(Waiting(payloads, k), m.out, false) && Valid(m)
    ensures PutPayload(m, payloads[k]) ==
            Manager(Waiting(payloads, k + 1), m.out + DispatchedAt(payloads, k), false)
  {
    hide Parse, Announces, Announced, LastHeader, Since, PutPayload, PlainPacket, Needed, Completes;
    LastHeaderIs(payloads, k + 1);
    TextPut(m, payloads[k]);
    assert m.out + [] == m.out;
    if Announces(payloads[k]) {
      SinceNone(payloads, k);
      var p := Announced(payloads[k]);
      NeedsSome(p);
      assert p.buffers + [] == p.buffers;
    } else {
      var h := LastHeader(payloads, k);
      if h.Some? {
        SinceNext(payloads, h.value, k);
        assert Since(payloads, h.value, k) + [] == Since(payloads, h.value, k);
      }
    }
  }

  /** One attachment, put to a packet that has got some of those it waits for. */
  lemma {:induction false} BinaryStep(m: Manager, p: Packet, got: seq<bytes>, payload: bytes)
    requires IsBinary(payload) && p.buffers != [] && |got| < Needed(p) && !m.aborted
    requires m.partial == Some(p.(pending := p.pending - |got|, buffers := p.buffers + got))
    ensures var all := got + [payload[1..]];
            PutPayload(m, payload) ==
            if |all| < Needed(p) then m.(partial := Some(p.(pending := p.pending - |all|, buffers := p.buffers + all)))
            else if Assembled(p, all) == None then m.(aborted := true)
            else m.(partial := None).Dispatch(Assembled(p, all).value)
  {
    hide Parse, FromText;
    var all := got + [payload[1..]];
    assert p.buffers + got + [payload[1..]] == p.buffers + all;
    assert (p.buffers + all)[0] == p.buffers[0] && (p.buffers + all)[1..] == p.buffers[1..] + all;
    if p.pending == 0 {
      assert got == [] && p.buffers + got == p.buffers;
    }
  }

  /** A binary payload at position k. */
  lemma {:induction false} AttachmentStep(payloads: seq<bytes>, k: nat, m: Manager)
    requires k < |payloads| && IsBinary(payloads[k])
    requires m == Manager(Waiting(payloads, k), m.out, false) && Valid(m)
    ensures var u := PutPayload(m, payloads[k]);
            if AbortsAt(payloads, k) then u.aborted
            else u == Manager(Waiting(payloads, k + 1), m.out + DispatchedAt(payloads, k), false)
  {
    hide Announces, Announced, Parse, FromText, LastHeader, Since, Assembled, PutPayload, Needed;
    LastHeaderIs(payloads, k + 1);
    HeaderIsText(payloads[k]);
    assert m.out + [] == m.out;
    var h := LastHeader(payloads, k);
    if h == None {
      StrayStep(m, payloads[k]);
    } else {
      var p, got := Announced(payloads[h.value]), Since(payloads, h.value, k);
      SinceNext(payloads, h.value, k);
      if |got| < Needed(p) {
        BinaryStep(m, p, got, payloads[k]);
      } else {
        StrayStep(m, payloads[k]);
      }
    }
  }

  lemma StrayStep(m: Manager, payload: bytes)
    requires m.partial == None && IsBinary(payload)
    ensures PutPayload(m, payload) == m
  {
  }

  lemma {:induction false} PutStep(payloads: seq<bytes>, k: nat, m: Manager)
    requires k < |payloads| && m == Manager(Waiting(payloads, k), m.out, false) && Valid(m)
    ensures var u := PutPayload(m, payloads[k]);
            if AbortsAt(payloads, k) then u.aborted
            else u == Manager(Waiting(payloads, k + 1), m.out + DispatchedAt(payloads, k), false)
  {
    hide Completes, Waiting, DispatchedAt, Parse;
    if IsBinary(payloads[k]) {
      AttachmentStep(payloads, k, m);
    } else if !AbortsAt(payloads, k) {
      TextStep(payloads, k, m);
    }
  }

  /** As long as nothing has aborted, this is the manager after k payloads. */
  lemma {:induction false} StateAfter(payloads: seq<bytes>, k: nat)
    requires k <= |payloads| && forall j :: 0 <= j < k ==> !AbortsAt(payloads, j)
    ensures PutAll(IDLE, payloads[..k]) == Manager(Waiting(payloads, k), DispatchedBefore(payloads, k), false)
  {
    hide AbortsAt, Waiting, DispatchedAt, PutPayload;
    if k == 0 {
      assert payloads[..0] == [];
      NothingWaits(payloads);
    } else {
      StateAfter(payloads, k - 1);
      PutStep(payloads, k - 1, PutAll(IDLE, payloads[..k - 1]));
      PutPrefix(payloads, k - 1);
    }
  }

  lemma NothingWaits(payloads: seq<bytes>)
    ensures Waiting(payloads, 0) == None
  {
  }

  lemma {:induction false} PutPrefix(payloads: seq<bytes>, k: nat)
    requires k < |payloads|
    ensures PutAll(IDLE, payloads[..k + 1]) == PutPayload(PutAll(IDLE, payloads[..k]), payloads[k])
  {
    hide PutAll, PutPayload;
    assert payloads[..k + 1] == payloads[..k] + [payloads[k]];
    PutAllConcat(IDLE, payloads[..k], [payloads[k]]);
    PutOne(PutAll(IDLE, payloads[..k]), payloads[k]);
  }

  lemma {:induction false} StaysAborted(m: Manager, payloads: seq<bytes>)
    requires Valid(m) && m.aborted
    ensures PutAll(m, payloads) == m
    decreases |payloads|
  {
    if payloads != [] {
      StaysAborted(m, payloads[1..]);
    }
  }

  lemma {:induction false} AbortStays(payloads: seq<bytes>, k: nat)
    requires k < |payloads| && AbortsAt(payloads, k) && forall j :: 0 <= j < k ==> !AbortsAt(payloads, j)
    ensures PutAll(IDLE, payloads).aborted
  {
    hide AbortsAt, Waiting, DispatchedAt, PutPayload, PutAll;
    StateAfter(payloads, k);
    PutStep(payloads, k, PutAll(IDLE, payloads[..k]));
    PutPrefix(payloads, k);
    assert payloads == payloads[..k + 1] + payloads[k + 1..];
    PutAllConcat(IDLE, payloads[..k + 1], payloads[k + 1..]);
    StaysAborted(PutAll(IDLE, payloads[..k + 1]), payloads[k + 1..]);
  }

  lemma {:induction false} FirstAbort(payloads: seq<bytes>, k: nat) returns (first: nat)
    requires k < |payloads| && AbortsAt(payloads, k)
    ensures first < |payloads| && AbortsAt(payloads, first) && forall j :: 0 <= j < first ==> !AbortsAt(payloads, j)
    decreases k
  {
    hide AbortsAt;
    if j: nat :| j < k && AbortsAt(payloads, j) {
      first := FirstAbort(payloads, j);
    } else {
      first := k;
    }
  }

  /**
   * Over every sequence of payloads: an assertion fails if and only if it does so at some position; if none
   * does, each position dispatches what DispatchedAt says, in order, and what waits at the end is the packet of
   * the last header, unless it is complete.
   */
  lemma {:induction false} PayloadsDispatch(payloads: seq<bytes>)
    ensures PutAll(IDLE, payloads).aborted <==> exists k :: 0 <= k < |payloads| && AbortsAt(payloads, k)
    ensures !PutAll(IDLE, payloads).aborted ==>
              PutAll(IDLE, payloads) ==
              Manager(Waiting(payloads, |payloads|), DispatchedBefore(payloads, |payloads|), false)
  {
    hide AbortsAt, Waiting, DispatchedBefore, PutAll;
    if k :| 0 <= k < |payloads| && AbortsAt(payloads, k) {
      var first := FirstAbort(payloads, k);
      AbortStays(payloads, first);
    } else {
      StateAfter(payloads, |payloads|);
      assert payloads[..|payloads|] == payloads;
    }
  }

  // Which header's packet is dispatched

  lemma {:induction false} SinceGrows(payloads: seq<bytes>, h: nat, j: nat, k: nat)
    requires h < j <= k <= |payloads|
    ensures |Since(payloads, h, j)| <= |Since(payloads, h, k)|
    ensures j < k && IsBinary(payloads[j]) ==> |Since(payloads, h, j)| < |Since(payloads, h, k)|
    decreases k - j
  {
    hide Since;
    if j < k {
      SinceNext(payloads, h, j);
      SinceGrows(payloads, h, j + 1, k);
    }
  }

  lemma {:induction false} LastIs(payloads: seq<bytes>, h: nat, k: nat)
    requires h < k <= |payloads| && Announces(payloads[h]) && forall i :: h < i < k ==> !Announces(payloads[i])
    ensures LastHeader(payloads, k) == Some(h)
  {
    hide Announces, LastHeader;
    LastHeaderIs(payloads, k);
  }

  lemma CompletesIs(payloads: seq<bytes>, k: nat, h: nat)
    requires k < |payloads| && h < k && LastHeader(payloads, k) == Some(h)
    ensures Completes(payloads, k) <==>
              IsBinary(payloads[k]) && |Since(payloads, h, k + 1)| == Needed(Announced(payloads[h]))
  {
    hide Announces, Announced, LastHeader, Since, IsBinary;
  }

  /** No packet is dispatched twice. */
  lemma {:induction false} OnceOnly(payloads: seq<bytes>, j: nat, k: nat, h: nat)
    requires h < j <= k < |payloads| && Completes(payloads, j) && Completes(payloads, k)
    requires LastHeader(payloads, j) == Some(h) == LastHeader(payloads, k)
    ensures j == k
  {
    hide Completes, Since, LastHeader, Announces, Needed, Announced, IsBinary;
    CompletesIs(payloads, j, h);
    CompletesIs(payloads, k, h);
    if j < k {
      SinceGrows(payloads, h, j + 1, k);
      SinceGrows(payloads, h, k, k + 1);
    }
  }

  /** The position at which n attachments have come, when as many come before `end`. */
  lemma {:induction false} ReachedAt(payloads: seq<bytes>, h: nat, end: nat, n: nat) returns (k: nat)
    requires h < end <= |payloads| && 0 < n <= |Since(payloads, h, end)|
    ensures h < k < end && IsBinary(payloads[k]) && |Since(payloads, h, k + 1)| == n
    decreases end
  {
    hide Since;
    SinceNone(payloads, h);
    SinceNext(payloads, h, end - 1);
    if |Since(payloads, h, end - 1)| >= n {
      k := ReachedAt(payloads, h, end - 1, n);
    } else {
      k := end - 1;
    }
  }

  /**
   * A header's packet is completed, at exactly one position, if and only if enough binary payloads come before
   * the next announcing header; otherwise that header takes its place.
   */
  lemma {:induction false} CompletedIff(payloads: seq<bytes>, h: nat)
    requires h < |payloads| && Announces(payloads[h])
    ensures (exists k :: h < k < |payloads| && Completes(payloads, k) && LastHeader(payloads, k) == Some(h))
            <==> |Since(payloads, h, NextHeader(payloads, h))| >= Needed(Announced(payloads[h]))
  {
    hide Completes, Since, Announces, Announced, Needed, LastHeader, NextHeader;
    var end := NextHeader(payloads, h);
    if k :| h < k < |payloads| && Completes(payloads, k) && LastHeader(payloads, k) == Some(h) {
      CompletesIs(payloads, k, h);
      BeforeNext(payloads, h, k);
      SinceGrows(payloads, h, k + 1, end);
    }
    if |Since(payloads, h, end)| >= Needed(Announced(payloads[h])) {
      NeedsSome(Announced(payloads[h]));
      var k := ReachedAt(payloads, h, end, Needed(Announced(payloads[h])));
      NextHeaderIs(payloads, h);
      LastIs(payloads, h, k);
      CompletesIs(payloads, k, h);
    }
  }

  /** A binary payload whose last header is at h comes before the next header. */
  lemma {:induction false} BeforeNext(payloads: seq<bytes>, h: nat, k: nat)
    requires h < k < |payloads| && LastHeader(payloads, k) == Some(h) && IsBinary(payloads[k])
    ensures k < NextHeader(payloads, h)
  {
    hide Announces, LastHeader;
    NextHeaderIs(payloads, h);
    LastHeaderIs(payloads, k);
    HeaderIsText(payloads[k]);
  }

  lemma HeaderIsText(payload: bytes)
    ensures Announces(payload) ==> !IsBinary(payload)
  {
  }

  lemma NeedsSome(p: Packet)
    ensures Needed(p) > 0
  {
  }
}
