/** The recursive and the table-driven parser accept the same texts and emit the same events. */
module ParsersAgree {
  import opened Bytes
  import opened Json
  import opened ReaderSpec
  import opened IterativeSpec

  /** Same events; both fail, or both succeed and stop at the same place. Error codes may differ. */
  predicate Same(a: St, b: St) {
    a.out == b.out && (a.Ok() <==> b.Ok()) && (a.Ok() ==> a.pos == b.pos)
  }

  /** The loop after a step that led to `state`. */
  function Continue(c: Input, state: PState, stack: Frames, st: St): St
    requires ConfigOk(state, stack) && st.Ok()
  {
    if c.flags.stopWhenDone && state == Finish then st else Loop(c, state, stack, Skip(c, st))
  }

  /**
   * What the recursive parser still has to do when a value has just ended in state `st`: `saved` and
   * `stack` say which containers are open around that value.
   */
  function Resume(c: Input, saved: PState, stack: Frames, st: St): St
    requires StackOk(stack) && (saved == Start || saved == Element || saved == MemberValue)
    requires saved == Start <==> stack == NoFrames
    decreases stack
  {
    if !st.Ok() then st
    else if saved == Start then RootEnd(c, st)
    else
      var st' := if saved == Element then ArrayTail(c, st, stack.count) else ObjectTail(c, st, stack.count);
      Resume(c, stack.saved, stack.below, st')
  }

  /** A state that waits for a value. */
  predicate WantsValue(state: PState) {
    state == Start || state == ArrayInitial || state == ElementDelimiter || state == KeyValueDelimiter
  }

  // One turn of the loop, by what stands at its head

  lemma LoopStep(c: Input, state: PState, stack: Frames, st: St)
    requires ConfigOk(state, stack) && st.Ok() && Peek(c.s, st.pos) != 0
    ensures var r := Transit(c, state, stack, st);
            Loop(c, state, stack, st) ==
            if r.state == Error then HandleError(state, r.st) else Continue(c, r.state, r.stack, r.st)
  {
    hide Transit, ConfigOk, HandleError;
  }

  lemma TransitOpens(c: Input, state: PState, stack: Frames, st: St, e: Event, dst: PState)
    requires ConfigOk(state, stack) && st.Ok() && WantsValue(state)
    requires Peek(c.s, st.pos) == 0x5B ==> e == StartArray && dst == ArrayInitial
    requires Peek(c.s, st.pos) != 0x5B ==> Peek(c.s, st.pos) == 0x7B && e == StartObject && dst == ObjectInitial
    ensures Transit(c, state, stack, st) == Open(c, state, dst, e, stack, st)
    ensures ConfigOk(dst, Frame(SavedFor(state), 0, stack))
  {
    hide ParseValue, ParseString, Open, Close;
  }

  lemma {:induction false} LoopOpens(c: Input, state: PState, stack: Frames, st: St, e: Event, dst: PState)
    requires ConfigOk(state, stack) && st.Ok() && WantsValue(state)
    requires Peek(c.s, st.pos) == 0x5B ==> e == StartArray && dst == ArrayInitial
    requires Peek(c.s, st.pos) != 0x5B ==> Peek(c.s, st.pos) == 0x7B && e == StartObject && dst == ObjectInitial
    ensures var stack1 := Frame(SavedFor(state), 0, stack);
            var st1 := Emit(c, st, e);
            && ConfigOk(dst, stack1)
            && Loop(c, state, stack, st) ==
               if st1.Ok() then Loop(c, dst, stack1, Skip(c, st1.AtPos(st.pos + 1))) else HandleError(state, st1)
  {
    hide Loop, Transit, HandleError, Tokenize, Predict, ConfigOk;
    TransitOpens(c, state, stack, st, e, dst);
    LoopStep(c, state, stack, st);
  }

  /** The end of the container on top of the stack stands at the head. */
  predicate AtEnd(c: Input, state: PState, stack: Frames, st: St, e: Event)
    requires ConfigOk(state, stack)
  {
    match state
    case ArrayInitial => Peek(c.s, st.pos) == 0x5D && e == EndArray(stack.count)
    case Element => Peek(c.s, st.pos) == 0x5D && e == EndArray(SizeType(stack.count + 1))
    case ObjectInitial => Peek(c.s, st.pos) == 0x7D && e == EndObject(stack.count)
    case MemberValue => Peek(c.s, st.pos) == 0x7D && e == EndObject(SizeType(stack.count + 1))
    case _ => false
  }

  lemma TransitCloses(c: Input, state: PState, stack: Frames, st: St, e: Event)
    requires ConfigOk(state, stack) && st.Ok() && AtEnd(c, state, stack, st, e)
    ensures Transit(c, state, stack, st) == Close(c, e, stack, st)
    ensures ConfigOk(Restored(stack.saved), stack.below)
  {
    hide ParseValue, ParseString, Open, Close;
  }

  lemma {:induction false} LoopCloses(c: Input, state: PState, stack: Frames, st: St, e: Event)
    requires ConfigOk(state, stack) && st.Ok() && AtEnd(c, state, stack, st, e)
    ensures var st1 := Emit(c, st, e);
            && ConfigOk(Restored(stack.saved), stack.below)
            && Loop(c, state, stack, st) ==
               if st1.Ok() then Continue(c, Restored(stack.saved), stack.below, st1.AtPos(st.pos + 1))
               else HandleError(state, st1)
  {
    hide Loop, Transit, HandleError, Tokenize, Predict, Continue;
    TransitCloses(c, state, stack, st, e);
    LoopStep(c, state, stack, st);
  }

  /** After a value in a container, anything but a comma and the closing bracket fails. */
  lemma {:induction false} LoopStuck(c: Input, state: PState, stack: Frames, st: St)
    requires ConfigOk(state, stack) && st.Ok() && (state == Element || state == MemberValue)
    requires Peek(c.s, st.pos) != 0x2C && Peek(c.s, st.pos) != if state == Element then 0x5D else 0x7D
    ensures !Loop(c, state, stack, st).Ok() && Loop(c, state, stack, st).out == st.out
  {
    hide ParseValue, ParseString;
  }

  lemma TransitDelimits(c: Input, state: PState, stack: Frames, st: St)
    requires ConfigOk(state, stack) && st.Ok() && (state == Element || state == MemberValue)
    requires Peek(c.s, st.pos) == 0x2C
    ensures var next := if state == Element then ElementDelimiter else MemberDelimiter;
            && ConfigOk(next, BumpTop(stack))
            && Transit(c, state, stack, st) == Step(next, BumpTop(stack), st.AtPos(st.pos + 1))
  {
    hide ParseValue, ParseString, Open, Close;
  }

  lemma {:induction false} LoopDelimits(c: Input, state: PState, stack: Frames, st: St)
    requires ConfigOk(state, stack) && st.Ok() && (state == Element || state == MemberValue)
    requires Peek(c.s, st.pos) == 0x2C
    ensures var next := if state == Element then ElementDelimiter else MemberDelimiter;
            && ConfigOk(next, BumpTop(stack))
            && Loop(c, state, stack, st) == Loop(c, next, BumpTop(stack), Skip(c, st.AtPos(st.pos + 1)))
  {
    hide Loop, Transit, HandleError, Tokenize, Predict;
    TransitDelimits(c, state, stack, st);
    LoopStep(c, state, stack, st);
  }

  lemma TransitScalar(c: Input, state: PState, stack: Frames, st: St)
    requires ConfigOk(state, stack) && st.Ok() && WantsValue(state)
    requires Peek(c.s, st.pos) != 0 && ScalarToken(Tokenize(Peek(c.s, st.pos)))
    ensures Transit(c, state, stack, st) == Consumed(Restored(SavedFor(state)), stack, ParseValue(c, st))
  {
    hide ParseValue, ParseString, Open, Close, Consumed;
  }

  lemma {:induction false} LoopScalar(c: Input, state: PState, stack: Frames, st: St)
    requires ConfigOk(state, stack) && st.Ok() && WantsValue(state)
    requires Peek(c.s, st.pos) != 0 && ScalarToken(Tokenize(Peek(c.s, st.pos)))
    ensures var st1 := ParseValue(c, st);
            Loop(c, state, stack, st) ==
            if st1.Ok() then Continue(c, Restored(SavedFor(state)), stack, st1) else HandleError(state, st1)
  {
    hide Loop, Transit, HandleError, Tokenize, Predict, ParseValue, ParseString, Continue, ScalarToken;
    TransitScalar(c, state, stack, st);
    LoopStep(c, state, stack, st);
  }

  lemma {:induction false} LoopColon(c: Input, stack: Frames, st: St)
    requires ConfigOk(MemberKey, stack) && st.Ok()
    ensures var r := Loop(c, MemberKey, stack, st);
            if Peek(c.s, st.pos) == 0x3A then r == Loop(c, KeyValueDelimiter, stack, Skip(c, st.AtPos(st.pos + 1)))
            else !r.Ok() && r.out == st.out
  {
    hide ParseValue, ParseString;
  }

  lemma TransitName(c: Input, state: PState, stack: Frames, st: St)
    requires ConfigOk(state, stack) && st.Ok() && (state == ObjectInitial || state == MemberDelimiter)
    requires Peek(c.s, st.pos) != 0 && (state == ObjectInitial ==> Peek(c.s, st.pos) != 0x7D)
    ensures Transit(c, state, stack, st) ==
            if Peek(c.s, st.pos) == 0x22 then Consumed(MemberKey, stack, ParseString(c, st, true))
            else Step(Error, stack, st)
  {
    hide ParseValue, ParseString, Open, Close, Consumed;
  }

  lemma {:induction false} LoopName(c: Input, state: PState, stack: Frames, st: St)
    requires ConfigOk(state, stack) && st.Ok() && (state == ObjectInitial || state == MemberDelimiter)
    requires state == ObjectInitial ==> Peek(c.s, st.pos) != 0x7D
    ensures var r := Loop(c, state, stack, st);
            if Peek(c.s, st.pos) == 0x22 then
              var st1 := ParseString(c, st, true);
              r == if st1.Ok() then Loop(c, MemberKey, stack, Skip(c, st1)) else HandleError(state, st1)
            else !r.Ok() && r.out == st.out
  {
    hide Transit, Tokenize, Predict, ParseValue, ParseString;
    if Peek(c.s, st.pos) != 0 {
      TransitName(c, state, stack, st);
      LoopStep(c, state, stack, st);
    }
  }

  /** Where neither a value nor the end of an empty array stands, both parsers fail. */
  lemma {:induction false} LoopNoValue(c: Input, state: PState, stack: Frames, st: St)
    requires ConfigOk(state, stack) && st.Ok() && WantsValue(state)
    requires var ch := Peek(c.s, st.pos);
             ch == 0 || ch == 0x5D || ch == 0x7D || ch == 0x2C || ch == 0x3A
    requires state == ArrayInitial ==> Peek(c.s, st.pos) != 0x5D
    ensures !Loop(c, state, stack, st).Ok() && Loop(c, state, stack, st).out == st.out
    ensures !ParseValue(c, st).Ok() && ParseValue(c, st).out == st.out
  {
    NoValue(c, st);
    hide ParseValue, ParseString, Open, Close;
  }

  lemma NoValue(c: Input, st: St)
    requires st.Ok()
    requires var ch := Peek(c.s, st.pos);
             ch == 0 || ch == 0x5D || ch == 0x7D || ch == 0x2C || ch == 0x3A
    ensures !ParseValue(c, st).Ok() && ParseValue(c, st).out == st.out
  {
    hide ParseString, ParseArray, ParseObject;
  }

  // The simulation, by what the loop waits for

  /** A value read in a waiting state, then the rest. */
  lemma {:induction false} ValueSim(c: Input, state: PState, stack: Frames, st: St)
    requires ConfigOk(state, stack) && st.Ok() && WantsValue(state)
    requires state == ArrayInitial ==> Peek(c.s, st.pos) != 0x5D
    ensures Same(Loop(c, state, stack, st), Resume(c, SavedFor(state), stack, ParseValue(c, st)))
    decreases Left(c.s, st.pos), 2
  {
    hide Loop, Transit, ArrayTail, ObjectTail;
    var ch := Peek(c.s, st.pos);
    if ch == 0x5B {
      ArraySim(c, state, stack, st);
    } else if ch == 0x7B {
      ObjectSim(c, state, stack, st);
    } else if ch != 0 && ScalarToken(Tokenize(ch)) {
      LoopScalar(c, state, stack, st);
      var st1 := ParseValue(c, st);
      if st1.Ok() {
        AfterValueSim(c, SavedFor(state), stack, st1);
      }
    } else {
      LoopNoValue(c, state, stack, st);
    }
  }

  lemma {:induction false} ArraySim(c: Input, state: PState, stack: Frames, st: St)
    requires ConfigOk(state, stack) && st.Ok() && WantsValue(state) && Peek(c.s, st.pos) == 0x5B
    ensures Same(Loop(c, state, stack, st), Resume(c, SavedFor(state), stack, ParseArray(c, st)))
    decreases Left(c.s, st.pos), 1
  {
    hide Loop, Transit, ParseValue, ArrayTail, ObjectTail, ParseString, SizeType, ArrayBody, ObjectBody;
    LoopOpens(c, state, stack, st, StartArray, ArrayInitial);
    var st1 := Emit(c, st.AtPos(st.pos + 1), StartArray);
    if st1.Ok() {
      ArrayBodySim(c, Frame(SavedFor(state), 0, stack), Skip(c, st1));
    }
  }

  lemma {:induction false} ArrayBodySim(c: Input, stack: Frames, st: St)
    requires ConfigOk(ArrayInitial, stack) && st.Ok() && stack.count == 0
    ensures Same(Loop(c, ArrayInitial, stack, st), Resume(c, stack.saved, stack.below, ArrayBody(c, st)))
    decreases Left(c.s, st.pos), 3
  {
    hide Loop, Transit, ParseValue, ArrayTail, ObjectTail, ParseString, SizeType, SkipSpace;
    if Peek(c.s, st.pos) == 0x5D {
      LoopCloses(c, ArrayInitial, stack, st, EndArray(0));
      var st1 := Emit(c, st.AtPos(st.pos + 1), EndArray(0));
      if st1.Ok() {
        AfterValueSim(c, stack.saved, stack.below, st1);
      }
    } else {
      ValueSim(c, ArrayInitial, stack, st);
    }
  }

  lemma {:induction false} ObjectSim(c: Input, state: PState, stack: Frames, st: St)
    requires ConfigOk(state, stack) && st.Ok() && WantsValue(state) && Peek(c.s, st.pos) == 0x7B
    ensures Same(Loop(c, state, stack, st), Resume(c, SavedFor(state), stack, ParseObject(c, st)))
    decreases Left(c.s, st.pos), 1
  {
    hide Loop, Transit, ParseValue, ArrayTail, ObjectTail, ParseString, SizeType, ArrayBody, ObjectBody;
    LoopOpens(c, state, stack, st, StartObject, ObjectInitial);
    var st1 := Emit(c, st.AtPos(st.pos + 1), StartObject);
    if st1.Ok() {
      ObjectBodySim(c, Frame(SavedFor(state), 0, stack), Skip(c, st1));
    }
  }

  lemma {:induction false} ObjectBodySim(c: Input, stack: Frames, st: St)
    requires ConfigOk(ObjectInitial, stack) && st.Ok() && stack.count == 0
    ensures Same(Loop(c, ObjectInitial, stack, st), Resume(c, stack.saved, stack.below, ObjectBody(c, st)))
    decreases Left(c.s, st.pos), 3
  {
    hide Loop, Transit, ParseValue, ArrayTail, ObjectTail, ParseString, SizeType, SkipSpace;
    if Peek(c.s, st.pos) == 0x7D {
      LoopCloses(c, ObjectInitial, stack, st, EndObject(0));
      var st1 := Emit(c, st.AtPos(st.pos + 1), EndObject(0));
      if st1.Ok() {
        AfterValueSim(c, stack.saved, stack.below, st1);
      }
    } else {
      NameSim(c, ObjectInitial, stack, st);
    }
  }

  /** At a member name. */
  lemma {:induction false} NameSim(c: Input, state: PState, stack: Frames, st: St)
    requires ConfigOk(state, stack) && st.Ok() && (state == ObjectInitial || state == MemberDelimiter)
    requires state == ObjectInitial ==> Peek(c.s, st.pos) != 0x7D
    ensures Same(Loop(c, state, stack, st), Resume(c, stack.saved, stack.below, ObjectLoop(c, st, stack.count)))
    decreases Left(c.s, st.pos), 2
  {
    hide Loop, Transit, ParseValue, ParseString;
    LoopName(c, state, stack, st);
    if Peek(c.s, st.pos) == 0x22 {
      var st1 := ParseString(c, st, true);
      if st1.Ok() {
        ColonSim(c, stack, Skip(c, st1));
      }
    }
  }

  /** After a member name. */
  lemma {:induction false} ColonSim(c: Input, stack: Frames, st: St)
    requires ConfigOk(MemberKey, stack) && st.Ok()
    ensures Same(Loop(c, MemberKey, stack, st),
                 Resume(c, stack.saved, stack.below, ObjectColon(c, st, stack.count)))
    decreases Left(c.s, st.pos), 3
  {
    hide Loop, Transit, ParseValue, ParseString;
    LoopColon(c, stack, st);
    if Peek(c.s, st.pos) == 0x3A {
      ResumeColon(c, stack, st);
      ValueSim(c, KeyValueDelimiter, stack, Skip(c, st.AtPos(st.pos + 1)));
    }
  }

  /** A value has ended: at the root, in an array or in an object. */
  lemma {:induction false} AfterValueSim(c: Input, saved: PState, stack: Frames, st: St)
    requires StackOk(stack) && (saved == Start || saved == Element || saved == MemberValue)
    requires saved == Start <==> stack == NoFrames
    requires st.Ok()
    ensures Same(Continue(c, Restored(saved), stack, st), Resume(c, saved, stack, st))
    decreases Left(c.s, st.pos), 4
  {
    hide ParseValue, ParseString;
    if saved == Element {
      ElementSim(c, stack, st);
    } else if saved == MemberValue {
      MemberSim(c, stack, st);
    }
  }

  /** After a comma the recursive parser stands where it stood before it, with one more element. */
  lemma {:induction false} ResumeArray(c: Input, stack: Frames, st: St)
    requires StackOk(stack) && stack.Frame? && st.Ok()
    requires Peek(c.s, Skip(c, st).pos) == 0x2C
    ensures Resume(c, Element, stack, st) ==
            Resume(c, Element, BumpTop(stack), ParseValue(c, Skip(c, st.AtPos(Skip(c, st).pos + 1))))
  {
    hide ParseValue, ParseString;
    var st2 := Skip(c, st.AtPos(Skip(c, st).pos + 1));
    var st3 := ParseValue(c, st2);
    assert ArrayTail(c, st, stack.count) == ArrayLoop(c, st2, SizeType(stack.count + 1));
    if st3.Ok() {
      assert ArrayLoop(c, st2, SizeType(stack.count + 1)) == ArrayTail(c, st3, SizeType(stack.count + 1));
    }
  }

  lemma {:induction false} ResumeObject(c: Input, stack: Frames, st: St)
    requires StackOk(stack) && stack.Frame? && st.Ok()
    requires Peek(c.s, Skip(c, st).pos) == 0x2C
    ensures Resume(c, MemberValue, stack, st) ==
            Resume(c, stack.saved, stack.below,
                   ObjectLoop(c, Skip(c, st.AtPos(Skip(c, st).pos + 1)), SizeType(stack.count + 1)))
  {
    hide ParseValue, ParseString;
    var st2 := Skip(c, st.AtPos(Skip(c, st).pos + 1));
    assert ObjectTail(c, st, stack.count) == ObjectLoop(c, st2, SizeType(stack.count + 1));
  }

  /** In an object, a value read after the colon, then the rest. */
  lemma {:induction false} ResumeColon(c: Input, stack: Frames, st: St)
    requires StackOk(stack) && stack.Frame? && st.Ok()
    requires Peek(c.s, st.pos) == 0x3A
    ensures Resume(c, stack.saved, stack.below, ObjectColon(c, st, stack.count)) ==
            Resume(c, MemberValue, stack, ParseValue(c, Skip(c, st.AtPos(st.pos + 1))))
  {
    hide ParseValue, ParseString;
    var st2 := ParseValue(c, Skip(c, st.AtPos(st.pos + 1)));
    if st2.Ok() {
      assert ObjectColon(c, st, stack.count) == ObjectTail(c, st2, stack.count);
    }
  }

  /** At the end of a container, or where one should be. */
  lemma {:induction false} ResumeCloses(c: Input, saved: PState, stack: Frames, st: St)
    requires StackOk(stack) && stack.Frame? && st.Ok() && (saved == Element || saved == MemberValue)
    requires Peek(c.s, Skip(c, st).pos) != 0x2C
    ensures var r, st1 := Resume(c, saved, stack, st), Skip(c, st);
            var e := if saved == Element then EndArray(SizeType(stack.count + 1)) else EndObject(SizeType(stack.count + 1));
            if Peek(c.s, st1.pos) == if saved == Element then 0x5D else 0x7D then
              r == Resume(c, stack.saved, stack.below, Emit(c, st1.AtPos(st1.pos + 1), e))
            else !r.Ok() && r.out == st.out
  {
    hide ParseValue, ParseString, ArrayLoop, ObjectLoop, Emit;
    if saved == Element {
      ArrayTailEnds(c, st, stack.count);
    } else {
      ObjectTailEnds(c, st, stack.count);
    }
    hide ArrayTail, ObjectTail;
    var st2 := if saved == Element then ArrayTail(c, st, stack.count) else ObjectTail(c, st, stack.count);
    assert Resume(c, saved, stack, st) == Resume(c, stack.saved, stack.below, st2);
  }

  lemma ArrayTailEnds(c: Input, st: St, count: nat)
    requires st.Ok() && Peek(c.s, Skip(c, st).pos) != 0x2C
    ensures var r, st1 := ArrayTail(c, st, count), Skip(c, st);
            if Peek(c.s, st1.pos) == 0x5D then r == Emit(c, st1.AtPos(st1.pos + 1), EndArray(SizeType(count + 1)))
            else !r.Ok() && r.out == st.out
  {
    hide ArrayLoop, Emit;
  }

  lemma ObjectTailEnds(c: Input, st: St, count: nat)
    requires st.Ok() && Peek(c.s, Skip(c, st).pos) != 0x2C
    ensures var r, st1 := ObjectTail(c, st, count), Skip(c, st);
            if Peek(c.s, st1.pos) == 0x7D then r == Emit(c, st1.AtPos(st1.pos + 1), EndObject(SizeType(count + 1)))
            else !r.Ok() && r.out == st.out
  {
    hide ObjectLoop, Emit;
  }

  /** A container ends, and the parse goes on around it. */
  lemma {:induction false} EndSim(c: Input, saved: PState, stack: Frames, st: St)
    requires StackOk(stack) && stack.Frame? && st.Ok() && (saved == Element || saved == MemberValue)
    requires Peek(c.s, Skip(c, st).pos) != 0x2C
    ensures Same(Loop(c, saved, stack, Skip(c, st)), Resume(c, saved, stack, st))
    decreases Left(c.s, st.pos), 2
  {
    hide Loop, Transit, ParseValue, ParseString, ArrayTail, ObjectTail, SizeType;
    var st1 := Skip(c, st);
    ResumeCloses(c, saved, stack, st);
    if Peek(c.s, st1.pos) == if saved == Element then 0x5D else 0x7D {
      var e := if saved == Element then EndArray(SizeType(stack.count + 1)) else EndObject(SizeType(stack.count + 1));
      LoopCloses(c, saved, stack, st1, e);
      var st2 := Emit(c, st1.AtPos(st1.pos + 1), e);
      if st2.Ok() {
        AfterValueSim(c, stack.saved, stack.below, st2);
      }
    } else {
      LoopStuck(c, saved, stack, st1);
    }
  }

  lemma {:induction false} ElementSim(c: Input, stack: Frames, st: St)
    requires StackOk(stack) && stack.Frame? && st.Ok()
    ensures Same(Loop(c, Element, stack, Skip(c, st)), Resume(c, Element, stack, st))
    decreases Left(c.s, st.pos), 3
  {
    hide Loop, Transit, ParseValue, ParseString, Resume;
    var st1 := Skip(c, st);
    if Peek(c.s, st1.pos) == 0x2C {
      LoopDelimits(c, Element, stack, st1);
      ResumeArray(c, stack, st);
      ValueSim(c, ElementDelimiter, BumpTop(stack), Skip(c, st1.AtPos(st1.pos + 1)));
    } else {
      EndSim(c, Element, stack, st);
    }
  }

  lemma {:induction false} MemberSim(c: Input, stack: Frames, st: St)
    requires StackOk(stack) && stack.Frame? && st.Ok()
    ensures Same(Loop(c, MemberValue, stack, Skip(c, st)), Resume(c, MemberValue, stack, st))
    decreases Left(c.s, st.pos), 3
  {
    hide Loop, Transit, ParseValue, ParseString, Resume, ObjectLoop;
    var st1 := Skip(c, st);
    if Peek(c.s, st1.pos) == 0x2C {
      LoopDelimits(c, MemberValue, stack, st1);
      ResumeObject(c, stack, st);
      NameSim(c, MemberDelimiter, BumpTop(stack), Skip(c, st1.AtPos(st1.pos + 1)));
    } else {
      EndSim(c, MemberValue, stack, st);
    }
  }

  /**
   * On every text, with every flag setting and against every handler, the two parsers deliver the
   * same events, counts included, and accept or reject alike.
   */
  lemma {:induction false} TwoParsersAgree(c: Input)
    ensures Same(IterativeParse(c), Parse(c))
  {
    var st := Skip(c, START);
    if Peek(c.s, st.pos) != 0 {
      ValueSim(c, Start, NoFrames, st);
    }
  }
}
