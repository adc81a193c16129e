/** What the table-driven parser computes: Tokenize, Predict, Transit and the loop of IterativeParse. */
module IterativeSpec {
  import opened Bytes
  import opened Json
  import opened ReaderSpec

  datatype PState =
    | Start | Finish | Error
    | ObjectInitial | MemberKey | KeyValueDelimiter | MemberValue | MemberDelimiter | ObjectFinish
    | ArrayInitial | Element | ElementDelimiter | ArrayFinish
    | ValueState

  datatype Token =
    | LeftBracket | RightBracket | LeftCurlyBracket | RightCurlyBracket | Comma | Colon
    | StringToken | FalseToken | TrueToken | NullToken | NumberToken

  function Tokenize(ch: byte): Token {
    if ch == 0x5B then LeftBracket
    else if ch == 0x5D then RightBracket
    else if ch == 0x7B then LeftCurlyBracket
    else if ch == 0x7D then RightCurlyBracket
    else if ch == 0x2C then Comma
    else if ch == 0x3A then Colon
    else if ch == 0x22 then StringToken
    else if ch == 0x66 then FalseToken
    else if ch == 0x74 then TrueToken
    else if ch == 0x6E then NullToken
    else NumberToken
  }

  /** A row of the table for a state in which a value may come; `scalar` is where a scalar leads. */
  function PredictValue(t: Token, scalar: PState): PState {
    match t
    case LeftBracket => ArrayInitial
    case LeftCurlyBracket => ObjectInitial
    case RightBracket => Error
    case RightCurlyBracket => Error
    case Comma => Error
    case Colon => Error
    case _ => scalar
  }

  /** The table G. */
  function Predict(state: PState, t: Token): PState {
    match state
    case Start => PredictValue(t, ValueState)
    case ObjectInitial =>
      if t == RightCurlyBracket then ObjectFinish else if t == StringToken then MemberKey else Error
    case MemberKey => if t == Colon then KeyValueDelimiter else Error
    case KeyValueDelimiter => PredictValue(t, MemberValue)
    case MemberValue =>
      if t == RightCurlyBracket then ObjectFinish else if t == Comma then MemberDelimiter else Error
    case MemberDelimiter => if t == StringToken then MemberKey else Error
    case ArrayInitial => if t == RightBracket then ArrayFinish else PredictValue(t, Element)
    case Element =>
      if t == RightBracket then ArrayFinish else if t == Comma then ElementDelimiter else Error
    case ElementDelimiter => PredictValue(t, Element)
    case _ => Error
  }

  /**
   * The reader's stack, top first: one saved state and one count for each open container. Reader.dfy
   * ties it to the flat stack of SizeType cells that the class pushes and pops.
   */
  datatype Frames = NoFrames | Frame(saved: PState, count: nat, below: Frames) {
    function Depth(): nat {
      if NoFrames? then 0 else 1 + below.Depth()
    }
  }

  /** Start lies only at the bottom; every other saved state is Element or MemberValue. */
  predicate StackOk(f: Frames) {
    f.Frame? ==>
      && (f.saved == Start || f.saved == Element || f.saved == MemberValue)
      && (f.saved == Start <==> f.below == NoFrames)
      && StackOk(f.below)
  }

  /** The states of the loop head, and whether a container is open in them. */
  predicate ConfigOk(state: PState, f: Frames) {
    && StackOk(f)
    && match state {
         case Start => f == NoFrames
         case Finish => f == NoFrames
         case Error => false
         case ObjectFinish => false
         case ArrayFinish => false
         case ValueState => false
         case _ => f.Frame?
       }
  }

  function BumpTop(f: Frames): Frames
    requires f.Frame?
  {
    f.(count := SizeType(f.count + 1))
  }

  /** The state that Transit saves when a container opens in `src`. */
  function SavedFor(src: PState): PState {
    if src == ArrayInitial || src == ElementDelimiter then Element
    else if src == KeyValueDelimiter then MemberValue
    else src
  }

  /** Where the parse continues when the container on top of the stack has ended. */
  function Restored(saved: PState): PState {
    if saved == Start then Finish else saved
  }

  /** ParseValue is called on scalars only, outside the three container-opening rows. */
  predicate ScalarToken(t: Token) {
    t == StringToken || t == FalseToken || t == TrueToken || t == NullToken || t == NumberToken
  }

  datatype Step = Step(state: PState, stack: Frames, st: St)

  /** Transit for the state that Predict chose. */
  function Transit(c: Input, src: PState, stack: Frames, st: St): (r: Step)
    requires ConfigOk(src, stack) && st.Ok() && Peek(c.s, st.pos) != 0
    ensures r.state != Error ==> ConfigOk(r.state, r.stack) && r.st.Ok()
    ensures r.state != Error ==> r.st.pos > st.pos
    ensures r.st.pos >= st.pos
  {
    var t := Tokenize(Peek(c.s, st.pos));
    var dst := Predict(src, t);
    match dst
    case ObjectInitial => Open(c, src, dst, StartObject, stack, st)
    case ArrayInitial => Open(c, src, dst, StartArray, stack, st)
    case MemberKey => Consumed(dst, stack, ParseString(c, st, true))
    case KeyValueDelimiter => Step(dst, stack, st.AtPos(st.pos + 1))
    case MemberValue => Consumed(dst, stack, ParseValue(c, st))
    case Element => Consumed(dst, stack, ParseValue(c, st))
    case MemberDelimiter => Step(dst, BumpTop(stack), st.AtPos(st.pos + 1))
    case ElementDelimiter => Step(dst, BumpTop(stack), st.AtPos(st.pos + 1))
    case ObjectFinish =>
      Close(c, EndObject(if src == MemberValue then SizeType(stack.count + 1) else stack.count), stack, st)
    case ArrayFinish =>
      Close(c, EndArray(if src == Element then SizeType(stack.count + 1) else stack.count), stack, st)
    case ValueState => Consumed(Finish, stack, ParseValue(c, st))
    case _ => Step(Error, stack, st)
  }

  function Consumed(dst: PState, stack: Frames, st: St): Step {
    Step(if st.Ok() then dst else Error, stack, st)
  }

  function Open(c: Input, src: PState, dst: PState, e: Event, stack: Frames, st: St): Step {
    var stack' := Frame(SavedFor(src), 0, stack);
    var st' := Emit(c, st, e);
    if st'.Ok() then Step(dst, stack', st'.AtPos(st.pos + 1)) else Step(Error, stack', st')
  }

  lemma OpenIs(c: Input, src: PState, dst: PState, e: Event, stack: Frames, st: St)
    ensures var st1 := Emit(c, st, e);
            && (!st1.Ok() ==> Open(c, src, dst, e, stack, st) == Step(Error, Frame(SavedFor(src), 0, stack), st1))
            && (st1.Ok() ==> Open(c, src, dst, e, stack, st) ==
                             Step(dst, Frame(SavedFor(src), 0, stack), st1.AtPos(st.pos + 1)))
  {
    hide Emit, SavedFor;
  }

  function Close(c: Input, e: Event, stack: Frames, st: St): Step
    requires StackOk(stack) && stack.Frame?
  {
    var st' := Emit(c, st, e);
    if st'.Ok() then Step(Restored(stack.saved), stack.below, st'.AtPos(st.pos + 1))
    else Step(Error, stack.below, st')
  }

  /** HandleError: an error that is already set stays. */
  function HandleError(src: PState, st: St): St {
    if !st.Ok() then st
    else match src
      case Start => st.Fail(DocumentEmpty, st.pos)
      case Finish => st.Fail(RootNotSingular, st.pos)
      case ObjectInitial => st.Fail(ObjectMissName, st.pos)
      case MemberDelimiter => st.Fail(ObjectMissName, st.pos)
      case MemberKey => st.Fail(ObjectMissColon, st.pos)
      case MemberValue => st.Fail(ObjectMissCommaOrCurlyBracket, st.pos)
      case Element => st.Fail(ArrayMissCommaOrSquareBracket, st.pos)
      case _ => st.Fail(UnspecificSyntaxError, st.pos)
  }

  /** The loop of IterativeParse from its head on, and the end-of-file check behind it. */
  function Loop(c: Input, state: PState, stack: Frames, st: St): St
    requires ConfigOk(state, stack) && st.Ok()
    decreases Left(c.s, st.pos)
  {
    if Peek(c.s, st.pos) == 0 then if state != Finish then HandleError(state, st) else st
    else
      var r := Transit(c, state, stack, st);
      if r.state == Error then HandleError(state, r.st)
      else if c.flags.stopWhenDone && r.state == Finish then r.st
      else Loop(c, r.state, r.stack, Skip(c, r.st))
  }

  /** The iterative parse of a text. */
  function IterativeParse(c: Input): St {
    Loop(c, Start, NoFrames, Skip(c, START))
  }

  // What holds at every head of the loop

  /** How many containers the events leave open. */
  function Balance(out: seq<Event>): int {
    if out == [] then 0
    else
      var e := out[|out| - 1];
      Balance(out[..|out| - 1]) +
      (if e.StartArray? || e.StartObject? then 1 else if e.EndArray? || e.EndObject? then -1 else 0)
  }

  lemma BalanceSnoc(out: seq<Event>, e: Event)
    ensures Balance(out + [e]) ==
            Balance(out) + if e.StartArray? || e.StartObject? then 1 else if e.EndArray? || e.EndObject? then -1 else 0
  {
    assert (out + [e])[..|out|] == out;
  }

  /** ParseValue is called for scalars only: never where a bracket or a brace opens. */
  lemma ScalarOnly(state: PState, ch: byte)
    ensures var dst := Predict(state, Tokenize(ch));
            dst == ValueState || dst == MemberValue || dst == Element ==>
              ch != 0x5B && ch != 0x7B && ScalarToken(Tokenize(ch))
  {
  }

  predicate OpensOrCloses(e: Event) {
    e.StartArray? || e.StartObject? || e.EndArray? || e.EndObject?
  }

  /** `out` has one more event, which opens and closes nothing. */
  predicate OneFlat(before: seq<Event>, out: seq<Event>) {
    |out| == |before| + 1 && out == before + [out[|before|]] && !OpensOrCloses(out[|before|])
  }

  lemma FlatBalance(before: seq<Event>, out: seq<Event>)
    requires OneFlat(before, out)
    ensures Balance(out) == Balance(before)
  {
    hide Balance;
    BalanceSnoc(before, out[|before|]);
  }

  lemma NumberFlat(c: Input, st: St)
    requires st.Ok() && ParseNumber(c, st).Ok()
    ensures OneFlat(st.out, ParseNumber(c, st).out)
  {
    hide ExponentDigits, DigitsEnd, BigDigits, Value;
  }

  lemma StringFlat(c: Input, st: St, isKey: bool)
    requires st.Ok() && ParseString(c, st, isKey).Ok()
    ensures OneFlat(st.out, ParseString(c, st, isKey).out)
  {
    hide ScanString;
  }

  /** A scalar adds one event, which opens and closes nothing. */
  lemma ScalarFlat(c: Input, st: St)
    requires st.Ok() && Peek(c.s, st.pos) != 0x5B && Peek(c.s, st.pos) != 0x7B && ParseValue(c, st).Ok()
    ensures OneFlat(st.out, ParseValue(c, st).out)
  {
    hide ParseNumber, ParseString, ParseArray, ParseObject, OneFlat;
    var ch := Peek(c.s, st.pos);
    if ch == 0x22 {
      StringFlat(c, st, false);
    } else if ch == 0x6E || ch == 0x74 || ch == 0x66 {
      LiteralFlat(c, st);
    } else {
      NumberFlat(c, st);
    }
  }

  lemma LiteralFlat(c: Input, st: St)
    requires st.Ok() && ParseValue(c, st).Ok()
    requires Peek(c.s, st.pos) == 0x6E || Peek(c.s, st.pos) == 0x74 || Peek(c.s, st.pos) == 0x66
    ensures OneFlat(st.out, ParseValue(c, st).out)
  {
    hide ParseNumber, ParseString, ParseArray, ParseObject, TakeMatch;
  }

  /** Pops and counts never meet an empty stack. */
  lemma NoUnderflow(src: PState, stack: Frames, ch: byte)
    requires ConfigOk(src, stack)
    ensures var dst := Predict(src, Tokenize(ch));
            dst == ObjectFinish || dst == ArrayFinish || dst == MemberDelimiter || dst == ElementDelimiter ==> stack.Frame?
  {
  }

  /** What a transition does that goes on in a container or closes it. */
  lemma InsideIs(c: Input, src: PState, stack: Frames, st: St)
    requires ConfigOk(src, stack) && st.Ok() && Peek(c.s, st.pos) != 0
    ensures var dst := Predict(src, Tokenize(Peek(c.s, st.pos)));
            && (dst == MemberDelimiter || dst == ElementDelimiter ==>
                  stack.Frame? && Transit(c, src, stack, st) == Step(dst, BumpTop(stack), st.AtPos(st.pos + 1)))
            && (dst == ObjectFinish ==>
                  stack.Frame? && Transit(c, src, stack, st) ==
                  Close(c, EndObject(if src == MemberValue then SizeType(stack.count + 1) else stack.count), stack, st))
            && (dst == ArrayFinish ==>
                  stack.Frame? && Transit(c, src, stack, st) ==
                  Close(c, EndArray(if src == Element then SizeType(stack.count + 1) else stack.count), stack, st))
  {
    hide ParseString, ParseValue, Predict, Tokenize, SizeType, BumpTop, Close, Open, StackOk;
    NoUnderflow(src, stack, Peek(c.s, st.pos));
  }

  /** What any other transition does. */
  lemma OutsideIs(c: Input, src: PState, stack: Frames, st: St)
    requires ConfigOk(src, stack) && st.Ok() && Peek(c.s, st.pos) != 0
    ensures var dst := Predict(src, Tokenize(Peek(c.s, st.pos)));
            && (dst == ObjectInitial ==> Transit(c, src, stack, st) == Open(c, src, dst, StartObject, stack, st))
            && (dst == ArrayInitial ==> Transit(c, src, stack, st) == Open(c, src, dst, StartArray, stack, st))
            && (dst == MemberKey ==> Transit(c, src, stack, st) == Consumed(dst, stack, ParseString(c, st, true)))
            && (dst == KeyValueDelimiter ==> Transit(c, src, stack, st) == Step(dst, stack, st.AtPos(st.pos + 1)))
            && (dst == MemberValue || dst == Element ==>
                  Transit(c, src, stack, st) == Consumed(dst, stack, ParseValue(c, st)))
            && (dst == ValueState ==> Transit(c, src, stack, st) == Consumed(Finish, stack, ParseValue(c, st)))
            && (dst == Error ==> Transit(c, src, stack, st) == Step(Error, stack, st))
  {
    hide ParseString, ParseValue, Predict, Tokenize, SizeType, BumpTop, Close, Open, StackOk, Consumed;
  }

  /** The tables lead neither to Start nor to Finish. */
  lemma NeverStart(src: PState, ch: byte)
    ensures var dst := Predict(src, Tokenize(ch)); dst != Start && dst != Finish
  {
  }

  /** One pair of cells for each open container: every step keeps the depth equal to the balance. */
  lemma DepthIsBalance(c: Input, src: PState, stack: Frames, st: St)
    requires ConfigOk(src, stack) && st.Ok() && Peek(c.s, st.pos) != 0
    requires stack.Depth() == Balance(st.out)
    ensures var r := Transit(c, src, stack, st);
            r.state != Error ==> r.stack.Depth() == Balance(r.st.out)
  {
    hide ParseString, ParseValue, Balance, Tokenize, Predict, OneFlat, StackOk;
    var ch := Peek(c.s, st.pos);
    var dst, r := Predict(src, Tokenize(ch)), Transit(c, src, stack, st);
    ScalarOnly(src, ch);
    NoUnderflow(src, stack, ch);
    if r.state != Error {
      match dst
      case ObjectInitial => BalanceSnoc(st.out, StartObject);
      case ArrayInitial => BalanceSnoc(st.out, StartArray);
      case ObjectFinish => BalanceSnoc(st.out, EndObject(if src == MemberValue then SizeType(stack.count + 1) else stack.count));
      case ArrayFinish => BalanceSnoc(st.out, EndArray(if src == Element then SizeType(stack.count + 1) else stack.count));
      case MemberKey =>
        StringFlat(c, st, true);
        FlatBalance(st.out, r.st.out);
      case KeyValueDelimiter =>
      case MemberDelimiter =>
      case ElementDelimiter =>
      case _ =>
        ScalarFlat(c, st);
        FlatBalance(st.out, r.st.out);
    }
  }

  /** What the loop of IterativeParse has when it comes to its head. */
  datatype Head = Head(state: PState, stack: Frames, st: St)

  /** The head of the loop after n turns, if the parse has not ended before. */
  function HeadAt(c: Input, n: nat): (h: Option<Head>)
    ensures h.Some? ==> ConfigOk(h.value.state, h.value.stack) && h.value.st.Ok()
  {
    if n == 0 then Some(Head(Start, NoFrames, Skip(c, START)))
    else
      var h := HeadAt(c, n - 1);
      if h == None || Peek(c.s, h.value.st.pos) == 0 then None
      else
        var r := Transit(c, h.value.state, h.value.stack, h.value.st);
        if r.state == Error || (c.flags.stopWhenDone && r.state == Finish) then None
        else Some(Head(r.state, r.stack, Skip(c, r.st)))
  }

  /**
   * In every reachable state the stack holds one pair of cells for each open container, and every
   * turn has consumed input: n turns need a text of at least n bytes.
   */
  lemma {:induction false} EveryHead(c: Input, n: nat)
    requires HeadAt(c, n).Some?
    ensures var h := HeadAt(c, n).value; h.stack.Depth() == Balance(h.st.out) && h.st.pos >= n
  {
    hide Transit, Balance, StackOk;
    if n == 0 {
      assert NoFrames.Depth() == 0 == Balance([]) by { EmptyBalance(); }
    } else {
      EveryHead(c, n - 1);
      var h := HeadAt(c, n - 1).value;
      DepthIsBalance(c, h.state, h.stack, h.st);
    }
  }

  lemma EmptyBalance()
    ensures Balance([]) == 0
  {
  }
}
