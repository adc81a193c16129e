/** JSON trees and the events (SAX callbacks) that describe them. */
module Json {
  import opened Bytes

  /** One call of the Handler concept. A double is kept as the text it is read from. */
  datatype Event =
    | Null
    | Bool(b: bool)
    | Int(n: int)
    | Uint(n: int)
    | Int64(n: int)
    | Uint64(n: int)
    | Double(text: bytes)
    | String(str: bytes)
    | Key(str: bytes)
    | StartObject
    | EndObject(count: nat)
    | StartArray
    | EndArray(count: nat)

  datatype Json =
    | JNull
    | JBool(b: bool)
    | JInt(n: int)
    | JDouble(text: bytes)
    | JString(str: bytes)
    | JArray(items: seq<Json>)
    | JObject(members: seq<Member>)

  datatype Member = Member(name: bytes, value: Json)

  /** SizeType is a 32-bit unsigned integer: every count wraps there. */
  function SizeType(n: nat): nat {
    n % TWO_TO_THE_32
  }

  /** The events of a tree. Callers choose the integer class with `num`; counts are SizeType. */
  function Events(v: Json, num: int -> Event): seq<Event>
    decreases v
  {
    match v
    case JNull => [Null]
    case JBool(b) => [Bool(b)]
    case JInt(n) => [num(n)]
    case JDouble(t) => [Double(t)]
    case JString(s) => [String(s)]
    case JArray(items) => [StartArray] + ItemEvents(items, num) + [EndArray(SizeType(|items|))]
    case JObject(members) => [StartObject] + MemberEvents(members, num) + [EndObject(SizeType(|members|))]
  }

  function ItemEvents(items: seq<Json>, num: int -> Event): seq<Event>
    decreases items
  {
    if items == [] then [] else Events(items[0], num) + ItemEvents(items[1..], num)
  }

  function MemberEvents(members: seq<Member>, num: int -> Event): seq<Event>
    decreases members
  {
    if members == [] then []
    else [Key(members[0].name)] + Events(members[0].value, num) + MemberEvents(members[1..], num)
  }

  predicate FitsInt(n: int) { -TWO_TO_THE_31 <= n < TWO_TO_THE_31 }
  predicate FitsUint(n: int) { 0 <= n < TWO_TO_THE_32 }
  predicate FitsInt64(n: int) { -TWO_TO_THE_63 <= n < TWO_TO_THE_63 }
  predicate FitsUint64(n: int) { 0 <= n < TWO_TO_THE_64 }

  /** The integers that a JSON value can hold: -2^63 to 2^64-1. */
  predicate InRange(n: int) { -TWO_TO_THE_63 <= n < TWO_TO_THE_64 }

  /** The class in which the reader reports an integer. */
  function ReaderNum(n: int): Event {
    if n >= 0 then if n < TWO_TO_THE_32 then Uint(n) else Uint64(n)
    else if n >= -TWO_TO_THE_31 then Int(n) else Int64(n)
  }

  /** The class in which GenericValue::Accept replays an integer. */
  function ValueNum(n: int): Event {
    if FitsInt(n) then Int(n)
    else if FitsUint(n) then Uint(n)
    else if FitsInt64(n) then Int64(n)
    else Uint64(n)
  }

  /** An event without its integer class: two events that agree here differ at most in that class. */
  function Plain(e: Event): Event {
    match e
    case Uint(n) => Int(n)
    case Int64(n) => Int(n)
    case Uint64(n) => Int(n)
    case _ => e
  }

  function PlainAll(es: seq<Event>): (r: seq<Event>)
    ensures |r| == |es|
  {
    seq(|es|, i requires 0 <= i < |es| => Plain(es[i]))
  }

  function PlainNum(n: int): Event { Int(n) }

  lemma PlainConcat(a: seq<Event>, b: seq<Event>)
    ensures PlainAll(a + b) == PlainAll(a) + PlainAll(b)
  {
  }

  /** Every integer of the tree is in range. */
  predicate Ranged(v: Json)
    decreases v
  {
    match v
    case JInt(n) => InRange(n)
    case JArray(items) => forall i :: 0 <= i < |items| ==> Ranged(items[i])
    case JObject(members) => forall i :: 0 <= i < |members| ==> Ranged(members[i].value)
    case _ => true
  }

  /** Every integer is in range and no double occurs: the trees that text carries exactly. */
  predicate Exact(v: Json)
    decreases v
  {
    match v
    case JInt(n) => InRange(n)
    case JDouble(_) => false
    case JArray(items) => forall i :: 0 <= i < |items| ==> Exact(items[i])
    case JObject(members) => forall i :: 0 <= i < |members| ==> Exact(members[i].value)
    case _ => true
  }

  /** No container has more entries than SizeType counts. */
  predicate Countable(v: Json)
    decreases v
  {
    match v
    case JArray(items) => |items| < TWO_TO_THE_32 && forall i :: 0 <= i < |items| ==> Countable(items[i])
    case JObject(members) =>
      |members| < TWO_TO_THE_32 && forall i :: 0 <= i < |members| ==> Countable(members[i].value)
    case _ => true
  }
}
