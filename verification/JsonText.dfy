/**
 JSON documents, their text and a parser for it: RFC 8259, sections 2 to 7.
 */
module JsonText {
  import opened Characters
  import opened Options
  import opened JsonCalls

  datatype Json =
    | Null
    | Bool(b: bool)
    | Int(i: int)
    | Float(token: string)
    | String(s: string)
    | Array(elements: seq<Json>)
    | Object(members: seq<Member>)

  datatype Member = Member(name: string, value: Json)

  // ----- valid documents -----

  /** No quotation mark, reverse solidus or control character: what the generator writes unescaped. */
  predicate PlainString(s: string) { forall i | 0 <= i < |s| :: s[i] != '"' && s[i] != '\\' && s[i] >= ' ' }

  predicate AllDigits(s: string) { forall i | 0 <= i < |s| :: IsDigit(s[i]) }

  /** An unsigned integer: digits, without a leading zero. */
  predicate NatToken(s: string) { s != "" && AllDigits(s) && (|s| == 1 || s[0] != '0') }

  /** A number without its sign. */
  function Unsigned(t: string): string { if t != "" && t[0] == '-' then t[1..] else t }

  predicate IntToken(t: string) { NatToken(Unsigned(t)) }

  /** A number with a fraction, as "%.*f" writes it. */
  predicate FloatToken(t: string) {
    var u := Unsigned(t);
    exists k | 0 < k < |u| - 1 :: u[k] == '.' && NatToken(u[..k]) && AllDigits(u[k + 1..])
  }

  predicate ValidJson(j: Json) {
    match j
    case Null => true
    case Bool(_) => true
    case Int(i) => -0x8000_0000 <= i < 0x8000_0000
    case Float(t) => FloatToken(t) && |t| < MAX_FLOAT_IN_STR
    case String(s) => PlainString(s)
    case Array(es) => forall i | 0 <= i < |es| :: ValidJson(es[i])
    case Object(ms) => forall i | 0 <= i < |ms| :: PlainString(ms[i].name) && ValidJson(ms[i].value)
  }

  // ----- text -----

  /** The text of a document, without white space. */
  function Print(j: Json): string
    decreases j
  {
    match j
    case Null => "null"
    case Bool(b) => BoolText(b)
    case Int(i) => IntText(i)
    case Float(t) => t
    case String(s) => Quoted(s)
    case Array(es) => "[" + PrintElements(es) + "]"
    case Object(ms) => "{" + PrintMembers(ms) + "}"
  }

  function PrintElements(es: seq<Json>): string
    decreases es
  {
    if es == [] then ""
    else Print(es[0]) + PrintMoreElements(es[1..])
  }

  /** Each further element after a comma. */
  function PrintMoreElements(es: seq<Json>): string
    decreases es
  {
    if es == [] then "" else "," + Print(es[0]) + PrintMoreElements(es[1..])
  }

  function PrintMembers(ms: seq<Member>): string
    decreases ms
  {
    if ms == [] then "" else PrintMember(ms[0]) + PrintMoreMembers(ms[1..])
  }

  function PrintMoreMembers(ms: seq<Member>): string
    decreases ms
  {
    if ms == [] then "" else "," + PrintMember(ms[0]) + PrintMoreMembers(ms[1..])
  }

  function PrintMember(m: Member): string
    decreases m
  {
    NameText(Some(m.name)) + Print(m.value)
  }

  lemma Assoc(a: string, b: string, c: string)
    ensures a + b + c == a + (b + c)
  {
  }
}
