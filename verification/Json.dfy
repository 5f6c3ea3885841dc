/** The values that cJSON represents. */
module Json {

  /** `Number(m, e)` is m times ten to the power e, exactly. */
  datatype Json =
    | Null
    | False
    | True
    | Number(mantissa: int, exponent: int)
    | String(text: string)
    | Array(items: seq<Json>)
    | Object(members: seq<Member>)

  datatype Member = Member(key: string, value: Json)

  /** What `%d` and NUL-terminated strings can carry: 32-bit integers and NUL-free strings, at every depth. */
  predicate Printable(v: Json) {
    match v
    case Number(m, e) => e == 0 && -0x8000_0000 <= m < 0x8000_0000
    case String(s) => '\0' !in s
    case Array(items) => forall i :: 0 <= i < |items| ==> Printable(items[i])
    case Object(members) =>
      forall i :: 0 <= i < |members| ==> '\0' !in members[i].key && Printable(members[i].value)
    case _ => true
  }

  lemma PrintableItem(items: seq<Json>, i: nat)
    requires Printable(Array(items)) && i < |items|
    ensures Printable(items[i])
  {
  }

  lemma PrintableMember(members: seq<Member>, i: nat)
    requires Printable(Object(members)) && i < |members|
    ensures '\0' !in members[i].key && Printable(members[i].value)
  {
  }
}
