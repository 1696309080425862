/**
 * The client record as an uploaded JSON file delivers it. Every field may be
 * missing from the JSON object or hold `null`; the component reads the fields
 * through optional chaining and compares them with `===`, which tells the two
 * apart, so each field is a `Field`.
 */
module Records {
  import opened Text

  /**
   * A JSON object property as JavaScript reads it: `Missing` is `undefined`
   * (no such key), `Null` is JSON `null`, `Val` a present value. Datatype
   * equality is `===`: `null === undefined` is false.
   */
  datatype Field<+T> = Missing | Null | Val(value: T)

  /**
   * The integers a JavaScript number holds exactly and prints digit for
   * digit: magnitude at most 2^53.
   */
  type SafeInt = n: int | -0x20_0000_0000_0000 <= n <= 0x20_0000_0000_0000

  /** A record id: a JSON number (modelled as a safe integer) or a JSON string. */
  datatype Id = NumId(n: SafeInt) | StrId(s: string)

  datatype Record = Record(id: Field<Id>, name: Field<string>, email: Field<string>)

  /** The text `id.toString()` produces. */
  function IdText(id: Id): string {
    match id
    case NumId(n) => IntToString(n)
    case StrId(s) => s
  }

  /** The email is truthy in JavaScript: neither missing, nor `null`, nor the empty string. */
  predicate HasEmail(r: Record) {
    r.email.Val? && r.email.value != ""
  }

  /** `new Set(xs.map(item => item.email))`: every email value, `undefined` and `null` included. */
  function Emails(xs: seq<Record>): set<Field<string>> {
    set r | r in xs :: r.email
  }

  /** The truthy emails of `xs`. */
  function PresentEmails(xs: seq<Record>): set<Field<string>> {
    set r | r in xs && HasEmail(r) :: r.email
  }

  /** No truthy email is carried by two records: the record-set invariant. */
  predicate DistinctEmails(xs: seq<Record>) {
    forall i, j :: 0 <= i < j < |xs| && HasEmail(xs[i]) ==> xs[i].email != xs[j].email
  }

  lemma EmailsAppend(a: seq<Record>, b: seq<Record>)
    ensures Emails(a + b) == Emails(a) + Emails(b)
    ensures PresentEmails(a + b) == PresentEmails(a) + PresentEmails(b)
  {
    assert forall r :: r in a + b <==> r in a || r in b;
  }
}
