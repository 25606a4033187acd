/** Vocabulary shared by the controllers: the response envelope
    (src/Types/ApiTypes.ts), request fields as they arrive, and the zod
    schema checks made on them. */
module Api {

  datatype Option<T> = None | Some(value: T) {
    /** `x || default` for a value that is either present or not */
    function GetOr(default: T): T {
      if Some? then value else default
    }
  }

  /** JavaScript truthiness of an optional string: absent and "" are false. */
  predicate Truthy(s: Option<string>) {
    s.Some? && s.value != ""
  }

  /** One field of a JSON request body as received: a JSON value, or
      `undefined` when the key is missing. Arrays and objects where a
      scalar is expected are `JOther`. */
  datatype Json = JString(str: string) | JNumber(num: real) | JBool(b: bool) | JNull | JMissing | JOther

  /** A body key that no schema checks but that is handed on to the
      database as it is: left out, set to `null`, or set to a value. */
  datatype Assign<T> = Keep | SetNull | Set(value: T)

  /** The column value after such a key is written over `current`. */
  function Assigned<T>(a: Assign<T>, current: Option<T>): (r: Option<T>)
    ensures a.Keep? ==> r == current
    ensures a.SetNull? ==> r == None
    ensures a.Set? ==> r == Some(a.value)
  {
    match a
    case Keep => current
    case SetNull => None
    case Set(v) => Some(v)
  }

  /** `z.string()` */
  predicate IsString(j: Json) {
    j.JString?
  }

  /** `z.string().optional()`: a missing key passes, `null` does not. */
  predicate IsOptionalString(j: Json) {
    j.JString? || j.JMissing?
  }

  /** `z.number()` */
  predicate IsNumber(j: Json) {
    j.JNumber?
  }

  /** The `type` field of a response: 0 success, 1 internal error,
      2 validation (typing) error, 3 any other (business) error. */
  datatype ApiType = Ok | Internal | Validation | Business {
    function Code(): nat {
      match this
      case Ok => 0
      case Internal => 1
      case Validation => 2
      case Business => 3
    }
  }

  /** An HTTP response carrying the envelope; `success` is `kind == Ok`. */
  datatype Response = Response(status: nat, kind: ApiType)

  /** The three shapes every controller answers with. */
  const Done := Response(200, Ok)
  function Rejected(kind: ApiType): Response {
    Response(201, kind)
  }
  const Crashed := Response(500, Internal)
}
