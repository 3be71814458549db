/** The dynamic values a DataObject record holds, and the PHP rules the menu
    manager relies on when it tests or prints them. */
module Values {

  datatype Option<+T> = None | Some(value: T) {
    function GetOr(default: T): T {
      match this
      case Some(v) => v
      case None => default
    }
  }

  /** The two failures the core can raise: a return value PHP refuses for a
      declared return type, and the duplicate-name validation error. */
  datatype Error = TypeError | DuplicateName(name: string)

  datatype Result<+T> = Ok(value: T) | Err(error: Error)

  /** A scalar as the ORM hands it out: null, a string, an integer or a boolean. */
  datatype Value = Null | Str(s: string) | Int(i: int) | Bool(b: bool)

  /** A record: field name to value, as a DataObject's record array. */
  type Record = map<string, Value>

  /** PHP's truthiness test (`if ($x)`): null, "", "0", 0 and false are false. */
  predicate Truthy(v: Value) {
    match v
    case Null => false
    case Str(s) => s != "" && s != "0"
    case Int(i) => i != 0
    case Bool(b) => b
  }

  /** PHP 8's loose comparison `$v == 'tag'` against a literal made of lower-case
      letters: a string must match exactly, `true` equals every such literal,
      and null, integers and `false` never do. */
  predicate IsTag(v: Value, tag: string) {
    v == Str(tag) || v == Bool(true)
  }

  /** Reading a key of a record; a missing key reads as null. */
  function Get(r: Record, key: string): Value {
    if key in r then r[key] else Null
  }

  function DigitChar(d: nat): char
    requires d < 10
  {
    "0123456789"[d]
  }

  /** Decimal notation of a natural number. */
  function NatString(n: nat): string
    decreases n
  {
    if n < 10 then [DigitChar(n)] else NatString(n / 10) + [DigitChar(n % 10)]
  }

  /** PHP's conversion of an integer to a string. */
  function IntString(i: int): string {
    if i < 0 then "-" + NatString(-i) else NatString(i)
  }

  /** PHP's conversion of a scalar to a string (null and false give ""). */
  function AsString(v: Value): string {
    match v
    case Null => ""
    case Str(s) => s
    case Int(i) => IntString(i)
    case Bool(b) => if b then "1" else ""
  }

  /** A value that compares loosely equal to a non-empty tag other than "0"
      passes PHP's truthiness test. */
  lemma TagIsTruthy(v: Value, tag: string)
    requires tag != "" && tag != "0"
    ensures IsTag(v, tag) ==> Truthy(v)
  {
  }
}
