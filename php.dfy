/**
 * The PHP values the Legal module reads from requests, sessions, module
 * variables and user attributes, together with the PHP tests it applies to
 * them: `isset`, `empty`, truthiness, `is_array`, `is_numeric`, array
 * indexing and the loose comparison `!= 0`.
 */
module Php {

  /** A PHP value; associative arrays are keyed by strings. */
  datatype Value =
    | Null
    | Bool(b: bool)
    | Int(i: int)
    | Str(s: string)
    | Arr(entries: map<string, Value>)

  /** `empty($s)` on a string: only "" and "0" are empty. */
  predicate IsEmpty(s: string) {
    s == "" || s == "0"
  }

  /** `empty($v)` */
  predicate Empty(v: Value) {
    match v
    case Null => true
    case Bool(b) => !b
    case Int(i) => i == 0
    case Str(s) => IsEmpty(s)
    case Arr(m) => m == map[]
  }

  /** The truth value PHP gives `$v` in a condition. */
  predicate Truthy(v: Value) {
    !Empty(v)
  }

  /** `isset($v)` */
  predicate IsSet(v: Value) {
    !v.Null?
  }

  /** `is_array($v)` */
  predicate IsArray(v: Value) {
    v.Arr?
  }

  /**
   * `get($key, $default)` on a string-keyed store (module variables, the
   * session): the entry under `$key`, or `$default` when there is none.
   */
  function Lookup(m: map<string, Value>, key: string, default: Value): (v: Value)
    ensures key in m ==> v == m[key]
    ensures key !in m ==> v == default
  {
    if key in m then m[key] else default
  }

  /**
   * `$v[$key]` as the module reads it: the entry when `$v` is an array holding
   * `$key`, otherwise null (which is what `isset($v[$key])` tests for).
   */
  function Index(v: Value, key: string): (r: Value)
    ensures IsSet(r) ==> v.Arr? && key in v.entries && r == v.entries[key]
    ensures v.Arr? && key in v.entries ==> r == v.entries[key]
  {
    if v.Arr? && key in v.entries then v.entries[key] else Null
  }

  predicate IsDigit(c: char) {
    '0' <= c <= '9'
  }

  predicate AllDigits(s: string) {
    forall i :: 0 <= i < |s| ==> IsDigit(s[i])
  }

  /** A numeric string: an optional sign followed by at least one decimal digit. */
  predicate IsNumericString(s: string) {
    if |s| > 0 && (s[0] == '+' || s[0] == '-') then |s| > 1 && AllDigits(s[1..])
    else |s| > 0 && AllDigits(s)
  }

  /** `is_numeric($v)` */
  predicate IsNumeric(v: Value) {
    v.Int? || (v.Str? && IsNumericString(v.s))
  }

  /** The value of a string of decimal digits, most significant digit first. */
  function DecimalValue(s: string): (n: nat)
    requires AllDigits(s)
    ensures n == 0 <==> forall i :: 0 <= i < |s| ==> s[i] == '0'
  {
    if s == [] then 0
    else
      var d := (s[|s| - 1] as int) - ('0' as int);
      assert forall i :: 0 <= i < |s| - 1 ==> s[..|s| - 1][i] == s[i];
      DecimalValue(s[..|s| - 1]) * 10 + d
  }

  /** The integer a numeric value stands for. */
  function IntValue(v: Value): (n: int)
    requires IsNumeric(v)
  {
    if v.Int? then v.i
    else if v.s[0] == '-' then 0 - (DecimalValue(v.s[1..]) as int)
    else if v.s[0] == '+' then DecimalValue(v.s[1..])
    else DecimalValue(v.s)
  }

  /**
   * `$v != 0` with PHP's loose comparison as the module's PHP versions apply
   * it: null and false equal 0, true and every array differ from it, and a
   * string is compared by its numeric value (0 when it is not numeric).
   */
  function LooseNotZero(v: Value): (r: bool)
    ensures v.Null? ==> !r
    ensures v.Int? ==> (r <==> v.i != 0)
    ensures v.Str? && |v.s| > 0 && AllDigits(v.s) ==> (r <==> exists i :: 0 <= i < |v.s| && v.s[i] != '0')
    ensures v.Str? && !IsNumericString(v.s) ==> !r
  {
    match v
    case Null => false
    case Bool(b) => b
    case Int(i) => i != 0
    case Str(s) => IsNumericString(s) && IntValue(v) != 0
    case Arr(_) => true
  }
}
