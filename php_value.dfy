/**
 * The PHP values the request pipeline handles: what `json_decode($body, true)`
 * and the query string produce, floats excepted, with PHP's `empty`, `isset`, `is_*` tests
 * and the `(string)` and `(int)` casts the listeners apply.
 */
module Php {

  import opened Wrappers
  import OxygenException
  import Util

  /**
   * A PHP value: null, a boolean, an integer, a string, or an array
   * (keys written as strings; a list has keys "0", "1", ...).
   */
  datatype Value =
    | Null
    | Bool(b: bool)
    | Int(i: int)
    | Str(s: string)
    | Arr(entries: map<string, Value>)

  /** `empty($v)`: null, false, 0, "", "0" and the empty array. */
  predicate Empty(v: Value)
  {
    match v
    case Null => true
    case Bool(b) => !b
    case Int(i) => i == 0
    case Str(s) => s == "" || s == "0"
    case Arr(m) => |m| == 0
  }

  /** A field of a request record: absent, or present with a value. */
  function Field(data: map<string, Value>, name: string): (v: Option<Value>)
    ensures v.Some? <==> name in data
    ensures v.Some? ==> v.value == data[name]
  {
    if name in data then Some(data[name]) else None
  }

  /** `isset($data->name)`: present and not null. */
  predicate IsSet(data: map<string, Value>, name: string)
  {
    name in data && !data[name].Null?
  }

  /** `empty($data->name)`: absent, or present with an empty value. */
  predicate EmptyField(data: map<string, Value>, name: string)
  {
    name !in data || Empty(data[name])
  }

  /** What is not set is empty; the converse fails for "", "0", 0, false and []. */
  lemma NotSetIsEmpty(data: map<string, Value>, name: string)
    ensures !IsSet(data, name) ==> EmptyField(data, name)
    ensures EmptyField(data, name) && name in data && data[name] == Str("") ==> IsSet(data, name)
  {
  }

  /** The string of a field that is a string, "" otherwise. */
  function StringField(data: map<string, Value>, name: string): (s: string)
  {
    if name in data && data[name].Str? then data[name].s else ""
  }

  /** `(string)$v` on scalars; an array prints as "Array". */
  function ToText(v: Value): (s: string)
    ensures v.Str? ==> s == v.s
  {
    match v
    case Null => ""
    case Bool(b) => if b then "1" else ""
    case Int(i) => OxygenException.Decimal(i)
    case Str(s) => s
    case Arr(_) => "Array"
  }

  /**
   * `preg_match('{^...$}', $s)` for a pattern whose body is `shape`:
   * `$` without the D modifier also matches just before a final
   * line break, so `^...$` accepts a subject with one trailing "\n".
   */
  predicate AnchoredMatch(s: string, shape: string -> bool)
  {
    shape(s) || (|s| > 0 && s[|s| - 1] == '\n' && shape(s[..|s| - 1]))
  }

  /** `$data->name` (or `$data['name']`): the value of a field, null when absent. */
  function Get(data: map<string, Value>, name: string): (v: Value)
    ensures name in data ==> v == data[name]
    ensures name !in data ==> v == Null
  {
    if name in data then data[name] else Null
  }

  /** The entries `$v[$key]` reads: those of an array, none for any other value. */
  function Entries(v: Value): (m: map<string, Value>)
    ensures v.Arr? ==> m == v.entries
    ensures !v.Arr? ==> m == map[]
  {
    if v.Arr? then v.entries else map[]
  }

  /** `(int)$v`: a string is read as its leading decimal number. */
  function ToInt(v: Value): (i: int)
    ensures v.Int? ==> i == v.i
  {
    match v
    case Null => 0
    case Bool(b) => if b then 1 else 0
    case Int(i) => i
    case Str(s) => Util.IntVal(s, 10)
    case Arr(m) => if |m| == 0 then 0 else 1
  }

  /** `gettype($v)`. */
  function TypeOf(v: Value): (t: string)
    ensures v.Arr? <==> t == "array"
  {
    match v
    case Null => "NULL"
    case Bool(_) => "boolean"
    case Int(_) => "integer"
    case Str(_) => "string"
    case Arr(_) => "array"
  }
}
