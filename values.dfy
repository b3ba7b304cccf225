/**
 * JavaScript values as the route handlers receive them in request bodies, and
 * the JavaScript and SQLite conversions the handlers rely on: truthiness,
 * `a || b`, `v ? 1 : 0`, parameter binding, `column = ?` comparison, string
 * conversion in template literals and `Array.prototype.join`, and ASCII case
 * mapping.
 */
module Values {

  datatype Option<+T> = None | Some(value: T)

  datatype Result<+T, +E> = Ok(value: T) | Err(error: E)

  /** A JSON value as Express hands it to a handler; numbers are integers. */
  datatype Value =
    | Undefined
    | Null
    | Bool(b: bool)
    | Num(n: int)
    | Str(s: string)
    | List(items: seq<Value>)
    | Obj(fields: seq<(string, Value)>)

  /** JavaScript's ToBoolean: `undefined`, `null`, `false`, `0` and `""` are falsy. */
  predicate Truthy(v: Value) {
    match v
    case Undefined => false
    case Null => false
    case Bool(b) => b
    case Num(n) => n != 0
    case Str(s) => s != ""
    case List(_) => true
    case Obj(_) => true
  }

  /** `a || b`: the left operand when it is truthy, otherwise the right one. */
  function Or(a: Value, b: Value): (r: Value)
    ensures Truthy(r) <==> Truthy(a) || Truthy(b)
    ensures Truthy(a) ==> r == a
  {
    if Truthy(a) then a else b
  }

  /** `v ? 1 : 0`, the way the handlers store booleans. */
  function Flag(v: Value): (f: int)
    ensures f == 0 || f == 1
    ensures f == 1 <==> Truthy(v)
  {
    if Truthy(v) then 1 else 0
  }

  /**
   * What the SQLite driver stores for a bound parameter: `undefined` becomes
   * NULL and a boolean becomes the integer 1 or 0; everything else is kept.
   */
  function Bind(v: Value): (r: Value)
    ensures r != Undefined && !r.Bool?
    ensures Truthy(r) <==> Truthy(v)
  {
    match v
    case Undefined => Null
    case Bool(b) => Num(if b then 1 else 0)
    case _ => v
  }

  /** `column = ?` in a WHERE clause with `param` bound: NULL on either side matches nothing. */
  predicate Matches(column: Value, param: Value) {
    column != Null && Bind(param) != Null && column == Bind(param)
  }

  /** `Array.isArray(v)` */
  predicate IsArray(v: Value) {
    v.List?
  }

  /** The property `key` of a parsed JSON value (`{ key } = v`), the last one when a key repeats. */
  function Field(v: Value, key: string): (r: Value)
    ensures r != Undefined ==> v.Obj?
  {
    match v
    case Obj(fields) => FieldIn(fields, key)
    case _ => Undefined
  }

  function FieldIn(fields: seq<(string, Value)>, key: string): (r: Value)
    ensures r == Undefined || exists i :: 0 <= i < |fields| && fields[i] == (key, r)
  {
    if fields == [] then Undefined
    else if fields[|fields| - 1].0 == key then fields[|fields| - 1].1
    else FieldIn(fields[..|fields| - 1], key)
  }

  function Digit(d: nat): char
    requires d < 10
  {
    "0123456789"[d]
  }

  /** The decimal text of a natural number, as JavaScript prints it. */
  function NatToString(n: nat): (s: string)
    ensures |s| >= 1
    ensures forall i :: 0 <= i < |s| ==> '0' <= s[i] <= '9'
  {
    if n < 10 then [Digit(n)] else NatToString(n / 10) + [Digit(n % 10)]
  }

  function IntToString(n: int): string {
    if n < 0 then "-" + NatToString(-n) else NatToString(n)
  }

  /** The text of a value in a template literal or `String(v)`. */
  function ToText(v: Value): string
    decreases v, 1
  {
    match v
    case Undefined => "undefined"
    case Null => "null"
    case Bool(b) => if b then "true" else "false"
    case Num(n) => IntToString(n)
    case Str(s) => s
    case List(items) => JoinItems(v, items)
    case Obj(_) => "[object Object]"
  }

  /** `items.join(',')`, where `null` and `undefined` elements print as the empty string. */
  function JoinItems(ghost whole: Value, items: seq<Value>): string
    requires forall i :: 0 <= i < |items| ==> items[i] < whole
    decreases whole, 0, |items|
  {
    if items == [] then ""
    else
      var first := if items[0] == Null || items[0] == Undefined then "" else ToText(items[0]);
      if |items| == 1 then first else first + "," + JoinItems(whole, items[1..])
  }

  /** `parts.join(sep)` over strings. */
  function Join(parts: seq<string>, sep: string): (r: string)
    ensures parts == [] ==> r == ""
    ensures |parts| == 1 ==> r == parts[0]
    ensures |parts| == 2 ==> r == parts[0] + sep + parts[1]
  {
    if parts == [] then ""
    else if |parts| == 1 then parts[0]
    else Join(parts[..|parts| - 1], sep) + sep + parts[|parts| - 1]
  }

  predicate IsAsciiLower(c: char) { 'a' <= c <= 'z' }

  predicate IsAsciiUpper(c: char) { 'A' <= c <= 'Z' }

  /** `toUpperCase` restricted to ASCII letters. */
  function UpperChar(c: char): (u: char)
    ensures !IsAsciiLower(u)
    ensures IsAsciiLower(c) ==> LowerChar(u) == c
    ensures !IsAsciiLower(c) ==> u == c
  {
    if IsAsciiLower(c) then (c as int - 32) as char else c
  }

  /** `toLowerCase` restricted to ASCII letters. */
  function LowerChar(c: char): (l: char)
    ensures !IsAsciiUpper(l)
    ensures !IsAsciiUpper(c) ==> l == c
  {
    if IsAsciiUpper(c) then (c as int + 32) as char else c
  }

  function Upper(s: string): (r: string)
    ensures |r| == |s|
    ensures forall i :: 0 <= i < |s| ==> r[i] == UpperChar(s[i])
  {
    if s == [] then [] else [UpperChar(s[0])] + Upper(s[1..])
  }

  function Lower(s: string): (r: string)
    ensures |r| == |s|
    ensures forall i :: 0 <= i < |s| ==> r[i] == LowerChar(s[i])
  {
    if s == [] then [] else [LowerChar(s[0])] + Lower(s[1..])
  }

  /** `s.substr(start, len)` for non-negative arguments. */
  function Substr(s: string, start: nat, len: nat): (r: string)
    ensures |r| <= len
    ensures start + len <= |s| ==> r == s[start..start + len]
  {
    var a := if start <= |s| then start else |s|;
    var b := if start + len <= |s| then start + len else |s|;
    s[a..b]
  }

  /** `s.substring(0, n)` */
  function Prefix(s: string, n: nat): (r: string)
    ensures |r| == if n <= |s| then n else |s|
    ensures r <= s
  {
    if n <= |s| then s[..n] else s
  }
}
