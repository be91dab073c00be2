/** JSON values as `response.json()` (that is, `JSON.parse`) hands them to the handler,
    JavaScript's property access and truthiness on them, the string conversion that
    `text += part.text` applies, and `JSON.stringify`. Numbers are integers here. */
module JsonValues {
  import opened Wrappers
  import opened JsRuntime

  datatype Json =
    | JNull
    | JBool(b: bool)
    | JNum(n: int)
    | JStr(s: string)
    | JArr(items: seq<Json>)
    | JObj(members: seq<Member>)

  /** One own property of an object. `JObj(members)` lists an object's own properties in
      their JavaScript property order, which is what `JSON.parse` builds: every key once
      (a repeated key in the text keeps its first position and takes its last value), the
      integer-like keys ("0", "12", ...) first in ascending order, then the others in the
      order they first appear. */
  datatype Member = Member(key: string, value: Json)

  /** The value bound to `key` among `ms`. In an object `JSON.parse` built the key occurs
      at most once; the search runs from the end, so on a list with a repeated key it
      finds the last binding, which is the one `JSON.parse` keeps. */
  function Lookup(ms: seq<Member>, key: string): (r: Option<Json>)
    ensures r.None? <==> forall i :: 0 <= i < |ms| ==> ms[i].key != key
    ensures r.Some? ==> exists i :: 0 <= i < |ms| && ms[i].key == key && ms[i].value == r.value &&
                                   forall k :: i < k < |ms| ==> ms[k].key != key
  {
    if ms == [] then None
    else if ms[|ms| - 1].key == key then Some(ms[|ms| - 1].value)
    else
      var r := Lookup(ms[..|ms| - 1], key);
      assert forall k :: 0 <= k < |ms| - 1 ==> ms[..|ms| - 1][k] == ms[k];
      r
  }

  /** `j[key]` for a non-null `j`: only objects have own members, so on every other
      value the access yields `undefined` (`None`). Reading from `null` throws; callers
      deal with that case before they get here. */
  function Get(j: Json, key: string): (r: Option<Json>)
    ensures !j.JObj? ==> r.None?
  {
    if j.JObj? then Lookup(j.members, key) else None
  }

  /** JavaScript truthiness: `null`, `false`, `0` and `""` are falsy, everything else
      (arrays and objects included, even empty ones) is truthy. */
  predicate Truthy(j: Json)
  {
    match j
    case JNull => false
    case JBool(b) => b
    case JNum(n) => n != 0
    case JStr(s) => s != ""
    case JArr(_) => true
    case JObj(_) => true
  }

  /** The decimal digits of `n`, most significant first. */
  function NatToDecimal(n: nat): (r: string)
    ensures |r| > 0
    ensures forall i :: 0 <= i < |r| ==> '0' <= r[i] <= '9'
    ensures n >= 10 ==> r[0] != '0'
  {
    var digit := ('0' as int + n % 10) as char;
    if n < 10 then [digit] else NatToDecimal(n / 10) + [digit]
  }

  /** How JavaScript writes an integer-valued number (below 10^21 in magnitude). */
  function IntToDecimal(n: int): (r: string)
    ensures |r| > 0
  {
    if n < 0 then "-" + NatToDecimal(-n) else NatToDecimal(n)
  }

  /** `ToString(ToPrimitive(v))`, the conversion `text += v` applies to a JSON value.
      Primitives convert directly. An object first calls its `valueOf`, the inherited
      one, which gives back the object itself, and then its `toString`: an own member
      named "toString" hides the inherited method behind a value that cannot be called,
      so the conversion throws; any other object reads "[object Object]". An array
      converts through `join(",")`, each element in turn the same way (`null` elements
      empty), and throws at the first element that throws. */
  function JsToString(j: Json): (r: Result<string, JsError>)
    ensures r.Failure? ==> r.error == NotPrimitive
    ensures j.JObj? ==> (r.Failure? <==> Lookup(j.members, "toString").Some?)
    ensures j.JArr? && (forall i :: 0 <= i < |j.items| ==> !j.items[i].JObj? && !j.items[i].JArr?) ==> r.Success?
  {
    match j
    case JNull => Success("null")
    case JBool(b) => Success(if b then "true" else "false")
    case JNum(n) => Success(IntToDecimal(n))
    case JStr(s) => Success(s)
    case JArr(items) => JoinElements(items)
    case JObj(members) =>
      if Lookup(members, "toString").Some? then Failure(NotPrimitive) else Success("[object Object]")
  }

  /** `Array.prototype.join(",")` on the elements of an array. */
  function JoinElements(items: seq<Json>): (r: Result<string, JsError>)
    ensures r.Failure? ==> r.error == NotPrimitive
    ensures (forall i :: 0 <= i < |items| ==> !items[i].JObj? && !items[i].JArr?) ==> r.Success?
    decreases items
  {
    if items == [] then Success("")
    else
      var first := if items[0].JNull? then Success("") else JsToString(items[0]);
      if first.Failure? || |items| == 1 then first
      else
        var rest := JoinElements(items[1..]);
        if rest.Failure? then rest else Success(first.value + "," + rest.value)
  }

  /** Escapes one character the way `JSON.stringify` does inside a string literal:
      the quote and the backslash, the five short control escapes, and every other
      control character as `\u00XX` with lower-case hex digits. */
  function EscapeChar(c: char): (r: string)
    ensures |r| > 0
  {
    if c == '"' then "\\\""
    else if c == '\\' then "\\\\"
    else if c == '\U{8}' then "\\b"
    else if c == '\U{C}' then "\\f"
    else if c == '\n' then "\\n"
    else if c == '\r' then "\\r"
    else if c == '\t' then "\\t"
    else if (c as int) < 0x20 then "\\u00" + [HexDigit((c as int) / 16), HexDigit((c as int) % 16)]
    else [c]
  }

  function HexDigit(d: nat): char
    requires d < 16
  {
    if d < 10 then ('0' as int + d) as char else ('a' as int + d - 10) as char
  }

  function Escape(s: string): string
  {
    if s == [] then "" else EscapeChar(s[0]) + Escape(s[1..])
  }

  /** `JSON.stringify(j)`. The result is never empty, and its first character tells
      the kind of value it serialises. */
  function Stringify(j: Json): (r: string)
    ensures |r| > 0
    ensures j.JObj? ==> r[0] == '{'
    ensures j.JArr? ==> r[0] == '['
    ensures j.JStr? ==> r[0] == '"'
  {
    match j
    case JNull => "null"
    case JBool(b) => if b then "true" else "false"
    case JNum(n) => IntToDecimal(n)
    case JStr(s) => "\"" + Escape(s) + "\""
    case JArr(items) => "[" + StringifyElements(items) + "]"
    case JObj(members) => "{" + StringifyMembers(members) + "}"
  }

  function StringifyElements(items: seq<Json>): string
    decreases items
  {
    if items == [] then ""
    else if |items| == 1 then Stringify(items[0])
    else Stringify(items[0]) + "," + StringifyElements(items[1..])
  }

  function StringifyMembers(members: seq<Member>): string
    decreases members
  {
    if members == [] then ""
    else
      var m := "\"" + Escape(members[0].key) + "\":" + Stringify(members[0].value);
      if |members| == 1 then m else m + "," + StringifyMembers(members[1..])
  }
}
