/**
 * JSON values as `serde_json::Value` holds them, and their compact text
 * (`Value::to_string`), which `from_str_optional` feeds to `from_str`.
 */
module Json {
  import opened Text
  import opened Numbers

  /** The integers serde_json keeps as integers: those that fit `i64` or `u64`. */
  type JsonInt = i: int | -0x8000_0000_0000_0000 <= i < 0x1_0000_0000_0000_0000

  /**
   * A JSON number: an integer in `JsonInt`, or a float kept as the text serde_json
   * prints for it. A wider integer literal is read as a float.
   */
  datatype JsonNumber = Int(i: JsonInt) | Float(text: string)

  datatype Value =
    | Null
    | Bool(b: bool)
    | Number(n: JsonNumber)
    | String(s: string)
    | Array(items: seq<Value>)
    | Object(members: seq<(string, Value)>)

  const HexDigits: string := "0123456789abcdef"

  /** serde_json's escaping of one character inside a string literal. */
  function EscapeChar(c: char): string {
    if c == '"' then "\\\""
    else if c == '\\' then "\\\\"
    else if c == 8 as char then "\\b"
    else if c == 12 as char then "\\f"
    else if c == '\n' then "\\n"
    else if c == '\r' then "\\r"
    else if c == '\t' then "\\t"
    else if c < ' ' then "\\u00" + [HexDigits[c as int / 16], HexDigits[c as int % 16]]
    else [c]
  }

  function Escape(s: string): string {
    if s == [] then "" else EscapeChar(s[0]) + Escape(s[1..])
  }

  function QuoteJson(s: string): string {
    "\"" + Escape(s) + "\""
  }

  /** Compact JSON text: no spaces, `,` between items, `:` between key and value. */
  function ToText(v: Value): string
    decreases v
  {
    match v
    case Null => "null"
    case Bool(b) => if b then "true" else "false"
    case Number(n) =>
      (match n
       case Int(i) => IntToString(i)
       case Float(t) => t)
    case String(s) => QuoteJson(s)
    case Array(items) =>
      "[" + Join(",", seq(|items|, k requires 0 <= k < |items| => ToText(items[k]))) + "]"
    case Object(ms) =>
      "{" + Join(",", seq(|ms|, k requires 0 <= k < |ms| => QuoteJson(ms[k].0) + ":" + ToText(ms[k].1))) + "}"
  }

  /** The text of anything but a number opens with a letter, a quote or a bracket: never a digit or a sign. */
  lemma NonNumberText(v: Value)
    requires !v.Number?
    ensures |ToText(v)| > 0 && ToText(v)[0] in "ntf\"[{"
  {
  }
}
