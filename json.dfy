/** JSON values as the client receives them, and their compact rendering (what
    `serde_json::Value::to_string` produces). Numbers are integers here. */
module Json {
  import opened Wrappers

  datatype Value =
    | Null
    | Bool(b: bool)
    | Number(n: int)
    | String(s: string)
    | Array(items: seq<Value>)
    | Object(members: seq<Member>)

  datatype Member = Member(key: string, value: Value)

  /** The value stored under `key` in an object's members, the first one if repeated. */
  function Get(members: seq<Member>, key: string): (r: Option<Value>)
    ensures r.Some? ==> Member(key, r.value) in members
    ensures r.None? <==> forall i :: 0 <= i < |members| ==> members[i].key != key
  {
    if members == [] then None
    else if members[0].key == key then Some(members[0].value)
    else Get(members[1..], key)
  }

  function Digit(d: nat): char
    requires d < 10
  {
    "0123456789"[d]
  }

  function RenderNat(n: nat): (s: string)
    ensures |s| > 0
  {
    if n < 10 then [Digit(n)] else RenderNat(n / 10) + [Digit(n % 10)]
  }

  function RenderInt(n: int): (s: string)
    ensures |s| > 0
  {
    if n < 0 then "-" + RenderNat(-n) else RenderNat(n)
  }

  function HexDigit(d: nat): char
    requires d < 16
  {
    "0123456789abcdef"[d]
  }

  /** How one character of a string appears inside the quotes. */
  function EscapeChar(c: char): string {
    if c == '"' then "\\\""
    else if c == '\\' then "\\\\"
    else if c == '\n' then "\\n"
    else if c == '\r' then "\\r"
    else if c == '\t' then "\\t"
    else if c == 8 as char then "\\b"
    else if c == 12 as char then "\\f"
    else if (c as int) < 0x20 then "\\u00" + [HexDigit(c as int / 16), HexDigit(c as int % 16)]
    else [c]
  }

  function Escape(s: string): string {
    if s == [] then "" else EscapeChar(s[0]) + Escape(s[1..])
  }

  function RenderString(s: string): (r: string)
    ensures |r| >= 2 && r[0] == '"' && r[|r| - 1] == '"'
  {
    "\"" + Escape(s) + "\""
  }

  /** The compact rendering: no whitespace, members in stored order. */
  function Render(v: Value): (s: string)
    ensures |s| > 0
    decreases v
  {
    match v
    case Null => "null"
    case Bool(b) => if b then "true" else "false"
    case Number(n) => RenderInt(n)
    case String(s) => RenderString(s)
    case Array(items) => "[" + RenderItems(items) + "]"
    case Object(members) => "{" + RenderMembers(members) + "}"
  }

  function RenderItems(items: seq<Value>): string
    decreases items
  {
    if items == [] then ""
    else if |items| == 1 then Render(items[0])
    else Render(items[0]) + "," + RenderItems(items[1..])
  }

  function RenderMembers(members: seq<Member>): string
    decreases members
  {
    if members == [] then ""
    else
      var first := RenderString(members[0].key) + ":" + Render(members[0].value);
      if |members| == 1 then first else first + "," + RenderMembers(members[1..])
  }
}
