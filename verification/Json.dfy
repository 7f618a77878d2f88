/** JSON values and the pure rendering that the buffer printer is held to. */
module Json {
  import opened Decimal

  const NUL: char := 0 as char
  const BACKSPACE: char := 8 as char
  const FORM_FEED: char := 12 as char

  /** A value tree.  Numbers are exact reals; object members keep their order. */
  datatype Json =
    | Null
    | Bool(b: bool)
    | Number(r: real)
    | String(s: string)
    | Array(items: seq<Json>)
    | Object(members: seq<Member>)

  datatype Member = Member(key: string, value: Json)

  predicate NulFree(s: string) {
    forall i :: 0 <= i < |s| ==> s[i] != NUL
  }

  /** Numbers that `"%1.15g"` prints as a plain decimal integer. */
  predicate PlainInteger(r: real) {
    r.Floor as real == r && -1_000_000_000_000_000 < r.Floor < 1_000_000_000_000_000
  }

  predicate Printable(v: Json) {
    match v
    case Null => true
    case Bool(_) => true
    case Number(r) => PlainInteger(r)
    case String(s) => NulFree(s)
    case Array(items) => PrintableItems(items)
    case Object(ms) => PrintableMembers(ms)
  }

  predicate PrintableItems(items: seq<Json>) {
    forall i :: 0 <= i < |items| ==> Printable(items[i])
  }

  predicate PrintableMembers(ms: seq<Member>) {
    forall i :: 0 <= i < |ms| ==> PrintableMember(ms[i])
  }

  predicate PrintableMember(m: Member) {
    NulFree(m.key) && Printable(m.value)
  }

  function Max(a: nat, b: nat): nat {
    if a < b then b else a
  }

  /** How many containers are open at the deepest point of `v`. */
  function Nesting(v: Json): nat
    decreases v, 1
  {
    match v
    case Array(items) => 1 + NestingItems(items)
    case Object(ms) => 1 + NestingMembers(ms)
    case _ => 0
  }

  function NestingItems(items: seq<Json>): nat
    decreases items, 0
  {
    if items == [] then 0 else Max(Nesting(items[0]), NestingItems(items[1..]))
  }

  function NestingMembers(ms: seq<Member>): nat
    decreases ms, 0
  {
    if ms == [] then 0 else Max(Nesting(ms[0].value), NestingMembers(ms[1..]))
  }

  // ---- Rendering ----

  function HexDigit(d: nat): char
    requires d < 16
  {
    if d < 10 then ('0' as int + d) as char else ('a' as int + d - 10) as char
  }

  function EscapeChar(c: char): (e: string)
    ensures |e| == 1 || |e| == 2 || |e| == 6
    ensures c != NUL ==> NulFree(e)
  {
    if c == '"' then "\\\""
    else if c == '\\' then "\\\\"
    else if c == BACKSPACE then "\\b"
    else if c == FORM_FEED then "\\f"
    else if c == '\n' then "\\n"
    else if c == '\r' then "\\r"
    else if c == '\t' then "\\t"
    else if c < ' ' then ['\\', 'u', '0', '0', HexDigit(c as int / 16), HexDigit(c as int % 16)]
    else [c]
  }

  function Escape(s: string): string {
    if s == [] then [] else EscapeChar(s[0]) + Escape(s[1..])
  }

  function RenderString(s: string): string {
    "\"" + Escape(s) + "\""
  }

  function RenderInt(n: int): (s: string)
    ensures |s| > 0
  {
    if n < 0 then "-" + Digits(-n) else Digits(n)
  }

  function Tabs(n: nat): (s: string)
    ensures |s| == n && forall i :: 0 <= i < n ==> s[i] == '\t'
  {
    seq(n, _ => '\t')
  }

  function Indent(fmt: bool, n: nat): string {
    if fmt then Tabs(n) else ""
  }

  /** The text of `v` when `depth` containers are already open. */
  function Render(v: Json, fmt: bool, depth: nat): (s: string)
    requires Printable(v)
    ensures |s| > 0
    decreases v, 1
  {
    match v
    case Null => "null"
    case Bool(b) => if b then "true" else "false"
    case Number(r) => RenderInt(r.Floor)
    case String(s) => RenderString(s)
    case Array(items) => "[" + RenderItems(items, fmt, depth + 1) + "]"
    case Object(ms) =>
      OpenBrace(fmt) + RenderMembers(ms, fmt, depth + 1) + Indent(fmt, depth) + "}"
  }

  function ItemSeparator(fmt: bool): string {
    if fmt then ", " else ","
  }

  function RenderItems(items: seq<Json>, fmt: bool, depth: nat): string
    requires PrintableItems(items)
    decreases items, 0
  {
    if items == [] then ""
    else if |items| == 1 then Render(items[0], fmt, depth)
    else Render(items[0], fmt, depth) + ItemSeparator(fmt) + RenderItems(items[1..], fmt, depth)
  }

  function OpenBrace(fmt: bool): (s: string)
    ensures |s| == if fmt then 2 else 1
  {
    if fmt then "{\n" else "{"
  }

  function KeySeparator(fmt: bool): string {
    if fmt then ":\t" else ":"
  }

  function MemberEnd(last: bool, fmt: bool): string {
    (if last then "" else ",") + (if fmt then "\n" else "")
  }

  function RenderMembers(ms: seq<Member>, fmt: bool, depth: nat): string
    requires PrintableMembers(ms)
    decreases ms, 0
  {
    if ms == [] then ""
    else
      assert PrintableMember(ms[0]);
      Indent(fmt, depth) + RenderString(ms[0].key) + KeySeparator(fmt)
      + Render(ms[0].value, fmt, depth) + MemberEnd(|ms| == 1, fmt)
      + RenderMembers(ms[1..], fmt, depth)
  }
}
