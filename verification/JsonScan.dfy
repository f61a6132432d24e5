/**
 The language of the JSON grammar as plain recursive functions: how many bytes each construct takes
 at the front of a buffer, and where the content of a value lies.
 */
module JsonScan {
  import opened Common
  import opened JsonGrammar

  // ---------- tokens ----------

  predicate IsSpace(b: byte) {
    b == 0x20 || b == 0x0A || b == 0x0D || b == 0x09
  }

  predicate IsDigit(b: byte) {
    0x30 <= b <= 0x39
  }

  predicate IsHex(b: byte) {
    IsDigit(b) || 0x41 <= b <= 0x46 || 0x61 <= b <= 0x66
  }

  predicate IsSimpleEscape(b: byte) {
    b == 0x22 || b == 0x5C || b == 0x2F || b == 0x62 || b == 0x66 || b == 0x6E || b == 0x72 || b == 0x74
  }

  function WsLen(s: bytes): (n: nat)
    ensures n <= |s|
  {
    if s == [] || !IsSpace(s[0]) then 0 else 1 + WsLen(s[1..])
  }

  function DigitsLen(s: bytes): (n: nat)
    ensures n <= |s|
  {
    if s == [] || !IsDigit(s[0]) then 0 else 1 + DigitsLen(s[1..])
  }

  /** Length of the escape sequence at the front, or 0. */
  function EscapeLen(s: bytes): (n: nat)
    ensures n <= |s|
  {
    if |s| < 2 || s[0] != 0x5C then 0
    else if IsSimpleEscape(s[1]) then 2
    else if s[1] == 0x75 && |s| >= 6 && IsHex(s[2]) && IsHex(s[3]) && IsHex(s[4]) && IsHex(s[5]) then 6
    else 0
  }

  /** Length of the string character at the front, or 0. */
  function CharLen(s: bytes): (n: nat)
    ensures n <= |s|
  {
    if CodepointLen(s) > 0 then CodepointLen(s) else EscapeLen(s)
  }

  function CharsLen(s: bytes): (n: nat)
    ensures n <= |s|
    decreases |s|
  {
    var c := CharLen(s);
    if c == 0 then 0 else c + CharsLen(s[c..])
  }

  /** Length of the string literal at the front with its quotes, or 0. */
  function StrLen(s: bytes): (n: nat)
    ensures n <= |s| && (n > 0 ==> n >= 2)
  {
    if s == [] || s[0] != 0x22 then 0
    else
      var n := CharsLen(s[1..]);
      if 1 + n < |s| && s[1 + n] == 0x22 then n + 2 else 0
  }

  function SignLen(s: bytes): (n: nat)
    ensures n <= |s|
  {
    if s != [] && s[0] == 0x2D then 1 else 0
  }

  /** Length of an unsigned integer without superfluous zeros, or 0. */
  function NatLen(s: bytes): (n: nat)
    ensures n <= |s|
  {
    if s == [] || !IsDigit(s[0]) then 0
    else if s[0] == 0x30 then 1
    else 1 + DigitsLen(s[1..])
  }

  function IntLen(s: bytes): (n: nat)
    ensures n <= |s|
  {
    var m := NatLen(s[SignLen(s)..]);
    if m == 0 then 0 else SignLen(s) + m
  }

  function FracLen(s: bytes): (n: nat)
    ensures n <= |s|
  {
    if s == [] || s[0] != 0x2E then 0 else 1 + DigitsLen(s[1..])
  }

  function ExpSignLen(s: bytes): (n: nat)
    ensures n <= |s|
  {
    if s != [] && (s[0] == 0x2B || s[0] == 0x2D) then 1 else 0
  }

  function ExpLen(s: bytes): (n: nat)
    ensures n <= |s|
  {
    if s == [] || (s[0] != 0x65 && s[0] != 0x45) then 0
    else
      var g := ExpSignLen(s[1..]);
      var d := DigitsLen(s[1 + g..]);
      if d == 0 then 0 else 1 + g + d
  }

  function NumLen(s: bytes): (n: nat)
    ensures n <= |s|
  {
    var i := IntLen(s);
    if i == 0 then 0
    else
      var f := FracLen(s[i..]);
      i + f + ExpLen(s[i + f..])
  }

  // ---------- values ----------

  /** A value takes `n` bytes; its content is the `len` bytes from `at`, with `count` elements. */
  datatype Scan = Scan(n: nat, ty: JsonType, at: nat, len: nat, count: nat)

  /** The elements or members inside brackets: bytes taken and how many there are. */
  datatype Extent = Extent(n: nat, count: nat)

  predicate StartsWith(s: bytes, t: bytes) {
    |s| >= |t| && s[..|t|] == t
  }

  /** PARSER_JSON_VALUE: a value and the whitespace around it. */
  function Val(s: bytes): (r: Option<Scan>)
    ensures r.Some? ==> 0 < r.value.n <= |s| && r.value.at + r.value.len <= r.value.n
    ensures r.Some? && (r.value.ty == TArray || r.value.ty == TObject) ==> r.value.len < r.value.n
    decreases |s|, 2
  {
    var w := WsLen(s);
    match Core(s[w..])
    case None => None
    case Some(c) => Some(Scan(w + c.n + WsLen(s[w + c.n..]), c.ty, w + c.at, c.len, c.count))
  }

  function Core(s: bytes): (r: Option<Scan>)
    ensures r.Some? ==> 0 < r.value.n <= |s| && r.value.at + r.value.len <= r.value.n
    ensures r.Some? && (r.value.ty == TArray || r.value.ty == TObject) ==> r.value.len < r.value.n
    decreases |s|, 1
  {
    if s == [] then None
    else if s[0] == 0x22 then
      var n := StrLen(s);
      if n == 0 then None else Some(Scan(n, TStr, 1, n - 2, 0))
    else if s[0] == 0x2D || IsDigit(s[0]) then
      var n := NumLen(s);
      if n == 0 then None else Some(Scan(n, TNumber, 0, n, 0))
    else if s[0] == 0x7B then Enclosed(s, TObject, 0x7D, Members(s[1 + WsLen(s[1..])..]))
    else if s[0] == 0x5B then Enclosed(s, TArray, 0x5D, Elems(s[1 + WsLen(s[1..])..]))
    else if StartsWith(s, TRUE_TEXT) then Some(Scan(4, TTrue, 0, 4, 0))
    else if StartsWith(s, FALSE_TEXT) then Some(Scan(5, TFalse, 0, 5, 0))
    else if StartsWith(s, NULL_TEXT) then Some(Scan(4, TNull, 0, 4, 0))
    else None
  }

  /** An opening bracket and whitespace, the content if there is any, and the closing bracket. */
  function Enclosed(s: bytes, ty: JsonType, close: byte, content: Option<Extent>): (r: Option<Scan>)
    requires s != [] && (content.Some? ==> content.value.n <= |s| - 1 - WsLen(s[1..]))
    ensures r.Some? ==> 0 < r.value.n <= |s| && r.value.at + r.value.len <= r.value.n
    ensures r.Some? && (r.value.ty == TArray || r.value.ty == TObject) ==> r.value.len < r.value.n
  {
    var start := 1 + WsLen(s[1..]);
    var e := if content.Some? then content.value else Extent(0, 0);
    if start + e.n < |s| && s[start + e.n] == close then Some(Scan(start + e.n + 1, ty, start, e.n, e.count)) else None
  }

  /** One or more values separated by commas. */
  function Elems(s: bytes): (r: Option<Extent>)
    ensures r.Some? ==> 0 < r.value.n <= |s| && r.value.count > 0
    decreases |s|, 3
  {
    match Val(s)
    case None => None
    case Some(v) =>
      if v.n < |s| && s[v.n] == 0x2C then
        match Elems(s[v.n + 1..])
        case None => None
        case Some(e) => Some(Extent(v.n + 1 + e.n, 1 + e.count))
      else Some(Extent(v.n, 1))
  }

  /** A key, a colon and a value. */
  function KvLen(s: bytes): (n: nat)
    ensures n <= |s|
    decreases |s|, 3
  {
    var k := StrLen(s);
    if k == 0 then 0
    else
      var w := k + WsLen(s[k..]);
      if w == |s| || s[w] != 0x3A then 0
      else match Val(s[w + 1..])
        case None => 0
        case Some(v) => w + 1 + v.n
  }

  /** A member followed by a comma and whitespace, and how far it reaches. */
  function KvCommaLen(s: bytes): (n: nat)
    ensures n <= |s| && (n > 0 ==> KvLen(s) > 0)
    decreases |s|, 4
  {
    var k := KvLen(s);
    if k == 0 || k == |s| || s[k] != 0x2C then 0 else k + 1 + WsLen(s[k + 1..])
  }

  /** One or more members separated by commas. */
  function Members(s: bytes): (r: Option<Extent>)
    ensures r.Some? ==> 0 < r.value.n <= |s| && r.value.count > 0
    decreases |s|, 5
  {
    var k, w := KvLen(s), KvCommaLen(s);
    if k == 0 then None
    else if w == 0 then Some(Extent(k, 1))
    else match Members(s[w..])
      case None => None
      case Some(e) => Some(Extent(w + e.n, 1 + e.count))
  }
}
