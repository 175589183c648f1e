/**
  JSON text: the printers used by `json.dumps` (Python) and `JSON.stringify`
  (JavaScript), the parser on the other side, and the proof that parsing inverts
  printing in every layout.
 */
module JsonText {
  import opened Wrappers
  import opened JsonModel

  /** A JSON value whose object members are in the order they are printed. */
  datatype Tree =
    | TNull
    | TBool(truth: bool)
    | TNum(literal: NumberText)
    | TStr(text: string)
    | TArr(items: seq<Tree>)
    | TObj(members: seq<(string, Tree)>)

  /** `ascii`: escape everything outside printable ASCII.  `pretty`: indent by two. */
  datatype Style = Style(ascii: bool, pretty: bool)

  // ---------------------------------------------------------------- printing

  function HexDigit(n: nat): (c: char)
    requires n < 16
    ensures c != '"'
  {
    if n < 10 then '0' + n as char else 'a' + (n - 10) as char
  }

  function Hex4(n: nat): (s: string)
    requires n < 0x10000
    ensures |s| == 4
  {
    [HexDigit(n / 0x1000), HexDigit(n / 0x100 % 0x10), HexDigit(n / 0x10 % 0x10), HexDigit(n % 0x10)]
  }

  function Escape(c: char, ascii: bool): (code: string)
    ensures code != "" && code[0] != '"' && code[0] >= ' '
  {
    if c == '"' then "\\\""
    else if c == '\\' then "\\\\"
    else if c == '\n' then "\\n"
    else if c == '\r' then "\\r"
    else if c == '\t' then "\\t"
    else if c as int == 8 then "\\b"
    else if c as int == 12 then "\\f"
    else if c as int >= 0x10000 && ascii then
      "\\u" + Hex4(0xD800 + (c as int - 0x10000) / 0x400) + "\\u" + Hex4(0xDC00 + (c as int - 0x10000) % 0x400)
    else if c < ' ' || (ascii && c > '~') then "\\u" + Hex4(c as int)
    else [c]
  }

  function EscapeAll(s: string, ascii: bool): string {
    if s == "" then "" else Escape(s[0], ascii) + EscapeAll(s[1..], ascii)
  }

  function Quote(s: string, ascii: bool): string {
    "\"" + EscapeAll(s, ascii) + "\""
  }

  function Spaces(n: nat): (s: string)
    ensures |s| == n && forall i :: 0 <= i < n ==> s[i] == ' '
  {
    seq(n, i => ' ')
  }

  /** What stands between an opening bracket, a comma or an item and what follows. */
  function Break(style: Style, depth: nat): (s: string)
    ensures forall i :: 0 <= i < |s| ==> IsSpace(s[i])
  {
    if style.pretty then "\n" + Spaces(2 * depth) else ""
  }

  function Colon(style: Style): string {
    if style.pretty then ": " else ":"
  }

  function Print(t: Tree, style: Style, depth: nat): string
    decreases t, 1
  {
    match t
    case TNull => "null"
    case TBool(truth) => if truth then "true" else "false"
    case TNum(literal) => literal
    case TStr(text) => Quote(text, style.ascii)
    case TArr(items) =>
      if items == [] then "[]"
      else "[" + Break(style, depth + 1) + PrintItems(items, style, depth + 1) + Break(style, depth) + "]"
    case TObj(members) =>
      if members == [] then "{}"
      else "{" + Break(style, depth + 1) + PrintMembers(members, style, depth + 1) + Break(style, depth) + "}"
  }

  function PrintItems(items: seq<Tree>, style: Style, depth: nat): string
    requires items != []
    decreases items, 0
  {
    Print(items[0], style, depth) +
    if |items| == 1 then "" else "," + Break(style, depth) + PrintItems(items[1..], style, depth)
  }

  function PrintMembers(members: seq<(string, Tree)>, style: Style, depth: nat): string
    requires members != []
    decreases members, 0
  {
    PrintMember(members[0], style, depth) +
    if |members| == 1 then "" else "," + Break(style, depth) + PrintMembers(members[1..], style, depth)
  }

  function PrintMember(member: (string, Tree), style: Style, depth: nat): string
    decreases member, 2
  {
    match member
    case (key, value) => Quote(key, style.ascii) + Colon(style) + Print(value, style, depth)
  }

  // ----------------------------------------------------------------- parsing

  predicate IsSpace(c: char) {
    c == ' ' || c == '\t' || c == '\n' || c == '\r'
  }

  function SkipSpace(s: string): (rest: string)
    ensures |rest| <= |s|
    ensures rest != "" ==> !IsSpace(rest[0])
  {
    if s != "" && IsSpace(s[0]) then SkipSpace(s[1..]) else s
  }

  /** Characters of which literals and numbers are made. */
  predicate IsBare(c: char) {
    IsNumberChar(c) || 'a' <= c <= 'z' || 'A' <= c <= 'Z'
  }

  function BareLength(s: string): (n: nat)
    ensures n <= |s|
    ensures forall i :: 0 <= i < n ==> IsBare(s[i])
    ensures n < |s| ==> !IsBare(s[n])
  {
    if s != "" && IsBare(s[0]) then 1 + BareLength(s[1..]) else 0
  }

  function HexValue(c: char): Option<nat> {
    if '0' <= c <= '9' then Some((c - '0') as nat)
    else if 'a' <= c <= 'f' then Some((c - 'a') as nat + 10)
    else if 'A' <= c <= 'F' then Some((c - 'A') as nat + 10)
    else None
  }

  function ParseHex4(s: string): (r: Option<nat>)
    ensures r.Some? ==> |s| >= 4
  {
    if |s| < 4 then None else
    match (HexValue(s[0]), HexValue(s[1]), HexValue(s[2]), HexValue(s[3]))
    case (Some(a), Some(b), Some(c), Some(d)) => Some(a * 0x1000 + b * 0x100 + c * 0x10 + d)
    case _ => None
  }

  predicate IsScalar(n: nat) {
    n < 0xD800 || 0xE000 <= n < 0x110000
  }

  /** The character after `\u`; a surrogate must have its partner. */
  function ParseUnicode(s: string): (r: Option<(char, string)>)
    ensures r.Some? ==> |r.value.1| < |s|
  {
    match ParseHex4(s)
    case None => None
    case Some(n) =>
      if IsScalar(n) then Some((n as char, s[4..]))
      else if 0xD800 <= n < 0xDC00 && |s| >= 6 && s[4..6] == "\\u" then
        match ParseHex4(s[6..])
        case Some(low) =>
          if 0xDC00 <= low < 0xE000
          then Some(((0x10000 + (n - 0xD800) * 0x400 + (low - 0xDC00)) as char, s[10..]))
          else None
        case None => None
      else None
  }

  /** The character after a backslash. */
  function ParseEscape(s: string): (r: Option<(char, string)>)
    ensures r.Some? ==> |r.value.1| < |s|
  {
    if s == "" then None
    else if s[0] == '"' || s[0] == '\\' || s[0] == '/' then Some((s[0], s[1..]))
    else if s[0] == 'n' then Some(('\n', s[1..]))
    else if s[0] == 'r' then Some(('\r', s[1..]))
    else if s[0] == 't' then Some(('\t', s[1..]))
    else if s[0] == 'b' then Some((8 as char, s[1..]))
    else if s[0] == 'f' then Some((12 as char, s[1..]))
    else if s[0] == 'u' then ParseUnicode(s[1..])
    else None
  }

  /** The rest of a string after its opening quote. */
  function ParseString(s: string): (r: Option<(string, string)>)
    ensures r.Some? ==> |r.value.1| < |s|
    decreases |s|
  {
    if s == "" || s[0] < ' ' then None
    else if s[0] == '"' then Some(("", s[1..]))
    else
      match if s[0] == '\\' then ParseEscape(s[1..]) else Some((s[0], s[1..]))
      case None => None
      case Some((c, rest)) =>
        match ParseString(rest)
        case None => None
        case Some((text, after)) => Some(([c] + text, after))
  }

  function ParseBare(token: string, specials: bool): Option<Json> {
    if token == "null" then Some(Null)
    else if token == "true" then Some(Bool(true))
    else if token == "false" then Some(Bool(false))
    else if IsJsonNumber(token) then Some(Num(token))
    else if specials && token in PYTHON_SPECIALS then Some(Num(token))
    else None
  }

  /** One value and what follows it.  `specials` admits Python's `NaN` and infinities. */
  function ParseValue(s: string, specials: bool): (r: Option<(Json, string)>)
    ensures r.Some? ==> |r.value.1| < |s|
    decreases |s|, 1
  {
    var t := SkipSpace(s);
    if t == "" then None
    else if t[0] == '"' then
      match ParseString(t[1..])
      case None => None
      case Some((text, rest)) => Some((Str(text), rest))
    else if t[0] == '[' then
      var u := SkipSpace(t[1..]);
      if u != "" && u[0] == ']' then Some((Arr([]), u[1..])) else
      match ParseItems(u, specials)
      case None => None
      case Some((items, rest)) => Some((Arr(items), rest))
    else if t[0] == '{' then
      var u := SkipSpace(t[1..]);
      if u != "" && u[0] == '}' then Some((Obj(map[]), u[1..])) else
      match ParseMembers(u, specials)
      case None => None
      case Some((fields, rest)) => Some((Obj(fields), rest))
    else
      var n := BareLength(t);
      if n == 0 then None else
      match ParseBare(t[..n], specials)
      case None => None
      case Some(v) => Some((v, t[n..]))
  }

  /** Items up to and including the closing bracket. */
  function ParseItems(s: string, specials: bool): (r: Option<(seq<Json>, string)>)
    ensures r.Some? ==> |r.value.1| < |s|
    decreases |s|, 2
  {
    match ParseValue(s, specials)
    case None => None
    case Some((v, after)) =>
      var t := SkipSpace(after);
      if t == "" then None
      else if t[0] == ']' then Some(([v], t[1..]))
      else if t[0] == ',' then
        match ParseItems(t[1..], specials)
        case None => None
        case Some((items, rest)) => Some(([v] + items, rest))
      else None
  }

  /** Members up to and including the closing brace; of equal keys the last one counts. */
  function ParseMembers(s: string, specials: bool): (r: Option<(map<string, Json>, string)>)
    ensures r.Some? ==> |r.value.1| < |s|
    decreases |s|, 2
  {
    var k := SkipSpace(s);
    if k == "" || k[0] != '"' then None else
    match ParseString(k[1..])
    case None => None
    case Some((key, afterKey)) =>
      var c := SkipSpace(afterKey);
      if c == "" || c[0] != ':' then None else
      match ParseValue(c[1..], specials)
      case None => None
      case Some((v, after)) =>
        var t := SkipSpace(after);
        if t == "" then None
        else if t[0] == '}' then Some((map[key := v], t[1..]))
        else if t[0] == ',' then
          match ParseMembers(t[1..], specials)
          case None => None
          case Some((fields, rest)) => Some((map[key := v] + fields, rest))
        else None
  }

  /** A whole text: `JSON.parse`, and `json.loads` when `specials` holds. */
  function Parse(s: string, specials: bool): Option<Json> {
    match ParseValue(s, specials)
    case None => None
    case Some((v, rest)) => if SkipSpace(rest) == "" then Some(v) else None
  }

  // ------------------------------------------------------ what a tree denotes

  function ValueOf(t: Tree): Json {
    match t
    case TNull => Null
    case TBool(truth) => Bool(truth)
    case TNum(literal) => Num(literal)
    case TStr(text) => Str(text)
    case TArr(items) => Arr(ItemValues(items))
    case TObj(members) => Obj(MemberValues(members))
  }

  function ItemValues(items: seq<Tree>): (values: seq<Json>)
    ensures |values| == |items|
    ensures forall i :: 0 <= i < |items| ==> values[i] == ValueOf(items[i])
  {
    if items == [] then [] else [ValueOf(items[0])] + ItemValues(items[1..])
  }

  function MemberValues(members: seq<(string, Tree)>): map<string, Json> {
    if members == [] then map[] else MemberValue(members[0]) + MemberValues(members[1..])
  }

  function MemberValue(member: (string, Tree)): map<string, Json> {
    match member
    case (key, value) => map[key := ValueOf(value)]
  }

  /** Every number can be printed and read under this dialect. */
  ghost predicate Printable(t: Tree, specials: bool) {
    match t
    case TNum(literal) => specials || IsJsonNumber(literal)
    case TArr(items) => forall i :: 0 <= i < |items| ==> Printable(items[i], specials)
    case TObj(members) => forall i :: 0 <= i < |members| ==> Printable(members[i].1, specials)
    case _ => true
  }
}
