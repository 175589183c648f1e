/** Parsing inverts printing, in every layout and escape mode. */
module JsonRoundTrip {
  import opened Wrappers
  import opened JsonModel
  import opened JsonText

  // ---------------------------------------------------------------- strings

  lemma HexPlaces(n: nat)
    requires n < 0x10000
    ensures n == n / 0x1000 * 0x1000 + n / 0x100 % 0x10 * 0x100 + n / 0x10 % 0x10 * 0x10 + n % 0x10
    ensures n / 0x1000 < 0x10
  {
  }

  lemma FourDigitsParse(a: nat, b: nat, c: nat, d: nat, s: string)
    requires a < 16 && b < 16 && c < 16 && d < 16 && |s| >= 4
    requires s[0] == HexDigit(a) && s[1] == HexDigit(b) && s[2] == HexDigit(c) && s[3] == HexDigit(d)
    ensures ParseHex4(s) == Some(a * 0x1000 + b * 0x100 + c * 0x10 + d)
  {
    HexDigitParses(a);
    HexDigitParses(b);
    HexDigitParses(c);
    HexDigitParses(d);
  }

  lemma HexParses(n: nat, r: string)
    requires n < 0x10000
    ensures ParseHex4(Hex4(n) + r) == Some(n)
  {
    HexPlaces(n);
    var s := Hex4(n) + r;
    assert s[..4] == Hex4(n);
    FourDigitsParse(n / 0x1000, n / 0x100 % 0x10, n / 0x10 % 0x10, n % 0x10, s);
  }

  lemma HexDigitParses(n: nat)
    requires n < 16
    ensures HexValue(HexDigit(n)) == Some(n)
  {
  }

  lemma UnicodeParses(c: char, r: string)
    requires (c as int) < 0x10000
    ensures ParseUnicode(Hex4(c as int) + r) == Some((c, r))
  {
    HexParses(c as int, r);
    assert (Hex4(c as int) + r)[4..] == r;
  }

  lemma PairParses(c: char, r: string)
    requires (c as int) >= 0x10000
    ensures var high, low := 0xD800 + (c as int - 0x10000) / 0x400, 0xDC00 + (c as int - 0x10000) % 0x400;
      ParseUnicode(Hex4(high) + "\\u" + Hex4(low) + r)
         == Some((c, r))
  {
    hide Hex4, ParseHex4, HexDigit;
    var high, low := 0xD800 + (c as int - 0x10000) / 0x400, 0xDC00 + (c as int - 0x10000) % 0x400;
    var tail := "\\u" + Hex4(low) + r;
    HexParses(high, tail);
    HexParses(low, r);
    var s := Hex4(high) + tail;
    assert Hex4(high) + "\\u" + Hex4(low) + r == s;
    assert s[4..6] == "\\u" && s[6..] == Hex4(low) + r && s[10..] == r;
  }

  lemma UnicodeEscapeParses(code: string, body: string, c: char, r: string)
    requires code == "\\u" + body && ParseUnicode(body + r) == Some((c, r))
    ensures ParseEscape(code[1..] + r) == Some((c, r))
  {
    assert code[1..] + r == "u" + (body + r);
    assert (code[1..] + r)[1..] == body + r;
  }

  lemma ShortEscapeParses(c: char, ascii: bool, r: string)
    requires |Escape(c, ascii)| == 2
    ensures ParseEscape(Escape(c, ascii)[1..] + r) == Some((c, r))
  {
    assert (Escape(c, ascii)[1..] + r)[1..] == r;
  }

  lemma EscapeParses(c: char, ascii: bool, r: string)
    ensures var code := Escape(c, ascii);
      if code[0] == '\\' then ParseEscape(code[1..] + r) == Some((c, r)) else code == [c] && c >= ' ' && c != '"'
  {
    var code := Escape(c, ascii);
    if |code| == 12 {
      PairParses(c, r);
      var body := Hex4(0xD800 + (c as int - 0x10000) / 0x400) + "\\u" + Hex4(0xDC00 + (c as int - 0x10000) % 0x400);
      assert code == "\\u" + body;
      UnicodeEscapeParses(code, body, c, r);
    } else if |code| == 6 {
      UnicodeParses(c, r);
      UnicodeEscapeParses(code, Hex4(c as int), c, r);
    } else if |code| == 2 {
      ShortEscapeParses(c, ascii, r);
    }
  }

  /** One character of a string, escaped or not, then the rest. */
  lemma StringStep(c: char, ascii: bool, rest: string, text: string, r: string)
    requires ParseString(rest) == Some((text, r))
    ensures ParseString(Escape(c, ascii) + rest) == Some(([c] + text, r))
  {
    var code := Escape(c, ascii);
    var whole := code + rest;
    EscapeParses(c, ascii, rest);
    assert whole[0] == code[0] && whole[1..] == code[1..] + rest;
    if code[0] != '\\' {
      assert whole[1..] == rest;
    }
  }

  lemma {:induction false} StringParses(s: string, ascii: bool, r: string)
    ensures ParseString(EscapeAll(s, ascii) + "\"" + r) == Some((s, r))
    decreases |s|
  {
    hide Escape;
    var whole := EscapeAll(s, ascii) + "\"" + r;
    if s == "" {
      assert whole == "\"" + r && whole[1..] == r;
    } else {
      var rest := EscapeAll(s[1..], ascii) + "\"" + r;
      assert whole == Escape(s[0], ascii) + rest;
      StringParses(s[1..], ascii, r);
      StringStep(s[0], ascii, rest, s[1..], r);
      assert [s[0]] + s[1..] == s;
    }
  }

  lemma QuoteParses(s: string, ascii: bool, r: string)
    ensures var whole := Quote(s, ascii) + r;
      whole[0] == '"' && ParseString(whole[1..]) == Some((s, r))
  {
    StringParses(s, ascii, r);
    assert (Quote(s, ascii) + r)[1..] == EscapeAll(s, ascii) + "\"" + r;
  }

  // ------------------------------------------------------- space and literals

  ghost predicate AllSpace(ws: string) {
    forall i :: 0 <= i < |ws| ==> IsSpace(ws[i])
  }

  lemma {:induction false} SpaceSkipped(ws: string, x: string)
    requires AllSpace(ws)
    ensures SkipSpace(ws + x) == SkipSpace(x)
  {
    if ws == "" {
      assert ws + x == x;
    } else {
      assert (ws + x)[1..] == ws[1..] + x;
      SpaceSkipped(ws[1..], x);
    }
  }

  lemma LeadingSpaceIgnored(ws: string, x: string, specials: bool)
    requires AllSpace(ws)
    ensures ParseValue(ws + x, specials) == ParseValue(x, specials)
    ensures ParseItems(ws + x, specials) == ParseItems(x, specials)
    ensures ParseMembers(ws + x, specials) == ParseMembers(x, specials)
  {
    SpaceSkipped(ws, x);
  }

  /** The end of a literal is visible: nothing follows that could continue it. */
  predicate Ends(r: string) {
    r == "" || !IsBare(r[0])
  }

  lemma {:induction false} BareMeasured(token: string, r: string)
    requires Ends(r) && forall i :: 0 <= i < |token| ==> IsBare(token[i])
    ensures BareLength(token + r) == |token|
  {
    if token == "" {
      assert token + r == r;
    } else {
      assert (token + r)[1..] == token[1..] + r;
      BareMeasured(token[1..], r);
    }
  }

  lemma BareParses(token: string, v: Json, r: string, specials: bool)
    requires Ends(r) && token != "" && forall i :: 0 <= i < |token| ==> IsBare(token[i])
    requires ParseBare(token, specials) == Some(v)
    ensures ParseValue(token + r, specials) == Some((v, r))
  {
    BareMeasured(token, r);
    assert (token + r)[0] == token[0];
    assert (token + r)[..|token|] == token && (token + r)[|token|..] == r;
  }

  lemma NumberIsBare(t: NumberText)
    ensures t != "" && (forall i :: 0 <= i < |t| ==> IsBare(t[i]))
    ensures t != "null" && t != "true" && t != "false"
  {
    if !IsJsonNumber(t) {
      assert t == "NaN" || t == "Infinity" || t == "-Infinity";
    } else {
      assert IsNumberChar(t[0]);
    }
  }

  // ---------------------------------------------------------------- structure

  lemma PrintStarts(t: Tree, style: Style, depth: nat)
    ensures var s := Print(t, style, depth);
      s != "" && !IsSpace(s[0]) && s[0] != ']' && s[0] != '}'
  {
    if t.TNum? {
      NumberIsBare(t.literal);
    }
  }

  lemma {:induction false} ValueParses(t: Tree, style: Style, depth: nat, r: string, specials: bool)
    requires Printable(t, specials) && Ends(r)
    ensures ParseValue(Print(t, style, depth) + r, specials) == Some((ValueOf(t), r))
    decreases t, 1
  {
    hide Print, PrintItems, PrintMembers, ParseValue, ParseItems, ParseMembers, ItemValues, MemberValues;
    match t
    case TArr(items) =>
      if items == [] {
        EmptyParses(t, style, depth, r, specials);
      } else {
        ItemsParse(items, style, depth + 1, Break(style, depth), r, specials);
        ArrayParses(items, style, depth, r, specials);
      }
    case TObj(members) =>
      if members == [] {
        EmptyParses(t, style, depth, r, specials);
      } else {
        MembersParse(members, style, depth + 1, Break(style, depth), r, specials);
        ObjectParses(members, style, depth, r, specials);
      }
    case _ =>
      LeafParses(t, style, depth, r, specials);
  }

  lemma EmptyParses(t: Tree, style: Style, depth: nat, r: string, specials: bool)
    requires t == TArr([]) || t == TObj([])
    ensures ParseValue(Print(t, style, depth) + r, specials) == Some((ValueOf(t), r))
  {
    if t.TArr? {
      assert ("[]" + r)[1..] == "]" + r && ("]" + r)[1..] == r;
    } else {
      assert ("{}" + r)[1..] == "}" + r && ("}" + r)[1..] == r;
    }
  }

  lemma LeafParses(t: Tree, style: Style, depth: nat, r: string, specials: bool)
    requires Printable(t, specials) && Ends(r) && !t.TArr? && !t.TObj?
    ensures ParseValue(Print(t, style, depth) + r, specials) == Some((ValueOf(t), r))
  {
    match t
    case TNull =>
      BareParses("null", Null, r, specials);
    case TBool(truth) =>
      BareParses(if truth then "true" else "false", Bool(truth), r, specials);
    case TNum(literal) =>
      NumberIsBare(literal);
      BareParses(literal, Num(literal), r, specials);
    case TStr(text) =>
      QuoteParses(text, style.ascii, r);
  }

  lemma ArrayStep(ws: string, body: string, items: seq<Json>, r: string, specials: bool)
    requires AllSpace(ws) && body != "" && !IsSpace(body[0]) && body[0] != ']'
    requires ParseItems(body, specials) == Some((items, r))
    ensures ParseValue("[" + (ws + body), specials) == Some((Arr(items), r))
  {
    var whole := "[" + (ws + body);
    assert whole[0] == '[' && whole[1..] == ws + body;
    SpaceSkipped(ws, body);
  }

  lemma ObjectStep(ws: string, body: string, fields: map<string, Json>, r: string, specials: bool)
    requires AllSpace(ws) && body != "" && body[0] == '"'
    requires ParseMembers(body, specials) == Some((fields, r))
    ensures ParseValue("{" + (ws + body), specials) == Some((Obj(fields), r))
  {
    var whole := "{" + (ws + body);
    assert whole[0] == '{' && whole[1..] == ws + body;
    SpaceSkipped(ws, body);
  }

  lemma ArrayParses(items: seq<Tree>, style: Style, depth: nat, r: string, specials: bool)
    requires items != []
    requires ParseItems(PrintItems(items, style, depth + 1) + Break(style, depth) + "]" + r, specials) ==
      Some((ItemValues(items), r))
    ensures ParseValue(Print(TArr(items), style, depth) + r, specials) == Some((Arr(ItemValues(items)), r))
  {
    var ws, inner, close := Break(style, depth + 1), PrintItems(items, style, depth + 1), Break(style, depth);
    var body := inner + close + "]" + r;
    PrintStarts(items[0], style, depth + 1);
    assert inner[0] == Print(items[0], style, depth + 1)[0];
    ArrayStep(ws, body, ItemValues(items), r, specials);
    assert Print(TArr(items), style, depth) == "[" + ws + inner + close + "]";
    Wrapped("[", ws, inner, close, "]", r);
  }

  lemma ObjectParses(members: seq<(string, Tree)>, style: Style, depth: nat, r: string, specials: bool)
    requires members != []
    requires ParseMembers(PrintMembers(members, style, depth + 1) + Break(style, depth) + "}" + r, specials) ==
      Some((MemberValues(members), r))
    ensures ParseValue(Print(TObj(members), style, depth) + r, specials) == Some((Obj(MemberValues(members)), r))
  {
    var ws, inner, close := Break(style, depth + 1), PrintMembers(members, style, depth + 1), Break(style, depth);
    var body := inner + close + "}" + r;
    MemberQuoted(members[0], style, depth + 1);
    assert inner[0] == PrintMember(members[0], style, depth + 1)[0];
    ObjectStep(ws, body, MemberValues(members), r, specials);
    assert Print(TObj(members), style, depth) == "{" + ws + inner + close + "}";
    Wrapped("{", ws, inner, close, "}", r);
  }

  lemma MemberQuoted(member: (string, Tree), style: Style, depth: nat)
    ensures PrintMember(member, style, depth) != "" && PrintMember(member, style, depth)[0] == '"'
  {
  }

  lemma Wrapped(open: string, ws: string, inner: string, close: string, end: string, r: string)
    ensures open + ws + inner + close + end + r == open + (ws + (inner + close + end + r))
  {
  }

  /** What follows an item or a member: the closing bracket, or a comma and the rest. */
  function Tail(last: bool, sep: string, rest: string, ws: string, close: string, r: string): string {
    if last then ws + close + r else "," + (sep + (rest + ws + close + r))
  }

  lemma TailStarts(last: bool, sep: string, rest: string, ws: string, close: string, r: string)
    requires AllSpace(ws) && (close == "]" || close == "}")
    ensures var tail := Tail(last, sep, rest, ws, close, r);
      Ends(tail) &&
      SkipSpace(tail) == if last then close + r else tail
  {
    if last {
      SpaceSkipped(ws, close + r);
      assert ws + close + r == ws + (close + r);
    }
  }

  lemma LastItemStep(x: string, v: Json, after: string, r: string, specials: bool)
    requires ParseValue(x, specials) == Some((v, after)) && SkipSpace(after) == "]" + r
    ensures ParseItems(x, specials) == Some(([v], r))
  {
    assert ("]" + r)[0] == ']' && ("]" + r)[1..] == r;
  }

  lemma ItemStep(x: string, v: Json, sep: string, more: string, vs: seq<Json>, r: string, specials: bool)
    requires AllSpace(sep) && ParseValue(x, specials) == Some((v, "," + (sep + more)))
    requires ParseItems(more, specials) == Some((vs, r))
    ensures ParseItems(x, specials) == Some(([v] + vs, r))
  {
    var after := "," + (sep + more);
    assert after[0] == ',' && after[1..] == sep + more;
    LeadingSpaceIgnored(sep, more, specials);
  }

  lemma LastTailFollows(first: string, ws: string, close: string, r: string)
    ensures first + ws + close + r == first + (ws + close + r)
  {
  }

  lemma CommaTailFollows(first: string, sep: string, rest: string, ws: string, close: string, r: string)
    ensures (first + ("," + sep + rest)) + ws + close + r == first + ("," + (sep + (rest + ws + close + r)))
  {
    var end := ws + close + r;
    assert rest + ws + close + r == rest + end;
    assert (first + ("," + sep + rest)) + ws + close + r == (first + ("," + sep + rest)) + end;
  }

  /** What a printed list is, seen from its first element. */
  lemma TailFollows(printed: string, first: string, rest: string, last: bool, sep: string, ws: string, close: string,
                    r: string)
    requires printed == if last then first else first + ("," + sep + rest)
    ensures printed + ws + close + r == first + Tail(last, sep, rest, ws, close, r)
  {
    if last {
      LastTailFollows(first, ws, close, r);
    } else {
      CommaTailFollows(first, sep, rest, ws, close, r);
    }
  }

  lemma {:induction false} ItemsParse(items: seq<Tree>, style: Style, depth: nat, ws: string, r: string, specials: bool)
    requires items != [] && AllSpace(ws)
    requires forall i :: 0 <= i < |items| ==> Printable(items[i], specials)
    ensures ParseItems(PrintItems(items, style, depth) + ws + "]" + r, specials) == Some((ItemValues(items), r))
    decreases items, 0
  {
    var last := |items| == 1;
    var rest := if last then "" else PrintItems(items[1..], style, depth);
    var sep := Break(style, depth);
    var tail := Tail(last, sep, rest, ws, "]", r);
    var first := Print(items[0], style, depth);
    assert first + "" == first;
    TailFollows(PrintItems(items, style, depth), first, rest, last, sep, ws, "]", r);
    TailStarts(last, sep, rest, ws, "]", r);
    ValueParses(items[0], style, depth, tail, specials);
    if last {
      LastItemStep(first + tail, ValueOf(items[0]), tail, r, specials);
      assert ItemValues(items) == [ValueOf(items[0])];
    } else {
      ItemsParse(items[1..], style, depth, ws, r, specials);
      ItemStep(first + tail, ValueOf(items[0]), sep, rest + ws + "]" + r, ItemValues(items[1..]), r, specials);
    }
  }

  /** Reading one member takes the key, the value and leaves `after`. */
  ghost predicate ReadsMember(x: string, key: string, v: Json, after: string, specials: bool) {
    x != "" && x[0] == '"' &&
    match ParseString(x[1..])
    case None => false
    case Some((k, rest)) =>
      k == key && rest != "" && rest[0] == ':' && ParseValue(rest[1..], specials) == Some((v, after))
  }

  lemma LastMemberStep(x: string, key: string, v: Json, after: string, r: string, specials: bool)
    requires ReadsMember(x, key, v, after, specials) && SkipSpace(after) == "}" + r
    ensures ParseMembers(x, specials) == Some((map[key := v], r))
  {
    assert ("}" + r)[0] == '}' && ("}" + r)[1..] == r;
  }

  lemma MemberStep(x: string, key: string, v: Json, sep: string, more: string, fields: map<string, Json>, r: string,
                   specials: bool)
    requires AllSpace(sep) && ReadsMember(x, key, v, "," + (sep + more), specials)
    requires ParseMembers(more, specials) == Some((fields, r))
    ensures ParseMembers(x, specials) == Some((map[key := v] + fields, r))
  {
    var after := "," + (sep + more);
    assert after[0] == ',' && after[1..] == sep + more;
    LeadingSpaceIgnored(sep, more, specials);
  }

  lemma {:induction false} MemberParses(member: (string, Tree), style: Style, depth: nat, tail: string, specials: bool)
    requires Printable(member.1, specials) && Ends(tail)
    ensures ReadsMember(PrintMember(member, style, depth) + tail, member.0, ValueOf(member.1), tail, specials)
    decreases member, 2
  {
    match member
    case (key, value) =>
      var x := Print(value, style, depth);
      var ws := if style.pretty then " " else "";
      var colon := ":" + (ws + (x + tail));
      var whole := Quote(key, style.ascii) + colon;
      assert PrintMember(member, style, depth) + tail == whole;
      QuoteParses(key, style.ascii, colon);
      assert colon[0] == ':' && colon[1..] == ws + (x + tail);
      LeadingSpaceIgnored(ws, x + tail, specials);
      ValueParses(value, style, depth, tail, specials);
  }

  lemma {:induction false} MembersParse(members: seq<(string, Tree)>, style: Style, depth: nat, ws: string,
                                        r: string, specials: bool)
    requires members != [] && AllSpace(ws)
    requires forall i :: 0 <= i < |members| ==> Printable(members[i].1, specials)
    ensures ParseMembers(PrintMembers(members, style, depth) + ws + "}" + r, specials) ==
      Some((MemberValues(members), r))
    decreases members, 0
  {
    var last := |members| == 1;
    var rest := if last then "" else PrintMembers(members[1..], style, depth);
    var sep := Break(style, depth);
    var tail := Tail(last, sep, rest, ws, "}", r);
    var first := PrintMember(members[0], style, depth);
    var (key, value) := members[0];
    assert first + "" == first;
    TailFollows(PrintMembers(members, style, depth), first, rest, last, sep, ws, "}", r);
    TailStarts(last, sep, rest, ws, "}", r);
    MemberParses(members[0], style, depth, tail, specials);
    hide ParseMembers, ParseValue, ReadsMember, Print;
    if last {
      LastMemberStep(first + tail, key, ValueOf(value), tail, r, specials);
      assert MemberValues(members) == map[key := ValueOf(value)];
    } else {
      MembersParse(members[1..], style, depth, ws, r, specials);
      MemberStep(first + tail, key, ValueOf(value), sep, rest + ws + "}" + r, MemberValues(members[1..]), r, specials);
    }
  }

  /** A printed text followed by nothing but white space reads back as the value printed. */
  lemma PrintedParses(t: Tree, style: Style, ws: string, specials: bool)
    requires Printable(t, specials) && AllSpace(ws)
    ensures Parse(Print(t, style, 0) + ws, specials) == Some(ValueOf(t))
  {
    ValueParses(t, style, 0, ws, specials);
    SpaceSkipped(ws, "");
    assert ws + "" == ws;
  }
}
