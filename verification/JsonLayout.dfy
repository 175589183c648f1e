/** What a printed text tells about its layout: the order of members, and where its lines end. */
module JsonLayout {
  import opened JsonModel
  import opened JsonText
  import opened JsonRoundTrip
  import opened Lines

  // ----------------------------------------------------- the order of members

  lemma PrefixesCancel(head: string, x: string, y: string)
    requires head + x == head + y
    ensures x == y
  {
    assert (head + x)[|head|..] == x && (head + y)[|head|..] == y;
  }

  lemma SuffixesCancel(x: string, y: string, tail: string)
    requires x + tail == y + tail
    ensures x == y
  {
    assert |x| == |y|;
    assert (x + tail)[..|x|] == x && (y + tail)[..|y|] == y;
  }

  /** The printed text determines the tree, the order of members included. */
  lemma {:induction false} TreeDetermined(t: Tree, u: Tree, style: Style, depth: nat, x: string, y: string,
                                          specials: bool)
    requires Printable(t, specials) && Printable(u, specials) && Ends(x) && Ends(y)
    requires Print(t, style, depth) + x == Print(u, style, depth) + y
    ensures t == u && x == y
    decreases t, 1
  {
    hide ParseValue, Print, PrintItems, PrintMembers, MemberValues;
    ValueParses(t, style, depth, x, specials);
    ValueParses(u, style, depth, y, specials);
    SuffixesCancel(Print(t, style, depth), Print(u, style, depth), x);
    assert ValueOf(t) == ValueOf(u);
    if t.TArr? {
      assert u.TArr? && |u.items| == |ItemValues(u.items)| == |t.items|;
      if t.items != [] {
        ItemsInside(t.items, u.items, style, depth);
        ItemsDetermined(t.items, u.items, style, depth + 1, specials);
      }
    } else if t.TObj? {
      assert u.TObj?;
      MembersInside(t.members, u.members, style, depth);
      if t.members != [] {
        MembersDetermined(t.members, u.members, style, depth + 1, specials);
      }
    }
  }

  lemma BracketsCancel(open: string, ws: string, x: string, y: string, close: string, end: string)
    requires open + ws + x + close + end == open + ws + y + close + end
    ensures x == y
  {
    assert open + ws + x + close + end == (open + ws) + (x + (close + end));
    assert open + ws + y + close + end == (open + ws) + (y + (close + end));
    PrefixesCancel(open + ws, x + (close + end), y + (close + end));
    SuffixesCancel(x, y, close + end);
  }

  lemma ItemsInside(items: seq<Tree>, others: seq<Tree>, style: Style, depth: nat)
    requires items != [] && others != []
    requires Print(TArr(items), style, depth) == Print(TArr(others), style, depth)
    ensures PrintItems(items, style, depth + 1) == PrintItems(others, style, depth + 1)
  {
    hide PrintItems;
    BracketsCancel("[", Break(style, depth + 1), PrintItems(items, style, depth + 1),
                   PrintItems(others, style, depth + 1), Break(style, depth), "]");
  }

  /** An empty object prints shorter than any other. */
  lemma MembersInside(members: seq<(string, Tree)>, others: seq<(string, Tree)>, style: Style, depth: nat)
    requires Print(TObj(members), style, depth) == Print(TObj(others), style, depth)
    ensures members == [] <==> others == []
    ensures members != [] ==> PrintMembers(members, style, depth + 1) == PrintMembers(others, style, depth + 1)
  {
    if members == [] && others != [] {
      assert |Print(TObj(members), style, depth)| == 2;
      MemberQuoted(others[0], style, depth + 1);
    } else if members != [] && others == [] {
      assert |Print(TObj(others), style, depth)| == 2;
      MemberQuoted(members[0], style, depth + 1);
    } else if members != [] {
      BracketsCancel("{", Break(style, depth + 1), PrintMembers(members, style, depth + 1),
                     PrintMembers(others, style, depth + 1), Break(style, depth), "}");
    }
  }

  /** What follows the first element of a printed list. */
  function Following(last: bool, sep: string, rest: string): (tail: string)
    ensures Ends(tail)
  {
    if last then "" else "," + sep + rest
  }

  lemma FollowingDetermined(last: bool, last': bool, sep: string, rest: string, rest': string)
    requires Following(last, sep, rest) == Following(last', sep, rest')
    ensures last == last' && (!last ==> rest == rest')
  {
    if !last {
      PrefixesCancel("," + sep, rest, rest');
    }
  }

  lemma FirstItemPrinted(items: seq<Tree>, style: Style, depth: nat)
    requires items != []
    ensures var last := |items| == 1;
      PrintItems(items, style, depth) == Print(items[0], style, depth) +
        Following(last, Break(style, depth), if last then "" else PrintItems(items[1..], style, depth))
  {
    hide Print, Break;
  }

  lemma {:induction false} ItemsDetermined(items: seq<Tree>, others: seq<Tree>, style: Style, depth: nat,
                                           specials: bool)
    requires items != [] && others != []
    requires forall i :: 0 <= i < |items| ==> Printable(items[i], specials)
    requires forall i :: 0 <= i < |others| ==> Printable(others[i], specials)
    requires PrintItems(items, style, depth) == PrintItems(others, style, depth)
    ensures items == others
    decreases items, 0
  {
    hide Print, PrintItems, Break, Printable, Following;
    var last, last', sep := |items| == 1, |others| == 1, Break(style, depth);
    var rest := if last then "" else PrintItems(items[1..], style, depth);
    var rest' := if last' then "" else PrintItems(others[1..], style, depth);
    FirstItemPrinted(items, style, depth);
    FirstItemPrinted(others, style, depth);
    TreeDetermined(items[0], others[0], style, depth, Following(last, sep, rest), Following(last', sep, rest'),
      specials);
    FollowingDetermined(last, last', sep, rest, rest');
    if !last {
      ItemsDetermined(items[1..], others[1..], style, depth, specials);
    }
    assert items == [items[0]] + items[1..] && others == [others[0]] + others[1..];
  }

  lemma {:induction false} MemberDetermined(member: (string, Tree), other: (string, Tree), style: Style, depth: nat,
                                            x: string, y: string, specials: bool)
    requires Printable(member.1, specials) && Printable(other.1, specials) && Ends(x) && Ends(y)
    requires PrintMember(member, style, depth) + x == PrintMember(other, style, depth) + y
    ensures member == other && x == y
    decreases member, 2
  {
    hide Print, Quote, Printable, ParseString;
    match (member, other)
    case ((key, value), (key', value')) =>
      var colon := Colon(style);
      var a, b := colon + (Print(value, style, depth) + x), colon + (Print(value', style, depth) + y);
      assert PrintMember(member, style, depth) + x == Quote(key, style.ascii) + a;
      assert PrintMember(other, style, depth) + y == Quote(key', style.ascii) + b;
      QuoteParses(key, style.ascii, a);
      QuoteParses(key', style.ascii, b);
      PrefixesCancel(colon, Print(value, style, depth) + x, Print(value', style, depth) + y);
      TreeDetermined(value, value', style, depth, x, y, specials);
  }

  lemma FirstMemberPrinted(members: seq<(string, Tree)>, style: Style, depth: nat)
    requires members != []
    ensures var last := |members| == 1;
      PrintMembers(members, style, depth) == PrintMember(members[0], style, depth) +
        Following(last, Break(style, depth), if last then "" else PrintMembers(members[1..], style, depth))
  {
    hide PrintMember, Break;
  }

  lemma {:induction false} MembersDetermined(members: seq<(string, Tree)>, others: seq<(string, Tree)>, style: Style,
                                             depth: nat, specials: bool)
    requires members != [] && others != []
    requires forall i :: 0 <= i < |members| ==> Printable(members[i].1, specials)
    requires forall i :: 0 <= i < |others| ==> Printable(others[i].1, specials)
    requires PrintMembers(members, style, depth) == PrintMembers(others, style, depth)
    ensures members == others
    decreases members, 0
  {
    hide PrintMember, PrintMembers, Break, Printable, Following;
    var last, last', sep := |members| == 1, |others| == 1, Break(style, depth);
    var rest := if last then "" else PrintMembers(members[1..], style, depth);
    var rest' := if last' then "" else PrintMembers(others[1..], style, depth);
    FirstMemberPrinted(members, style, depth);
    FirstMemberPrinted(others, style, depth);
    MemberDetermined(members[0], others[0], style, depth, Following(last, sep, rest), Following(last', sep, rest'),
      specials);
    FollowingDetermined(last, last', sep, rest, rest');
    if !last {
      MembersDetermined(members[1..], others[1..], style, depth, specials);
    }
    assert members == [members[0]] + members[1..] && others == [others[0]] + others[1..];
  }

  /** Two trees print alike exactly when they are equal, member order included. */
  lemma PrintInjective(t: Tree, u: Tree, style: Style, specials: bool)
    requires Printable(t, specials) && Printable(u, specials)
    ensures Print(t, style, 0) == Print(u, style, 0) <==> t == u
  {
    if Print(t, style, 0) == Print(u, style, 0) {
      TreeDetermined(t, u, style, 0, "", "", specials);
    }
  }

  // -------------------------------------------------------- where lines end

  /** White space stands neither at either end nor before a line break. */
  ghost predicate Tidy(s: string) {
    s != "" && !IsSpace(s[0]) && !IsSpace(s[|s| - 1]) &&
    forall i :: 0 < i < |s| && s[i] == '\n' ==> !IsSpace(s[i - 1])
  }

  /** Space that can stand between tidy texts: a line break only at its front. */
  ghost predicate IsGap(ws: string) {
    forall i :: 0 < i < |ws| ==> ws[i] != '\n'
  }

  lemma TidyJoin(a: string, ws: string, b: string)
    requires Tidy(a) && IsGap(ws) && Tidy(b)
    ensures Tidy(a + ws + b)
  {
    var s := a + ws + b;
    assert s[0] == a[0] && s[|s| - 1] == b[|b| - 1];
    forall i | 0 < i < |s| && s[i] == '\n' ensures !IsSpace(s[i - 1]) {
      if i < |a| {
        assert a[i] == '\n' && a[i - 1] == s[i - 1];
      } else if i < |a| + |ws| {
        assert ws[i - |a|] == '\n';
        assert s[i - 1] == a[|a| - 1];
      } else {
        assert b[i - |a| - |ws|] == '\n' && b[i - |a| - |ws| - 1] == s[i - 1];
      }
    }
  }

  lemma TidyNext(a: string, b: string)
    requires Tidy(a) && Tidy(b)
    ensures Tidy(a + b)
  {
    TidyJoin(a, "", b);
    assert a + "" + b == a + b;
  }

  lemma BreakIsGap(style: Style, depth: nat)
    ensures IsGap(Break(style, depth)) && IsGap(if style.pretty then " " else "")
  {
  }

  lemma {:induction false} EscapesAreOneLine(s: string, ascii: bool)
    ensures OneLine(EscapeAll(s, ascii))
  {
    if s != "" {
      EscapesAreOneLine(s[1..], ascii);
      EscapeIsOneLine(s[0], ascii);
    }
  }

  lemma EscapeIsOneLine(c: char, ascii: bool)
    ensures OneLine(Escape(c, ascii))
  {
  }

  lemma QuoteIsTidy(s: string, ascii: bool)
    ensures Tidy(Quote(s, ascii))
  {
    EscapesAreOneLine(s, ascii);
  }

  lemma LeafIsTidy(t: Tree, style: Style, depth: nat)
    requires !t.TArr? && !t.TObj?
    ensures Tidy(Print(t, style, depth))
  {
    hide Tidy, Quote;
    match t
    case TNull => BareIsTidy("null");
    case TBool(truth) => BareIsTidy(if truth then "true" else "false");
    case TNum(literal) =>
      NumberIsBare(literal);
      BareIsTidy(literal);
    case TStr(text) => QuoteIsTidy(text, style.ascii);
  }

  lemma BareIsTidy(token: string)
    requires token != "" && forall i :: 0 <= i < |token| ==> IsBare(token[i])
    ensures Tidy(token)
  {
    assert forall i :: 0 <= i < |token| ==> !IsSpace(token[i]);
  }

  lemma BracketedIsTidy(open: string, ws: string, inner: string, close: string, end: string)
    requires Tidy(open) && IsGap(ws) && Tidy(inner) && IsGap(close) && Tidy(end)
    ensures Tidy(open + ws + inner + close + end)
  {
    TidyJoin(open, ws, inner);
    TidyJoin(open + ws + inner, close, end);
  }

  /** No line of a printed text ends in white space. */
  lemma {:induction false} PrintIsTidy(t: Tree, style: Style, depth: nat)
    ensures Tidy(Print(t, style, depth))
    decreases t, 1
  {
    hide PrintItems, PrintMembers, Break, Tidy, IsGap;
    BreakIsGap(style, depth);
    BreakIsGap(style, depth + 1);
    match t
    case TArr(items) =>
      BracketsAreTidy();
      if items != [] {
        ItemsAreTidy(items, style, depth + 1);
        BracketedIsTidy("[", Break(style, depth + 1), PrintItems(items, style, depth + 1), Break(style, depth), "]");
      }
    case TObj(members) =>
      BracketsAreTidy();
      if members != [] {
        MembersAreTidy(members, style, depth + 1);
        BracketedIsTidy("{", Break(style, depth + 1), PrintMembers(members, style, depth + 1),
          Break(style, depth), "}");
      }
    case _ =>
      LeafIsTidy(t, style, depth);
  }

  lemma BracketsAreTidy()
    ensures Tidy("[") && Tidy("]") && Tidy("{") && Tidy("}") && Tidy("[]") && Tidy("{}") && Tidy(",") && Tidy(":")
  {
  }

  lemma ListIsTidy(first: string, sep: string, rest: string)
    requires Tidy(first) && IsGap(sep) && Tidy(rest)
    ensures Tidy(first + ("," + sep + rest))
  {
    BracketsAreTidy();
    TidyJoin(",", sep, rest);
    TidyNext(first, "," + sep + rest);
  }

  lemma {:induction false} ItemsAreTidy(items: seq<Tree>, style: Style, depth: nat)
    requires items != []
    ensures Tidy(PrintItems(items, style, depth))
    decreases items, 0
  {
    hide Print, Break, Tidy, IsGap;
    PrintIsTidy(items[0], style, depth);
    if |items| == 1 {
      assert PrintItems(items, style, depth) == Print(items[0], style, depth);
    } else {
      BreakIsGap(style, depth);
      ItemsAreTidy(items[1..], style, depth);
      ListIsTidy(Print(items[0], style, depth), Break(style, depth), PrintItems(items[1..], style, depth));
    }
  }

  lemma {:induction false} MemberIsTidy(member: (string, Tree), style: Style, depth: nat)
    ensures Tidy(PrintMember(member, style, depth))
    decreases member, 2
  {
    hide Print, Quote, Break, Tidy, IsGap;
    match member
    case (key, value) =>
      var quoted, ws, printed := Quote(key, style.ascii), if style.pretty then " " else "", Print(value, style, depth);
      QuoteIsTidy(key, style.ascii);
      BracketsAreTidy();
      TidyNext(quoted, ":");
      BreakIsGap(style, depth);
      PrintIsTidy(value, style, depth);
      TidyJoin(quoted + ":", ws, printed);
      assert PrintMember(member, style, depth) == quoted + ":" + ws + printed;
  }

  lemma {:induction false} MembersAreTidy(members: seq<(string, Tree)>, style: Style, depth: nat)
    requires members != []
    ensures Tidy(PrintMembers(members, style, depth))
    decreases members, 0
  {
    hide PrintMember, Break, Tidy, IsGap;
    MemberIsTidy(members[0], style, depth);
    if |members| == 1 {
      assert PrintMembers(members, style, depth) == PrintMember(members[0], style, depth);
    } else {
      BreakIsGap(style, depth);
      MembersAreTidy(members[1..], style, depth);
      ListIsTidy(PrintMember(members[0], style, depth), Break(style, depth), PrintMembers(members[1..], style, depth));
    }
  }

  /** The line ends in something visible. */
  predicate EndsVisibly(line: string) {
    line != "" && !IsSpace(line[|line| - 1])
  }

  lemma {:induction false} TidyLines(s: string)
    requires s != "" ==> !IsSpace(s[|s| - 1])
    requires forall i :: 0 < i < |s| && s[i] == '\n' ==> !IsSpace(s[i - 1])
    ensures forall j :: 0 < j < |Split(s)| ==> EndsVisibly(Split(s)[j])
    ensures if s == "" || s[0] == '\n' then Split(s)[0] == "" else EndsVisibly(Split(s)[0])
  {
    if s != "" {
      var rest := Split(s[1..]);
      TidyLines(s[1..]);
      if s[0] == '\n' {
        assert EndsVisibly(rest[0]);
      } else if rest[0] == "" {
        assert [s[0]] + rest[0] == [s[0]];
      }
    }
  }

  lemma PrintedLinesEndVisibly(t: Tree, style: Style)
    ensures forall j :: 0 <= j < |Split(Print(t, style, 0))| ==> EndsVisibly(Split(Print(t, style, 0))[j])
  {
    hide Print;
    PrintIsTidy(t, style, 0);
    TidyLines(Print(t, style, 0));
  }

  // ------------------------------------------------------------------ layouts

  function JoinWith(parts: seq<string>, sep: string): string {
    if parts == [] then "" else if |parts| == 1 then parts[0] else parts[0] + sep + JoinWith(parts[1..], sep)
  }

  function PrintedItems(items: seq<Tree>, style: Style, depth: nat): (texts: seq<string>)
    ensures |texts| == |items| && forall i :: 0 <= i < |items| ==> texts[i] == Print(items[i], style, depth)
  {
    seq(|items|, i requires 0 <= i < |items| => Print(items[i], style, depth))
  }

  /** A member: its key, a colon, in the indented layout a blank, and its value. */
  function PrintedMembers(members: seq<(string, Tree)>, style: Style, depth: nat): (texts: seq<string>)
    ensures |texts| == |members|
    ensures forall i :: 0 <= i < |members| ==>
      texts[i] == Quote(members[i].0, style.ascii) + (if style.pretty then ": " else ":") +
        Print(members[i].1, style, depth)
  {
    seq(|members|, i requires 0 <= i < |members| =>
      Quote(members[i].0, style.ascii) + (if style.pretty then ": " else ":") + Print(members[i].1, style, depth))
  }

  /** A line break and two blanks a level. */
  function NewLine(depth: nat): string {
    "\n" + seq(2 * depth, i => ' ')
  }

  lemma {:induction false} ItemsJoin(items: seq<Tree>, style: Style, depth: nat)
    requires items != []
    ensures PrintItems(items, style, depth) == JoinWith(PrintedItems(items, style, depth), "," + Break(style, depth))
    decreases |items|
  {
    hide Print, Break;
    var texts := PrintedItems(items, style, depth);
    if |items| > 1 {
      ItemsJoin(items[1..], style, depth);
      assert texts[1..] == PrintedItems(items[1..], style, depth);
      JoinTail(texts[0], "," + Break(style, depth), JoinWith(texts[1..], "," + Break(style, depth)));
    } else {
      assert texts[0] + "" == texts[0];
    }
  }

  lemma JoinTail(first: string, sep: string, rest: string)
    ensures first + sep + rest == first + (sep + rest)
  {
  }

  lemma {:induction false} MembersJoin(members: seq<(string, Tree)>, style: Style, depth: nat)
    requires members != []
    ensures PrintMembers(members, style, depth) ==
      JoinWith(PrintedMembers(members, style, depth), "," + Break(style, depth))
    decreases |members|
  {
    hide Print, Break, Quote;
    var texts := PrintedMembers(members, style, depth);
    assert texts[0] == PrintMember(members[0], style, depth);
    if |members| > 1 {
      MembersJoin(members[1..], style, depth);
      assert texts[1..] == PrintedMembers(members[1..], style, depth);
      JoinTail(texts[0], "," + Break(style, depth), JoinWith(texts[1..], "," + Break(style, depth)));
    } else {
      assert texts[0] + "" == texts[0];
    }
  }

  lemma BreakIs(style: Style, depth: nat)
    ensures Break(style, depth) == if style.pretty then NewLine(depth) else ""
  {
  }

  /** The layouts: without any white space, or one item or member a line, two blanks deeper than its bracket. */
  lemma Layouts(items: seq<Tree>, members: seq<(string, Tree)>, style: Style, depth: nat)
    ensures Print(TArr([]), style, depth) == "[]" && Print(TObj([]), style, depth) == "{}"
    ensures items != [] && !style.pretty ==>
      Print(TArr(items), style, depth) == "[" + JoinWith(PrintedItems(items, style, depth + 1), ",") + "]"
    ensures items != [] && style.pretty ==>
      Print(TArr(items), style, depth) ==
        "[" + NewLine(depth + 1) + JoinWith(PrintedItems(items, style, depth + 1), "," + NewLine(depth + 1)) +
        NewLine(depth) + "]"
    ensures members != [] && !style.pretty ==>
      Print(TObj(members), style, depth) == "{" + JoinWith(PrintedMembers(members, style, depth + 1), ",") + "}"
    ensures members != [] && style.pretty ==>
      Print(TObj(members), style, depth) ==
        "{" + NewLine(depth + 1) + JoinWith(PrintedMembers(members, style, depth + 1), "," + NewLine(depth + 1)) +
        NewLine(depth) + "}"
  {
    hide NewLine, Break, PrintItems, PrintMembers, JoinWith;
    BreakIs(style, depth);
    BreakIs(style, depth + 1);
    assert "," + "" == ",";
    if items != [] {
      ItemsJoin(items, style, depth + 1);
    }
    if members != [] {
      MembersJoin(members, style, depth + 1);
    }
  }

  /** Literals, numbers and strings as they are printed. */
  lemma LeafLayouts(literal: NumberText, text: string, style: Style, depth: nat)
    ensures Print(TNull, style, depth) == "null"
    ensures Print(TBool(true), style, depth) == "true" && Print(TBool(false), style, depth) == "false"
    ensures Print(TNum(literal), style, depth) == literal
    ensures Print(TStr(text), style, depth) == Quote(text, style.ascii)
  {
  }

  /** Only what must be is escaped: quote, backslash and control characters, and on demand all but printable ASCII. */
  lemma EscapedIff(c: char, ascii: bool)
    ensures Escape(c, ascii) == [c] <==> c != '"' && c != '\\' && c >= ' ' && (ascii ==> c <= '~')
    ensures Escape('"', ascii) == "\\\"" && Escape('\\', ascii) == "\\\\" && Escape('\n', ascii) == "\\n"
    ensures Escape('\r', ascii) == "\\r" && Escape('\t', ascii) == "\\t"
  {
  }

  lemma {:induction false} QuoteJoins(a: string, b: string, ascii: bool)
    ensures EscapeAll(a + b, ascii) == EscapeAll(a, ascii) + EscapeAll(b, ascii)
  {
    if a == "" {
      assert a + b == b;
    } else {
      assert (a + b)[1..] == a[1..] + b;
      QuoteJoins(a[1..], b, ascii);
    }
  }
}
