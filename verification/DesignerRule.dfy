/**
  The designer's round-trip rule: parsing a source and emitting the result into it
  must give the source back, trailing white space of lines apart.
 */
module DesignerRule {
  import opened Designer
  import opened DesignerRoundTrip
  import opened DesignerState
  import opened JsonLayout
  import opened JsonRoundTrip
  import opened JsonText
  import opened Lines
  import opened Wrappers

  // ------------------------------------------------------ trailing white space

  function TrimEnd(s: string): string {
    if s != "" && IsSpace(s[|s| - 1]) then TrimEnd(s[..|s| - 1]) else s
  }

  function TrimAll(lines: seq<string>): (trimmed: seq<string>)
    ensures |trimmed| == |lines|
    ensures forall i :: 0 <= i < |lines| ==> trimmed[i] == TrimEnd(lines[i])
  {
    seq(|lines|, i requires 0 <= i < |lines| => TrimEnd(lines[i]))
  }

  /** Equal texts once the trailing white space of every line is gone. */
  predicate SameButTrailing(a: string, b: string) {
    TrimAll(Split(a)) == TrimAll(Split(b))
  }

  lemma TrimConcat(a: seq<string>, b: seq<string>)
    ensures TrimAll(a + b) == TrimAll(a) + TrimAll(b)
  {
  }

  lemma {:induction false} TrimSpaces(s: string, ws: string)
    requires AllSpace(ws)
    ensures TrimEnd(s + ws) == TrimEnd(s)
  {
    if ws == "" {
      assert s + ws == s;
    } else {
      assert (s + ws)[..|s + ws| - 1] == s + ws[..|ws| - 1];
      TrimSpaces(s, ws[..|ws| - 1]);
    }
  }

  /** A comment line with nothing behind its mark. */
  lemma BlankCommentIsShort(line: string)
    requires IsComment(line) && AllSpace(StripComment(line))
    ensures TrimEnd(line) == "//"
  {
    var ws := line[2..];
    assert line == "//" + ws;
    assert AllSpace(ws) by {
      if "// " <= line {
        assert ws == [' '] + line[3..];
      }
    }
    TrimSpaces("//", ws);
  }

  lemma {:induction false} BlankLinesAreBlank(lines: seq<string>)
    requires AllSpace(Join(lines))
    ensures forall i :: 0 <= i < |lines| ==> AllSpace(lines[i])
  {
    if |lines| > 1 {
      var whole := Join(lines);
      assert whole[..|lines[0]|] == lines[0] && whole[|lines[0]| + 1..] == Join(lines[1..]);
      assert forall j :: 0 <= j < |lines[0]| ==> lines[0][j] == whole[j];
      assert forall j :: 0 <= j < |Join(lines[1..])| ==> Join(lines[1..])[j] == whole[|lines[0]| + 1..][j];
      BlankLinesAreBlank(lines[1..]);
      assert forall i :: 0 < i < |lines| ==> lines[i] == lines[1..][i - 1];
    }
  }

  // ------------------------------------------------------ the header of a text

  /** The tag line and the comment lines under it. */
  function HeaderLines(lines: seq<string>): seq<string>
    requires HasTag(lines)
  {
    [lines[TagIndex(lines)]] + BodyUnderTag(lines)
  }

  lemma HeaderBetween(lines: seq<string>)
    requires HasTag(lines)
    ensures lines == Before(lines) + HeaderLines(lines) + After(lines)
  {
    hide IsTagLine, TagIndex, CommentRun, InsertionPoint;
    var start := TagIndex(lines);
    PiecesJoin(lines, start, CommentRun(lines[start + 1..]));
  }

  lemma PiecesJoin(lines: seq<string>, start: nat, run: nat)
    requires start < |lines| && run <= |lines[start + 1..]|
    ensures var rest := lines[start + 1..];
      lines == lines[..start] + ([lines[start]] + rest[..run]) + rest[run..]
  {
  }

  lemma EmittedHeader(tree: Tree, source: string, copyright: seq<string>)
    requires AreNotices(copyright)
    ensures var lines := Split(EmitInto(tree, source, copyright));
      HasTag(lines) && HeaderLines(lines) == BlockOf(Stringify(tree)) + Dangling(Split(source))
  {
    hide EmitInto, Stringify, Split, HeaderLines, HasTag, Dangling, BlockOf, CommentAll, IsNotice, Placed;
    EmittedLines(tree, source, copyright);
    HeaderOfPlaced(Split(source), CommentAll(copyright), Stringify(tree));
  }

  lemma HeaderOfPlaced(lines: seq<string>, noted: seq<string>, json: string)
    requires IsNotice(noted)
    ensures var placed := Placed(lines, noted + BlockOf(json));
      HasTag(placed) && HeaderLines(placed) == BlockOf(json) + Dangling(lines)
  {
    hide IsTagLine, IsComment, TagIndex, CommentRun, Before, After, BlockOf, BodyUnderTag, Dangling;
    var front, block, rest := Before(lines) + noted, BlockOf(json), After(lines);
    BlockOfIsBlock(json);
    BodyOfPlaced(lines, noted, json);
    NoticeHasNoTag(lines, noted);
    TagFoundAfter(front, block, rest);
    assert Placed(lines, noted + block) == front + block + rest;
    assert (front + block + rest)[|front|] == block[0];
    assert block == [block[0]] + block[1..];
  }

  /** No line of a printed header ends in white space, and its last line has something behind the mark. */
  lemma BlockEndsVisibly(tree: Tree)
    ensures var block := BlockOf(Stringify(tree));
      TrimAll(block) == block && |block[|block| - 1]| > 2
  {
    PrintedLinesEndVisibly(tree, Style(false, true));
    VisibleBlock(Split(Stringify(tree)), Comment(HEADER_TAG));
  }

  lemma VisibleBlock(lines: seq<string>, tagLine: string)
    requires tagLine == Comment(HEADER_TAG) && lines != []
    requires forall j :: 0 <= j < |lines| ==> EndsVisibly(lines[j])
    ensures var block := [tagLine] + CommentAll(lines);
      TrimAll(block) == block && |block[|block| - 1]| > 2
  {
    var block := [tagLine] + CommentAll(lines);
    TagLineEndsVisibly(HEADER_TAG);
    forall i | 0 <= i < |block| ensures TrimEnd(block[i]) == block[i] {
      if i > 0 {
        assert block[i] == Comment(lines[i - 1]);
      }
    }
  }

  lemma TagLineEndsVisibly(tag: string)
    requires tag == HEADER_TAG
    ensures EndsVisibly(Comment(tag))
  {
    assert Comment(tag)[|Comment(tag)| - 1] == tag[|tag| - 1] == '1';
  }

  lemma BlockDetermined(tree: Tree, other: Tree)
    requires Printable(tree, false) && Printable(other, false)
    requires BlockOf(Stringify(tree)) == BlockOf(Stringify(other))
    ensures tree == other
  {
    hide Print, Split;
    var a, b := Split(Stringify(tree)), Split(Stringify(other));
    assert CommentAll(a) == BlockOf(Stringify(tree))[1..] && CommentAll(b) == BlockOf(Stringify(other))[1..];
    StripUndoesComment(a);
    StripUndoesComment(b);
    JoinSplit(Stringify(tree));
    JoinSplit(Stringify(other));
    PrintInjective(tree, other, Style(false, true), false);
  }

  /** A printed header with blank comments under it is another printed header only without them. */
  lemma HeadersCompare(tree: Tree, extra: seq<string>, other: Tree)
    requires Printable(tree, false) && Printable(other, false)
    requires AllSpace(Join(StripAll(extra))) && forall i :: 0 <= i < |extra| ==> IsComment(extra[i])
    ensures TrimAll(BlockOf(Stringify(tree)) + extra) == BlockOf(Stringify(other)) <==> tree == other && extra == []
  {
    hide Stringify, BlockOf, Join, TrimEnd;
    var a, b := BlockOf(Stringify(tree)), BlockOf(Stringify(other));
    BlockEndsVisibly(tree);
    BlockEndsVisibly(other);
    TrimConcat(a, extra);
    if extra != [] {
      var last := |extra| - 1;
      BlankLinesAreBlank(StripAll(extra));
      BlankCommentIsShort(extra[last]);
      assert TrimAll(a + extra)[|a| + last] == "//";
    } else {
      assert a + extra == a;
      if a == b {
        BlockDetermined(tree, other);
      }
    }
  }

  // ------------------------------------------------------------ the rule itself

  lemma MiddlesCompare(front: seq<string>, x: seq<string>, y: seq<string>, rest: seq<string>)
    ensures front + x + rest == front + y + rest <==> x == y
    ensures TrimAll(front + x + rest) == TrimAll(front + y + rest) <==> TrimAll(x) == TrimAll(y)
  {
    hide TrimEnd;
    Cancel(front, x, y, rest);
    Cancel(TrimAll(front), TrimAll(x), TrimAll(y), TrimAll(rest));
    TrimConcat(front + x, rest);
    TrimConcat(front + y, rest);
    TrimConcat(front, x);
    TrimConcat(front, y);
  }

  lemma Cancel(front: seq<string>, x: seq<string>, y: seq<string>, rest: seq<string>)
    ensures front + x + rest == front + y + rest <==> x == y
  {
    var a, b := front + x + rest, front + y + rest;
    if a == b {
      assert |x| == |y|;
      assert a[|front|..|front| + |x|] == x && b[|front|..|front| + |y|] == y;
    }
  }

  /**
    Which sources obey the rule: those that have a header, written the way the printer
    writes the state it reads as.  A source without a header gets one.
   */
  lemma RuleHoldsIff(source: string, parsed: ParseResult, reading: Reading)
    requires ParseLines(Split(source), reading) == Ok(parsed)
    ensures var tree, lines := StateTree(parsed.state), Split(source);
      (EmitInto(tree, source, []) == source <==> HasTag(lines) && HeaderLines(lines) == BlockOf(Stringify(tree))) &&
      (SameButTrailing(EmitInto(tree, source, []), source) <==>
        HasTag(lines) && TrimAll(HeaderLines(lines)) == BlockOf(Stringify(tree)))
  {
    hide EmitInto, Stringify, IsTagLine, TagIndex, CommentRun, Split, BlockOf, ParseLines, HeaderLines, InsertionPoint;
    var tree, lines := StateTree(parsed.state), Split(source);
    var block := BlockOf(Stringify(tree));
    EmittedLinesPlain(tree, source);
    JoinSplit(source);
    JoinSplit(EmitInto(tree, source, []));
    BlockEndsVisibly(tree);
    BlockOfIsBlock(Stringify(tree));
    if HasTag(lines) {
      HeaderBetween(lines);
      MiddlesCompare(Before(lines), block, HeaderLines(lines), After(lines));
    } else {
      InjectedIsLonger(lines, block);
    }
  }

  lemma InjectedIsLonger(lines: seq<string>, block: seq<string>)
    requires !HasTag(lines) && block != []
    ensures |Placed(lines, block)| > |lines|
  {
  }

  /**
    What the emitter wrote obeys the rule, also when trailing white space is disregarded,
    exactly when the members of the state object stood in the order the parser builds
    them, with none besides, and no comment line was left under the block.
   */
  lemma ParseThenEmitRestores(tree: Tree, state: State, source: string, copyright: seq<string>, reading: Reading)
    requires Presents(tree, state, reading) && AreNotices(copyright)
    requires AllSpace(Join(StripAll(Dangling(Split(source)))))
    ensures var emitted := EmitInto(tree, source, copyright);
      var again := EmitInto(StateTree(state), emitted, []);
      ParseLines(Split(emitted), reading) == Ok(ParseResult(state, true)) &&
      (again == emitted <==> tree == StateTree(state) && Dangling(Split(source)) == []) &&
      (SameButTrailing(again, emitted) <==> tree == StateTree(state) && Dangling(Split(source)) == [])
  {
    hide EmitInto, Stringify, Split, BlockOf, ParseLines, HeaderLines, Dangling, StateTree, Join, CoerceState,
      StripAll, AreNotices;
    var emitted, other, extra := EmitInto(tree, source, copyright), StateTree(state), Dangling(Split(source));
    StateIsPrintable(state);
    EmitThenParse(tree, state, source, copyright, reading);
    RuleHoldsIff(emitted, ParseResult(state, true), reading);
    EmittedHeader(tree, source, copyright);
    DanglingAreComments(Split(source));
    HeadersCompare(tree, extra, other);
    if tree == other && extra == [] {
      assert BlockOf(Stringify(tree)) + extra == BlockOf(Stringify(tree));
    } else {
      assert SameButTrailing(emitted, emitted);
    }
  }

  lemma DanglingAreComments(lines: seq<string>)
    ensures forall i :: 0 <= i < |Dangling(lines)| ==> IsComment(Dangling(lines)[i])
  {
  }

  /**
    The rule fails for every state object that has its page before its blocks: it reads
    back, but emitting what was read moves the blocks to the front.
   */
  lemma PageFirstIsReordered(state: State, source: string, copyright: seq<string>, reading: Reading)
    requires AllPrinted(state, reading)
    requires AreNotices(copyright) && AllSpace(Join(StripAll(Dangling(Split(source)))))
    ensures var emitted := EmitInto(PageFirst(state), source, copyright);
      ParseLines(Split(emitted), reading) == Ok(ParseResult(state, true)) &&
      !SameButTrailing(EmitInto(StateTree(state), emitted, []), emitted)
  {
    PageFirstPresents(state, reading);
    ParseThenEmitRestores(PageFirst(state), state, source, copyright, reading);
  }

  // --------------------------------------------------- numbers written by hand

  lemma {:induction false} TreesDiffer(a: State, b: State)
    ensures StateTree(a) == StateTree(b) <==> a == b
  {
    if StateTree(a) == StateTree(b) {
      BlockTreesDiffer(a.blocks, b.blocks);
      PageTreesDiffer(a.page, b.page);
    }
  }

  lemma BlockTreesDiffer(a: seq<Block>, b: seq<Block>)
    requires BlocksTree(a) == BlocksTree(b)
    ensures a == b
  {
    var x, y := BlocksTree(a).items, BlocksTree(b).items;
    assert |x| == |a| && |y| == |b|;
    forall i | 0 <= i < |a| ensures a[i] == b[i] {
      assert x[i] == BlockTree(a[i]) && y[i] == BlockTree(b[i]);
      OneBlockTreeDiffers(a[i], b[i]);
    }
  }

  lemma OneBlockTreeDiffers(a: Block, b: Block)
    requires BlockTree(a) == BlockTree(b)
    ensures a == b
  {
    var x, y := BlockTree(a).members, BlockTree(b).members;
    assert x[0] == y[0] && x[1] == y[1] && x[2] == y[2] && x[3] == y[3] && x[4] == y[4] && x[5] == y[5] && x[6] == y[6];
    assert StyleNamed(StyleName(a.style)) == Some(a.style) && StyleNamed(StyleName(b.style)) == Some(b.style);
  }

  lemma PageTreesDiffer(a: Page, b: Page)
    requires PageTree(a) == PageTree(b)
    ensures a == b
  {
    var x, y := PageTree(a).members, PageTree(b).members;
    assert x[0] == y[0] && x[1] == y[1];
    var m, n := MarginsTree(a.margins).members, MarginsTree(b.margins).members;
    assert m[0] == n[0] && m[1] == n[1] && m[2] == n[2] && m[3] == n[3];
    assert SizeNamed(SizeName(a.size)) == Some(a.size) && SizeNamed(SizeName(b.size)) == Some(b.size);
  }

  /**
    A header that differs from a printed one at most in how its numbers are written: it
    reads unless a number is not finite, and then obeys the rule exactly when every
    number is written the way the runtime prints it.
   */
  lemma WrittenNumbersDecide(written: State, source: string, reading: Reading)
    requires Dangling(Split(source)) == []
    ensures var emitted, found := EmitInto(StateTree(written), source, []), ReadState(written, reading);
      ParseLines(Split(emitted), reading) == Reported(found) &&
      (found.Ok? ==>
        (SameButTrailing(EmitInto(StateTree(found.value), emitted, []), emitted) <==> AllPrinted(written, reading)))
  {
    hide EmitInto, Stringify, Split, ParseLines, StateTree, CoerceState, ReadState, AllPrinted, SameButTrailing;
    var tree, found := StateTree(written), ReadState(written, reading);
    StateIsPrintable(written);
    StateCoerces(written, reading);
    StateReadsBack(written, reading);
    assert AllSpace(Join(StripAll(Dangling(Split(source)))));
    EmitThenRead(tree, source, [], reading);
    if found.Ok? {
      ParseThenEmitRestores(tree, found.value, source, [], reading);
      TreesDiffer(written, found.value);
    }
  }

  /** The rule fails for a header with a margin of `1.0`, which reads as 1 and prints as `1`. */
  lemma WrittenPointZeroIsRewritten(written: State, source: string, reading: Reading)
    requires written.page.margins.top == "1.0" && reading("1.0") == Some("1")
    requires Dangling(Split(source)) == [] && ReadState(written, reading).Ok?
    ensures var emitted, state := EmitInto(StateTree(written), source, []), ReadState(written, reading).value;
      ParseLines(Split(emitted), reading) == Ok(ParseResult(state, true)) &&
      !SameButTrailing(EmitInto(StateTree(state), emitted, []), emitted)
  {
    hide EmitInto, Split, ParseLines, StateTree, SameButTrailing;
    WrittenNumbersDecide(written, source, reading);
    assert "1.0"[1] == '.' && |"1"| == 1;
    assert !IsPrinted(written.page.margins.top, reading);
  }

  /** The JSON of a state object as it is laid out: a member a line, two blanks in, between braces. */
  lemma StringifyLayout(members: seq<(string, Tree)>)
    requires members != []
    ensures Stringify(TObj(members)) ==
      "{\n  " + JoinWith(PrintedMembers(members, Style(false, true), 1), ",\n  ") + "\n}"
  {
    hide JoinWith, PrintedMembers, Print;
    Layouts([], members, Style(false, true), 0);
    assert NewLine(1) == "\n  " && NewLine(0) == "\n";
    assert "," + "\n  " == ",\n  " && "{" + "\n  " == "{\n  ";
    var joined := JoinWith(PrintedMembers(members, Style(false, true), 1), ",\n  ");
    assert "{" + "\n  " + joined + "\n" + "}" == "{\n  " + joined + "\n}";
  }
}
