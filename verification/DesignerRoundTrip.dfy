/** What emitting a header into a template guarantees to the next reader and the next writer. */
module DesignerRoundTrip {
  import opened JsonModel
  import opened Wrappers
  import opened JsonText
  import opened JsonRoundTrip
  import opened Lines
  import opened Designer
  import opened DesignerState

  // ------------------------------------------------- a block among other lines

  /** A tag line followed by comment lines. */
  ghost predicate IsBlock(block: seq<string>) {
    block != [] && IsTagLine(block[0]) && forall i :: 1 <= i < |block| ==> IsComment(block[i])
  }

  /** Lines without a tag, each of them a comment. */
  ghost predicate IsNotice(noted: seq<string>) {
    forall i :: 0 <= i < |noted| ==> IsComment(noted[i]) && !IsTagLine(noted[i])
  }

  function Placed(lines: seq<string>, block: seq<string>): seq<string> {
    Before(lines) + block + After(lines)
  }

  /** Comment lines of the source that end up right under the new block. */
  function Dangling(lines: seq<string>): seq<string> {
    After(lines)[..CommentRun(After(lines))]
  }

  lemma {:induction false} TagIndexIs(lines: seq<string>, i: nat)
    requires i < |lines| && IsTagLine(lines[i])
    requires forall j :: 0 <= j < i ==> !IsTagLine(lines[j])
    ensures TagIndex(lines) == i
  {
  }

  lemma {:induction false} CommentRunOver(front: seq<string>, rest: seq<string>)
    requires forall i :: 0 <= i < |front| ==> IsComment(front[i])
    ensures CommentRun(front + rest) == |front| + CommentRun(rest)
  {
    if front == [] {
      assert front + rest == rest;
    } else {
      assert (front + rest)[1..] == front[1..] + rest;
      CommentRunOver(front[1..], rest);
    }
  }

  lemma BeforeHasNoTag(lines: seq<string>)
    ensures forall j :: 0 <= j < |Before(lines)| ==> !IsTagLine(Before(lines)[j])
  {
  }

  lemma TagFoundAfter(front: seq<string>, block: seq<string>, rest: seq<string>)
    requires IsBlock(block) && forall j :: 0 <= j < |front| ==> !IsTagLine(front[j])
    ensures var r := front + block + rest;
      TagIndex(r) == |front| && r[..|front|] == front && r[|front| + 1..] == block[1..] + rest
  {
    var r := front + block + rest;
    assert r[|front|] == block[0];
    assert forall j :: 0 <= j < |front| ==> r[j] == front[j];
    TagIndexIs(r, |front|);
  }

  lemma RunSplits(body: seq<string>, rest: seq<string>)
    requires forall i :: 0 <= i < |body| ==> IsComment(body[i])
    ensures var under := body + rest;
      under[..CommentRun(under)] == body + rest[..CommentRun(rest)] &&
      under[CommentRun(under)..] == rest[CommentRun(rest)..]
  {
    CommentRunOver(body, rest);
    var under, n := body + rest, CommentRun(rest);
    assert under[..|body| + n] == body + rest[..n];
    assert under[|body| + n..] == rest[n..];
  }

  /** How the next reader sees a placed block. */
  lemma BlockSeen(front: seq<string>, block: seq<string>, rest: seq<string>)
    requires IsBlock(block) && forall j :: 0 <= j < |front| ==> !IsTagLine(front[j])
    ensures var r := front + block + rest;
      HasTag(r) && Before(r) == front &&
      r[TagIndex(r) + 1..][..CommentRun(r[TagIndex(r) + 1..])] == block[1..] + rest[..CommentRun(rest)] &&
      After(r) == rest[CommentRun(rest)..]
  {
    TagFoundAfter(front, block, rest);
    var body := block[1..];
    RunSplits(body, rest);
  }

  lemma NoticeHasNoTag(lines: seq<string>, noted: seq<string>)
    requires IsNotice(noted)
    ensures var front := Before(lines) + noted;
      forall j :: 0 <= j < |front| ==> !IsTagLine(front[j])
  {
    BeforeHasNoTag(lines);
  }

  /** Two blocks placed one after the other: the second takes the place of the first, below the notice of the first. */
  lemma PlacedTwice(lines: seq<string>, noted: seq<string>, first: seq<string>, noted': seq<string>,
                    second: seq<string>)
    requires IsBlock(first) && IsNotice(noted)
    ensures Placed(Placed(lines, noted + first), noted' + second) ==
      Before(lines) + noted + (noted' + second) + After(lines)[CommentRun(After(lines))..]
  {
    NoticeHasNoTag(lines, noted);
    var front, rest := Before(lines) + noted, After(lines);
    assert Placed(lines, noted + first) == front + first + rest;
    BlockSeen(front, first, rest);
  }

  /** The first block leaves no trace exactly when it had no notice and nothing dangled under it. */
  lemma PlacedTwiceIsOnce(lines: seq<string>, noted: seq<string>, first: seq<string>, noted': seq<string>,
                          second: seq<string>)
    requires IsBlock(first) && IsNotice(noted) && IsBlock(second) && IsNotice(noted')
    ensures Placed(Placed(lines, noted + first), noted' + second) == Placed(lines, noted' + second) <==>
      noted == [] && Dangling(lines) == []
  {
    PlacedTwice(lines, noted, first, noted', second);
    TraceLeft(Before(lines), noted, noted', second, After(lines), CommentRun(After(lines)));
  }

  lemma TraceLeft(front: seq<string>, noted: seq<string>, noted': seq<string>, block: seq<string>, rest: seq<string>,
                  run: nat)
    requires IsBlock(block) && IsNotice(noted) && IsNotice(noted') && run <= |rest|
    ensures front + noted + (noted' + block) + rest[run..] == front + (noted' + block) + rest <==>
      noted == [] && run == 0
  {
    hide IsTagLine, IsComment;
    var two, one := front + noted + (noted' + block) + rest[run..], front + (noted' + block) + rest;
    if noted != [] {
      var at := |front| + |noted'|;
      assert one[at] == block[0];
      assert two[at] == (noted + noted')[|noted'|];
      assert (noted + noted')[|noted'|] in noted || (noted + noted')[|noted'|] in noted';
    } else {
      assert |one| - |two| == run;
      if run == 0 {
        assert rest[0..] == rest;
      }
    }
  }

  // ------------------------------------------------------------- the block's text

  lemma StripUndoesComment(lines: seq<string>)
    ensures StripAll(CommentAll(lines)) == lines
  {
    forall i | 0 <= i < |lines| ensures StripComment(Comment(lines[i])) == lines[i] {
      assert "// " <= Comment(lines[i]);
    }
  }

  lemma TagLineHasTag()
    ensures IsTagLine(Comment(HEADER_TAG))
  {
    ContainsAfter("// ", HEADER_TAG);
  }

  lemma CommentsAreOneLine(lines: seq<string>)
    requires AllOneLine(lines)
    ensures AllOneLine(CommentAll(lines))
  {
  }

  /** The lines of the block around a given JSON text. */
  function BlockOf(json: string): seq<string> {
    [Comment(HEADER_TAG)] + CommentAll(Split(json))
  }

  lemma BlockOfIsBlock(json: string)
    ensures IsBlock(BlockOf(json)) && AllOneLine(BlockOf(json)) && BlockOf(json)[1..] == CommentAll(Split(json))
  {
    TagLineHasTag();
    CommentsAreOneLine(Split(json));
    assert OneLine(Comment(HEADER_TAG));
  }

  /** Copyright lines as the option asks for them: one string a line, none of them a tag line. */
  ghost predicate AreNotices(copyright: seq<string>) {
    AllOneLine(copyright) && IsNotice(CommentAll(copyright))
  }

  lemma EmitBlockIsLines(tree: Tree, copyright: seq<string>)
    ensures EmitBlock(tree, copyright) == Join(CommentAll(copyright) + BlockOf(Stringify(tree)))
  {
    var noted, body := CommentAll(copyright), CommentAll(Split(Stringify(tree)));
    SegmentsJoin([], noted, Comment(HEADER_TAG), body);
    if copyright != [] {
      assert noted[0] == Comment(copyright[0]);
    }
    assert [] + noted == noted && [] + [Join(noted)] == [Join(noted)];
  }

  /** Segments that are themselves joined lines may be joined as lines. */
  lemma SegmentsJoin(head: seq<string>, noted: seq<string>, tag: string, body: seq<string>)
    requires body != []
    ensures Join((if noted == [] then head else head + [Join(noted)]) + [tag, Join(body)]) ==
      Join(head + noted + ([tag] + body))
  {
    var front := if noted == [] then head else head + [Join(noted)];
    assert front + [tag, Join(body)] == (front + [tag]) + [Join(body)] + [];
    JoinNested(front + [tag], body, []);
    var rest := [tag] + body;
    assert (front + [tag]) + body + [] == front + rest;
    if noted == [] {
      assert head + noted == head;
    } else {
      JoinNested(head, noted, rest);
    }
  }

  lemma {:induction false} BlankIffSkipped(s: string)
    ensures SkipSpace(s) == "" <==> AllSpace(s)
  {
    if s != "" {
      BlankIffSkipped(s[1..]);
    }
  }

  /** The text of further lines, as it follows the text before them. */
  function Below(extra: seq<string>): (tail: string)
    ensures Ends(tail)
  {
    if extra == [] then "" else "\n" + Join(extra)
  }

  lemma BodyText(json: string, extra: seq<string>)
    ensures Join(Split(json) + extra) == json + Below(extra)
  {
    JoinSplit(json);
    if extra == [] {
      assert Split(json) + extra == Split(json);
    } else {
      JoinConcat(Split(json), extra);
    }
  }

  lemma BelowIsBlank(extra: seq<string>)
    ensures SkipSpace(Below(extra)) == "" <==> AllSpace(Join(extra))
  {
    BlankIffSkipped(Below(extra));
    if extra != [] {
      assert Below(extra)[1..] == Join(extra);
      BlankIffSkipped(Join(extra));
    }
  }

  /** A JSON text with further lines below it reads as its value exactly when those lines are blank. */
  lemma BodyReads(json: string, v: Json, extra: seq<string>, reading: Reading)
    requires Spells(json, v)
    ensures ReadBody(Split(json) + extra, reading) ==
      if AllSpace(Join(extra)) then CoerceState(v, reading) else Err(MalformedJson)
  {
    BodyText(json, extra);
    BelowIsBlank(extra);
  }

  // ------------------------------------------------- the result, line by line

  /** The emitted text, split into lines: the old lines outside the block, in order, around the new block. */
  lemma EmittedLines(tree: Tree, source: string, copyright: seq<string>)
    requires AllOneLine(copyright)
    ensures Split(EmitInto(tree, source, copyright)) ==
      Placed(Split(source), CommentAll(copyright) + BlockOf(Stringify(tree)))
  {
    var lines, block := Split(source), CommentAll(copyright) + BlockOf(Stringify(tree));
    EmitBlockIsLines(tree, copyright);
    BlockOfIsBlock(Stringify(tree));
    CommentsAreOneLine(copyright);
    PlacedText(lines, block);
  }

  lemma PlacedText(lines: seq<string>, block: seq<string>)
    requires AllOneLine(lines) && AllOneLine(block) && block != []
    ensures Split(Join(Before(lines) + [Join(block)] + After(lines))) == Placed(lines, block)
  {
    JoinNested(Before(lines), block, After(lines));
    var r := Placed(lines, block);
    forall i | 0 <= i < |r| ensures OneLine(r[i]) {
      assert r[i] in Before(lines) || r[i] in block || r[i] in After(lines);
    }
    SplitJoin(r);
  }

  // ------------------------------------------------------------ main results

  /** The body a reader finds under the tag. */
  function BodyUnderTag(lines: seq<string>): seq<string>
    requires HasTag(lines)
  {
    var rest := lines[TagIndex(lines) + 1..];
    rest[..CommentRun(rest)]
  }

  lemma BodyOfPlaced(lines: seq<string>, noted: seq<string>, json: string)
    requires IsNotice(noted)
    ensures HasTag(Placed(lines, noted + BlockOf(json)))
    ensures BodyUnderTag(Placed(lines, noted + BlockOf(json))) == CommentAll(Split(json)) + Dangling(lines)
  {
    hide IsTagLine, IsComment, TagIndex, CommentRun, Before, After, BlockOf;
    BlockOfIsBlock(json);
    NoticeHasNoTag(lines, noted);
    var front := Before(lines) + noted;
    assert Placed(lines, noted + BlockOf(json)) == front + BlockOf(json) + After(lines);
    BlockSeen(front, BlockOf(json), After(lines));
  }

  lemma StripJoined(json: seq<string>, extra: seq<string>)
    ensures StripAll(CommentAll(json) + extra) == json + StripAll(extra)
  {
    StripUndoesComment(json);
    assert StripAll(CommentAll(json) + extra) == StripAll(CommentAll(json)) + StripAll(extra);
  }

  /** What a reader reports, given the state or the error under the tag. */
  function Reported(found: Parsed<State>): Parsed<ParseResult> {
    match found
    case Ok(state) => Ok(ParseResult(state, true))
    case Err(error) => Err(error)
  }

  lemma ReaderUsesBody(lines: seq<string>, reading: Reading)
    requires HasTag(lines)
    ensures ParseLines(lines, reading) == Reported(ReadBody(StripAll(BodyUnderTag(lines)), reading))
  {
  }

  lemma PlacedReads(lines: seq<string>, noted: seq<string>, json: string, v: Json, reading: Reading)
    requires Spells(json, v) && IsNotice(noted)
    ensures ParseLines(Placed(lines, noted + BlockOf(json)), reading) ==
      if AllSpace(Join(StripAll(Dangling(lines)))) then Reported(CoerceState(v, reading)) else Err(MalformedJson)
  {
    hide CoerceState, IsTagLine;
    var extra := StripAll(Dangling(lines));
    BodyOfPlaced(lines, noted, json);
    StripJoined(Split(json), Dangling(lines));
    ReaderUsesBody(Placed(lines, noted + BlockOf(json)), reading);
    BodyReads(json, v, extra, reading);
  }

  /**
    Reading the emitted text gives back what the object printed coerces to exactly when
    the comment lines left right under the block, if any, are blank; otherwise the JSON
    is malformed.
   */
  lemma EmitThenRead(tree: Tree, source: string, copyright: seq<string>, reading: Reading)
    requires Printable(tree, false) && AreNotices(copyright)
    ensures ParseLines(Split(EmitInto(tree, source, copyright)), reading) ==
      if AllSpace(Join(StripAll(Dangling(Split(source))))) then Reported(CoerceState(ValueOf(tree), reading))
      else Err(MalformedJson)
  {
    hide CoerceState, ParseLines, IsNotice;
    StringifySpells(tree);
    EmittedLines(tree, source, copyright);
    PlacedReads(Split(source), CommentAll(copyright), Stringify(tree), ValueOf(tree), reading);
  }

  /** For a finite state object: the state comes back, or the JSON is malformed. */
  lemma EmitThenParse(tree: Tree, state: State, source: string, copyright: seq<string>, reading: Reading)
    requires Presents(tree, state, reading) && AreNotices(copyright)
    ensures ParseLines(Split(EmitInto(tree, source, copyright)), reading) ==
      if AllSpace(Join(StripAll(Dangling(Split(source))))) then Ok(ParseResult(state, true)) else Err(MalformedJson)
  {
    EmitThenRead(tree, source, copyright, reading);
  }

  /** Replacing a header leaves nothing dangling, so the state always comes back. */
  lemma ReplaceThenParse(tree: Tree, state: State, source: string, copyright: seq<string>, reading: Reading)
    requires Presents(tree, state, reading) && AreNotices(copyright) && HasTag(Split(source))
    ensures ParseLines(Split(EmitInto(tree, source, copyright)), reading) == Ok(ParseResult(state, true))
  {
    assert Dangling(Split(source)) == [];
    EmitThenParse(tree, state, source, copyright, reading);
  }

  /**
    A second emission replaces the first, whatever the two states, exactly when the
    first wrote no copyright lines and left no comment line dangling under its block.
   */
  lemma LastEmitWins(first: Tree, copyright: seq<string>, second: Tree, copyright': seq<string>, source: string)
    requires AreNotices(copyright) && AreNotices(copyright')
    ensures var once := EmitInto(first, source, copyright);
      EmitInto(second, once, copyright') == EmitInto(second, source, copyright') <==>
        copyright == [] && Dangling(Split(source)) == []
  {
    hide EmitInto, BlockOf, Stringify, Placed, CommentAll, IsNotice, IsTagLine;
    var once := EmitInto(first, source, copyright);
    var a, b := BlockOf(Stringify(first)), BlockOf(Stringify(second));
    EmittedLines(first, source, copyright);
    EmittedLines(second, source, copyright');
    EmittedLines(second, once, copyright');
    BlockOfIsBlock(Stringify(first));
    BlockOfIsBlock(Stringify(second));
    PlacedTwiceIsOnce(Split(source), CommentAll(copyright), a, CommentAll(copyright'), b);
    JoinSplit(EmitInto(second, source, copyright'));
    JoinSplit(EmitInto(second, once, copyright'));
    assert |CommentAll(copyright)| == |copyright|;
  }

  /** Every line outside the old block is still there, in order, and nothing else but the new lines. */
  lemma OtherLinesKept(tree: Tree, source: string, copyright: seq<string>)
    requires AllOneLine(copyright)
    ensures var lines, r := Split(source), Split(EmitInto(tree, source, copyright));
      var n := |copyright| + |BlockOf(Stringify(tree))|;
      if HasTag(lines) then
        var start := TagIndex(lines);
        var end := start + 1 + CommentRun(lines[start + 1..]);
        start + n <= |r| && r[..start] == lines[..start] && r[start + n..] == lines[end..]
      else
        var at := InsertionPoint(lines);
        at + n <= |r| && r[..at] + r[at + n..] == lines
  {
    hide IsTagLine, TagIndex, CommentRun, Stringify, EmitInto, Split, BlockOf, InsertionPoint;
    var block := CommentAll(copyright) + BlockOf(Stringify(tree));
    EmittedLines(tree, source, copyright);
    if HasTag(Split(source)) {
      ReplacedKeeps(Split(source), block);
    } else {
      InjectedKeeps(Split(source), block);
    }
  }

  lemma TaggedParts(lines: seq<string>)
    requires HasTag(lines)
    ensures var start := TagIndex(lines);
      Before(lines) == lines[..start] && After(lines) == lines[start + 1 + CommentRun(lines[start + 1..])..]
  {
    hide IsTagLine, TagIndex, CommentRun, InsertionPoint;
    DropTwice(lines, TagIndex(lines) + 1, CommentRun(lines[TagIndex(lines) + 1..]));
  }

  lemma ReplacedKeeps(lines: seq<string>, block: seq<string>)
    requires HasTag(lines)
    ensures var r, start := Placed(lines, block), TagIndex(lines);
      r[..start] == lines[..start] && r[start + |block|..] == lines[start + 1 + CommentRun(lines[start + 1..])..]
  {
    TaggedParts(lines);
    Around(Before(lines), block, After(lines));
  }

  lemma InjectedKeeps(lines: seq<string>, block: seq<string>)
    requires !HasTag(lines)
    ensures var r, at := Placed(lines, block), InsertionPoint(lines);
      r[..at] + r[at + |block|..] == lines
  {
    var at := InsertionPoint(lines);
    Around(lines[..at], block, lines[at..]);
    assert lines[..at] + lines[at..] == lines;
  }

  lemma Around(front: seq<string>, block: seq<string>, rest: seq<string>)
    ensures var r := front + block + rest;
      r[..|front|] == front && r[|front| + |block|..] == rest
  {
  }

  lemma DropTwice(lines: seq<string>, a: nat, b: nat)
    requires a + b <= |lines|
    ensures lines[a..][b..] == lines[a + b..]
  {
  }

  /**
    With copyright lines the block grows: emitting again puts them in a second time, so
    emission settles exactly when there are none and nothing dangles.
   */
  lemma CopyrightRepeats(tree: Tree, source: string, copyright: seq<string>)
    requires AreNotices(copyright)
    ensures var noted, rest := CommentAll(copyright), After(Split(source));
      Split(EmitInto(tree, EmitInto(tree, source, copyright), copyright)) ==
        Before(Split(source)) + noted + (noted + BlockOf(Stringify(tree))) + rest[CommentRun(rest)..]
    ensures EmitInto(tree, EmitInto(tree, source, copyright), copyright) == EmitInto(tree, source, copyright) <==>
      copyright == [] && Dangling(Split(source)) == []
  {
    hide EmitInto, BlockOf, Stringify;
    var noted, block := CommentAll(copyright), BlockOf(Stringify(tree));
    BlockOfIsBlock(Stringify(tree));
    EmittedLines(tree, source, copyright);
    EmittedLines(tree, EmitInto(tree, source, copyright), copyright);
    PlacedTwice(Split(source), noted, block, noted, block);
    LastEmitWins(tree, copyright, tree, copyright, source);
  }

  // -------------------------------------------------------------- new headers

  lemma {:induction false} NoMarkNoTag(s: string, tag: string)
    requires tag != "" && tag[0] !in s
    ensures !Contains(s, tag)
  {
    if s != "" {
      NoMarkNoTag(s[1..], tag);
    }
  }

  lemma SpdxCharacters(spdx: string)
    requires spdx == SPDX_LINE
    ensures '@' !in spdx && '\n' !in spdx
  {
  }

  lemma NoMarkNotTagLine(line: string)
    requires '@' !in line
    ensures !IsTagLine(line)
  {
    var tag := HEADER_TAG;
    assert tag[0] == '@';
    NoMarkNoTag(line, tag);
  }

  lemma SpdxIsPlain(spdx: string)
    requires spdx == SPDX_LINE
    ensures !IsTagLine(spdx) && OneLine(spdx)
  {
    SpdxCharacters(spdx);
    NoMarkNotTagLine(spdx);
  }

  lemma NoticeCharacters(notice: string)
    requires notice == "Copyright 2026 The InvoiceKit Authors"
    ensures '@' !in Comment(notice) && '\n' !in notice
  {
  }

  /** The usual copyright line, emitted twice into any source, stands there twice. */
  lemma UsualCopyrightRepeats(tree: Tree, source: string, notice: string)
    requires notice == "Copyright 2026 The InvoiceKit Authors"
    ensures AreNotices([notice])
    ensures EmitInto(tree, EmitInto(tree, source, [notice]), [notice]) != EmitInto(tree, source, [notice])
  {
    hide EmitInto, IsTagLine;
    NoticeCharacters(notice);
    NoMarkNotTagLine(Comment(notice));
    CopyrightRepeats(tree, source, [notice]);
  }

  lemma NewHeaderLines(spdx: string, noted: seq<string>, json: string)
    requires OneLine(spdx) && AllOneLine(noted)
    ensures var segments := if noted == [] then [spdx] else [spdx, Join(noted)];
      Split(Join(segments + [Comment(HEADER_TAG), Join(CommentAll(Split(json)))]) + "\n") ==
        [spdx] + noted + BlockOf(json) + [""]
  {
    var block, tail := BlockOf(json), [Comment(HEADER_TAG), Join(CommentAll(Split(json)))];
    var all := [spdx] + noted + block;
    BlockOfIsBlock(json);
    SegmentsJoin([spdx], noted, Comment(HEADER_TAG), CommentAll(Split(json)));
    assert Join(all) + "\n" == Join(all) + "\n" + Join([""]);
    JoinConcat(all, [""]);
    forall i | 0 <= i < |all| ensures OneLine(all[i]) {
      assert all[i] == spdx || all[i] in noted || all[i] in block;
    }
    SplitJoin(all + [""]);
  }

  lemma NewHeaderText(spdx: string, tree: Tree, copyright: seq<string>)
    requires spdx == SPDX_LINE
    ensures var noted := CommentAll(copyright);
      var segments := if noted == [] then [spdx] else [spdx, Join(noted)];
      EmitHeader(tree, copyright) ==
        Join(segments + [Comment(HEADER_TAG), Join(CommentAll(Split(Stringify(tree))))]) + "\n"
  {
    hide Stringify, Split;
    if copyright != [] {
      assert CommentAll(copyright)[0] == Comment(copyright[0]);
    }
  }

  /** A whole new header reads back as its state. */
  lemma NewHeaderParses(tree: Tree, state: State, copyright: seq<string>, reading: Reading)
    requires Presents(tree, state, reading) && AreNotices(copyright)
    ensures ParseLines(Split(EmitHeader(tree, copyright)), reading) == Ok(ParseResult(state, true))
  {
    hide Stringify, IsTagLine, BlockOf, Split, Join, ParseLines, Spells, EmitHeader, Comment, CommentAll, IsNotice;
    hide CoerceState, ValueOf, Printable;
    var spdx := SPDX_LINE;
    StringifySpells(tree);
    SpdxIsPlain(spdx);
    CommentsAreOneLine(copyright);
    NewHeaderText(spdx, tree, copyright);
    NewHeaderLines(spdx, CommentAll(copyright), Stringify(tree));
    NewHeaderReads(spdx, CommentAll(copyright), Stringify(tree), ValueOf(tree), reading);
  }

  lemma NewHeaderReads(spdx: string, noted: seq<string>, json: string, v: Json, reading: Reading)
    requires Spells(json, v) && !IsTagLine(spdx) && IsNotice(noted)
    ensures ParseLines([spdx] + noted + BlockOf(json) + [""], reading) == Reported(CoerceState(v, reading))
  {
    hide CoerceState;
    BlockOfIsBlock(json);
    BlockSeen([spdx] + noted, BlockOf(json), [""]);
    assert BlockOf(json)[1..] + [""][..0] == CommentAll(Split(json));
    StripUndoesComment(Split(json));
    BodyReads(json, v, [], reading);
    assert Split(json) + [] == Split(json);
  }

  // ---------------------------------------------------------- a failing source

  /** A template of two comment lines, the first of them the licence line. */
  lemma LicenceShape(spdx: string, notice: string)
    requires SPDX_LINE <= spdx && !IsTagLine(spdx) && !IsTagLine(Comment(notice))
    ensures var lines := [spdx, Comment(notice)];
      !HasTag(lines) && Before(lines) == [spdx] && After(lines) == [Comment(notice)]
  {
    var lines := [spdx, Comment(notice)];
    assert TagIndex(lines) == 2 by {
      assert forall i :: 0 <= i < 2 ==> !IsTagLine(lines[i]);
    }
    assert SpdxIndex(lines) == 0;
    assert lines[1..] == [Comment(notice)];
  }

  lemma OneDangling(lines: seq<string>, notice: string)
    requires After(lines) == [Comment(notice)]
    ensures Dangling(lines) == [Comment(notice)] && StripAll(Dangling(lines)) == [notice]
  {
    CommentRunOver([Comment(notice)], []);
    assert [Comment(notice)] + [] == [Comment(notice)];
    StripUndoesComment([notice]);
    assert CommentAll([notice]) == [Comment(notice)];
  }

  /**
    A template that starts with the two licence lines: the header lands between them
    and cannot be read back, and writing it again drops the copyright line.
   */
  lemma LicenceLinesBreakInjection(tree: Tree, spdx: string, notice: string, reading: Reading)
    requires Printable(tree, false)
    requires spdx == SPDX_LINE && OneLine(notice) && !AllSpace(notice) && !IsTagLine(Comment(notice))
    ensures var source := Join([spdx, Comment(notice)]);
      ParseLines(Split(EmitInto(tree, source, [])), reading) == Err(MalformedJson) &&
      Split(EmitInto(tree, source, [])) == [spdx] + BlockOf(Stringify(tree)) + [Comment(notice)] &&
      Split(EmitInto(tree, EmitInto(tree, source, []), [])) == [spdx] + BlockOf(Stringify(tree))
  {
    hide IsTagLine, TagIndex, CommentRun, Stringify, EmitInto, Split, BlockOf, InsertionPoint, ParseLines;
    var lines := [spdx, Comment(notice)];
    var source := Join(lines);
    SpdxIsPlain(spdx);
    SplitJoin(lines);
    LicenceShape(spdx, notice);
    OneDangling(lines, notice);
    EmitThenRead(tree, source, [], reading);
    EmittedLinesPlain(tree, source);
    EmittedLinesPlain(tree, EmitInto(tree, source, []));
    LicenceTwice(spdx, notice, BlockOf(Stringify(tree)), Stringify(tree));
  }

  lemma EmittedLinesPlain(tree: Tree, source: string)
    ensures Split(EmitInto(tree, source, [])) == Placed(Split(source), BlockOf(Stringify(tree)))
  {
    EmittedLines(tree, source, []);
    assert CommentAll([]) + BlockOf(Stringify(tree)) == BlockOf(Stringify(tree));
  }

  lemma LicenceTwice(spdx: string, notice: string, block: seq<string>, json: string)
    requires !IsTagLine(spdx) && block == BlockOf(json)
    ensures Placed([spdx] + block + [Comment(notice)], block) == [spdx] + block
  {
    BlockOfIsBlock(json);
    CommentRunOver([Comment(notice)], []);
    assert [Comment(notice)] + [] == [Comment(notice)];
    BlockSeen([spdx], block, [Comment(notice)]);
  }

  // ------------------------------------------------------- where a header goes

  /** Where a header is put in a source without one: under its first licence line, or else at the top. */
  lemma PlaceOfNewHeader(lines: seq<string>)
    requires !HasTag(lines)
    ensures Before(lines) + After(lines) == lines
    ensures Before(lines) == [] ==>
      forall i :: 0 <= i < |lines| ==> !("// SPDX-License-Identifier: Apache-2.0" <= lines[i])
    ensures Before(lines) != [] ==>
      "// SPDX-License-Identifier: Apache-2.0" <= Before(lines)[|Before(lines)| - 1] &&
      forall i :: 0 <= i < |Before(lines)| - 1 ==> !("// SPDX-License-Identifier: Apache-2.0" <= lines[i])
  {
    hide HasTag;
    var at := InsertionPoint(lines);
    assert lines[..at] + lines[at..] == lines;
  }

  /** Which lines a header takes in a source that has one: the first tag line and the comments directly under it. */
  lemma PlaceOfOldHeader(lines: seq<string>)
    requires HasTag(lines)
    ensures var start := |Before(lines)|;
      var end := |lines| - |After(lines)|;
      start < end <= |lines| && Before(lines) == lines[..start] && After(lines) == lines[end..] &&
      Contains(lines[start], "@invoicekit-designer:state v1") &&
      (forall i :: 0 <= i < start ==> !Contains(lines[i], "@invoicekit-designer:state v1")) &&
      (forall i :: start < i < end ==> "//" <= lines[i]) && (end < |lines| ==> !("//" <= lines[end]))
  {
    hide Contains;
    TaggedParts(lines);
    var start := TagIndex(lines);
    var rest := lines[start + 1..];
    assert forall i :: 0 <= i < |rest| ==> rest[i] == lines[start + 1 + i];
  }

  /** The lines of a block, as they are written. */
  lemma BlockIsWritten(json: string)
    ensures |BlockOf(json)| == |Split(json)| + 1 && BlockOf(json)[0] == "// @invoicekit-designer:state v1"
    ensures forall i :: 0 <= i < |Split(json)| ==> BlockOf(json)[i + 1] == "// " + Split(json)[i]
  {
    hide Split;
    TagIsWritten(HEADER_TAG);
  }

  lemma TagIsWritten(tag: string)
    requires tag == HEADER_TAG
    ensures Comment(tag) == "// @invoicekit-designer:state v1"
  {
  }
}
