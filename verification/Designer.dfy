/**
  The designer header of a template: a tag comment followed by the state as
  commented JSON, written into and read back from the middle of a source text.
 */
module Designer {
  import opened Wrappers
  import opened JsonModel
  import opened JsonText
  import opened Lines

  const HEADER_TAG: string := "@invoicekit-designer:state v1"
  const SPDX_LINE: string := "// SPDX-License-Identifier: Apache-2.0"

  // ------------------------------------------------------------------- state

  datatype BlockStyle = H1 | H2 | H3 | Body | Caption | Amount

  datatype PageSize = A4 | Letter | Legal

  /** A finite number. */
  type Finite = t: NumberText | IsJsonNumber(t) witness ZeroText()

  datatype Margins = Margins(top: Finite, right: Finite, bottom: Finite, left: Finite)

  datatype Page = Page(size: PageSize, margins: Margins)

  datatype Block = Block(id: string, x: Finite, y: Finite, w: Finite, h: Finite, bind: string, style: BlockStyle)

  datatype State = State(blocks: seq<Block>, page: Page)

  function StyleName(style: BlockStyle): string {
    match style
    case H1 => "h1"
    case H2 => "h2"
    case H3 => "h3"
    case Body => "body"
    case Caption => "caption"
    case Amount => "amount"
  }

  function StyleNamed(name: string): Option<BlockStyle> {
    if name == "h1" then Some(H1)
    else if name == "h2" then Some(H2)
    else if name == "h3" then Some(H3)
    else if name == "body" then Some(Body)
    else if name == "caption" then Some(Caption)
    else if name == "amount" then Some(Amount)
    else None
  }

  function SizeName(size: PageSize): string {
    match size
    case A4 => "A4"
    case Letter => "Letter"
    case Legal => "Legal"
  }

  function SizeNamed(name: string): Option<PageSize> {
    if name == "A4" then Some(A4)
    else if name == "Letter" then Some(Letter)
    else if name == "Legal" then Some(Legal)
    else None
  }

  function DefaultMargin(): Finite {
    assert DropDigits("24") == "" by {
      assert "24"[1..] == "4" && "4"[1..] == "";
    }
    "24"
  }

  function EmptyState(): State {
    State([], Page(A4, Margins(DefaultMargin(), DefaultMargin(), DefaultMargin(), DefaultMargin())))
  }

  function BlockTree(b: Block): Tree {
    TObj([("id", TStr(b.id)), ("x", TNum(b.x)), ("y", TNum(b.y)), ("w", TNum(b.w)), ("h", TNum(b.h)),
          ("bind", TStr(b.bind)), ("style", TStr(StyleName(b.style)))])
  }

  function MarginsTree(m: Margins): Tree {
    TObj([("top", TNum(m.top)), ("right", TNum(m.right)), ("bottom", TNum(m.bottom)), ("left", TNum(m.left))])
  }

  function PageTree(p: Page): Tree {
    TObj([("size", TStr(SizeName(p.size))), ("margins", MarginsTree(p.margins))])
  }

  function BlocksTree(blocks: seq<Block>): Tree {
    TArr(seq(|blocks|, i requires 0 <= i < |blocks| => BlockTree(blocks[i])))
  }

  /** The object that `coerceState` builds. */
  function StateTree(state: State): Tree {
    TObj([("blocks", BlocksTree(state.blocks)), ("page", PageTree(state.page))])
  }

  /** `JSON.stringify(state, null, 2)`; the tree has the members of the state object in the object's own order. */
  function Stringify(tree: Tree): string {
    Print(tree, Style(false, true), 0)
  }

  // ---------------------------------------------------------------- coercing

  datatype ParseError = NoBody | MalformedJson | WrongShape

  type Parsed<+T> = Result<T, ParseError>

  /** The members of an object; an array passes the `typeof` test but has none. */
  function Members(raw: Json): Parsed<map<string, Json>> {
    if raw.Obj? then Ok(raw.fields) else if raw.Arr? then Ok(map[]) else Err(WrongShape)
  }

  function ExpectString(fields: map<string, Json>, key: string): Parsed<string> {
    if key in fields && fields[key].Str? then Ok(fields[key].text) else Err(WrongShape)
  }

  /** What the runtime prints for a number it reads; nothing when the number is not finite. */
  type Reading = NumberText -> Option<Finite>

  function ExpectNumber(fields: map<string, Json>, key: string, reading: Reading): Parsed<Finite> {
    if key !in fields || !fields[key].Num? then Err(WrongShape) else ReadNumber(fields[key].literal, reading)
  }

  function ReadNumber(literal: NumberText, reading: Reading): Parsed<Finite> {
    match reading(literal)
    case None => Err(WrongShape)
    case Some(number) => Ok(number)
  }

  function CoerceBlock(raw: Json, reading: Reading): Parsed<Block> {
    var fields :- Members(raw);
    var id :- ExpectString(fields, "id");
    var x :- ExpectNumber(fields, "x", reading);
    var y :- ExpectNumber(fields, "y", reading);
    var w :- ExpectNumber(fields, "w", reading);
    var h :- ExpectNumber(fields, "h", reading);
    var bind :- ExpectString(fields, "bind");
    var style :- ExpectString(fields, "style");
    match StyleNamed(style)
    case None => Err(WrongShape)
    case Some(style) => Ok(Block(id, x, y, w, h, bind, style))
  }

  function CoerceBlocks(raw: seq<Json>, reading: Reading): Parsed<seq<Block>> {
    if raw == [] then Ok([]) else
    var first :- CoerceBlock(raw[0], reading);
    var rest :- CoerceBlocks(raw[1..], reading);
    Ok([first] + rest)
  }

  function CoercePage(raw: Json, reading: Reading): Parsed<Page> {
    var fields :- Members(raw);
    var sizeName :- ExpectString(fields, "size");
    match SizeNamed(sizeName)
    case None => Err(WrongShape)
    case Some(size) =>
      if "margins" !in fields then Err(WrongShape) else
      var m :- Members(fields["margins"]);
      var top :- ExpectNumber(m, "top", reading);
      var right :- ExpectNumber(m, "right", reading);
      var bottom :- ExpectNumber(m, "bottom", reading);
      var left :- ExpectNumber(m, "left", reading);
      Ok(Page(size, Margins(top, right, bottom, left)))
  }

  function CoerceState(raw: Json, reading: Reading): Parsed<State> {
    var fields :- Members(raw);
    if "blocks" !in fields || !fields["blocks"].Arr? then Err(WrongShape) else
    var blocks :- CoerceBlocks(fields["blocks"].items, reading);
    if "page" !in fields then Err(WrongShape) else
    var page :- CoercePage(fields["page"], reading);
    Ok(State(blocks, page))
  }

  // ---------------------------------------------------------------- emitting

  predicate IsComment(line: string) {
    "//" <= line
  }

  function Comment(line: string): string {
    "// " + line
  }

  function CommentAll(lines: seq<string>): (commented: seq<string>)
    ensures |commented| == |lines|
    ensures forall i :: 0 <= i < |lines| ==> commented[i] == Comment(lines[i])
  {
    seq(|lines|, i requires 0 <= i < |lines| => Comment(lines[i]))
  }

  /** `emitHeaderBlockOnly`. */
  function EmitBlock(tree: Tree, copyright: seq<string>): string {
    var headerBody := Join(CommentAll(Split(Stringify(tree))));
    var copyrightText := Join(CommentAll(copyright));
    var segments := if copyrightText != "" then [copyrightText] else [];
    Join(segments + [Comment(HEADER_TAG), headerBody])
  }

  /** `emitHeader`: a whole header for a new template. */
  function EmitHeader(tree: Tree, copyright: seq<string>): string {
    var headerBody := Join(CommentAll(Split(Stringify(tree))));
    var copyrightText := Join(CommentAll(copyright));
    var segments := if copyrightText != "" then [SPDX_LINE, copyrightText] else [SPDX_LINE];
    Join(segments + [Comment(HEADER_TAG), headerBody]) + "\n"
  }

  predicate IsTagLine(line: string) {
    Contains(line, HEADER_TAG)
  }

  /** `lines.findIndex(...)` for the tag, and for the licence line. */
  function TagIndex(lines: seq<string>): (i: nat)
    ensures i <= |lines|
    ensures forall j :: 0 <= j < i ==> !IsTagLine(lines[j])
    ensures i < |lines| ==> IsTagLine(lines[i])
  {
    if lines == [] || IsTagLine(lines[0]) then 0 else 1 + TagIndex(lines[1..])
  }

  predicate HasTag(lines: seq<string>) {
    TagIndex(lines) < |lines|
  }

  function SpdxIndex(lines: seq<string>): (i: nat)
    ensures i <= |lines|
    ensures forall j :: 0 <= j < i ==> !(SPDX_LINE <= lines[j])
    ensures i < |lines| ==> SPDX_LINE <= lines[i]
  {
    if lines == [] || SPDX_LINE <= lines[0] then 0 else 1 + SpdxIndex(lines[1..])
  }

  /** Where a header goes in a source that has none: after the licence line, or at the top. */
  function InsertionPoint(lines: seq<string>): (i: nat)
    ensures i <= |lines|
  {
    if SpdxIndex(lines) == |lines| then 0 else SpdxIndex(lines) + 1
  }

  /** How many comment lines stand at the front. */
  function CommentRun(lines: seq<string>): (n: nat)
    ensures n <= |lines|
    ensures forall i :: 0 <= i < n ==> IsComment(lines[i])
    ensures n < |lines| ==> !IsComment(lines[n])
  {
    if lines == [] || !IsComment(lines[0]) then 0 else 1 + CommentRun(lines[1..])
  }

  /** Scans for the last line of the block whose tag is on line `headerStart`. */
  method FindHeaderEnd(lines: seq<string>, headerStart: nat) returns (end: nat)
    requires headerStart < |lines|
    ensures end == headerStart + CommentRun(lines[headerStart + 1..])
  {
    var i := headerStart + 1;
    assert lines[i..] == lines[headerStart + 1..];
    while i < |lines|
      invariant headerStart < i <= |lines|
      invariant i - (headerStart + 1) + CommentRun(lines[i..]) == CommentRun(lines[headerStart + 1..])
    {
      if !IsComment(lines[i]) {
        break;
      }
      assert lines[i..][1..] == lines[i + 1..];
      i := i + 1;
    }
    assert CommentRun(lines[i..]) == 0;
    end := i - 1;
  }

  /** The lines of the source before and after the place the block takes. */
  function Before(lines: seq<string>): seq<string> {
    if HasTag(lines) then lines[..TagIndex(lines)] else lines[..InsertionPoint(lines)]
  }

  function After(lines: seq<string>): seq<string> {
    if HasTag(lines) then
      var rest := lines[TagIndex(lines) + 1..];
      rest[CommentRun(rest)..]
    else lines[InsertionPoint(lines)..]
  }

  function EmitInto(tree: Tree, source: string, copyright: seq<string>): string {
    var lines := Split(source);
    Join(Before(lines) + [EmitBlock(tree, copyright)] + After(lines))
  }

  /** `emitIntoTemplate`. */
  method EmitIntoTemplate(tree: Tree, source: string, copyright: seq<string>) returns (result: string)
    ensures result == EmitInto(tree, source, copyright)
  {
    hide EmitBlock, IsTagLine, TagIndex, InsertionPoint, CommentRun, Split, Join;
    var lines := Split(source);
    var headerStart := TagIndex(lines);
    if headerStart == |lines| {
      var insertAt := InsertionPoint(lines);
      return Join(lines[..insertAt] + [EmitBlock(tree, copyright)] + lines[insertAt..]);
    }
    var headerEnd := FindHeaderEnd(lines, headerStart);
    assert lines[headerStart + 1..][headerEnd - headerStart..] == lines[headerEnd + 1..];
    return Join(lines[..headerStart] + [EmitBlock(tree, copyright)] + lines[headerEnd + 1..]);
  }

  // ----------------------------------------------------------------- parsing

  function StripComment(line: string): string {
    if "// " <= line then line[3..] else if "//" <= line then line[2..] else line
  }

  function StripAll(lines: seq<string>): (stripped: seq<string>)
    ensures |stripped| == |lines|
    ensures forall i :: 0 <= i < |lines| ==> stripped[i] == StripComment(lines[i])
  {
    seq(|lines|, i requires 0 <= i < |lines| => StripComment(lines[i]))
  }

  datatype ParseResult = ParseResult(state: State, hadHeader: bool)

  /** What the body lines under a tag mean. */
  function ReadBody(body: seq<string>, reading: Reading): Parsed<State> {
    if body == [] then Err(NoBody) else
    match Parse(Join(body), false)
    case None => Err(MalformedJson)
    case Some(raw) => CoerceState(raw, reading)
  }

  function ParseLines(lines: seq<string>, reading: Reading): Parsed<ParseResult> {
    if !HasTag(lines) then Ok(ParseResult(EmptyState(), false)) else
    var rest := lines[TagIndex(lines) + 1..];
    var state :- ReadBody(StripAll(rest[..CommentRun(rest)]), reading);
    Ok(ParseResult(state, true))
  }

  /** `parseHeader`. */
  method ParseHeader(source: string, reading: Reading) returns (result: Parsed<ParseResult>)
    ensures result == ParseLines(Split(source), reading)
  {
    var lines := Split(source);
    hide TagIndex, CommentRun, StripAll, ReadBody, IsTagLine;
    var tagIdx := TagIndex(lines);
    if tagIdx == |lines| {
      return Ok(ParseResult(EmptyState(), false));
    }
    var bodyLines := CollectBody(lines, tagIdx + 1);
    var state := ReadBody(bodyLines, reading);
    result := if state.Ok? then Ok(ParseResult(state.value, true)) else Err(state.error);
  }

  /** The stripped comment lines from line `first` on, up to the first line that is not a comment. */
  method CollectBody(lines: seq<string>, first: nat) returns (bodyLines: seq<string>)
    requires first <= |lines|
    ensures bodyLines == StripAll(lines[first..][..CommentRun(lines[first..])])
  {
    ghost var rest := lines[first..];
    bodyLines := [];
    var i := first;
    while i < |lines|
      invariant first <= i <= |lines| && i - first <= CommentRun(rest)
      invariant bodyLines == StripAll(rest[..i - first])
    {
      assert rest[i - first] == lines[i];
      if !IsComment(lines[i]) {
        break;
      }
      bodyLines := bodyLines + [StripComment(lines[i])];
      i := i + 1;
    }
    assert i - first == CommentRun(rest);
  }
}
