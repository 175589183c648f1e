/** The designer state survives its own JSON: coercing what was printed gives it back. */
module DesignerState {
  import opened Wrappers
  import opened JsonModel
  import opened JsonText
  import opened JsonRoundTrip
  import opened Designer
  import opened Lines

  // ----------------------------------------------------- members of an object

  lemma {:induction false} MembersAmong(members: seq<(string, Tree)>)
    ensures forall k :: k in MemberValues(members) ==> exists j :: 0 <= j < |members| && members[j].0 == k
  {
    if members != [] {
      var rest := members[1..];
      MembersAmong(rest);
      var (key, value) := members[0];
      forall k | k in MemberValues(members) ensures exists j :: 0 <= j < |members| && members[j].0 == k {
        if k in MemberValues(rest) {
          var j :| 0 <= j < |rest| && rest[j].0 == k;
          assert members[j + 1].0 == k;
        } else {
          assert k in MemberValue(members[0]);
          assert members[0].0 == k;
        }
      }
    }
  }

  lemma {:induction false} MemberFound(members: seq<(string, Tree)>, i: nat)
    requires i < |members| && forall j :: i < j < |members| ==> members[j].0 != members[i].0
    ensures members[i].0 in MemberValues(members)
    ensures MemberValues(members)[members[i].0] == ValueOf(members[i].1)
  {
    var rest := members[1..];
    var (key, value) := members[0];
    if i > 0 {
      MemberFound(rest, i - 1);
    } else {
      MembersAmong(rest);
      assert forall j :: 0 <= j < |rest| ==> rest[j].0 == members[j + 1].0;
    }
  }

  ghost predicate Shows(fields: map<string, Json>, key: string, v: Json) {
    key in fields && fields[key] == v
  }

  /** No two of the keys are equal. */
  ghost predicate DistinctKeys(members: seq<(string, Tree)>) {
    forall i, j :: 0 <= i < j < |members| ==> members[i].0 != members[j].0
  }

  ghost predicate Denotes(members: seq<(string, Tree)>, fields: map<string, Json>) {
    forall i :: 0 <= i < |members| ==> Shows(fields, members[i].0, ValueOf(members[i].1))
  }

  lemma DistinctKeysDenote(members: seq<(string, Tree)>)
    requires DistinctKeys(members)
    ensures Denotes(members, MemberValues(members))
  {
    forall i | 0 <= i < |members| ensures Shows(MemberValues(members), members[i].0, ValueOf(members[i].1)) {
      MemberFound(members, i);
    }
  }

  lemma BlockKeys(b: Block)
    ensures DistinctKeys(BlockTree(b).members)
  {
    var members := BlockTree(b).members;
    var initials := "ixywhbs";
    assert forall i :: 0 <= i < 7 ==> members[i].0[0] == initials[i];
    assert forall i, j :: 0 <= i < j < 7 ==> initials[i] != initials[j];
  }

  lemma BlockFields(b: Block, members: seq<(string, Tree)>, fields: map<string, Json>)
    requires Denotes(members, fields)
    requires |members| == 7 && members[0] == ("id", TStr(b.id))
    requires members[1] == ("x", TNum(b.x)) && members[2] == ("y", TNum(b.y))
    requires members[3] == ("w", TNum(b.w)) && members[4] == ("h", TNum(b.h))
    requires members[5] == ("bind", TStr(b.bind)) && members[6] == ("style", TStr(StyleName(b.style)))
    ensures Shows(fields, "id", Str(b.id)) && Shows(fields, "x", Num(b.x)) && Shows(fields, "y", Num(b.y))
    ensures Shows(fields, "w", Num(b.w)) && Shows(fields, "h", Num(b.h))
    ensures Shows(fields, "bind", Str(b.bind)) && Shows(fields, "style", Str(StyleName(b.style)))
  {
    assert Shows(fields, members[0].0, ValueOf(members[0].1));
    assert Shows(fields, members[1].0, ValueOf(members[1].1));
    assert Shows(fields, members[2].0, ValueOf(members[2].1));
    assert Shows(fields, members[3].0, ValueOf(members[3].1));
    assert Shows(fields, members[4].0, ValueOf(members[4].1));
    assert Shows(fields, members[5].0, ValueOf(members[5].1));
    assert Shows(fields, members[6].0, ValueOf(members[6].1));
  }

  // ------------------------------------------------------------ reading back

  function ReadBlock(b: Block, reading: Reading): Parsed<Block> {
    var x :- ReadNumber(b.x, reading);
    var y :- ReadNumber(b.y, reading);
    var w :- ReadNumber(b.w, reading);
    var h :- ReadNumber(b.h, reading);
    Ok(b.(x := x, y := y, w := w, h := h))
  }

  function ReadBlocks(blocks: seq<Block>, reading: Reading): Parsed<seq<Block>> {
    if blocks == [] then Ok([]) else
    var first :- ReadBlock(blocks[0], reading);
    var rest :- ReadBlocks(blocks[1..], reading);
    Ok([first] + rest)
  }

  function ReadPage(p: Page, reading: Reading): Parsed<Page> {
    var top :- ReadNumber(p.margins.top, reading);
    var right :- ReadNumber(p.margins.right, reading);
    var bottom :- ReadNumber(p.margins.bottom, reading);
    var left :- ReadNumber(p.margins.left, reading);
    Ok(Page(p.size, Margins(top, right, bottom, left)))
  }

  /** A state with its numbers as written, read: every number becomes what the runtime prints for it. */
  function ReadState(written: State, reading: Reading): Parsed<State> {
    var blocks :- ReadBlocks(written.blocks, reading);
    var page :- ReadPage(written.page, reading);
    Ok(State(blocks, page))
  }

  /** The number is written the way the runtime prints it. */
  predicate IsPrinted(n: Finite, reading: Reading) {
    reading(n) == Some(n)
  }

  /** All numbers of the state are written the way the runtime prints them. */
  predicate AllPrinted(state: State, reading: Reading) {
    var m := state.page.margins;
    (forall b :: b in state.blocks ==>
      IsPrinted(b.x, reading) && IsPrinted(b.y, reading) && IsPrinted(b.w, reading) && IsPrinted(b.h, reading)) &&
    IsPrinted(m.top, reading) && IsPrinted(m.right, reading) && IsPrinted(m.bottom, reading) &&
      IsPrinted(m.left, reading)
  }

  lemma {:induction false} BlocksReadBack(blocks: seq<Block>, reading: Reading)
    ensures ReadBlocks(blocks, reading) == Ok(blocks) <==> forall b :: b in blocks ==> ReadBlock(b, reading) == Ok(b)
  {
    hide ReadBlock;
    if blocks != [] {
      BlocksReadBack(blocks[1..], reading);
      assert blocks == [blocks[0]] + blocks[1..];
      assert forall b :: b in blocks <==> b == blocks[0] || b in blocks[1..];
    }
  }

  lemma BlockReadsBack(b: Block, reading: Reading)
    ensures ReadBlock(b, reading) == Ok(b) <==>
      IsPrinted(b.x, reading) && IsPrinted(b.y, reading) && IsPrinted(b.w, reading) && IsPrinted(b.h, reading)
  {
  }

  lemma PageReadsBack(p: Page, reading: Reading)
    ensures var m := p.margins;
      ReadPage(p, reading) == Ok(p) <==>
        IsPrinted(m.top, reading) && IsPrinted(m.right, reading) && IsPrinted(m.bottom, reading) &&
        IsPrinted(m.left, reading)
  {
  }

  /** Reading a state changes nothing exactly when its numbers are written the way the runtime prints them. */
  lemma StateReadsBack(state: State, reading: Reading)
    ensures ReadState(state, reading) == Ok(state) <==> AllPrinted(state, reading)
  {
    hide ReadBlock, ReadBlocks, ReadPage, IsPrinted;
    PageReadsBack(state.page, reading);
    BlocksReadBack(state.blocks, reading);
    forall b | b in state.blocks
      ensures ReadBlock(b, reading) == Ok(b) <==>
        IsPrinted(b.x, reading) && IsPrinted(b.y, reading) && IsPrinted(b.w, reading) && IsPrinted(b.h, reading)
    {
      BlockReadsBack(b, reading);
    }
  }

  lemma StyleIsNamed(style: BlockStyle)
    ensures StyleNamed(StyleName(style)) == Some(style)
  {
  }

  lemma SizeIsNamed(size: PageSize)
    ensures SizeNamed(SizeName(size)) == Some(size)
  {
  }

  lemma BlockCoercesFrom(b: Block, fields: map<string, Json>, reading: Reading)
    requires Shows(fields, "id", Str(b.id)) && Shows(fields, "x", Num(b.x)) && Shows(fields, "y", Num(b.y))
    requires Shows(fields, "w", Num(b.w)) && Shows(fields, "h", Num(b.h))
    requires Shows(fields, "bind", Str(b.bind)) && Shows(fields, "style", Str(StyleName(b.style)))
    ensures CoerceBlock(Obj(fields), reading) == ReadBlock(b, reading)
  {
    StyleIsNamed(b.style);
    hide ReadNumber, StyleNamed, StyleName;
  }

  lemma ObjectValue(members: seq<(string, Tree)>)
    ensures ValueOf(TObj(members)) == Obj(MemberValues(members))
  {
  }

  lemma BlockDenotes(b: Block)
    ensures Denotes(BlockTree(b).members, MemberValues(BlockTree(b).members))
  {
    BlockKeys(b);
    DistinctKeysDenote(BlockTree(b).members);
  }

  lemma BlockMembersCoerce(b: Block, members: seq<(string, Tree)>, reading: Reading)
    requires members == BlockTree(b).members && Denotes(members, MemberValues(members))
    ensures CoerceBlock(Obj(MemberValues(members)), reading) == ReadBlock(b, reading)
  {
    BlockFields(b, members, MemberValues(members));
    BlockCoercesFrom(b, MemberValues(members), reading);
  }

  lemma BlockCoerces(b: Block, reading: Reading)
    ensures CoerceBlock(ValueOf(BlockTree(b)), reading) == ReadBlock(b, reading)
  {
    var members := BlockTree(b).members;
    BlockDenotes(b);
    BlockMembersCoerce(b, members, reading);
    ObjectValue(members);
  }

  lemma FirstItemValue(items: seq<Tree>)
    requires items != []
    ensures ItemValues(items)[0] == ValueOf(items[0]) && ItemValues(items)[1..] == ItemValues(items[1..])
  {
  }

  lemma BlocksStep(blocks: seq<Block>, items: seq<Tree>, reading: Reading)
    requires blocks != [] && items != [] && items[0] == BlockTree(blocks[0])
    requires CoerceBlocks(ItemValues(items[1..]), reading) == ReadBlocks(blocks[1..], reading)
    ensures CoerceBlocks(ItemValues(items), reading) == ReadBlocks(blocks, reading)
  {
    hide BlockTree, CoerceBlock, CoerceBlocks, ReadBlock, ReadBlocks, ValueOf, ItemValues;
    BlockCoerces(blocks[0], reading);
    FirstItemValue(items);
    FirstCoerces(ItemValues(items), blocks, reading);
  }

  lemma {:induction false} BlocksCoerce(blocks: seq<Block>, items: seq<Tree>, reading: Reading)
    requires |items| == |blocks| && forall i :: 0 <= i < |items| ==> items[i] == BlockTree(blocks[i])
    ensures CoerceBlocks(ItemValues(items), reading) == ReadBlocks(blocks, reading)
  {
    hide BlockTree, CoerceBlock, ReadBlock, ValueOf, ItemValues;
    if blocks != [] {
      BlocksCoerce(blocks[1..], items[1..], reading);
      BlocksStep(blocks, items, reading);
    }
  }

  lemma FirstCoerces(raw: seq<Json>, blocks: seq<Block>, reading: Reading)
    requires raw != [] && blocks != []
    requires CoerceBlock(raw[0], reading) == ReadBlock(blocks[0], reading)
    requires CoerceBlocks(raw[1..], reading) == ReadBlocks(blocks[1..], reading)
    ensures CoerceBlocks(raw, reading) == ReadBlocks(blocks, reading)
  {
    hide CoerceBlock, ReadBlock;
  }

  // --------------------------------------------------------------------- page

  lemma MarginKeys(m: Margins)
    ensures DistinctKeys(MarginsTree(m).members)
  {
    var members := MarginsTree(m).members;
    var initials := "trbl";
    assert forall i :: 0 <= i < 4 ==> members[i].0[0] == initials[i];
    assert forall i, j :: 0 <= i < j < 4 ==> initials[i] != initials[j];
  }

  lemma MarginFields(m: Margins, members: seq<(string, Tree)>, fields: map<string, Json>)
    requires Denotes(members, fields) && |members| == 4
    requires members[0] == ("top", TNum(m.top)) && members[1] == ("right", TNum(m.right))
    requires members[2] == ("bottom", TNum(m.bottom)) && members[3] == ("left", TNum(m.left))
    ensures Shows(fields, "top", Num(m.top)) && Shows(fields, "right", Num(m.right))
    ensures Shows(fields, "bottom", Num(m.bottom)) && Shows(fields, "left", Num(m.left))
  {
    assert Shows(fields, members[0].0, ValueOf(members[0].1));
    assert Shows(fields, members[1].0, ValueOf(members[1].1));
    assert Shows(fields, members[2].0, ValueOf(members[2].1));
    assert Shows(fields, members[3].0, ValueOf(members[3].1));
  }

  lemma PairFields(members: seq<(string, Tree)>, fields: map<string, Json>)
    requires |members| == 2 && Denotes(members, fields)
    ensures Shows(fields, members[0].0, ValueOf(members[0].1)) && Shows(fields, members[1].0, ValueOf(members[1].1))
  {
  }

  lemma PageCoercesFrom(p: Page, fields: map<string, Json>, margins: map<string, Json>, reading: Reading)
    requires Shows(fields, "size", Str(SizeName(p.size))) && Shows(fields, "margins", Obj(margins))
    requires Shows(margins, "top", Num(p.margins.top)) && Shows(margins, "right", Num(p.margins.right))
    requires Shows(margins, "bottom", Num(p.margins.bottom)) && Shows(margins, "left", Num(p.margins.left))
    ensures CoercePage(Obj(fields), reading) == ReadPage(p, reading)
  {
    SizeIsNamed(p.size);
    hide ReadNumber, SizeNamed, SizeName;
  }

  lemma MarginsDenote(m: Margins)
    ensures var members := MarginsTree(m).members;
      Denotes(members, MemberValues(members)) && ValueOf(MarginsTree(m)) == Obj(MemberValues(members))
  {
    MarginKeys(m);
    DistinctKeysDenote(MarginsTree(m).members);
    ObjectValue(MarginsTree(m).members);
  }

  lemma PageFields(p: Page)
    ensures var members := PageTree(p).members;
      Shows(MemberValues(members), "size", Str(SizeName(p.size))) &&
      Shows(MemberValues(members), "margins", ValueOf(MarginsTree(p.margins))) &&
      ValueOf(PageTree(p)) == Obj(MemberValues(members))
  {
    var members := PageTree(p).members;
    assert members[0].0[0] != members[1].0[0];
    DistinctKeysDenote(members);
    PairFields(members, MemberValues(members));
    ObjectValue(members);
  }

  lemma PageCoerces(p: Page, reading: Reading)
    ensures CoercePage(ValueOf(PageTree(p)), reading) == ReadPage(p, reading)
  {
    var margins := MarginsTree(p.margins).members;
    MarginsDenote(p.margins);
    MarginFields(p.margins, margins, MemberValues(margins));
    PageFields(p);
    PageCoercesFrom(p, MemberValues(PageTree(p).members), MemberValues(margins), reading);
  }

  // -------------------------------------------------------------------- state

  lemma StateCoercesFrom(state: State, fields: map<string, Json>, blocks: Json, page: Json, reading: Reading)
    requires Shows(fields, "blocks", blocks) && Shows(fields, "page", page)
    requires blocks.Arr? && CoerceBlocks(blocks.items, reading) == ReadBlocks(state.blocks, reading)
    requires CoercePage(page, reading) == ReadPage(state.page, reading)
    ensures CoerceState(Obj(fields), reading) == ReadState(state, reading)
  {
    hide CoerceBlocks, CoercePage, ReadBlocks, ReadPage;
  }

  lemma ArrayValue(items: seq<Tree>)
    ensures ValueOf(TArr(items)) == Arr(ItemValues(items))
  {
  }

  lemma BlocksTreeCoerces(blocks: seq<Block>, reading: Reading)
    ensures ValueOf(BlocksTree(blocks)).Arr?
    ensures CoerceBlocks(ValueOf(BlocksTree(blocks)).items, reading) == ReadBlocks(blocks, reading)
  {
    var items := BlocksTree(blocks).items;
    BlocksCoerce(blocks, items, reading);
    ArrayValue(items);
  }

  lemma StateFields(state: State)
    ensures var fields := MemberValues(StateTree(state).members);
      Shows(fields, "blocks", ValueOf(BlocksTree(state.blocks))) && Shows(fields, "page", ValueOf(PageTree(state.page)))
  {
    var members := StateTree(state).members;
    assert members[0].0[0] != members[1].0[0];
    DistinctKeysDenote(members);
    PairFields(members, MemberValues(members));
  }

  /** Coercing the JSON of a state reads it, number by number; it fails exactly when a number is not finite. */
  lemma StateCoerces(state: State, reading: Reading)
    ensures CoerceState(ValueOf(StateTree(state)), reading) == ReadState(state, reading)
  {
    BlocksTreeCoerces(state.blocks, reading);
    PageCoerces(state.page, reading);
    StateFields(state);
    StateCoercesFrom(state, MemberValues(StateTree(state).members), ValueOf(BlocksTree(state.blocks)),
                     ValueOf(PageTree(state.page)), reading);
  }

  // ---------------------------------------------------------------- printable

  lemma LeavesArePrintable(members: seq<(string, Tree)>)
    requires forall i :: 0 <= i < |members| ==>
      members[i].1.TStr? || (members[i].1.TNum? && IsJsonNumber(members[i].1.literal))
    ensures Printable(TObj(members), false)
  {
    forall i | 0 <= i < |members| ensures Printable(members[i].1, false) {
    }
  }

  lemma PageIsPrintable(p: Page)
    ensures Printable(PageTree(p), false)
  {
    LeavesArePrintable(MarginsTree(p.margins).members);
    var members := PageTree(p).members;
    assert members[1].1 == MarginsTree(p.margins);
    forall i | 0 <= i < |members| ensures Printable(members[i].1, false) {
      assert i == 0 || i == 1;
    }
  }

  lemma BlocksArePrintable(blocks: seq<Block>)
    ensures Printable(BlocksTree(blocks), false)
  {
    var items := BlocksTree(blocks).items;
    forall i | 0 <= i < |items| ensures Printable(items[i], false) {
      LeavesArePrintable(BlockTree(blocks[i]).members);
    }
    ArrayIsPrintable(items);
  }

  lemma PairIsPrintable(members: seq<(string, Tree)>)
    requires |members| == 2 && Printable(members[0].1, false) && Printable(members[1].1, false)
    ensures Printable(TObj(members), false)
  {
  }

  lemma StateIsPrintable(state: State)
    ensures Printable(StateTree(state), false)
  {
    BlocksArePrintable(state.blocks);
    PageIsPrintable(state.page);
    PairIsPrintable(StateTree(state).members);
  }

  lemma ArrayIsPrintable(items: seq<Tree>)
    requires forall i :: 0 <= i < |items| ==> Printable(items[i], false)
    ensures Printable(TArr(items), false)
  {
  }

  /** A finite state object: an object that reads back as the state, whatever the order of its members. */
  ghost predicate Presents(tree: Tree, state: State, reading: Reading) {
    Printable(tree, false) && CoerceState(ValueOf(tree), reading) == Ok(state)
  }

  /** A state written with its page before its blocks. */
  function PageFirst(state: State): Tree {
    TObj([("page", PageTree(state.page)), ("blocks", BlocksTree(state.blocks))])
  }

  /** The same state with its members the other way round is another state object for it. */
  lemma PageFirstPresents(state: State, reading: Reading)
    requires AllPrinted(state, reading)
    ensures Presents(PageFirst(state), state, reading) && PageFirst(state) != StateTree(state)
  {
    hide Printable, ValueOf, MemberValues, BlocksTree, PageTree;
    var members := PageFirst(state).members;
    StateReadsBack(state, reading);
    BlocksArePrintable(state.blocks);
    PageIsPrintable(state.page);
    PairIsPrintable(members);
    BlocksTreeCoerces(state.blocks, reading);
    PageCoerces(state.page, reading);
    assert members[0].0[0] != members[1].0[0];
    DistinctKeysDenote(members);
    PairFields(members, MemberValues(members));
    ObjectValue(members);
    StateCoercesFrom(state, MemberValues(members), ValueOf(BlocksTree(state.blocks)),
                     ValueOf(PageTree(state.page)), reading);
    assert StateTree(state).members[0].0[0] == 'b' && members[0].0[0] == 'p';
  }

  /**
    `text` is the JSON of a value: whatever separate text follows it, reading stops at
    its end and yields the value.
   */
  ghost predicate Spells(text: string, v: Json) {
    forall tail :: Ends(tail) ==> ParseValue(text + tail, false) == Some((v, tail))
  }

  lemma StringifySpells(tree: Tree)
    requires Printable(tree, false)
    ensures Spells(Stringify(tree), ValueOf(tree))
  {
    forall tail | Ends(tail)
      ensures ParseValue(Stringify(tree) + tail, false) == Some((ValueOf(tree), tail))
    {
      ValueParses(tree, Style(false, true), 0, tail, false);
    }
  }

  // ----------------------------------------------------- which values are states

  ghost predicate ShowsText(fields: map<string, Json>, key: string, text: string) {
    key in fields && fields[key] == Str(text)
  }

  /** The member is a number that the runtime reads as finite and prints as `n`. */
  ghost predicate ShowsNumber(fields: map<string, Json>, key: string, n: Finite, reading: Reading) {
    key in fields && fields[key].Num? && reading(fields[key].literal) == Some(n)
  }

  ghost predicate IsStyle(text: string, style: BlockStyle) {
    (text == "h1" && style == H1) || (text == "h2" && style == H2) || (text == "h3" && style == H3) ||
    (text == "body" && style == Body) || (text == "caption" && style == Caption) ||
      (text == "amount" && style == Amount)
  }

  ghost predicate IsSize(text: string, size: PageSize) {
    (text == "A4" && size == A4) || (text == "Letter" && size == Letter) || (text == "Legal" && size == Legal)
  }

  ghost predicate IsBlock(raw: Json, b: Block, reading: Reading) {
    raw.Obj? && ShowsText(raw.fields, "id", b.id) && ShowsText(raw.fields, "bind", b.bind) &&
    ShowsNumber(raw.fields, "x", b.x, reading) && ShowsNumber(raw.fields, "y", b.y, reading) &&
    ShowsNumber(raw.fields, "w", b.w, reading) && ShowsNumber(raw.fields, "h", b.h, reading) &&
    "style" in raw.fields && raw.fields["style"].Str? && IsStyle(raw.fields["style"].text, b.style)
  }

  ghost predicate AreMargins(raw: Json, m: Margins, reading: Reading) {
    raw.Obj? && ShowsNumber(raw.fields, "top", m.top, reading) && ShowsNumber(raw.fields, "right", m.right, reading) &&
    ShowsNumber(raw.fields, "bottom", m.bottom, reading) && ShowsNumber(raw.fields, "left", m.left, reading)
  }

  ghost predicate IsPage(raw: Json, p: Page, reading: Reading) {
    raw.Obj? && "size" in raw.fields && raw.fields["size"].Str? && IsSize(raw.fields["size"].text, p.size) &&
    "margins" in raw.fields && AreMargins(raw.fields["margins"], p.margins, reading)
  }

  ghost predicate AreBlocks(raw: seq<Json>, blocks: seq<Block>, reading: Reading) {
    |raw| == |blocks| && forall i :: 0 <= i < |raw| ==> IsBlock(raw[i], blocks[i], reading)
  }

  /** The value has the shape of a state object, and these are its contents. */
  ghost predicate IsState(raw: Json, state: State, reading: Reading) {
    raw.Obj? && "blocks" in raw.fields && raw.fields["blocks"].Arr? &&
    AreBlocks(raw.fields["blocks"].items, state.blocks, reading) &&
    "page" in raw.fields && IsPage(raw.fields["page"], state.page, reading)
  }

  lemma TextIff(fields: map<string, Json>, key: string, text: string)
    ensures ExpectString(fields, key) == Ok(text) <==> ShowsText(fields, key, text)
    ensures ExpectString(fields, key).Err? ==> ExpectString(fields, key).error == WrongShape
  {
  }

  lemma NumberIff(fields: map<string, Json>, key: string, n: Finite, reading: Reading)
    ensures ExpectNumber(fields, key, reading) == Ok(n) <==> ShowsNumber(fields, key, n, reading)
    ensures ExpectNumber(fields, key, reading).Err? ==> ExpectNumber(fields, key, reading).error == WrongShape
  {
  }

  lemma BlockIff(raw: Json, b: Block, reading: Reading)
    ensures CoerceBlock(raw, reading) == Ok(b) <==> IsBlock(raw, b, reading)
    ensures CoerceBlock(raw, reading).Err? ==> CoerceBlock(raw, reading).error == WrongShape
  {
    hide ExpectString, ExpectNumber, ShowsText, ShowsNumber, StyleNamed, IsStyle;
    if raw.Obj? {
      var fields := raw.fields;
      TextIff(fields, "id", b.id);
      NumberIff(fields, "x", b.x, reading);
      NumberIff(fields, "y", b.y, reading);
      NumberIff(fields, "w", b.w, reading);
      NumberIff(fields, "h", b.h, reading);
      TextIff(fields, "bind", b.bind);
      StyleTextIff(fields, b.style);
    } else if raw.Arr? {
      TextIff(map[], "id", "");
      NothingShown("id");
    }
  }

  lemma StyleTextIff(fields: map<string, Json>, style: BlockStyle)
    ensures ExpectString(fields, "style").Ok? <==> "style" in fields && fields["style"].Str?
    ensures ExpectString(fields, "style").Ok? ==>
      ExpectString(fields, "style").value == fields["style"].text &&
      (StyleNamed(fields["style"].text) == Some(style) <==> IsStyle(fields["style"].text, style))
    ensures ExpectString(fields, "style").Err? ==> ExpectString(fields, "style").error == WrongShape
  {
  }

  lemma SizeTextIff(fields: map<string, Json>, size: PageSize)
    ensures ExpectString(fields, "size").Ok? <==> "size" in fields && fields["size"].Str?
    ensures ExpectString(fields, "size").Ok? ==>
      ExpectString(fields, "size").value == fields["size"].text &&
      (SizeNamed(fields["size"].text) == Some(size) <==> IsSize(fields["size"].text, size))
    ensures ExpectString(fields, "size").Err? ==> ExpectString(fields, "size").error == WrongShape
  {
  }

  /** An array passes for an object without members. */
  lemma NothingShown(key: string)
    ensures ExpectString(map[], key) == Err(WrongShape)
    ensures forall reading :: ExpectNumber(map[], key, reading) == Err(WrongShape)
  {
  }

  lemma {:induction false} BlocksIff(raw: seq<Json>, blocks: seq<Block>, reading: Reading)
    ensures CoerceBlocks(raw, reading) == Ok(blocks) <==> AreBlocks(raw, blocks, reading)
    ensures CoerceBlocks(raw, reading).Err? ==> CoerceBlocks(raw, reading).error == WrongShape
  {
    hide CoerceBlock, IsBlock;
    if raw != [] {
      BlocksIff(raw[1..], if blocks == [] then [] else blocks[1..], reading);
      if blocks != [] {
        BlockIff(raw[0], blocks[0], reading);
        assert blocks == [blocks[0]] + blocks[1..];
        assert forall i :: 0 < i < |raw| ==> raw[i] == raw[1..][i - 1];
        assert forall i :: 0 < i < |blocks| ==> blocks[i] == blocks[1..][i - 1];
      } else if CoerceBlock(raw[0], reading).Ok? {
        BlockIff(raw[0], CoerceBlock(raw[0], reading).value, reading);
      }
      CoerceErrors(raw[0], reading);
    }
  }

  lemma CoerceErrors(raw: Json, reading: Reading)
    ensures CoerceBlock(raw, reading).Err? ==> CoerceBlock(raw, reading).error == WrongShape
  {
    hide CoerceBlock, IsBlock;
    BlockIff(raw, Block("", ZeroText(), ZeroText(), ZeroText(), ZeroText(), "", H1), reading);
  }

  lemma PageIff(raw: Json, p: Page, reading: Reading)
    ensures CoercePage(raw, reading) == Ok(p) <==> IsPage(raw, p, reading)
    ensures CoercePage(raw, reading).Err? ==> CoercePage(raw, reading).error == WrongShape
  {
    hide ExpectString, ExpectNumber, ShowsNumber, SizeNamed, IsSize;
    if raw.Obj? {
      SizeTextIff(raw.fields, p.size);
      if "margins" in raw.fields {
        var margins := if raw.fields["margins"].Obj? then raw.fields["margins"].fields else map[];
        NumberIff(margins, "top", p.margins.top, reading);
        NumberIff(margins, "right", p.margins.right, reading);
        NumberIff(margins, "bottom", p.margins.bottom, reading);
        NumberIff(margins, "left", p.margins.left, reading);
        NothingShown("top");
      }
    } else {
      NothingShown("size");
    }
  }

  /** Coercing succeeds exactly on values of the shape of a state object, with their contents, and fails in one way. */
  lemma StateIff(raw: Json, state: State, reading: Reading)
    ensures CoerceState(raw, reading) == Ok(state) <==> IsState(raw, state, reading)
    ensures CoerceState(raw, reading).Err? ==> CoerceState(raw, reading).error == WrongShape
  {
    hide CoerceBlocks, CoercePage, AreBlocks, IsPage;
    if raw.Obj? && "blocks" in raw.fields && raw.fields["blocks"].Arr? {
      BlocksIff(raw.fields["blocks"].items, state.blocks, reading);
    }
    if raw.Obj? && "page" in raw.fields {
      PageIff(raw.fields["page"], state.page, reading);
    }
  }

  // ------------------------------------------------------- which texts are parsed

  /** What a comment line says behind its mark and one blank. */
  lemma StrippedComment(text: string)
    ensures StripComment("// " + text) == text
    ensures (text != "" ==> text[0] != ' ') ==> StripComment("//" + text) == text
  {
    assert ("// " + text)[3..] == text && ("//" + text)[2..] == text;
    if "// " <= "//" + text {
      assert ("//" + text)[2] == ' ';
    }
  }

  lemma ReadBodyIs(body: seq<string>, raw: Json, reading: Reading)
    requires body != [] && Parse(Join(body), false) == Some(raw)
    ensures ReadBody(body, reading) == CoerceState(raw, reading)
  {
  }

  /** A text is read in one of five ways, and each is told by its lines. */
  lemma ParseTells(lines: seq<string>, reading: Reading)
    ensures !HasTag(lines) ==>
      ParseLines(lines, reading) == Ok(ParseResult(State([], Page(A4, Margins("24", "24", "24", "24"))), false))
    ensures HasTag(lines) ==>
      var rest := lines[TagIndex(lines) + 1..];
      var body := StripAll(rest[..CommentRun(rest)]);
      (CommentRun(rest) == 0 ==> ParseLines(lines, reading) == Err(NoBody)) &&
      (CommentRun(rest) > 0 && Parse(Join(body), false).None? ==> ParseLines(lines, reading) == Err(MalformedJson)) &&
      (CommentRun(rest) > 0 && Parse(Join(body), false).Some? ==>
        var raw := Parse(Join(body), false).value;
        (forall state :: IsState(raw, state, reading) ==> ParseLines(lines, reading) == Ok(ParseResult(state, true))) &&
        ((forall state :: !IsState(raw, state, reading)) ==> ParseLines(lines, reading) == Err(WrongShape)))
  {
    hide CoerceState, IsState, Parse, Join;
    if HasTag(lines) {
      var rest := lines[TagIndex(lines) + 1..];
      var body := StripAll(rest[..CommentRun(rest)]);
      if CommentRun(rest) > 0 && Parse(Join(body), false).Some? {
        var raw := Parse(Join(body), false).value;
        forall state ensures CoerceState(raw, reading) == Ok(state) <==> IsState(raw, state, reading) {
          StateIff(raw, state, reading);
        }
        StateIff(raw, EmptyState(), reading);
        ReadBodyIs(body, raw, reading);
        match CoerceState(raw, reading) {
          case Ok(state) => assert IsState(raw, state, reading);
          case Err(_) =>
        }
      }
    }
  }
}
