/** The licence-header gate: classifying a source file and inserting what is missing. */
module LicenseHeader {
  import opened Digits

  const SPDX_LINE: string := "// SPDX-License-Identifier: Apache-2.0"
  const COPYRIGHT_HEAD: string := "// Copyright "
  const COPYRIGHT_TAIL: string := " The InvoiceKit Authors"

  // -------------------------------------------------------------------- lines

  /** The characters `splitlines` breaks at. */
  predicate IsBreak(c: char) {
    var n := c as int;
    10 <= n <= 13 || 0x1C <= n <= 0x1E || n == 0x85 || n == 0x2028 || n == 0x2029
  }

  /** The characters `strip` removes. */
  predicate IsWhite(c: char) {
    var n := c as int;
    9 <= n <= 13 || 0x1C <= n <= 0x20 || n == 0x85 || n == 0xA0 || n == 0x1680 || 0x2000 <= n <= 0x200A ||
    n == 0x2028 || n == 0x2029 || n == 0x202F || n == 0x205F || n == 0x3000
  }

  /** The length of the first line with its line break; `\r\n` is one break. */
  function LineLength(s: string): (n: nat)
    ensures n <= |s| && (s != "" ==> n > 0)
  {
    if s == "" then 0
    else if s[0] == '\r' && |s| > 1 && s[1] == '\n' then 2
    else if IsBreak(s[0]) then 1
    else 1 + LineLength(s[1..])
  }

  /** `text.splitlines(keepends=True)`. */
  function KeepLines(s: string): (lines: seq<string>)
    ensures forall i :: 0 <= i < |lines| ==> lines[i] != ""
  {
    if s == "" then [] else [s[..LineLength(s)]] + KeepLines(s[LineLength(s)..])
  }

  function JoinAll(lines: seq<string>): string {
    if lines == [] then "" else lines[0] + JoinAll(lines[1..])
  }

  function StripLeft(s: string): string {
    if s != "" && IsWhite(s[0]) then StripLeft(s[1..]) else s
  }

  function StripRight(s: string): string {
    if s != "" && IsWhite(s[|s| - 1]) then StripRight(s[..|s| - 1]) else s
  }

  function Strip(s: string): string {
    StripRight(StripLeft(s))
  }

  // ------------------------------------------------------------ classification

  datatype Status = HeaderOk | MissingSpdx | MissingCopyright

  /** `^// Copyright \d{4} The InvoiceKit Authors$`. */
  predicate IsCopyright(s: string) {
    |s| == |COPYRIGHT_HEAD| + 4 + |COPYRIGHT_TAIL| &&
    s[..|COPYRIGHT_HEAD|] == COPYRIGHT_HEAD &&
    AllDigits(s[|COPYRIGHT_HEAD|..|COPYRIGHT_HEAD| + 4]) &&
    s[|COPYRIGHT_HEAD| + 4..] == COPYRIGHT_TAIL
  }

  function ClassifyLines(lines: seq<string>): Status {
    if lines == [] || Strip(lines[0]) != SPDX_LINE then MissingSpdx
    else if |lines| < 2 || !IsCopyright(Strip(lines[1])) then MissingCopyright
    else HeaderOk
  }

  /** `classify`; line breaks are white space, so stripping does not see whether they were kept. */
  function Classify(text: string): Status {
    ClassifyLines(KeepLines(text))
  }

  // -------------------------------------------------------------------- fixing

  function CopyrightText(year: nat): string {
    COPYRIGHT_HEAD + ToDigits(year) + COPYRIGHT_TAIL
  }

  function BuildHeader(year: nat): string {
    SPDX_LINE + "\n" + CopyrightText(year) + "\n\n"
  }

  /** The lines after a copyright line has been put in second place. */
  function WithCopyright(lines: seq<string>, year: nat): seq<string>
    requires lines != []
  {
    var rest := lines[1..];
    [lines[0], CopyrightText(year) + "\n"] + (if rest != [] && Strip(rest[0]) != "" then ["\n"] else []) + rest
  }

  /** The text `fix_file` leaves in the file. */
  function FixText(text: string, year: nat): string {
    match Classify(text)
    case HeaderOk => text
    case MissingSpdx => BuildHeader(year) + text
    case MissingCopyright => JoinAll(WithCopyright(KeepLines(text), year))
  }

  /** What `read_text` makes of a file: every line end becomes a newline. */
  function Universal(raw: string): string {
    if raw == "" then ""
    else if raw[0] == '\r' then "\n" + Universal(if |raw| > 1 && raw[1] == '\n' then raw[2..] else raw[1..])
    else [raw[0]] + Universal(raw[1..])
  }

  /** What `fix_file` leaves on disk: a file in order is not written. */
  function FixedFile(raw: string, year: nat): string {
    if Classify(Universal(raw)) == HeaderOk then raw else FixText(Universal(raw), year)
  }

  /** A file on disk, where a newline is written as it is. */
  class SourceFile {
    var raw: string

    constructor (initial: string)
      ensures raw == initial
    {
      raw := initial;
    }

    /** `fix_file`. */
    method Fix(year: nat) returns (modified: bool)
      modifies this
      ensures raw == FixedFile(old(raw), year)
      ensures modified <==> Classify(Universal(old(raw))) != HeaderOk
    {
      var text := Universal(raw);
      var status := Classify(text);
      if status == HeaderOk {
        return false;
      }
      if status == MissingSpdx {
        raw := BuildHeader(year) + text;
      } else {
        var lines := KeepLines(text);
        var insertion := [lines[0], CopyrightText(year) + "\n"];
        var rest := lines[1..];
        if rest != [] && Strip(rest[0]) != "" {
          insertion := insertion + ["\n"];
        }
        insertion := insertion + rest;
        assert insertion == WithCopyright(lines, year);
        raw := JoinAll(insertion);
      }
      return true;
    }
  }

  // ------------------------------------------------------- lines of a new text

  lemma {:induction false} JoinKeptLines(s: string)
    ensures JoinAll(KeepLines(s)) == s
  {
    if s != "" {
      var n := LineLength(s);
      JoinKeptLines(s[n..]);
      assert KeepLines(s)[1..] == KeepLines(s[n..]);
      assert s[..n] + s[n..] == s;
    }
  }

  /** A line that ends in a break of its own, wherever it stands. */
  ghost predicate IsWholeLine(line: string) {
    line != "" && IsBreak(line[|line| - 1]) && LineLength(line) == |line|
  }

  lemma {:induction false} WholeLineFirst(line: string, more: string)
    requires IsWholeLine(line)
    requires line[|line| - 1] == '\r' && more != "" ==> more[0] != '\n'
    ensures LineLength(line + more) == |line|
  {
    if |line| == 1 {
    } else if line[0] == '\r' && line[1] == '\n' {
    } else {
      assert !IsBreak(line[0]);
      assert (line + more)[1..] == line[1..] + more;
      WholeLineFirst(line[1..], more);
    }
  }

  lemma KeepWholeLine(line: string, more: string)
    requires IsWholeLine(line)
    requires line[|line| - 1] == '\r' && more != "" ==> more[0] != '\n'
    ensures KeepLines(line + more) == [line] + KeepLines(more)
  {
    WholeLineFirst(line, more);
    assert (line + more)[..|line|] == line && (line + more)[|line|..] == more;
  }

  /** The first kept line is whole exactly when a break ends it; only the last line may lack one. */
  lemma {:induction false} FirstLineWhole(s: string)
    requires s != ""
    ensures var n := LineLength(s);
      LineLength(s[..n]) == n &&
      (n < |s| ==> IsBreak(s[n - 1])) &&
      (s[n - 1] == '\r' && n < |s| ==> s[n] != '\n')
  {
    if s[0] == '\r' && |s| > 1 && s[1] == '\n' {
      assert s[..2][1] == '\n';
    } else if IsBreak(s[0]) {
    } else if |s| > 1 {
      FirstLineWhole(s[1..]);
      var n := LineLength(s[1..]);
      assert s[..n + 1][1..] == s[1..][..n];
    }
  }

  ghost predicate Printable(s: string) {
    forall i :: 0 <= i < |s| ==> ' ' <= s[i] <= '~'
  }

  lemma {:induction false} PrintableLine(core: string)
    requires Printable(core)
    ensures IsWholeLine(core + "\n")
  {
    if core == "" {
      assert core + "\n" == "\n";
    } else {
      PrintableLine(core[1..]);
      assert (core + "\n")[1..] == core[1..] + "\n";
    }
  }

  lemma StripPrintableLine(core: string)
    requires core != "" && !IsWhite(core[0]) && !IsWhite(core[|core| - 1])
    ensures Strip(core + "\n") == core
  {
    var line := core + "\n";
    assert line[0] == core[0] && StripLeft(line) == line;
    assert IsWhite('\n') && line[|line| - 1] == '\n' && line[..|line| - 1] == core;
    assert StripRight(core) == core;
  }

  // ------------------------------------------------------------- header pieces

  lemma SpdxFacts(spdx: string)
    requires spdx == SPDX_LINE
    ensures Printable(spdx) && spdx != "" && !IsWhite(spdx[0]) && !IsWhite(spdx[|spdx| - 1])
  {
  }

  /** A year of four digits, as the clock gives it. */
  predicate IsYear(year: nat) {
    1000 <= year <= 9999
  }

  lemma YearDigits(year: nat)
    requires IsYear(year)
    ensures |ToDigits(year)| == 4
  {
    DigitCount(year, 4);
    DigitCount(year, 3);
    assert Pow10(1) == 10 && Pow10(2) == 100 && Pow10(3) == 1000 && Pow10(4) == 10000;
  }

  lemma HeadTailFacts(head: string, tail: string)
    requires head == COPYRIGHT_HEAD && tail == COPYRIGHT_TAIL
    ensures Printable(head) && Printable(tail) && |head| > 0 && |tail| > 0
    ensures !IsWhite(head[0]) && !IsWhite(tail[|tail| - 1])
  {
  }

  lemma CopyrightFacts(year: nat)
    requires IsYear(year)
    ensures Printable(CopyrightText(year)) && IsCopyright(CopyrightText(year))
    ensures Strip(CopyrightText(year) + "\n") == CopyrightText(year)
  {
    var head, digits, tail := COPYRIGHT_HEAD, ToDigits(year), COPYRIGHT_TAIL;
    YearDigits(year);
    HeadTailFacts(head, tail);
    CopyrightShape(head, digits, tail);
    StripPrintableLine(head + digits + tail);
  }

  lemma CopyrightShape(head: string, digits: string, tail: string)
    requires head == COPYRIGHT_HEAD && tail == COPYRIGHT_TAIL && AllDigits(digits) && |digits| == 4
    requires Printable(head) && Printable(tail) && |head| > 0 && |tail| > 0
    ensures var s := head + digits + tail;
      Printable(s) && IsCopyright(s) && s[0] == head[0] && s[|s| - 1] == tail[|tail| - 1]
  {
    var s := head + digits + tail;
    assert s[..|head|] == head && s[|head|..|head| + 4] == digits && s[|head| + 4..] == tail;
  }

  // ------------------------------------------------------------- main results

  /** Prepending the header puts three new lines before the old ones. */
  lemma HeaderLines(text: string, year: nat)
    requires IsYear(year)
    ensures KeepLines(BuildHeader(year) + text) ==
      [SPDX_LINE + "\n", CopyrightText(year) + "\n", "\n"] + KeepLines(text)
  {
    var spdx, notice := SPDX_LINE, CopyrightText(year);
    SpdxFacts(spdx);
    CopyrightFacts(year);
    ThreeLines(spdx, notice, text);
    hide CopyrightText, KeepLines;
    HeaderInLines(spdx, notice, text);
  }

  lemma HeaderInLines(spdx: string, notice: string, text: string)
    ensures spdx + "\n" + notice + "\n\n" + text == (spdx + "\n") + ((notice + "\n") + ("\n" + text))
  {
    assert notice + "\n\n" == notice + "\n" + "\n";
  }

  lemma ThreeLines(spdx: string, notice: string, text: string)
    requires Printable(spdx) && Printable(notice)
    ensures KeepLines((spdx + "\n") + ((notice + "\n") + ("\n" + text))) ==
      [spdx + "\n", notice + "\n", "\n"] + KeepLines(text)
  {
    BlankLine(text);
    PrintableLine(notice);
    KeepWholeLine(notice + "\n", "\n" + text);
    PrintableLine(spdx);
    KeepWholeLine(spdx + "\n", (notice + "\n") + ("\n" + text));
    ListOfThree(spdx + "\n", notice + "\n", "\n", KeepLines(text));
  }

  lemma BlankLine(text: string)
    ensures KeepLines("\n" + text) == ["\n"] + KeepLines(text)
  {
    PrintableLine("");
    assert "" + "\n" == "\n";
    KeepWholeLine("\n", text);
  }

  lemma ListOfThree(a: string, b: string, c: string, rest: seq<string>)
    ensures [a] + ([b] + ([c] + rest)) == [a, b, c] + rest
  {
  }

  /** Adding a header always makes the text acceptable. */
  lemma HeaderMakesOk(text: string, year: nat)
    requires IsYear(year)
    ensures Classify(BuildHeader(year) + text) == HeaderOk
  {
    HeaderLines(text, year);
    var spdx := SPDX_LINE;
    SpdxFacts(spdx);
    StripPrintableLine(spdx);
    CopyrightFacts(year);
  }

  /** The text ends inside its first line: there is no break to insert a line after. */
  predicate LacksBreak(text: string) {
    text != "" && LineLength(text) == |text| && !IsBreak(text[|text| - 1])
  }

  /** Inserting the copyright line keeps the old lines, when the first one ends in a break. */
  lemma InsertedLines(text: string, year: nat)
    requires IsYear(year) && text != "" && !LacksBreak(text)
    ensures KeepLines(JoinAll(WithCopyright(KeepLines(text), year))) == WithCopyright(KeepLines(text), year)
  {
    var n := LineLength(text);
    var first, rest := text[..n], text[n..];
    var notice := CopyrightText(year) + "\n";
    FirstLineWhole(text);
    CopyrightFacts(year);
    PrintableLine(CopyrightText(year));
    JoinKeptLines(rest);
    KeepInserted(first, notice, rest, KeepLines(rest));
    assert KeepLines(text) == [first] + KeepLines(rest);
    assert KeepLines(text)[1..] == KeepLines(rest);
  }

  lemma KeepInserted(first: string, notice: string, rest: string, lines: seq<string>)
    requires IsWholeLine(first) && IsWholeLine(notice) && notice[0] != '\n' && notice[|notice| - 1] == '\n'
    requires lines == KeepLines(rest) && JoinAll(lines) == rest
    ensures KeepLines(JoinAll([first, notice] + lines)) == [first, notice] + lines
    ensures KeepLines(JoinAll([first, notice] + ["\n"] + lines)) == [first, notice] + ["\n"] + lines
  {
    KeepWholeLine(notice, rest);
    KeepWholeLine(first, notice + rest);
    JoinTwo(first, notice, lines);
    BlankLine(rest);
    KeepWholeLine(notice, "\n" + rest);
    KeepWholeLine(first, notice + ("\n" + rest));
    JoinTwo(first, notice, ["\n"] + lines);
    assert (["\n"] + lines)[1..] == lines;
    assert [first, notice] + ["\n"] + lines == [first, notice] + (["\n"] + lines);
  }

  lemma JoinTwo(first: string, notice: string, lines: seq<string>)
    ensures JoinAll([first, notice] + lines) == first + (notice + JoinAll(lines))
  {
    var all := [first, notice] + lines;
    assert all[1..] == [notice] + lines && all[1..][1..] == lines;
  }

  /** The first line of a text that lacks a break runs into the inserted copyright text. */
  lemma RunTogether(text: string, year: nat)
    requires LacksBreak(text) && Classify(text) == MissingCopyright
    ensures FixText(text, year) == text + CopyrightText(year) + "\n"
  {
    assert text[..|text|] == text && text[|text|..] == "";
    assert KeepLines(text) == [text];
    var lines := WithCopyright([text], year);
    assert lines == [text, CopyrightText(year) + "\n"] + [];
    JoinTwo(text, CopyrightText(year) + "\n", []);
    assert text + (CopyrightText(year) + "\n" + "") == text + CopyrightText(year) + "\n";
  }

  lemma {:induction false} NoBreakInside(s: string)
    requires s != "" && LineLength(s) == |s| && !IsBreak(s[|s| - 1])
    ensures forall i :: 0 <= i < |s| ==> !IsBreak(s[i])
  {
    if |s| > 1 {
      NoBreakInside(s[1..]);
    }
  }

  lemma {:induction false} LineOfUnbroken(s: string, more: string)
    requires (forall i :: 0 <= i < |s| ==> !IsBreak(s[i])) && more != ""
    ensures LineLength(s + more) == |s| + LineLength(more)
  {
    if s == "" {
      assert s + more == more;
    } else {
      assert (s + more)[1..] == s[1..] + more;
      LineOfUnbroken(s[1..], more);
    }
  }

  /** Stripping never lengthens, and a visible end stays. */
  lemma {:induction false} StripKeepsEnd(s: string, end: string)
    requires end != "" && !IsWhite(end[|end| - 1])
    ensures |StripLeft(s + end)| >= 1 && StripRight(StripLeft(s + end)) == StripLeft(s + end)
    ensures StripLeft(s + end)[|StripLeft(s + end)| - 1] == end[|end| - 1]
    decreases |s + end|
  {
    if s == "" {
      assert s + end == end;
      StripLeftKeepsLast(end);
    } else if IsWhite(s[0]) {
      assert (s + end)[1..] == s[1..] + end;
      StripKeepsEnd(s[1..], end);
    }
  }

  lemma {:induction false} StripLeftKeepsLast(s: string)
    requires s != "" && !IsWhite(s[|s| - 1])
    ensures StripLeft(s) != "" && StripLeft(s)[|StripLeft(s)| - 1] == s[|s| - 1]
  {
    if IsWhite(s[0]) {
      StripLeftKeepsLast(s[1..]);
    }
  }

  lemma {:induction false} StripDropsBreak(s: string)
    requires s != "" && !IsWhite(s[|s| - 1])
    ensures Strip(s + "\n") == Strip(s)
    decreases |s|
  {
    if IsWhite(s[0]) {
      assert (s + "\n")[1..] == s[1..] + "\n";
      StripDropsBreak(s[1..]);
    } else {
      assert (s + "\n")[..|s|] == s;
    }
  }

  /** What a text becomes whose licence line is its last and has no break: no licence line at all. */
  lemma RunTogetherIsMissing(text: string, year: nat)
    requires IsYear(year) && LacksBreak(text) && Classify(text) == MissingCopyright
    ensures Classify(FixText(text, year)) == MissingSpdx
  {
    RunTogether(text, year);
    CopyrightFacts(year);
    var notice := CopyrightText(year);
    NoBreakInside(text);
    PrintableLine(notice);
    LineOfUnbroken(text, notice + "\n");
    var whole := text + (notice + "\n");
    assert whole == text + notice + "\n";
    assert whole[..|whole|] == whole && whole[|whole|..] == "";
    assert KeepLines(whole) == [whole];
    var tail := COPYRIGHT_TAIL;
    HeadTailFacts(COPYRIGHT_HEAD, tail);
    assert notice[|notice| - 1] == tail[|tail| - 1];
    StripKeepsEnd(text, notice);
    StripDropsBreak(text + notice);
    EndsApart(Strip(whole), tail[|tail| - 1]);
  }

  lemma EndsApart(s: string, last: char)
    requires s != "" && s[|s| - 1] == last && last == COPYRIGHT_TAIL[|COPYRIGHT_TAIL| - 1]
    ensures s != SPDX_LINE
  {
    var spdx, tail := SPDX_LINE, COPYRIGHT_TAIL;
    assert spdx[|spdx| - 1] == '0' && tail[|tail| - 1] == 's';
  }

  /** Whether one fix is not enough. */
  predicate NeedsBreak(text: string) {
    Classify(text) == MissingCopyright && LacksBreak(text)
  }

  lemma CopyrightInPlaceIsOk(lines: seq<string>, year: nat)
    requires IsYear(year) && lines != [] && Strip(lines[0]) == SPDX_LINE
    ensures ClassifyLines(WithCopyright(lines, year)) == HeaderOk
  {
    CopyrightFacts(year);
  }

  /**
    One fix makes the text acceptable, and fixing again changes nothing, exactly when
    the licence line, if it is all there is, ends in a line break.  Two fixes always do.
   */
  lemma FixSettles(text: string, year: nat)
    requires IsYear(year)
    ensures Classify(FixText(text, year)) == HeaderOk <==> !NeedsBreak(text)
    ensures FixText(FixText(text, year), year) == FixText(text, year) <==> !NeedsBreak(text)
    ensures Classify(FixText(FixText(text, year), year)) == HeaderOk
  {
    var once := FixText(text, year);
    if NeedsBreak(text) {
      RunTogetherIsMissing(text, year);
      HeaderMakesOk(once, year);
      assert |BuildHeader(year)| > 0;
    } else if Classify(text) == MissingSpdx {
      HeaderMakesOk(text, year);
    } else if Classify(text) == MissingCopyright {
      InsertedLines(text, year);
      CopyrightInPlaceIsOk(KeepLines(text), year);
    }
  }

  /** `fixed` is `lines` with at most three lines put in at one place, no later than after the first line. */
  ghost predicate PutIn(lines: seq<string>, fixed: seq<string>) {
    exists at, added :: IsPutInAt(lines, fixed, at, added)
  }

  ghost predicate IsPutInAt(lines: seq<string>, fixed: seq<string>, at: int, added: seq<string>) {
    0 <= at <= 1 && at <= |lines| && |added| <= 3 && fixed == lines[..at] + added + lines[at..]
  }

  lemma PutInFront(lines: seq<string>, added: seq<string>)
    requires |added| <= 3
    ensures PutIn(lines, added + lines)
  {
    assert added + lines == lines[..0] + added + lines[0..];
    assert IsPutInAt(lines, added + lines, 0, added);
  }

  lemma PutInSecond(lines: seq<string>, year: nat)
    requires lines != []
    ensures PutIn(lines, WithCopyright(lines, year))
  {
    var rest := lines[1..];
    var added := [CopyrightText(year) + "\n"] + if rest != [] && Strip(rest[0]) != "" then ["\n"] else [];
    assert WithCopyright(lines, year) == lines[..1] + added + lines[1..];
    assert IsPutInAt(lines, WithCopyright(lines, year), 1, added);
  }

  /** Every original line survives, in order: new lines are only put in at one place. */
  lemma OriginalLinesSurvive(text: string, year: nat)
    requires IsYear(year) && !NeedsBreak(text)
    ensures PutIn(KeepLines(text), KeepLines(FixText(text, year)))
  {
    match Classify(text) {
      case HeaderOk =>
        PutInFront(KeepLines(text), []);
        assert [] + KeepLines(text) == KeepLines(text);
      case MissingSpdx =>
        HeaderLines(text, year);
        PutInFront(KeepLines(text), [SPDX_LINE + "\n", CopyrightText(year) + "\n", "\n"]);
      case MissingCopyright =>
        InsertedLines(text, year);
        PutInSecond(KeepLines(text), year);
    }
  }

  // ------------------------------------------------------------ files on disk

  ghost predicate HasReturn(s: string) {
    '\r' in s
  }

  lemma {:induction false} UniversalHasNoReturn(raw: string)
    ensures !HasReturn(Universal(raw))
    decreases |raw|
  {
    if raw != "" {
      UniversalHasNoReturn(if raw[0] == '\r' && |raw| > 1 && raw[1] == '\n' then raw[2..] else raw[1..]);
    }
  }

  lemma {:induction false} UniversalKeeps(s: string)
    requires !HasReturn(s)
    ensures Universal(s) == s
  {
    if s != "" {
      UniversalKeeps(s[1..]);
    }
  }

  lemma {:induction false} LinesHaveNoReturn(s: string)
    requires !HasReturn(s)
    ensures forall i :: 0 <= i < |KeepLines(s)| ==> !HasReturn(KeepLines(s)[i])
  {
    if s != "" {
      LinesHaveNoReturn(s[LineLength(s)..]);
    }
  }

  lemma {:induction false} JoinedHaveNoReturn(lines: seq<string>)
    requires forall i :: 0 <= i < |lines| ==> !HasReturn(lines[i])
    ensures !HasReturn(JoinAll(lines))
  {
    if lines != [] {
      JoinedHaveNoReturn(lines[1..]);
    }
  }

  lemma PrintableHasNoReturn(s: string)
    requires Printable(s)
    ensures !HasReturn(s) && !HasReturn(s + "\n")
  {
  }

  /** The fixer adds no carriage return. */
  lemma FixAddsNoReturn(text: string, year: nat)
    requires IsYear(year) && !HasReturn(text)
    ensures !HasReturn(FixText(text, year))
  {
    hide KeepLines, JoinAll, CopyrightText, Strip;
    var spdx := SPDX_LINE;
    SpdxFacts(spdx);
    CopyrightFacts(year);
    PrintableHasNoReturn(spdx);
    PrintableHasNoReturn(CopyrightText(year));
    if Classify(text) == MissingCopyright {
      LinesHaveNoReturn(text);
      JoinedHaveNoReturn(WithCopyright(KeepLines(text), year));
    }
  }

  /** Once fixed, a file is a text that reads as itself. */
  lemma FixedReads(raw: string, year: nat)
    requires IsYear(year) && Classify(Universal(raw)) != HeaderOk
    ensures !HasReturn(FixedFile(raw, year)) && Universal(FixedFile(raw, year)) == FixText(Universal(raw), year)
  {
    UniversalHasNoReturn(raw);
    FixAddsNoReturn(Universal(raw), year);
    UniversalKeeps(FixText(Universal(raw), year));
  }

  /**
    One run of the fixer puts a file in order, and a second, in whatever year, leaves it
    alone, exactly when the licence line, if it is all there is, ends in a line break.
    Two runs always put a file in order.
   */
  lemma FileSettles(raw: string, year: nat, later: nat)
    requires IsYear(year) && IsYear(later)
    ensures var once := FixedFile(raw, year);
      var twice := FixedFile(once, later);
      (Classify(Universal(once)) == HeaderOk <==> !NeedsBreak(Universal(raw))) &&
      (twice == once <==> !NeedsBreak(Universal(raw))) &&
      Classify(Universal(twice)) == HeaderOk
  {
    hide Classify, FixText, LacksBreak, NeedsBreak;
    var text, once := Universal(raw), FixedFile(raw, year);
    FixSettles(text, year);
    if NeedsBreak(text) {
      TwoRunsNeeded(raw, year, later);
    } else if Classify(text) != HeaderOk {
      FixedReads(raw, year);
    } else {
      OkIsKept(text, year);
    }
  }

  lemma TwoRunsNeeded(raw: string, year: nat, later: nat)
    requires IsYear(year) && IsYear(later) && NeedsBreak(Universal(raw))
    ensures var once := FixedFile(raw, year);
      var twice := FixedFile(once, later);
      Classify(Universal(once)) == MissingSpdx && twice != once && Classify(Universal(twice)) == HeaderOk
  {
    hide Classify, LacksBreak, BuildHeader;
    var once := FixedFile(raw, year);
    RunTogetherIsMissing(Universal(raw), year);
    FixedReads(raw, year);
    UniversalKeeps(once);
    FixedReads(once, later);
    HeaderMakesOk(once, later);
    HeaderIsNotEmpty(later);
  }

  lemma HeaderIsNotEmpty(year: nat)
    ensures |BuildHeader(year)| > 0
  {
  }

  lemma OkIsKept(text: string, year: nat)
    requires Classify(text) == HeaderOk
    ensures FixText(text, year) == text
  {
  }

  /** It happens: a file that holds the bare licence line needs two runs. */
  lemma BareLicenceLineNeedsBreak(spdx: string)
    requires spdx == SPDX_LINE
    ensures Universal(spdx) == spdx && NeedsBreak(spdx)
  {
    hide *;
    SpdxFacts(spdx);
    BareLine(spdx);
    BareLineNeedsBreak(spdx);
  }

  lemma BareLineNeedsBreak(line: string)
    requires Strip(line) == SPDX_LINE && KeepLines(line) == [line] && LacksBreak(line)
    ensures NeedsBreak(line)
  {
    hide Strip, KeepLines, LacksBreak;
  }

  lemma BareLine(line: string)
    requires Printable(line) && line != "" && !IsWhite(line[0]) && !IsWhite(line[|line| - 1])
    ensures Universal(line) == line && LacksBreak(line) && KeepLines(line) == [line] && Strip(line) == line
  {
    UniversalKeeps(line);
    NoBreakIsOneLine(line);
    assert line[..|line|] == line && line[|line|..] == "";
    assert StripLeft(line) == line && StripRight(line) == line;
  }

  lemma {:induction false} NoBreakIsOneLine(s: string)
    requires forall i :: 0 <= i < |s| ==> !IsBreak(s[i])
    ensures LineLength(s) == |s|
  {
    if s != "" {
      NoBreakIsOneLine(s[1..]);
    }
  }

  /**
    Fixing keeps the lines of a file as they are read, but not their ends: a file that
    needed a fix has newlines only, one that did not is untouched.
   */
  lemma FileLinesSurvive(raw: string, year: nat)
    requires IsYear(year) && !NeedsBreak(Universal(raw))
    ensures PutIn(KeepLines(Universal(raw)), KeepLines(Universal(FixedFile(raw, year))))
    ensures if Classify(Universal(raw)) == HeaderOk then FixedFile(raw, year) == raw
      else !HasReturn(FixedFile(raw, year))
  {
    hide Classify, KeepLines, PutIn, LacksBreak;
    OriginalLinesSurvive(Universal(raw), year);
    if Classify(Universal(raw)) != HeaderOk {
      FixedReads(raw, year);
    } else {
      OkIsKept(Universal(raw), year);
    }
  }

  // --------------------------------------------------------- what is read and written

  ghost predicate AllWhite(s: string) {
    forall i :: 0 <= i < |s| ==> IsWhite(s[i])
  }

  lemma {:induction false} StripLeftDrops(ws: string, s: string)
    requires AllWhite(ws)
    ensures StripLeft(ws + s) == StripLeft(s)
  {
    if ws == "" {
      assert ws + s == s;
    } else {
      assert (ws + s)[1..] == ws[1..] + s;
      StripLeftDrops(ws[1..], s);
    }
  }

  lemma {:induction false} StripRightDrops(s: string, ws: string)
    requires AllWhite(ws)
    ensures StripRight(s + ws) == StripRight(s)
    decreases |ws|
  {
    if ws == "" {
      assert s + ws == s;
    } else {
      assert (s + ws)[..|s + ws| - 1] == s + ws[..|ws| - 1];
      StripRightDrops(s, ws[..|ws| - 1]);
    }
  }

  /** Stripping takes the white space off both ends and leaves the rest. */
  lemma StripIs(before: string, core: string, after: string)
    requires AllWhite(before) && AllWhite(after)
    requires core != "" ==> !IsWhite(core[0]) && !IsWhite(core[|core| - 1])
    ensures Strip(before + core + after) == core
  {
    assert before + core + after == before + (core + after);
    StripLeftDrops(before, core + after);
    if core == "" {
      assert core + after == after;
      StripLeftDrops(after, "");
      assert after + "" == after;
    } else {
      assert (core + after)[0] == core[0];
      StripRightDrops(core, after);
    }
  }

  /** A break within the line is the first half of the `\r\n` that ends it. */
  ghost predicate BreaksOnlyAtEnd(line: string) {
    forall j :: 0 <= j < |line| - 1 && IsBreak(line[j]) ==> j == |line| - 2 && line[j] == '\r' && line[j + 1] == '\n'
  }

  lemma {:induction false} FirstLineBreaksAtEnd(s: string)
    requires s != ""
    ensures BreaksOnlyAtEnd(s[..LineLength(s)])
  {
    if s[0] == '\r' && |s| > 1 && s[1] == '\n' {
    } else if IsBreak(s[0]) {
    } else if |s| > 1 {
      FirstLineBreaksAtEnd(s[1..]);
      var n := LineLength(s[1..]);
      var line, rest := s[..n + 1], s[1..][..n];
      assert line == [s[0]] + rest;
      assert forall j :: 1 <= j < |line| ==> line[j] == rest[j - 1];
    }
  }

  /** The lines of a text: together the text, broken only at their ends, and all but the last broken there. */
  lemma {:induction false} LinesAre(s: string)
    ensures var lines := KeepLines(s);
      JoinAll(lines) == s && (forall i :: 0 <= i < |lines| ==> lines[i] != "" && BreaksOnlyAtEnd(lines[i])) &&
      (forall i :: 0 <= i < |lines| - 1 ==> IsBreak(lines[i][|lines[i]| - 1])) &&
      (forall i :: 0 <= i < |lines| - 1 && lines[i][|lines[i]| - 1] == '\r' ==> lines[i + 1][0] != '\n')
  {
    hide BreaksOnlyAtEnd, IsBreak;
    JoinKeptLines(s);
    if s != "" {
      var n := LineLength(s);
      FirstLineBreaksAtEnd(s);
      FirstLineWhole(s);
      LinesAre(s[n..]);
      var lines, rest := KeepLines(s), KeepLines(s[n..]);
      assert lines == [s[..n]] + rest;
      if rest != [] {
        assert n < |s|;
        assert rest[0][0] == s[n];
      }
    }
  }

  /** When a text passes, and what is missing otherwise. */
  lemma ClassifyIs(text: string)
    ensures var lines := KeepLines(text);
      (Classify(text) == MissingSpdx <==>
        lines == [] || Strip(lines[0]) != "// SPDX-License-Identifier: Apache-2.0") &&
      (Classify(text) == HeaderOk <==>
        |lines| >= 2 && Strip(lines[0]) == "// SPDX-License-Identifier: Apache-2.0" &&
        exists year :: |year| == 4 && AllDigits(year) &&
          Strip(lines[1]) == "// Copyright " + year + " The InvoiceKit Authors")
  {
    hide Strip, KeepLines;
    var lines := KeepLines(text);
    if |lines| >= 2 {
      CopyrightIff(Strip(lines[1]));
    }
  }

  lemma CopyrightIff(s: string)
    ensures IsCopyright(s) <==>
      exists year :: |year| == 4 && AllDigits(year) && s == "// Copyright " + year + " The InvoiceKit Authors"
  {
    if IsCopyright(s) {
      var year := s[13..17];
      assert s == s[..13] + year + s[17..];
    }
    if year :| |year| == 4 && AllDigits(year) && s == "// Copyright " + year + " The InvoiceKit Authors" {
      assert s[..13] == "// Copyright " && s[13..17] == year && s[17..] == " The InvoiceKit Authors";
    }
  }

  /** What the fixer puts in: the whole header, or the copyright line in second place and a blank line before text. */
  lemma FixPutsIn(text: string, year: nat)
    ensures Classify(text) == HeaderOk ==> FixText(text, year) == text
    ensures Classify(text) == MissingSpdx ==>
      FixText(text, year) == "// SPDX-License-Identifier: Apache-2.0\n// Copyright " + ToDigits(year) +
        " The InvoiceKit Authors\n\n" + text
    ensures Classify(text) == MissingCopyright ==>
      var lines := KeepLines(text);
      var notice := "// Copyright " + ToDigits(year) + " The InvoiceKit Authors\n";
      lines != [] && FixText(text, year) ==
        JoinAll([lines[0], notice] + (if |lines| > 1 && Strip(lines[1]) != "" then ["\n"] else []) + lines[1..])
  {
    hide Strip, KeepLines, IsCopyright, JoinAll;
    HeaderIsWritten(SPDX_LINE, ToDigits(year));
    assert CopyrightText(year) + "\n" == "// Copyright " + ToDigits(year) + " The InvoiceKit Authors\n" by {
      NoticeIsWritten(ToDigits(year));
    }
  }

  lemma HeaderIsWritten(spdx: string, digits: string)
    requires spdx == SPDX_LINE
    ensures spdx + "\n" + (COPYRIGHT_HEAD + digits + COPYRIGHT_TAIL) + "\n\n" ==
      "// SPDX-License-Identifier: Apache-2.0\n// Copyright " + digits + " The InvoiceKit Authors\n\n"
  {
    assert "// SPDX-License-Identifier: Apache-2.0" + "\n" + "// Copyright " ==
      "// SPDX-License-Identifier: Apache-2.0\n// Copyright ";
    assert " The InvoiceKit Authors" + "\n\n" == " The InvoiceKit Authors\n\n";
  }

  lemma NoticeIsWritten(digits: string)
    ensures COPYRIGHT_HEAD + digits + COPYRIGHT_TAIL + "\n" == "// Copyright " + digits + " The InvoiceKit Authors\n"
  {
    assert " The InvoiceKit Authors" + "\n" == " The InvoiceKit Authors\n";
  }

  lemma {:induction false} UniversalJoin(a: string, s: string)
    requires !HasReturn(a)
    ensures Universal(a + s) == a + Universal(s)
  {
    if a == "" {
      assert a + s == s;
    } else {
      assert (a + s)[1..] == a[1..] + s;
      UniversalJoin(a[1..], s);
    }
  }

  /** Reading turns `\r\n`, a lone `\r` and `\n` into one newline each and leaves everything else. */
  lemma UniversalIs(a: string, b: string)
    requires !HasReturn(a)
    ensures Universal(a) == a
    ensures Universal(a + ("\r\n" + b)) == a + ("\n" + Universal(b))
    ensures !("\n" <= b) ==> Universal(a + ("\r" + b)) == a + ("\n" + Universal(b))
  {
    UniversalKeeps(a);
    UniversalJoin(a, "\r\n" + b);
    UniversalJoin(a, "\r" + b);
    assert ("\r\n" + b)[2..] == b && ("\r" + b)[1..] == b;
  }
}
