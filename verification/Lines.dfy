/** Splitting a text at newlines and joining lines again. */
module Lines {

  predicate OneLine(s: string) {
    '\n' !in s
  }

  ghost predicate AllOneLine(lines: seq<string>) {
    forall i :: 0 <= i < |lines| ==> OneLine(lines[i])
  }

  /** `text.split("\n")`. */
  function Split(s: string): (lines: seq<string>)
    ensures lines != []
    ensures AllOneLine(lines)
  {
    if s == "" then [""]
    else
      var rest := Split(s[1..]);
      if s[0] == '\n' then [""] + rest else [[s[0]] + rest[0]] + rest[1..]
  }

  /** `lines.join("\n")`. */
  function Join(lines: seq<string>): string {
    if lines == [] then "" else if |lines| == 1 then lines[0] else lines[0] + "\n" + Join(lines[1..])
  }

  lemma {:induction false} JoinSplit(s: string)
    ensures Join(Split(s)) == s
  {
    if s != "" {
      var rest := Split(s[1..]);
      JoinSplit(s[1..]);
      if s[0] == '\n' {
        assert Split(s)[1..] == rest;
      } else if |rest| > 1 {
        assert Split(s)[1..] == rest[1..];
        assert ([s[0]] + rest[0]) + "\n" + Join(rest[1..]) == [s[0]] + (rest[0] + "\n" + Join(rest[1..]));
      }
    }
  }

  lemma {:induction false} SplitLineThen(line: string, more: string)
    requires OneLine(line)
    ensures Split(line + "\n" + more) == [line] + Split(more)
  {
    var s := line + "\n" + more;
    if line == "" {
      assert s[1..] == more;
    } else {
      SplitLineThen(line[1..], more);
      assert s[1..] == line[1..] + "\n" + more;
      assert [line[0]] + line[1..] == line;
    }
  }

  lemma {:induction false} SplitOneLine(line: string)
    requires OneLine(line)
    ensures Split(line) == [line]
  {
    if line != "" {
      SplitOneLine(line[1..]);
      assert [line[0]] + line[1..] == line;
    }
  }

  lemma {:induction false} SplitJoin(lines: seq<string>)
    requires lines != [] && AllOneLine(lines)
    ensures Split(Join(lines)) == lines
  {
    if |lines| == 1 {
      SplitOneLine(lines[0]);
    } else {
      SplitJoin(lines[1..]);
      SplitLineThen(lines[0], Join(lines[1..]));
    }
  }

  lemma {:induction false} JoinConcat(a: seq<string>, b: seq<string>)
    requires a != [] && b != []
    ensures Join(a + b) == Join(a) + "\n" + Join(b)
  {
    if |a| == 1 {
      assert (a + b)[1..] == b;
    } else {
      JoinConcat(a[1..], b);
      assert (a + b)[1..] == a[1..] + b;
      assert a[0] + "\n" + (Join(a[1..]) + "\n" + Join(b)) == (a[0] + "\n" + Join(a[1..])) + "\n" + Join(b);
    }
  }

  /** A joined block may stand in a list of lines as a single element. */
  lemma {:induction false} JoinNested(before: seq<string>, block: seq<string>, after: seq<string>)
    requires block != []
    ensures Join(before + [Join(block)] + after) == Join(before + block + after)
  {
    if before == [] {
      assert before + [Join(block)] + after == [Join(block)] + after;
      assert before + block + after == block + after;
      if after == [] {
        assert block + after == block;
      } else {
        JoinConcat([Join(block)], after);
        JoinConcat(block, after);
      }
    } else {
      JoinNested(before[1..], block, after);
      assert (before + [Join(block)] + after)[1..] == before[1..] + [Join(block)] + after;
      assert (before + block + after)[1..] == before[1..] + block + after;
    }
  }

  /** `text.includes(part)`. */
  predicate Contains(s: string, part: string) {
    part <= s || (s != "" && Contains(s[1..], part))
  }

  lemma {:induction false} ContainsAfter(prefix: string, part: string)
    ensures Contains(prefix + part, part)
  {
    if prefix == "" {
      assert prefix + part == part;
    } else {
      ContainsAfter(prefix[1..], part);
      assert (prefix + part)[1..] == prefix[1..] + part;
    }
  }

  /** The part stands somewhere in the text. */
  lemma {:induction false} ContainsIff(s: string, part: string)
    ensures Contains(s, part) <==> exists i :: 0 <= i <= |s| && part <= s[i..]
  {
    assert s[0..] == s;
    if s != "" {
      ContainsIff(s[1..], part);
      if i :| 0 <= i <= |s[1..]| && part <= s[1..][i..] {
        assert s[i + 1..] == s[1..][i..];
      }
      if i :| 0 < i <= |s| && part <= s[i..] {
        assert s[1..][i - 1..] == s[i..];
      }
    }
  }
}
