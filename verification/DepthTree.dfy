/**
  The depth-prefixed tree listing of `cargo tree` and the stack that turns it back
  into root-to-package paths (release checks).
 */
module DepthTree {
  import opened Digits
  import opened Wrappers

  const WORKSPACE_PREFIX: string := "invoicekit-"

  predicate IsPackageChar(c: char) {
    IsDigitChar(c) || 'a' <= c <= 'z' || 'A' <= c <= 'Z' || c == '_' || c == '.' || c == '-'
  }

  /** How many leading characters satisfy a class: digits, or package characters. */
  function DigitRun(s: string): (n: nat)
    ensures n <= |s| && AllDigits(s[..n])
    ensures n < |s| ==> !IsDigitChar(s[n])
  {
    if s != "" && IsDigitChar(s[0]) then 1 + DigitRun(s[1..]) else 0
  }

  function PackageRun(s: string): (n: nat)
    ensures n <= |s| && forall i :: 0 <= i < n ==> IsPackageChar(s[i])
    ensures n < |s| ==> !IsPackageChar(s[n])
  {
    if s != "" && IsPackageChar(s[0]) then 1 + PackageRun(s[1..]) else 0
  }

  /** The white space a line can hold. */
  predicate IsGap(c: char) {
    c == ' ' || c == '\t'
  }

  function GapRun(s: string): (n: nat)
    ensures n <= |s|
  {
    if s != "" && IsGap(s[0]) then 1 + GapRun(s[1..]) else 0
  }

  /** `\s+v[0-9]` at the front. */
  predicate VersionFollows(s: string) {
    var n := GapRun(s);
    n > 0 && |s| >= n + 2 && s[n] == 'v' && IsDigitChar(s[n + 1])
  }

  /**
    `^(\d+)([A-Za-z0-9_.-]+)\s+v[0-9]`.  The depth takes every leading digit, but
    leaves one to the package when nothing else remains for it.
   */
  function MatchLine(line: string): Option<(nat, string)> {
    var d := DigitRun(line);
    var p := PackageRun(line[d..]);
    if d == 0 || !VersionFollows(line[d + p..]) then None
    else if p > 0 then Some((FromDigits(line[..d]), line[d..d + p]))
    else if d > 1 then Some((FromDigits(line[..d - 1]), line[d - 1..d]))
    else None
  }

  function Truncated(stack: seq<string>, depth: nat): seq<string> {
    if depth < |stack| then stack[..depth] else stack
  }

  /** The state of the scan: the stack and the paths collected. */
  datatype State = State(stack: seq<string>, paths: seq<seq<string>>)

  function ScanLine(state: State, line: string): State {
    match MatchLine(line)
    case None => state
    case Some((depth, package)) =>
      var here := Truncated(state.stack, depth) + [package];
      State(here, if WORKSPACE_PREFIX <= package then state.paths + [here] else state.paths)
  }

  /** Scanning lines from a given state. */
  function Scan(start: State, lines: seq<string>): State {
    if lines == [] then start else ScanLine(Scan(start, lines[..|lines| - 1]), lines[|lines| - 1])
  }

  function PathsOf(lines: seq<string>): seq<seq<string>> {
    Scan(State([], []), lines).paths
  }

  /** `workspace_dependency_paths`, on the lines of the listing. */
  method WorkspaceDependencyPaths(lines: seq<string>) returns (paths: seq<seq<string>>)
    ensures paths == PathsOf(lines)
  {
    var stack: seq<string> := [];
    paths := [];
    for i := 0 to |lines|
      invariant State(stack, paths) == Scan(State([], []), lines[..i])
    {
      assert lines[..i + 1][..i] == lines[..i];
      var m := MatchLine(lines[i]);
      if m.Some? {
        var (depth, package) := m.value;
        stack := Truncated(stack, depth);
        stack := stack + [package];
        if WORKSPACE_PREFIX <= package {
          paths := paths + [stack];
        }
      }
    }
    assert lines[..|lines|] == lines;
  }

  // ---------------------------------------------------------------- the trees

  /** A package with the packages listed below it; `detail` is what its line says after the name. */
  datatype Tree = Node(package: string, detail: string, children: seq<Tree>)

  /** Cargo's names start with a letter; the detail is a version and whatever follows it. */
  predicate IsName(package: string) {
    package != "" && !IsDigitChar(package[0]) && forall i :: 0 <= i < |package| ==> IsPackageChar(package[i])
  }

  predicate IsDetail(detail: string) {
    |detail| >= 3 && detail[0] == ' ' && detail[1] == 'v' && IsDigitChar(detail[2])
  }

  ghost predicate WellNamed(forest: seq<Tree>) {
    forall i :: 0 <= i < |forest| ==>
      IsName(forest[i].package) && IsDetail(forest[i].detail) && WellNamed(forest[i].children)
  }

  function Line(depth: nat, package: string, detail: string): string {
    ToDigits(depth) + package + detail
  }

  /** The listing `--prefix depth` prints: preorder, each line led by its depth. */
  function Listing(forest: seq<Tree>, depth: nat): seq<string> {
    if forest == [] then [] else
    TreeListing(forest[0], depth) + Listing(forest[1..], depth)
  }

  function TreeListing(t: Tree, depth: nat): seq<string> {
    match t
    case Node(package, detail, children) => [Line(depth, package, detail)] + Listing(children, depth + 1)
  }

  /** The root-to-node paths that end in a workspace package, in preorder, under `above`. */
  function RootPaths(forest: seq<Tree>, above: seq<string>): seq<seq<string>> {
    if forest == [] then [] else
    TreePaths(forest[0], above) + RootPaths(forest[1..], above)
  }

  function TreePaths(t: Tree, above: seq<string>): seq<seq<string>> {
    match t
    case Node(package, _, children) =>
      var here := above + [package];
      (if WORKSPACE_PREFIX <= package then [here] else []) + RootPaths(children, here)
  }

  // --------------------------------------------------------------- inversion

  lemma {:induction false} DigitRunOver(digits: string, rest: string)
    requires AllDigits(digits) && (rest != "" ==> !IsDigitChar(rest[0]))
    ensures DigitRun(digits + rest) == |digits|
  {
    if digits == "" {
      assert digits + rest == rest;
    } else {
      assert (digits + rest)[1..] == digits[1..] + rest;
      DigitRunOver(digits[1..], rest);
    }
  }

  lemma {:induction false} PackageRunOver(package: string, rest: string)
    requires (forall i :: 0 <= i < |package| ==> IsPackageChar(package[i])) && (rest != "" ==> !IsPackageChar(rest[0]))
    ensures PackageRun(package + rest) == |package|
  {
    if package == "" {
      assert package + rest == rest;
    } else {
      assert (package + rest)[1..] == package[1..] + rest;
      PackageRunOver(package[1..], rest);
    }
  }

  lemma VersionIsSeen(detail: string)
    requires IsDetail(detail)
    ensures VersionFollows(detail) && !IsPackageChar(detail[0])
  {
    assert GapRun(detail[1..]) == 0;
  }

  /** The pieces a line is cut into. */
  lemma LinePieces(digits: string, package: string, detail: string)
    requires AllDigits(digits) && IsName(package) && IsDetail(detail)
    ensures var line := digits + package + detail;
      DigitRun(line) == |digits| && line[..|digits|] == digits && PackageRun(line[|digits|..]) == |package| &&
      line[|digits|..|digits| + |package|] == package && line[|digits| + |package|..] == detail
  {
    var line := digits + package + detail;
    assert line == digits + (package + detail);
    DigitRunOver(digits, package + detail);
    assert line[|digits|..] == package + detail;
    VersionIsSeen(detail);
    PackageRunOver(package, detail);
  }

  /** A printed line is matched, and gives back its depth and package. */
  lemma LineMatches(depth: nat, package: string, detail: string)
    requires IsName(package) && IsDetail(detail)
    ensures MatchLine(Line(depth, package, detail)) == Some((depth, package))
  {
    LinePieces(ToDigits(depth), package, detail);
    VersionIsSeen(detail);
    FromToDigits(depth);
  }

  lemma {:induction false} ScanConcat(start: State, a: seq<string>, b: seq<string>)
    ensures Scan(start, a + b) == Scan(Scan(start, a), b)
  {
    if b == [] {
      assert a + b == a;
    } else {
      var n := |b| - 1;
      ScanConcat(start, a, b[..n]);
      assert (a + b)[..|a + b| - 1] == a + b[..n];
    }
  }

  /** `after` is `start` with the paths `more` added, and the same lowest `depth` stack entries. */
  ghost predicate Advances(start: State, after: State, depth: nat, more: seq<seq<string>>) {
    |start.stack| >= depth && |after.stack| >= depth &&
    after.stack[..depth] == start.stack[..depth] && after.paths == start.paths + more
  }

  lemma AdvancesChain(start: State, middle: State, after: State, depth: nat, a: seq<seq<string>>, b: seq<seq<string>>)
    requires Advances(start, middle, depth, a) && Advances(middle, after, depth, b)
    ensures Advances(start, after, depth, a + b)
  {
  }

  function OwnPath(here: seq<string>, package: string): seq<seq<string>> {
    if WORKSPACE_PREFIX <= package then [here] else []
  }

  lemma ScanOneLine(start: State, depth: nat, package: string, detail: string)
    requires IsName(package) && IsDetail(detail) && |start.stack| >= depth
    ensures var here := start.stack[..depth] + [package];
      Scan(start, [Line(depth, package, detail)]) == State(here, start.paths + OwnPath(here, package))
  {
    var line := Line(depth, package, detail);
    LineMatches(depth, package, detail);
    assert [line][..0] == [];
    assert Truncated(start.stack, depth) == start.stack[..depth];
    assert start.paths + [] == start.paths;
  }

  /** What happens one level down, seen from the level above. */
  lemma AdvancesUp(start: State, next: State, after: State, depth: nat, package: string, own: seq<seq<string>>,
                   more: seq<seq<string>>)
    requires |start.stack| >= depth && next == State(start.stack[..depth] + [package], start.paths + own)
    requires Advances(next, after, depth + 1, more)
    ensures Advances(start, after, depth, own + more)
  {
    assert next.stack[..depth + 1] == next.stack;
    assert after.stack[..depth] == after.stack[..depth + 1][..depth];
  }

  lemma {:induction false} ScanForest(start: State, forest: seq<Tree>, depth: nat)
    requires WellNamed(forest) && |start.stack| >= depth
    ensures Advances(start, Scan(start, Listing(forest, depth)), depth, RootPaths(forest, start.stack[..depth]))
    decreases forest, 0
  {
    if forest == [] {
      assert start.paths + [] == start.paths;
    } else {
      var first, rest := forest[0], forest[1..];
      var middle := Scan(start, TreeListing(first, depth));
      ScanTree(start, first, depth);
      ScanForest(middle, rest, depth);
      ScanConcat(start, TreeListing(first, depth), Listing(rest, depth));
      AdvancesChain(start, middle, Scan(middle, Listing(rest, depth)), depth,
                    TreePaths(first, start.stack[..depth]), RootPaths(rest, start.stack[..depth]));
    }
  }

  lemma {:induction false} ScanTree(start: State, t: Tree, depth: nat)
    requires IsName(t.package) && IsDetail(t.detail) && WellNamed(t.children) && |start.stack| >= depth
    ensures Advances(start, Scan(start, TreeListing(t, depth)), depth, TreePaths(t, start.stack[..depth]))
    decreases t, 1
  {
    match t
    case Node(package, detail, children) =>
      var here := start.stack[..depth] + [package];
      var next := State(here, start.paths + OwnPath(here, package));
      ScanOneLine(start, depth, package, detail);
      ScanConcat(start, [Line(depth, package, detail)], Listing(children, depth + 1));
      ScanForest(next, children, depth + 1);
      assert here[..depth + 1] == here;
      AdvancesUp(start, next, Scan(next, Listing(children, depth + 1)), depth, package, OwnPath(here, package),
        RootPaths(children, here));
  }

  /** The scan inverts the listing: it returns exactly the root-to-package paths, in preorder. */
  lemma ScanInvertsListing(forest: seq<Tree>)
    requires WellNamed(forest)
    ensures PathsOf(Listing(forest, 0)) == RootPaths(forest, [])
  {
    var start := State([], []);
    ScanForest(start, forest, 0);
    assert start.paths + RootPaths(forest, []) == RootPaths(forest, []);
  }

  // -------------------------------------------------------------- which lines match

  /** The line is digits, a package name, white space and a version, cut at `d` and `p`. */
  ghost predicate IsCut(line: string, d: nat, p: nat) {
    0 < d < p <= |line| && AllDigits(line[..d]) && (forall i :: d <= i < p ==> IsPackageChar(line[i])) &&
    exists g: nat :: VersionAt(line, p, g)
  }

  /** White space from `p` up to `g`, where a version starts. */
  ghost predicate VersionAt(line: string, p: nat, g: nat) {
    p < g && g + 1 < |line| && (forall i :: p <= i < g ==> line[i] == ' ' || line[i] == '\t') &&
    line[g] == 'v' && '0' <= line[g + 1] <= '9'
  }

  /** No cut takes more digits. */
  ghost predicate IsLongestCut(line: string, d: nat, p: nat) {
    IsCut(line, d, p) && forall e: nat, q: nat :: IsCut(line, e, q) ==> e <= d && q == p
  }

  lemma {:induction false} GapRunIs(s: string)
    ensures var n := GapRun(s);
      (forall i :: 0 <= i < n ==> IsGap(s[i])) && (n < |s| ==> !IsGap(s[n]))
  {
    if s != "" && IsGap(s[0]) {
      GapRunIs(s[1..]);
    }
  }

  /** Where the package ends is forced: white space follows it. */
  lemma CutEnds(line: string, d: nat, p: nat)
    requires IsCut(line, d, p)
    ensures d <= DigitRun(line) && p == DigitRun(line) + PackageRun(line[DigitRun(line)..])
    ensures VersionFollows(line[p..])
  {
    hide DigitRun, PackageRun, VersionFollows;
    var g: nat :| VersionAt(line, p, g);
    var n := DigitRun(line);
    if n < d {
      DigitInFront(line, d, n);
    }
    if p < n {
      GapIsNoDigit(line, p, n);
    }
    PackageEnds(line, n, p);
    VersionFollowsAt(line, p, g);
  }

  lemma PackageEnds(line: string, n: nat, p: nat)
    requires n <= p < |line| && (line[p] == ' ' || line[p] == '\t')
    requires forall i :: n <= i < p ==> IsPackageChar(line[i])
    ensures p == n + PackageRun(line[n..])
  {
    var tail := line[n..];
    var q := PackageRun(tail);
    assert forall i :: 0 <= i < |tail| ==> tail[i] == line[n + i];
    assert q < |tail| ==> !IsPackageChar(line[n + q]);
    assert p - n < q ==> IsPackageChar(tail[p - n]);
  }

  lemma VersionFollowsAt(line: string, p: nat, g: nat)
    requires VersionAt(line, p, g)
    ensures VersionFollows(line[p..])
  {
    var rest := line[p..];
    GapRunIs(rest);
    assert forall i :: 0 <= i < |rest| ==> rest[i] == line[p + i];
    assert GapRun(rest) == g - p;
  }

  lemma DigitInFront(line: string, d: nat, n: nat)
    requires n < d <= |line| && AllDigits(line[..d])
    ensures IsDigitChar(line[n])
  {
    assert line[n] == line[..d][n];
  }

  lemma GapIsNoDigit(line: string, p: nat, n: nat)
    requires p < n <= |line| && AllDigits(line[..n])
    ensures line[p] != ' ' && line[p] != '\t'
  {
    assert line[p] == line[..n][p];
  }

  /** The cut a match makes: `n` leading digits, then `q` further package characters. */
  lemma CutFound(line: string, n: nat, q: nat, d: nat)
    requires n == DigitRun(line) && q == PackageRun(line[n..]) && VersionFollows(line[n + q..])
    requires d == (if q > 0 then n else n - 1) && d > 0
    ensures IsCut(line, d, n + q)
  {
    hide PackageRun, DigitRun;
    var p := n + q;
    VersionIsAt(line, p);
    assert AllDigits(line[..d]) by {
      assert forall i :: 0 <= i < d ==> line[..d][i] == line[..n][i];
    }
    forall i | d <= i < p ensures IsPackageChar(line[i]) {
      if i < n {
        assert line[i] == line[..n][i];
      } else {
        assert line[i] == line[n..][i - n];
      }
    }
  }

  lemma VersionIsAt(line: string, p: nat)
    requires p <= |line| && VersionFollows(line[p..])
    ensures VersionAt(line, p, p + GapRun(line[p..]))
  {
    var rest := line[p..];
    GapRunIs(rest);
    assert forall i :: 0 <= i < |rest| ==> rest[i] == line[p + i];
    assert forall i :: p <= i < p + GapRun(rest) ==> line[i] == rest[i - p];
  }

  /** A match cuts the line with as many digits as can be, and gives their number and the package. */
  lemma MatchIsCut(line: string)
    requires MatchLine(line).Some?
    ensures var (depth, package) := MatchLine(line).value;
      exists d: nat, p: nat :: IsLongestCut(line, d, p) && depth == FromDigits(line[..d]) && package == line[d..p]
  {
    hide FromDigits, IsCut, DigitRun, PackageRun, VersionFollows;
    var n := DigitRun(line);
    var q := PackageRun(line[n..]);
    var d := if q > 0 then n else n - 1;
    CutFound(line, n, q, d);
    forall e: nat, r: nat | IsCut(line, e, r) ensures e <= d && r == n + q {
      CutEnds(line, e, r);
      CutIsInside(line, e, r);
    }
    assert IsLongestCut(line, d, n + q);
  }

  /** A line matches exactly when it can be cut so. */
  lemma MatchesIff(line: string)
    ensures MatchLine(line).Some? <==> exists d: nat, p: nat :: IsCut(line, d, p)
  {
    hide IsCut, FromDigits;
    if MatchLine(line).Some? {
      MatchIsCut(line);
    }
    if d: nat, p: nat :| IsCut(line, d, p) {
      CutEnds(line, d, p);
      CutIsInside(line, d, p);
    }
  }

  lemma CutIsInside(line: string, d: nat, p: nat)
    requires IsCut(line, d, p)
    ensures 0 < d < p <= |line|
  {
  }

  /** One line: the stack is cut at the depth and grows by the package; a workspace package adds its path. */
  lemma LineTells(state: State, line: string)
    ensures MatchLine(line).None? ==> ScanLine(state, line) == state
    ensures MatchLine(line).Some? ==>
      var (depth, package) := MatchLine(line).value;
      var after := ScanLine(state, line);
      var kept := if depth <= |state.stack| then depth else |state.stack|;
      |after.stack| == kept + 1 && after.stack[kept] == package &&
      (forall i :: 0 <= i < kept ==> after.stack[i] == state.stack[i]) &&
      after.paths == state.paths + if "invoicekit-" <= package then [after.stack] else []
  {
    hide MatchLine;
  }
}
