/** Where a waived advisory may still appear: the scope check over the paths of the inverse tree. */
module WaiverScope {
  import opened DepthTree
  import opened Lines
  import opened Text
  import opened Wrappers

  datatype Waiver = Waiver(advisory: string, crate: string, required: seq<string>, allowed: seq<string>)

  datatype Message =
    | ConfigMissing(file: string)
    | WaiverMissing(file: string, advisory: string)
    | TreeFailed(crate: string)
    | Outside(advisory: string, crates: seq<string>)
    | ReachesNoneAllowed(advisory: string)
    | WithoutRequired(advisory: string, path: seq<string>, missing: seq<string>)

  function Last(path: seq<string>): string
    requires path != []
  {
    path[|path| - 1]
  }

  /** A path that passes the check: it ends in an allowed crate and runs through all required ones. */
  ghost predicate InScope(waiver: Waiver, path: seq<string>) {
    path != [] && Last(path) in waiver.allowed && forall r :: r in waiver.required ==> r in path
  }

  /** Every path is in scope, and there is one. */
  ghost predicate ScopeHolds(waiver: Waiver, paths: seq<seq<string>>) {
    paths != [] && forall i :: 0 <= i < |paths| ==> InScope(waiver, paths[i])
  }

  /** The required crates a path lacks, in the order they are required. */
  function Missing(required: seq<string>, path: seq<string>): (m: seq<string>)
    ensures m == [] <==> forall r :: r in required ==> r in path
    ensures forall r :: r in m <==> r in required && r !in path
  {
    if required == [] then []
    else
      var rest := Missing(required[1..], path);
      assert forall r :: r in required <==> r == required[0] || r in required[1..];
      (if required[0] in path then [] else [required[0]]) + rest
  }

  ghost predicate EndsAllowed(waiver: Waiver, paths: seq<seq<string>>)
    requires forall i :: 0 <= i < |paths| ==> paths[i] != []
  {
    forall i :: 0 <= i < |paths| ==> Last(paths[i]) in waiver.allowed
  }

  /** Some path ends in the crate. */
  ghost predicate IsEnd(paths: seq<seq<string>>, crate: string) {
    exists i :: 0 <= i < |paths| && paths[i] != [] && Last(paths[i]) == crate
  }

  /** The crates that paths end in and that are not allowed, all of them and in order. */
  ghost predicate AreUnexpected(waiver: Waiver, paths: seq<seq<string>>, crates: seq<string>) {
    crates != [] && Ascending(crates) && forall c :: c in crates <==> IsEnd(paths, c) && c !in waiver.allowed
  }

  /** What there is to say about the crates the paths end in. */
  ghost predicate IsCrateMessage(m: Message, waiver: Waiver, paths: seq<seq<string>>) {
    (m.Outside? && m.advisory == waiver.advisory && AreUnexpected(waiver, paths, m.crates)) ||
    (m == ReachesNoneAllowed(waiver.advisory) && forall c :: c in waiver.allowed ==> !IsEnd(paths, c))
  }

  /** What there is to say about a path to an allowed crate. */
  ghost predicate IsPathMessage(m: Message, waiver: Waiver, path: seq<string>)
    requires path != []
  {
    Last(path) in waiver.allowed && m.WithoutRequired? && m.advisory == waiver.advisory && m.path == path &&
    m.missing != [] && m.missing == Missing(waiver.required, path)
  }

  /** The messages about the crates the paths end in. */
  method CheckCrates(waiver: Waiver, paths: seq<seq<string>>) returns (messages: seq<Message>)
    requires forall i :: 0 <= i < |paths| ==> paths[i] != []
    ensures messages == [] <==> paths != [] && EndsAllowed(waiver, paths)
    ensures forall m :: m in messages <==> IsCrateMessage(m, waiver, paths)
  {
    messages := [];
    var crates := set i | 0 <= i < |paths| :: Last(paths[i]);
    var allowed := set c | c in waiver.allowed;
    var unexpected := Sorted(crates - allowed);
    if unexpected != [] {
      messages := messages + [Outside(waiver.advisory, unexpected)];
    }
    if crates * allowed == {} {
      messages := messages + [ReachesNoneAllowed(waiver.advisory)];
    }
    CrateMessagesMean(waiver, paths, crates, allowed, unexpected);
    CrateMessagesAre(waiver, paths, crates, allowed, unexpected, messages);
  }

  lemma CrateMessagesAre(waiver: Waiver, paths: seq<seq<string>>, crates: set<string>, allowed: set<string>,
                         unexpected: seq<string>, messages: seq<Message>)
    requires forall i :: 0 <= i < |paths| ==> paths[i] != []
    requires crates == (set i | 0 <= i < |paths| :: Last(paths[i])) && allowed == set c | c in waiver.allowed
    requires unexpected == Sorted(crates - allowed)
    requires messages == (if unexpected != [] then [Outside(waiver.advisory, unexpected)] else []) +
      (if crates * allowed == {} then [ReachesNoneAllowed(waiver.advisory)] else [])
    ensures forall m :: m in messages <==> IsCrateMessage(m, waiver, paths)
  {
    hide Sorted, Ascending, IsEnd, AreUnexpected;
    SortedAscends(crates - allowed);
    EndsAre(paths, crates);
    UnexpectedAre(waiver, paths, unexpected);
    NoneAllowedIff(waiver, paths, crates, allowed);
    forall m ensures m in messages <==> IsCrateMessage(m, waiver, paths) {
      if unexpected != [] {
        assert messages[0] == Outside(waiver.advisory, unexpected);
      }
      if crates * allowed == {} {
        assert messages[|messages| - 1] == ReachesNoneAllowed(waiver.advisory);
      }
    }
  }

  lemma EndsAre(paths: seq<seq<string>>, crates: set<string>)
    requires forall i :: 0 <= i < |paths| ==> paths[i] != []
    requires crates == set i | 0 <= i < |paths| :: Last(paths[i])
    ensures forall c :: c in crates <==> IsEnd(paths, c)
  {
  }

  /** There is one list of the unexpected crates, if there are any. */
  lemma UnexpectedAre(waiver: Waiver, paths: seq<seq<string>>, unexpected: seq<string>)
    requires Ascending(unexpected) && forall c :: c in unexpected <==> IsEnd(paths, c) && c !in waiver.allowed
    ensures forall crates :: AreUnexpected(waiver, paths, crates) <==> unexpected != [] && crates == unexpected
  {
    hide Ascending, IsEnd;
    forall crates | AreUnexpected(waiver, paths, crates) ensures crates == unexpected {
      AscendingUnique(crates, unexpected);
    }
  }

  lemma NoneAllowedIff(waiver: Waiver, paths: seq<seq<string>>, crates: set<string>, allowed: set<string>)
    requires allowed == (set c | c in waiver.allowed) && forall c :: c in crates <==> IsEnd(paths, c)
    ensures crates * allowed == {} <==> forall c :: c in waiver.allowed ==> !IsEnd(paths, c)
  {
    hide IsEnd;
    assert forall c :: c in crates * allowed <==> c in waiver.allowed && IsEnd(paths, c);
  }

  /** Two ascending lists of the same texts are one. */
  lemma {:induction false} AscendingUnique(a: seq<string>, b: seq<string>)
    requires Ascending(a) && Ascending(b) && forall c :: c in a <==> c in b
    ensures a == b
    decreases |a|
  {
    assert b != [] ==> b[0] in b;
    if a != [] {
      assert a[0] in a && a[0] in b;
      assert b[0] in b && b[0] in a;
      var i :| 0 <= i < |b| && b[i] == a[0];
      var j :| 0 <= j < |a| && a[j] == b[0];
      if i > 0 && j > 0 {
        LexAntisymmetric(a[0], b[0]);
      }
      assert a[0] == b[0];
      HeadAndRest(a);
      HeadAndRest(b);
      AscendingUnique(a[1..], b[1..]);
      assert a == [a[0]] + a[1..] && b == [b[0]] + b[1..];
    }
  }

  lemma HeadAndRest(a: seq<string>)
    requires Ascending(a) && a != []
    ensures a[0] !in a[1..] && forall c :: c in a <==> c == a[0] || c in a[1..]
  {
    assert a == [a[0]] + a[1..];
    forall i | 0 <= i < |a[1..]| ensures a[1..][i] != a[0] {
      assert a[1..][i] == a[i + 1];
    }
  }

  /** The messages about paths to allowed crates that avoid a required one. */
  method CheckRequired(waiver: Waiver, paths: seq<seq<string>>) returns (messages: seq<Message>)
    requires forall i :: 0 <= i < |paths| ==> paths[i] != []
    ensures messages == [] <==>
      forall i, r :: 0 <= i < |paths| && Last(paths[i]) in waiver.allowed && r in waiver.required ==> r in paths[i]
    ensures forall m :: m in messages <==> exists i :: 0 <= i < |paths| && IsPathMessage(m, waiver, paths[i])
  {
    messages := [];
    for i := 0 to |paths|
      invariant forall m :: m in messages <==> exists j :: 0 <= j < i && IsPathMessage(m, waiver, paths[j])
      invariant messages == [] <==>
        forall j, r :: 0 <= j < i && Last(paths[j]) in waiver.allowed && r in waiver.required ==> r in paths[j]
    {
      if Last(paths[i]) !in waiver.allowed {
        continue;
      }
      var missing := Missing(waiver.required, paths[i]);
      if missing != [] {
        messages := messages + [WithoutRequired(waiver.advisory, paths[i], missing)];
      }
    }
  }

  ghost predicate IsScopeMessage(m: Message, waiver: Waiver, paths: seq<seq<string>>)
    requires forall i :: 0 <= i < |paths| ==> paths[i] != []
  {
    IsCrateMessage(m, waiver, paths) || exists i :: 0 <= i < |paths| && IsPathMessage(m, waiver, paths[i])
  }

  /** The scope check of one waiver, given the paths of its crate's inverse tree. */
  method CheckPaths(waiver: Waiver, paths: seq<seq<string>>) returns (messages: seq<Message>)
    requires forall i :: 0 <= i < |paths| ==> paths[i] != []
    ensures messages == [] <==> ScopeHolds(waiver, paths)
    ensures forall m :: m in messages <==> IsScopeMessage(m, waiver, paths)
  {
    var crateMessages := CheckCrates(waiver, paths);
    var pathMessages := CheckRequired(waiver, paths);
    messages := crateMessages + pathMessages;
  }

  lemma CrateMessagesMean(waiver: Waiver, paths: seq<seq<string>>, crates: set<string>, allowed: set<string>,
                          unexpected: seq<string>)
    requires forall i :: 0 <= i < |paths| ==> paths[i] != []
    requires crates == (set i | 0 <= i < |paths| :: Last(paths[i])) && allowed == set c | c in waiver.allowed
    requires unexpected == Sorted(crates - allowed)
    ensures unexpected == [] && crates * allowed != {} <==> paths != [] && EndsAllowed(waiver, paths)
  {
    if unexpected == [] {
      assert |crates - allowed| == 0;
      assert crates - allowed == {};
      forall i | 0 <= i < |paths| ensures Last(paths[i]) in waiver.allowed {
        assert Last(paths[i]) in crates && Last(paths[i]) !in crates - allowed;
      }
      if paths != [] {
        assert Last(paths[0]) in crates * allowed;
      }
    } else {
      assert unexpected[0] in unexpected;
      assert unexpected[0] in crates - allowed;
    }
  }

  /** What the tree runner answers for one crate: an exit code and the lines of the listing. */
  datatype TreeRun = TreeRun(code: int, lines: seq<string>)

  lemma {:induction false} ScannedPathsEnd(lines: seq<string>)
    ensures forall i :: 0 <= i < |PathsOf(lines)| ==> PathsOf(lines)[i] != []
  {
    if lines != [] {
      var n := |lines| - 1;
      ScannedPathsEnd(lines[..n]);
      var before := Scan(State([], []), lines[..n]);
      assert before.paths == PathsOf(lines[..n]);
      assert PathsOf(lines) == ScanLine(before, lines[n]).paths;
    }
  }

  /** The config file names a waiver when its text contains the advisory. */
  ghost predicate ConfigOk(body: Option<string>, waivers: seq<Waiver>) {
    body.Some? && forall i :: 0 <= i < |waivers| ==> Contains(body.value, waivers[i].advisory)
  }

  ghost predicate RunOk(waiver: Waiver, run: TreeRun) {
    run.code == 0 && ScopeHolds(waiver, PathsOf(run.lines))
  }

  ghost predicate LacksWaiver(m: Message, file: string, body: string, waiver: Waiver) {
    m == WaiverMissing(file, waiver.advisory) && !Contains(body, waiver.advisory)
  }

  /** What there is to say about a config file: it is missing, or a waiver is missing from it. */
  ghost predicate IsConfigMessage(m: Message, config: (string, Option<string>), waivers: seq<Waiver>) {
    match config.1
    case None => m == ConfigMissing(config.0)
    case Some(body) => exists k :: 0 <= k < |waivers| && LacksWaiver(m, config.0, body, waivers[k])
  }

  method CheckConfigs(configs: seq<(string, Option<string>)>, waivers: seq<Waiver>) returns (messages: seq<Message>)
    ensures messages == [] <==> forall i :: 0 <= i < |configs| ==> ConfigOk(configs[i].1, waivers)
    ensures forall m :: m in messages <==> exists i :: 0 <= i < |configs| && IsConfigMessage(m, configs[i], waivers)
  {
    messages := [];
    for i := 0 to |configs|
      invariant forall m :: m in messages <==> exists j :: 0 <= j < i && IsConfigMessage(m, configs[j], waivers)
      invariant messages == [] <==> forall j :: 0 <= j < i ==> ConfigOk(configs[j].1, waivers)
    {
      var (file, body) := configs[i];
      if body.None? {
        messages := messages + [ConfigMissing(file)];
        continue;
      }
      ghost var before := messages;
      for w := 0 to |waivers|
        invariant messages == [] <==>
          before == [] && forall k :: 0 <= k < w ==> Contains(body.value, waivers[k].advisory)
        invariant forall m :: m in messages <==>
          m in before || exists k :: 0 <= k < w && LacksWaiver(m, file, body.value, waivers[k])
      {
        if !Contains(body.value, waivers[w].advisory) {
          messages := messages + [WaiverMissing(file, waivers[w].advisory)];
        }
      }
    }
  }

  /** What there is to say about a waiver: its tree command failed, or its paths are out of scope. */
  ghost predicate IsRunMessage(m: Message, waiver: Waiver, run: TreeRun) {
    if run.code != 0 then m == TreeFailed(waiver.crate)
    else
      (forall i :: 0 <= i < |PathsOf(run.lines)| ==> PathsOf(run.lines)[i] != []) &&
      IsScopeMessage(m, waiver, PathsOf(run.lines))
  }

  /** `check_advisory_waiver_scope`, with the files read and the tree commands run. */
  method CheckAdvisoryWaiverScope(configs: seq<(string, Option<string>)>, waivers: seq<Waiver>, runs: seq<TreeRun>)
      returns (messages: seq<Message>)
    requires |runs| == |waivers|
    ensures messages == [] <==>
      (forall i :: 0 <= i < |configs| ==> ConfigOk(configs[i].1, waivers)) &&
      (forall i :: 0 <= i < |waivers| ==> RunOk(waivers[i], runs[i]))
    ensures forall m :: m in messages <==>
      (exists i :: 0 <= i < |configs| && IsConfigMessage(m, configs[i], waivers)) ||
      (exists i :: 0 <= i < |waivers| && IsRunMessage(m, waivers[i], runs[i]))
  {
    messages := CheckConfigs(configs, waivers);
    ghost var configMessages := messages;
    for i := 0 to |waivers|
      invariant forall m :: m in messages <==>
        m in configMessages || exists j :: 0 <= j < i && IsRunMessage(m, waivers[j], runs[j])
      invariant messages == [] <==> configMessages == [] && forall j :: 0 <= j < i ==> RunOk(waivers[j], runs[j])
    {
      if runs[i].code != 0 {
        messages := messages + [TreeFailed(waivers[i].crate)];
        continue;
      }
      var paths := WorkspaceDependencyPaths(runs[i].lines);
      ScannedPathsEnd(runs[i].lines);
      var more := CheckPaths(waivers[i], paths);
      messages := messages + more;
    }
  }

  // --------------------------------------------- what silence says of the tree

  /** `path` goes from a root of the forest down to one of its nodes. */
  ghost predicate IsRootPath(forest: seq<Tree>, path: seq<string>)
    decreases |path|
  {
    path != [] &&
    exists i :: 0 <= i < |forest| && forest[i].package == path[0] &&
      (|path| == 1 || IsRootPath(forest[i].children, path[1..]))
  }

  lemma {:induction false} RootPathsAre(forest: seq<Tree>, above: seq<string>, path: seq<string>)
    requires IsRootPath(forest, path) && WORKSPACE_PREFIX <= Last(path)
    ensures above + path in RootPaths(forest, above)
    decreases |path|, |forest|
  {
    var i :| 0 <= i < |forest| && forest[i].package == path[0] &&
      (|path| == 1 || IsRootPath(forest[i].children, path[1..]));
    if i == 0 {
      var t := forest[0];
      var here := above + [t.package];
      if |path| == 1 {
        assert above + path == here;
      } else {
        RootPathsAre(t.children, here, path[1..]);
        assert above + path == here + path[1..];
      }
      assert above + path in TreePaths(t, above);
    } else {
      assert forest[1..][i - 1] == forest[i];
      RootPathsAre(forest[1..], above, path);
    }
  }

  lemma {:induction false} OnlyRootPaths(forest: seq<Tree>, above: seq<string>, p: seq<string>)
    requires p in RootPaths(forest, above)
    ensures |p| > |above| && p[..|above|] == above && WORKSPACE_PREFIX <= Last(p)
    ensures IsRootPath(forest, p[|above|..])
    decreases forest, 0
  {
    if p in TreePaths(forest[0], above) {
      OnlyTreePaths(forest[0], above, p);
      assert forest[0].package == p[|above|..][0];
    } else {
      OnlyRootPaths(forest[1..], above, p);
      var path := p[|above|..];
      var i :| 0 <= i < |forest[1..]| && forest[1..][i].package == path[0] &&
        (|path| == 1 || IsRootPath(forest[1..][i].children, path[1..]));
      assert forest[i + 1] == forest[1..][i];
    }
  }

  lemma {:induction false} OnlyTreePaths(t: Tree, above: seq<string>, p: seq<string>)
    requires p in TreePaths(t, above)
    ensures |p| > |above| && p[..|above|] == above && WORKSPACE_PREFIX <= Last(p) && p[|above|] == t.package
    ensures |p| == |above| + 1 || IsRootPath(t.children, p[|above| + 1..])
    decreases t, 1
  {
    match t
    case Node(package, _, children) =>
      var here := above + [package];
      if p in RootPaths(children, here) {
        OnlyRootPaths(children, here, p);
        assert p[..|above|] == p[..|here|][..|above|] && p[|above|] == p[..|here|][|above|];
      } else {
        assert p == here;
      }
  }

  /**
    The check is silent about a waiver exactly when the displayed tree has a path from
    a root down to a workspace package, and every such path ends in an allowed crate
    and passes through every required one.
   */
  lemma SilenceMeansScope(waiver: Waiver, forest: seq<Tree>)
    requires WellNamed(forest)
    ensures ScopeHolds(waiver, PathsOf(Listing(forest, 0))) <==>
      (exists path :: IsRootPath(forest, path) && WORKSPACE_PREFIX <= Last(path)) &&
      (forall path :: IsRootPath(forest, path) && WORKSPACE_PREFIX <= Last(path) ==> InScope(waiver, path))
  {
    ScanInvertsListing(forest);
    var paths := RootPaths(forest, []);
    forall path | IsRootPath(forest, path) && WORKSPACE_PREFIX <= Last(path) ensures path in paths {
      RootPathsAre(forest, [], path);
      assert [] + path == path;
    }
    forall i | 0 <= i < |paths| ensures IsRootPath(forest, paths[i]) && WORKSPACE_PREFIX <= Last(paths[i]) {
      OnlyRootPaths(forest, [], paths[i]);
      assert paths[i][0..] == paths[i];
    }
    if paths != [] {
      assert IsRootPath(forest, paths[0]) && WORKSPACE_PREFIX <= Last(paths[0]);
    }
  }
}
