/**
  Reachable schema types (CII coverage): a breadth-first walk whose queue may hold a
  type several times, and the coverage rows made from it.
 */
module Reachability {
  import opened Wrappers

  /** One `xs:element` of a complex type's sequence. */
  datatype Element =
    Element(name: string, typeName: Option<string>, minOccurs: Option<string>, maxOccurs: Option<string>)

  /** The complex types by name, each with its elements in schema order. */
  type Types = map<string, seq<Element>>

  const ROOT: string := "CrossIndustryInvoiceType"

  function AfterLastColon(s: string): string {
    if s == "" then "" else if s[|s| - 1] == ':' then "" else AfterLastColon(s[..|s| - 1]) + [s[|s| - 1]]
  }

  /** `local_type`: the name without its prefix; empty when there is none. */
  function LocalType(typeName: Option<string>): string {
    match typeName
    case None => ""
    case Some(name) => AfterLastColon(name)
  }

  // ------------------------------------------------------------------- graph

  /** The type text names `t`, behind a prefix that ends in a colon or without one; no text names the empty name. */
  ghost predicate Names(typeName: Option<string>, t: string) {
    ':' !in t &&
    match typeName
    case None => t == ""
    case Some(text) => text == t || (|text| > |t| && text[|text| - |t| - 1..] == ":" + t)
  }

  lemma {:induction false} AfterColonIs(s: string)
    ensures var n := AfterLastColon(s);
      ':' !in n && |n| <= |s| && s[|s| - |n|..] == n && (|n| < |s| ==> s[|s| - |n| - 1] == ':')
  {
    if s != "" && s[|s| - 1] != ':' {
      AfterColonIs(s[..|s| - 1]);
    }
  }

  lemma SuffixesAgree(s: string, m: string, n: string)
    requires |m| <= |s| && |n| <= |s| && s[|s| - |m|..] == m && s[|s| - |n|..] == n
    requires ':' !in m && ':' !in n
    requires |m| < |s| ==> s[|s| - |m| - 1] == ':'
    requires |n| < |s| ==> s[|s| - |n| - 1] == ':'
    ensures m == n
  {
    assert forall i :: |s| - |m| <= i < |s| ==> s[i] == m[i - (|s| - |m|)];
    assert forall i :: |s| - |n| <= i < |s| ==> s[i] == n[i - (|s| - |n|)];
  }

  /** `local_type` gives the one name that the type text names. */
  lemma LocalTypeIsNamed(typeName: Option<string>, t: string)
    ensures LocalType(typeName) == t <==> Names(typeName, t)
  {
    if typeName.Some? {
      var s := typeName.value;
      var n := AfterLastColon(s);
      AfterColonIs(s);
      SuffixesAre(s, n);
      SuffixesAre(s, t);
      if Names(typeName, t) {
        SuffixesAgree(s, n, t);
      }
    }
  }

  lemma SuffixesAre(s: string, n: string)
    ensures s == n || (|s| > |n| && s[|s| - |n| - 1..] == ":" + n) <==>
      |n| <= |s| && s[|s| - |n|..] == n && (|n| < |s| ==> s[|s| - |n| - 1] == ':')
  {
    if |n| < |s| {
      var tail := s[|s| - |n| - 1..];
      assert tail == [s[|s| - |n| - 1]] + s[|s| - |n|..];
      assert tail[0] == s[|s| - |n| - 1] && tail[1..] == s[|s| - |n|..];
    } else if |n| == |s| {
      assert s[0..] == s;
    }
  }

  /** Some element of type `s` has a type text that names table type `t`. */
  ghost predicate Edge(types: Types, s: string, t: string) {
    s in types && t in types && exists i :: 0 <= i < |types[s]| && Names(types[s][i].typeName, t)
  }

  lemma EdgeEndsInTypes(types: Types, s: string, t: string)
    requires Edge(types, s, t)
    ensures s in types && t in types
  {
  }

  lemma EdgesAre(types: Types, s: string)
    requires s in types
    ensures forall t :: Edge(types, s, t) <==>
      t in types && exists i :: 0 <= i < |types[s]| && LocalType(types[s][i].typeName) == t
  {
    hide Names, LocalType;
    forall t, i | 0 <= i < |types[s]|
      ensures Names(types[s][i].typeName, t) <==> LocalType(types[s][i].typeName) == t
    {
      LocalTypeIsNamed(types[s][i].typeName, t);
    }
  }

  ghost predicate IsPath(types: Types, path: seq<string>) {
    path != [] && path[0] == ROOT && ROOT in types && forall i :: 0 <= i < |path| - 1 ==>
      Edge(types, path[i], path[i + 1])
  }

  ghost predicate Reachable(types: Types, t: string) {
    exists path :: IsPath(types, path) && path[|path| - 1] == t
  }

  /** The types at most `n` edges away from the root. */
  ghost function Ball(types: Types, n: nat): (ball: set<string>)
    ensures ball <= types.Keys
    decreases n, 0
  {
    if n == 0 then set t | t in types.Keys && t == ROOT
    else Ball(types, n - 1) + set t | t in types.Keys && HasPredecessor(types, n - 1, t)
  }

  ghost predicate HasPredecessor(types: Types, n: nat, t: string)
    decreases n, 1
  {
    exists s :: s in Ball(types, n) && Edge(types, s, t)
  }

  /** A path of n edges ends in the n-ball. */
  lemma {:induction false} PathEndsInBall(types: Types, path: seq<string>)
    requires IsPath(types, path)
    ensures path[|path| - 1] in Ball(types, |path| - 1)
    decreases |path|
  {
    var n := |path| - 1;
    if n > 0 {
      var front := path[..n];
      PathEndsInBall(types, front);
      assert Edge(types, path[n - 1], path[n]);
      assert HasPredecessor(types, n - 1, path[n]);
    }
  }

  /** Every type of the n-ball is the end of a path of at most n edges. */
  lemma {:induction false} BallHasPath(types: Types, n: nat, t: string) returns (path: seq<string>)
    requires t in Ball(types, n)
    ensures IsPath(types, path) && path[|path| - 1] == t && |path| <= n + 1
  {
    if n == 0 {
      path := [ROOT];
    } else if t in Ball(types, n - 1) {
      path := BallHasPath(types, n - 1, t);
    } else {
      var s :| s in Ball(types, n - 1) && Edge(types, s, t);
      var front := BallHasPath(types, n - 1, s);
      path := front + [t];
      forall i | 0 <= i < |path| - 1 ensures Edge(types, path[i], path[i + 1]) {
        if i < |front| - 1 {
          assert Edge(types, front[i], front[i + 1]);
        }
      }
    }
  }

  lemma {:induction false} BallsGrow(types: Types, m: nat, n: nat)
    requires m <= n
    ensures Ball(types, m) <= Ball(types, n)
    decreases n - m
  {
    if m < n {
      BallsGrow(types, m, n - 1);
    }
  }

  // ------------------------------------------------------------------- queue

  /** What of the queue is still to be visited: unseen types, each at its first place. */
  function Waiting(queue: seq<string>, seen: set<string>): (w: seq<string>)
    ensures forall t :: t in w <==> t in queue && t !in seen
  {
    if queue == [] then []
    else if queue[0] in seen then Waiting(queue[1..], seen)
    else [queue[0]] + Waiting(queue[1..], seen + {queue[0]})
  }

  lemma {:induction false} WaitingAppend(queue: seq<string>, seen: set<string>, t: string)
    ensures Waiting(queue + [t], seen) ==
      if t in seen || t in queue then Waiting(queue, seen) else Waiting(queue, seen) + [t]
  {
    if queue != [] {
      assert (queue + [t])[1..] == queue[1..] + [t];
      if queue[0] in seen {
        WaitingAppend(queue[1..], seen, t);
      } else {
        WaitingAppend(queue[1..], seen + {queue[0]}, t);
      }
    }
  }

  // -------------------------------------------------------------- the search

  ghost predicate Distinct(s: seq<string>) {
    forall i, j :: 0 <= i < j < |s| ==> s[i] != s[j]
  }

  /** Within every ball, nothing later is closer than something earlier. */
  ghost predicate NearestFirst(types: Types, found: seq<string>) {
    forall i, j, n: nat :: 0 <= i < j < |found| && found[j] in Ball(types, n) ==> found[i] in Ball(types, n)
  }

  /** Every ball is either all found or holds all that was found. */
  ghost predicate FoundByBalls(types: Types, found: seq<string>) {
    forall n: nat :: AllWithin(types, found, n) || AllFound(types, found, n)
  }

  ghost predicate AllWithin(types: Types, found: seq<string>, n: nat) {
    forall t :: t in found ==> t in Ball(types, n)
  }

  ghost predicate AllFound(types: Types, found: seq<string>, n: nat) {
    forall t :: t in Ball(types, n) ==> t in found
  }

  /** The successors of the first `count` found types are found. */
  ghost predicate ClosedUpTo(types: Types, found: seq<string>, count: nat) {
    forall i, t :: 0 <= i < count && i < |found| && Edge(types, found[i], t) ==> t in found
  }

  ghost predicate FoundOk(types: Types, found: seq<string>) {
    Distinct(found) && NearestFirst(types, found) && FoundByBalls(types, found) &&
    found != [] && found[0] == ROOT &&
    forall i :: 0 <= i < |found| ==> found[i] in types && Reachable(types, found[i])
  }

  lemma EdgeReaches(types: Types, s: string, t: string)
    requires Reachable(types, s) && Edge(types, s, t)
    ensures Reachable(types, t)
  {
    var path :| IsPath(types, path) && path[|path| - 1] == s;
    var longer := path + [t];
    forall i | 0 <= i < |longer| - 1 ensures Edge(types, longer[i], longer[i + 1]) {
      if i < |path| - 1 {
        assert Edge(types, path[i], path[i + 1]);
      }
    }
    assert longer[|longer| - 1] == t;
  }

  /** Where the visited type is: what is found lies within one step of any ball that holds it, or the ball is done. */
  ghost predicate Frontier(types: Types, found: seq<string>, v: string) {
    forall n: nat :: AllFound(types, found, n) ||
      (AllWithin(types, found, n) && (forall t :: Edge(types, v, t) ==> t in Ball(types, n)))
  }

  /** When everything before `v` is closed, `v` is on the frontier. */
  lemma VisitOnFrontier(types: Types, found: seq<string>, k: nat)
    requires FoundOk(types, found) && k < |found| && ClosedUpTo(types, found, k)
    ensures Frontier(types, found, found[k])
  {
    var v := found[k];
    forall n: nat
      ensures AllFound(types, found, n) ||
        (AllWithin(types, found, n) && (forall t :: Edge(types, v, t) ==> t in Ball(types, n)))
    {
      if n > 0 && v in Ball(types, n - 1) {
        forall t | Edge(types, v, t) ensures t in Ball(types, n) {
          assert HasPredecessor(types, n - 1, t);
        }
      } else if n > 0 {
        assert AllFound(types, found, n - 1);
        forall t | t in Ball(types, n) ensures t in found {
          if t !in Ball(types, n - 1) {
            assert HasPredecessor(types, n - 1, t);
            var s :| s in Ball(types, n - 1) && Edge(types, s, t);
            var i :| 0 <= i < |found| && found[i] == s;
            assert i < k;
          }
        }
      } else {
        assert AllFound(types, found, 0);
      }
    }
  }

  /** Finding one more successor of the visited type keeps everything in order. */
  lemma FindOneMore(types: Types, found: seq<string>, v: string, t: string)
    requires FoundOk(types, found) && Frontier(types, found, v)
    requires v in found && Edge(types, v, t) && t !in found
    ensures FoundOk(types, found + [t]) && Frontier(types, found + [t], v)
  {
    var more := found + [t];
    EdgeReaches(types, v, t);
    forall n: nat
      ensures AllFound(types, more, n) ||
        (AllWithin(types, more, n) && (forall u :: Edge(types, v, u) ==> u in Ball(types, n)))
    {
      if AllFound(types, found, n) {
        assert AllFound(types, more, n);
      }
    }
    forall i, j, n: nat | 0 <= i < j < |more| && more[j] in Ball(types, n) ensures more[i] in Ball(types, n) {
      if j == |found| {
        assert !AllFound(types, found, n);
        assert AllWithin(types, found, n);
        assert found[i] in found;
      }
    }
  }

  lemma {:induction false} AllReachableFound(types: Types, found: seq<string>, n: nat)
    requires FoundOk(types, found) && ClosedUpTo(types, found, |found|)
    ensures AllFound(types, found, n)
  {
    if n > 0 {
      AllReachableFound(types, found, n - 1);
      forall t | t in Ball(types, n) ensures t in found {
        if t !in Ball(types, n - 1) {
          assert HasPredecessor(types, n - 1, t);
          var s :| s in Ball(types, n - 1) && Edge(types, s, t);
          var i :| 0 <= i < |found| && found[i] == s;
        }
      }
    }
  }

  lemma StartOk(types: Types)
    requires ROOT in types
    ensures FoundOk(types, [ROOT]) && ClosedUpTo(types, [ROOT], 0)
  {
    var path := [ROOT];
    assert IsPath(types, path) && path[|path| - 1] == ROOT;
    assert ROOT in Ball(types, 0);
    forall n: nat ensures AllWithin(types, [ROOT], n) {
      BallsGrow(types, 0, n);
    }
  }

  /** The result: the reachable table types, each once, nearest first. */
  ghost predicate IsReachableList(types: Types, ordered: seq<string>) {
    Distinct(ordered) && NearestFirst(types, ordered) && forall t :: t in ordered <==> Reachable(types, t)
  }

  lemma FinishedList(types: Types, found: seq<string>)
    requires FoundOk(types, found) && ClosedUpTo(types, found, |found|)
    ensures IsReachableList(types, found)
  {
    forall t | Reachable(types, t) ensures t in found {
      var path :| IsPath(types, path) && path[|path| - 1] == t;
      PathEndsInBall(types, path);
      AllReachableFound(types, found, |path| - 1);
    }
  }

  /** Enqueuing a successor of the visited type, waiting already or not. */
  lemma EnqueueOne(types: Types, v: string, ordered: seq<string>, queue: seq<string>, seen: set<string>, child: string)
    requires forall t :: t in seen <==> t in ordered
    requires FoundOk(types, ordered + Waiting(queue, seen)) && Frontier(types, ordered + Waiting(queue, seen), v)
    requires v in ordered && Edge(types, v, child) && child !in seen
    ensures var before, after := ordered + Waiting(queue, seen), ordered + Waiting(queue + [child], seen);
      FoundOk(types, after) && Frontier(types, after, v) && before <= after && child in after
  {
    hide Edge, Names;
    var found := ordered + Waiting(queue, seen);
    EdgeEndsInTypes(types, v, child);
    WaitingAppend(queue, seen, child);
    if child !in queue {
      FindOneMore(types, found, v, child);
      assert found + [child] == ordered + Waiting(queue + [child], seen);
    }
  }

  /** Enqueues the table types of the visited type's elements. */
  method EnqueueChildren(types: Types, v: string, queue: seq<string>, seen: set<string>, ghost ordered: seq<string>)
      returns (longer: seq<string>)
    requires v in types && v in seen && forall t :: t in seen <==> t in ordered
    requires FoundOk(types, ordered + Waiting(queue, seen)) && Frontier(types, ordered + Waiting(queue, seen), v)
    ensures var before, after := ordered + Waiting(queue, seen), ordered + Waiting(longer, seen);
      FoundOk(types, after) && before <= after && forall t :: Edge(types, v, t) ==> t in after
  {
    hide FoundOk, Frontier, Waiting, LocalType, Names, Edge;
    EdgesAre(types, v);
    longer := queue;
    var elements := types[v];
    ghost var found := ordered + Waiting(queue, seen);
    for i := 0 to |elements|
      invariant found == ordered + Waiting(longer, seen) && FoundOk(types, found) && Frontier(types, found, v)
      invariant ordered + Waiting(queue, seen) <= found
      invariant forall j :: 0 <= j < i && LocalType(elements[j].typeName) in types ==>
        LocalType(elements[j].typeName) in found
    {
      var child := LocalType(elements[i].typeName);
      if child in types && child !in seen {
        assert Edge(types, v, child);
        EnqueueOne(types, v, ordered, longer, seen, child);
        longer := longer + [child];
        found := ordered + Waiting(longer, seen);
      }
    }
  }

  /** `reachable_types`. */
  method ReachableTypes(types: Types) returns (ordered: seq<string>)
    ensures IsReachableList(types, ordered)
  {
    ordered := [];
    var seen: set<string> := {};
    var queue := [ROOT];
    if ROOT in types {
      StartOk(types);
      assert ordered + Waiting(queue, seen) == [ROOT];
    }
    while queue != []
      invariant ROOT !in types ==> ordered == [] && (queue == [] || queue == [ROOT])
      invariant ROOT in types ==> (forall t :: t in seen <==> t in ordered)
      invariant ROOT in types ==> FoundOk(types, ordered + Waiting(queue, seen))
      invariant ROOT in types ==> ClosedUpTo(types, ordered + Waiting(queue, seen), |ordered|)
      decreases types.Keys - seen, |queue|
    {
      var typeName := queue[0];
      ghost var found := ordered + Waiting(queue, seen);
      queue := queue[1..];
      if typeName !in seen {
        seen := seen + {typeName};
        assert ROOT in types ==> typeName == found[|ordered|];
        if typeName in types {
          ghost var k := |ordered|;
          ordered := ordered + [typeName];
          assert ordered + Waiting(queue, seen) == found;
          VisitOnFrontier(types, found, k);
          queue := EnqueueChildren(types, typeName, queue, seen, ordered);
          ClosedOneMore(types, found, ordered + Waiting(queue, seen), k);
        }
      }
    }
    if ROOT in types {
      assert ordered + Waiting(queue, seen) == ordered;
      FinishedList(types, ordered);
    }
  }

  lemma ClosedOneMore(types: Types, before: seq<string>, after: seq<string>, k: nat)
    requires ClosedUpTo(types, before, k) && before <= after && k < |before|
    requires forall t :: Edge(types, before[k], t) ==> t in after
    ensures ClosedUpTo(types, after, k + 1)
  {
    forall i, t | 0 <= i < k + 1 && i < |after| && Edge(types, after[i], t) ensures t in after {
      if i < k {
        assert t in before;
      }
    }
  }

  /** `d` is the number of edges on a shortest path from the root to `t`. */
  ghost predicate IsDistance(types: Types, t: string, d: nat) {
    (exists path :: IsPath(types, path) && path[|path| - 1] == t && |path| == d + 1) &&
    forall path :: IsPath(types, path) && path[|path| - 1] == t ==> |path| >= d + 1
  }

  /** The list is in non-decreasing order of shortest-path distance. */
  lemma DistancesAscend(types: Types, ordered: seq<string>, i: nat, j: nat, a: nat, b: nat)
    requires IsReachableList(types, ordered) && i <= j < |ordered|
    requires IsDistance(types, ordered[i], a) && IsDistance(types, ordered[j], b)
    ensures a <= b
  {
    var path :| IsPath(types, path) && path[|path| - 1] == ordered[j] && |path| == b + 1;
    PathEndsInBall(types, path);
    var shorter := BallHasPath(types, b, ordered[i]);
  }
}
