/**
  Rendered prefixes for the attribute namespaces of an element (canonical XML): each
  namespace takes the first prefix that is free, in an order that does not depend on
  the order of the attributes.
 */
module NamespacePrefixes {
  import opened Digits
  import opened Text
  import opened Wrappers

  const XML: string := "http://www.w3.org/XML/1998/namespace"
  const OASIS: string := "urn:oasis:"
  const UN: string := "urn:un:"
  const UBL: string := OASIS + "names:specification:ubl:schema:xsd:"
  const CII: string := UN + "unece:uncefact:data:standard:"
  const UBL_CAC: string := UBL + "CommonAggregateComponents-2"
  const UBL_CBC: string := UBL + "CommonBasicComponents-2"
  const UBL_EXT: string := UBL + "CommonExtensionComponents-2"
  const UBL_QDT: string := UBL + "QualifiedDataTypes-2"
  const UBL_UDT: string := UBL + "UnqualifiedDataTypes-2"
  const CII_RSM: string := CII + "CrossIndustryInvoice:100"
  const CII_RAM: string := CII + "ReusableAggregateBusinessInformationEntity:100"
  const CII_UDT: string := CII + "UnqualifiedDataType:100"
  const XMLDSIG: string := "http://www.w3.org/2000/09/xmldsig#"
  const XADES: string := "http://uri.etsi.org/01903/v1.3.2#"

  /** The prefixes the invoice overlay gives; two namespaces share `udt`. */
  function Overlay(uri: string): Option<string> {
    if uri == XML then Some("xml")
    else if uri == UBL_UDT || uri == CII_UDT then Some("udt")
    else if uri == UBL_CAC then Some("cac")
    else if uri == UBL_CBC then Some("cbc")
    else if uri == UBL_EXT then Some("ext")
    else if uri == UBL_QDT then Some("qdt")
    else if uri == CII_RSM then Some("rsm")
    else if uri == CII_RAM then Some("ram")
    else if uri == XMLDSIG then Some("ds")
    else if uri == XADES then Some("xades")
    else None
  }

  /** `preferred_invoice_prefix`, for an attribute. */
  function Preferred(uri: string, sourcePrefix: string): string {
    match Overlay(uri)
    case Some(prefix) => prefix
    case None => sourcePrefix
  }

  /** An attribute's prefix and the namespace it resolves to; none without a prefix. */
  datatype Attribute = Attribute(prefix: string, namespace: Option<string>)

  /** What resolving guarantees: only prefixed attributes have a namespace, and `xml` is bound once and for all. */
  ghost predicate Resolved(attributes: seq<Attribute>) {
    forall a :: a in attributes && a.namespace.Some? ==>
      a.prefix != "" && (a.prefix == "xml" ==> a.namespace.value == XML)
  }

  /** A namespace of the attributes, written with this prefix. */
  ghost predicate Uses(attributes: seq<Attribute>, uri: string, prefix: string) {
    Attribute(prefix, Some(uri)) in attributes
  }

  // -------------------------------------------------------- preferred prefixes

  /** The source prefixes of every namespace. */
  ghost predicate AreSources(attributes: seq<Attribute>, sources: map<string, set<string>>) {
    (forall u :: u in sources ==> sources[u] != {}) &&
    (forall u, p :: u in sources && p in sources[u] ==> Uses(attributes, u, p)) &&
    (forall u, p :: Uses(attributes, u, p) ==> u in sources && p in sources[u])
  }

  method CollectSources(attributes: seq<Attribute>) returns (sources: map<string, set<string>>)
    ensures AreSources(attributes, sources)
  {
    sources := map[];
    for i := 0 to |attributes|
      invariant AreSources(attributes[..i], sources)
    {
      var a := attributes[i];
      OneMoreAttribute(attributes, i);
      if a.namespace.Some? {
        var uri := a.namespace.value;
        sources := sources[uri := (if uri in sources then sources[uri] else {}) + {a.prefix}];
      }
    }
    assert attributes[..|attributes|] == attributes;
  }

  lemma OneMoreAttribute(attributes: seq<Attribute>, i: nat)
    requires i < |attributes|
    ensures forall u, p :: Uses(attributes[..i + 1], u, p) <==>
      Uses(attributes[..i], u, p) || attributes[i] == Attribute(p, Some(u))
  {
    assert attributes[..i + 1] == attributes[..i] + [attributes[i]];
  }

  function PreferredOf(sources: map<string, set<string>>): (preferred: map<string, string>)
    requires forall u :: u in sources ==> sources[u] != {}
    ensures preferred.Keys == sources.Keys
  {
    map u | u in sources :: Preferred(u, Least(sources[u]))
  }

  /** The preferred prefix of every attribute namespace. */
  ghost predicate ArePreferred(attributes: seq<Attribute>, preferred: map<string, string>) {
    exists sources :: AreSources(attributes, sources) && preferred == PreferredOf(sources)
  }

  lemma SourcesUnique(attributes: seq<Attribute>, others: seq<Attribute>, a: map<string, set<string>>, b: map<string,
                      set<string>>)
    requires AreSources(attributes, a) && AreSources(others, b)
    requires forall u, p :: Uses(attributes, u, p) <==> Uses(others, u, p)
    ensures a == b
  {
    forall u | u in a ensures u in b && a[u] == b[u] {
      var p :| p in a[u];
      assert Uses(others, u, p);
      forall q ensures q in a[u] <==> q in b[u] {
        assert q in a[u] ==> Uses(others, u, q);
        assert q in b[u] ==> Uses(attributes, u, q);
      }
    }
    forall u | u in b ensures u in a {
      var p :| p in b[u];
      assert Uses(attributes, u, p);
    }
  }

  // --------------------------------------------------------------------- order

  ghost predicate LexLess(a: string, b: string) {
    LexLe(a, b) && a != b
  }

  /** The order of the pairs (preferred prefix, namespace). */
  ghost predicate Earlier(preferred: map<string, string>, u: string, v: string)
    requires u in preferred && v in preferred
  {
    LexLess(preferred[u], preferred[v]) || (preferred[u] == preferred[v] && LexLess(u, v))
  }

  lemma EarlierIsOrder(preferred: map<string, string>, u: string, v: string, w: string)
    requires u in preferred && v in preferred && w in preferred
    ensures u != v ==> Earlier(preferred, u, v) || Earlier(preferred, v, u)
    ensures !(Earlier(preferred, u, v) && Earlier(preferred, v, u))
    ensures Earlier(preferred, u, v) && Earlier(preferred, v, w) ==> Earlier(preferred, u, w)
  {
    hide LexLe;
    LexIsOrder(preferred[u], preferred[v], preferred[w]);
    LexIsOrder(u, v, w);
  }

  lemma LexIsOrder(a: string, b: string, c: string)
    ensures LexLe(a, b) || LexLe(b, a)
    ensures LexLe(a, b) && LexLe(b, a) ==> a == b
    ensures LexLe(a, b) && LexLe(b, c) ==> LexLe(a, c)
  {
    LexTotal(a, b);
    if LexLe(a, b) && LexLe(b, a) {
      LexAntisymmetric(a, b);
    }
    if LexLe(a, b) && LexLe(b, c) {
      LexTransitive(a, b, c);
    }
  }

  /** `pairs` stands in order: no namespace twice, each earlier than those behind it. */
  ghost predicate InOrder(preferred: map<string, string>, uris: seq<string>) {
    (forall i :: 0 <= i < |uris| ==> uris[i] in preferred) &&
    forall i, j :: 0 <= i < j < |uris| ==> Earlier(preferred, uris[i], uris[j])
  }

  /** `entries.sort()`, one entry at a time. */
  method SortEntries(preferred: map<string, string>) returns (uris: seq<string>)
    ensures InOrder(preferred, uris) && forall u :: u in uris <==> u in preferred
  {
    hide Earlier, Sorted;
    var all := Sorted(preferred.Keys);
    uris := [];
    for i := 0 to |all|
      invariant InOrder(preferred, uris)
      invariant forall u :: u in uris <==> u in all[..i]
    {
      assert all[i] in all;
      SortedHasNoRepeats(preferred.Keys, i);
      assert all[..i + 1] == all[..i] + [all[i]];
      uris := InsertEntry(preferred, uris, all[i]);
    }
    assert all[..|all|] == all;
  }

  lemma SortedHasNoRepeats(keys: set<string>, i: nat)
    requires i < |Sorted(keys)|
    ensures Sorted(keys)[i] !in Sorted(keys)[..i]
  {
    SortedAscends(keys);
  }

  method InsertEntry(preferred: map<string, string>, uris: seq<string>, x: string) returns (r: seq<string>)
    requires InOrder(preferred, uris) && x in preferred && x !in uris
    ensures InOrder(preferred, r) && forall u :: u in r <==> u == x || u in uris
  {
    hide LexLe, LexLess;
    var at := 0;
    while at < |uris| && (preferred[uris[at]] != preferred[x] || LexLe(uris[at], x)) &&
      LexLe(preferred[uris[at]], preferred[x])
      invariant 0 <= at <= |uris|
      invariant forall i :: 0 <= i < at ==> Earlier(preferred, uris[i], x)
    {
      PassedIsEarlier(preferred, uris[at], x);
      at := at + 1;
    }
    r := uris[..at] + [x] + uris[at..];
    forall i | at <= i < |uris| ensures Earlier(preferred, x, uris[i]) {
      StoppedIsEarlier(preferred, uris[at], x);
      if at < i {
        EarlierIsOrder(preferred, x, uris[at], uris[i]);
      }
    }
    forall i, j | 0 <= i < j < |r| ensures Earlier(preferred, r[i], r[j]) {
      PlacesInOrder(preferred, uris, x, at, i, j);
    }
    assert forall u :: u in uris <==> u in uris[..at] || u in uris[at..] by {
      assert uris == uris[..at] + uris[at..];
    }
  }

  lemma PassedIsEarlier(preferred: map<string, string>, u: string, x: string)
    requires u in preferred && x in preferred && u != x
    requires (preferred[u] != preferred[x] || LexLe(u, x)) && LexLe(preferred[u], preferred[x])
    ensures Earlier(preferred, u, x)
  {
    hide LexLe;
  }

  lemma StoppedIsEarlier(preferred: map<string, string>, u: string, x: string)
    requires u in preferred && x in preferred && u != x
    requires !((preferred[u] != preferred[x] || LexLe(u, x)) && LexLe(preferred[u], preferred[x]))
    ensures Earlier(preferred, x, u)
  {
    hide LexLe;
    LexIsOrder(preferred[u], preferred[x], u);
    LexIsOrder(u, x, u);
  }

  lemma PlacesInOrder(preferred: map<string, string>, uris: seq<string>, x: string, at: nat, i: nat, j: nat)
    requires InOrder(preferred, uris) && x in preferred && at <= |uris| && i < j <= |uris|
    requires forall k :: 0 <= k < at ==> Earlier(preferred, uris[k], x)
    requires forall k :: at <= k < |uris| ==> Earlier(preferred, x, uris[k])
    ensures var r := uris[..at] + [x] + uris[at..];
      r[i] in preferred && r[j] in preferred && Earlier(preferred, r[i], r[j])
  {
    hide Earlier;
    var r := uris[..at] + [x] + uris[at..];
    assert r[i] == if i < at then uris[i] else if i == at then x else uris[i - 1];
    assert r[j] == if j < at then uris[j] else if j == at then x else uris[j - 1];
  }

  // ---------------------------------------------------------------- candidates

  /** `preferred`, `preferred2`, `preferred3`, ... */
  function Candidate(prefix: string, n: nat): string {
    if n == 0 then prefix else prefix + ToDigits(n + 1)
  }

  lemma CandidatesDiffer(prefix: string, m: nat, n: nat)
    ensures Candidate(prefix, m) == Candidate(prefix, n) <==> m == n
  {
    hide ToDigits;
    var a, b := Candidate(prefix, m), Candidate(prefix, n);
    if m > 0 && n > 0 {
      assert a[|prefix|..] == ToDigits(m + 1) && b[|prefix|..] == ToDigits(n + 1);
      FromToDigits(m + 1);
      FromToDigits(n + 1);
    } else {
      assert |a| == |prefix| <==> m == 0;
      assert |b| == |prefix| <==> n == 0;
    }
  }

  /** Only so many candidates can be taken. */
  lemma {:induction false} CandidatesFit(prefix: string, n: nat, taken: set<string>)
    requires forall m :: 0 <= m < n ==> Candidate(prefix, m) in taken
    ensures n <= |taken|
  {
    hide Candidate;
    if n > 0 {
      var c := Candidate(prefix, n - 1);
      forall m | 0 <= m < n - 1 ensures Candidate(prefix, m) in taken - {c} {
        CandidatesDiffer(prefix, m, n - 1);
      }
      CandidatesFit(prefix, n - 1, taken - {c});
    }
  }

  // --------------------------------------------------------------- assignments

  /** Prefixes that need no declaration. */
  predicate Exempt(uri: string, prefix: string) {
    prefix == "" || prefix == "xml" || uri == XML
  }

  /** The candidate belongs to another namespace, in scope or by the choice of an earlier one. */
  ghost predicate Blocked(preferred: map<string, string>, scope: map<string, string>, chosen: map<string, string>,
                          uri: string, candidate: string)
    requires uri in preferred
  {
    (candidate in scope && scope[candidate] != uri) ||
    exists w :: Holds(preferred, chosen, w, candidate) && Earlier(preferred, w, uri)
  }

  ghost predicate Holds(preferred: map<string, string>, chosen: map<string, string>, w: string, candidate: string) {
    w in preferred && w in chosen && !Exempt(w, preferred[w]) && chosen[w] == candidate
  }

  /** The candidate is the `n`-th and free, and all before it are not. */
  ghost predicate IsFirst(preferred: map<string, string>, scope: map<string, string>, chosen: map<string, string>,
                          uri: string, candidate: string, n: nat)
    requires uri in preferred
  {
    candidate == Candidate(preferred[uri], n) && !Blocked(preferred, scope, chosen, uri, candidate) &&
    forall m :: 0 <= m < n ==> Blocked(preferred, scope, chosen, uri, Candidate(preferred[uri], m))
  }

  ghost predicate IsSettled(preferred: map<string, string>, scope: map<string, string>, chosen: map<string, string>,
                            uri: string)
    requires uri in preferred && uri in chosen
  {
    if Exempt(uri, preferred[uri]) then chosen[uri] == preferred[uri]
    else exists n: nat :: IsFirst(preferred, scope, chosen, uri, chosen[uri], n)
  }

  /** Every namespace has the first of its candidates that is free when its turn comes. */
  ghost predicate IsAssignment(preferred: map<string, string>, scope: map<string, string>, chosen: map<string,
                               string>) {
    chosen.Keys == preferred.Keys && forall u :: u in preferred ==> IsSettled(preferred, scope, chosen, u)
  }

  /** Later choices do not matter to earlier ones. */
  lemma LaterChoiceIsIrrelevant(preferred: map<string, string>, scope: map<string, string>, chosen: map<string, string>,
                                u: string, x: string, c: string)
    requires u in preferred && u in chosen && x in preferred && x !in chosen && Earlier(preferred, u, x)
    requires IsSettled(preferred, scope, chosen, u)
    ensures IsSettled(preferred, scope, chosen[x := c], u)
  {
    hide Earlier, Candidate;
    EarlierIsOrder(preferred, u, x, u);
    var more := chosen[x := c];
    forall k ensures Blocked(preferred, scope, chosen, u, k) == Blocked(preferred, scope, more, u, k) {
      if w :| Holds(preferred, chosen, w, k) && Earlier(preferred, w, u) {
        assert Holds(preferred, more, w, k);
      }
      if w :| Holds(preferred, more, w, k) && Earlier(preferred, w, u) {
        assert Holds(preferred, chosen, w, k);
      }
    }
    if !Exempt(u, preferred[u]) {
      var n: nat :| IsFirst(preferred, scope, chosen, u, chosen[u], n);
      assert IsFirst(preferred, scope, more, u, more[u], n);
    }
  }

  /** `used` holds the prefixes the namespaces so far have taken. */
  ghost predicate IsUsed(preferred: map<string, string>, chosen: map<string, string>, used: map<string, string>) {
    (forall c :: c in used ==> Holds(preferred, chosen, used[c], c)) &&
    forall w :: w in preferred && w in chosen && !Exempt(w, preferred[w]) ==> chosen[w] in used && used[chosen[w]] == w
  }

  predicate Conflicts(scope: map<string, string>, used: map<string, string>, uri: string, candidate: string) {
    (candidate in used && used[candidate] != uri) || (candidate in scope && scope[candidate] != uri)
  }

  lemma ConflictsIsBlocked(preferred: map<string, string>, scope: map<string, string>, chosen: map<string, string>,
                           used: map<string, string>, uri: string, candidate: string)
    requires uri in preferred && uri !in chosen && IsUsed(preferred, chosen, used)
    requires forall w :: w in chosen ==> w in preferred && Earlier(preferred, w, uri)
    ensures Conflicts(scope, used, uri, candidate) <==> Blocked(preferred, scope, chosen, uri, candidate)
    ensures Conflicts(scope, used, uri, candidate) ==> candidate in used.Keys + scope.Keys
  {
    hide Earlier;
    if candidate in used {
      assert Holds(preferred, chosen, used[candidate], candidate);
    }
  }

  /** The `n`-th candidate's turn: those before it are blocked, so there are no more of them than prefixes taken. */
  ghost predicate IsTurn(preferred: map<string, string>, scope: map<string, string>, chosen: map<string, string>,
                         taken: set<string>, uri: string, n: nat)
    requires uri in preferred
  {
    n <= |taken| &&
    forall m :: 0 <= m < n ==>
      Candidate(preferred[uri], m) in taken && Blocked(preferred, scope, chosen, uri, Candidate(preferred[uri], m))
  }

  lemma NextTurn(preferred: map<string, string>, scope: map<string, string>, chosen: map<string, string>,
                 taken: set<string>, uri: string, n: nat)
    requires uri in preferred && IsTurn(preferred, scope, chosen, taken, uri, n)
    requires Candidate(preferred[uri], n) in taken &&
      Blocked(preferred, scope, chosen, uri, Candidate(preferred[uri], n))
    ensures IsTurn(preferred, scope, chosen, taken, uri, n + 1)
  {
    hide Blocked, Candidate;
    CandidatesFit(preferred[uri], n + 1, taken);
  }

  /** The first candidate without a conflict. */
  method FirstFree(preferred: map<string, string>, scope: map<string, string>, used: map<string, string>, uri: string,
                   ghost chosen: map<string, string>) returns (candidate: string)
    requires uri in preferred && uri !in chosen && IsUsed(preferred, chosen, used)
    requires forall w :: w in chosen ==> w in preferred && Earlier(preferred, w, uri)
    ensures exists n: nat :: IsFirst(preferred, scope, chosen, uri, candidate, n)
  {
    hide Earlier, Candidate, IsUsed, Blocked, Conflicts, ToDigits, IsTurn, IsFirst;
    var prefix := preferred[uri];
    candidate := prefix;
    FirstTurn(preferred, scope, chosen, used.Keys + scope.Keys, uri);
    var n := 0;
    while Conflicts(scope, used, uri, candidate)
      invariant candidate == Candidate(prefix, n)
      invariant n <= |used.Keys + scope.Keys| && IsTurn(preferred, scope, chosen, used.Keys + scope.Keys, uri, n)
      decreases |used.Keys + scope.Keys| - n
    {
      ConflictsIsBlocked(preferred, scope, chosen, used, uri, candidate);
      NextTurn(preferred, scope, chosen, used.Keys + scope.Keys, uri, n);
      TurnFits(preferred, scope, chosen, used.Keys + scope.Keys, uri, n + 1);
      n := n + 1;
      NextCandidate(prefix, n);
      candidate := prefix + ToDigits(n + 1);
    }
    ConflictsIsBlocked(preferred, scope, chosen, used, uri, candidate);
    TurnIsFirst(preferred, scope, chosen, used.Keys + scope.Keys, uri, n);
  }

  lemma FirstTurn(preferred: map<string, string>, scope: map<string, string>, chosen: map<string, string>,
                  taken: set<string>, uri: string)
    requires uri in preferred
    ensures IsTurn(preferred, scope, chosen, taken, uri, 0) && Candidate(preferred[uri], 0) == preferred[uri]
  {
  }

  lemma TurnFits(preferred: map<string, string>, scope: map<string, string>, chosen: map<string, string>,
                 taken: set<string>, uri: string, n: nat)
    requires uri in preferred && IsTurn(preferred, scope, chosen, taken, uri, n)
    ensures n <= |taken|
  {
  }

  lemma TurnIsFirst(preferred: map<string, string>, scope: map<string, string>, chosen: map<string, string>,
                    taken: set<string>, uri: string, n: nat)
    requires uri in preferred && IsTurn(preferred, scope, chosen, taken, uri, n)
    requires !Blocked(preferred, scope, chosen, uri, Candidate(preferred[uri], n))
    ensures IsFirst(preferred, scope, chosen, uri, Candidate(preferred[uri], n), n)
  {
    hide Blocked, Candidate;
  }

  lemma FirstCandidate(prefix: string)
    ensures Candidate(prefix, 0) == prefix
  {
  }

  lemma NextCandidate(prefix: string, n: nat)
    requires n > 0
    ensures Candidate(prefix, n) == prefix + ToDigits(n + 1)
  {
  }

  /** The namespace whose turn it is settles on its choice. */
  lemma ChoiceSettles(preferred: map<string, string>, scope: map<string, string>, chosen: map<string, string>,
                      uri: string, candidate: string, n: nat)
    requires uri in preferred && uri !in chosen && IsFirst(preferred, scope, chosen, uri, candidate, n)
    requires !Exempt(uri, preferred[uri])
    ensures IsSettled(preferred, scope, chosen[uri := candidate], uri)
  {
    hide Earlier, Candidate;
    var more := chosen[uri := candidate];
    EarlierIsOrder(preferred, uri, uri, uri);
    forall k ensures Blocked(preferred, scope, chosen, uri, k) == Blocked(preferred, scope, more, uri, k) {
      if w :| Holds(preferred, chosen, w, k) && Earlier(preferred, w, uri) {
        assert Holds(preferred, more, w, k);
      }
      if w :| Holds(preferred, more, w, k) && Earlier(preferred, w, uri) {
        assert Holds(preferred, chosen, w, k);
      }
    }
    assert IsFirst(preferred, scope, more, uri, more[uri], n);
  }

  /** The namespaces visited have their choice. */
  ghost predicate SettledUpTo(preferred: map<string, string>, scope: map<string, string>, chosen: map<string, string>,
                              uris: seq<string>, i: nat)
    requires i <= |uris|
  {
    (forall u :: u in chosen <==> u in uris[..i]) &&
    (forall u :: u in chosen ==> u in preferred && IsSettled(preferred, scope, chosen, u))
  }

  lemma OneMoreSettles(preferred: map<string, string>, scope: map<string, string>, chosen: map<string, string>,
                       uris: seq<string>, i: nat, c: string)
    requires InOrder(preferred, uris) && i < |uris| && SettledUpTo(preferred, scope, chosen, uris, i)
    requires uris[i] !in chosen && IsSettled(preferred, scope, chosen[uris[i] := c], uris[i])
    ensures SettledUpTo(preferred, scope, chosen[uris[i] := c], uris, i + 1)
  {
    hide IsSettled, Earlier;
    assert uris[..i + 1] == uris[..i] + [uris[i]];
    forall u | u in chosen ensures IsSettled(preferred, scope, chosen[uris[i] := c], u) {
      LaterChoiceIsIrrelevant(preferred, scope, chosen, u, uris[i], c);
    }
  }

  lemma TurnsComeInOrder(preferred: map<string, string>, uris: seq<string>, i: nat)
    requires InOrder(preferred, uris) && i < |uris|
    ensures uris[i] !in uris[..i] && forall w :: w in uris[..i] ==> w in preferred && Earlier(preferred, w, uris[i])
  {
    hide LexLe, LexLess;
    forall j | 0 <= j < i ensures uris[j] != uris[i] {
      EarlierIsOrder(preferred, uris[j], uris[i], uris[i]);
    }
  }

  /** `assign_attribute_prefixes`, given the namespaces' preferred prefixes. */
  method AssignPrefixes(preferred: map<string, string>, scope: map<string, string>)
      returns (chosen: map<string, string>)
    ensures IsAssignment(preferred, scope, chosen)
  {
    hide Earlier, IsSettled, IsUsed, IsFirst;
    NothingUsed(preferred);
    var uris := SortEntries(preferred);
    chosen := map[];
    var used: map<string, string> := map[];
    for i := 0 to |uris|
      invariant SettledUpTo(preferred, scope, chosen, uris, i)
      invariant IsUsed(preferred, chosen, used)
    {
      var uri := uris[i];
      TurnsComeInOrder(preferred, uris, i);
      if Exempt(uri, preferred[uri]) {
        ExemptSettles(preferred, scope, chosen, uri);
        OneMoreSettles(preferred, scope, chosen, uris, i, preferred[uri]);
        ExemptUsesNothing(preferred, chosen, used, uri);
        chosen := chosen[uri := preferred[uri]];
      } else {
        var candidate := FirstFree(preferred, scope, used, uri, chosen);
        ghost var n: nat :| IsFirst(preferred, scope, chosen, uri, candidate, n);
        ChoiceSettles(preferred, scope, chosen, uri, candidate, n);
        OneMoreSettles(preferred, scope, chosen, uris, i, candidate);
        CandidateIsNew(preferred, scope, chosen, used, uri, candidate, n);
        used := used[candidate := uri];
        chosen := chosen[uri := candidate];
      }
    }
    assert uris[..|uris|] == uris;
  }

  lemma NothingUsed(preferred: map<string, string>)
    ensures IsUsed(preferred, map[], map[])
  {
  }

  lemma ExemptUsesNothing(preferred: map<string, string>, chosen: map<string, string>, used: map<string, string>,
                          uri: string)
    requires uri in preferred && uri !in chosen && Exempt(uri, preferred[uri]) && IsUsed(preferred, chosen, used)
    ensures IsUsed(preferred, chosen[uri := preferred[uri]], used)
  {
  }

  lemma ExemptSettles(preferred: map<string, string>, scope: map<string, string>, chosen: map<string, string>,
                      uri: string)
    requires uri in preferred && Exempt(uri, preferred[uri])
    ensures IsSettled(preferred, scope, chosen[uri := preferred[uri]], uri)
  {
  }

  lemma CandidateIsNew(preferred: map<string, string>, scope: map<string, string>, chosen: map<string, string>,
                       used: map<string, string>, uri: string, candidate: string, n: nat)
    requires uri in preferred && uri !in chosen && IsUsed(preferred, chosen, used)
    requires forall w :: w in chosen ==> w in preferred && Earlier(preferred, w, uri)
    requires IsFirst(preferred, scope, chosen, uri, candidate, n) && !Exempt(uri, preferred[uri])
    ensures candidate !in used && IsUsed(preferred, chosen[uri := candidate], used[candidate := uri])
  {
    hide Earlier, Candidate;
    ConflictsIsBlocked(preferred, scope, chosen, used, uri, candidate);
    forall c | c in used ensures Holds(preferred, chosen[uri := candidate], used[c], c) {
      assert Holds(preferred, chosen, used[c], c);
    }
  }

  /** The whole of it, from the attributes. */
  method AssignAttributePrefixes(attributes: seq<Attribute>, scope: map<string, string>)
      returns (chosen: map<string, string>, ghost preferred: map<string, string>)
    ensures ArePreferred(attributes, preferred) && IsAssignment(preferred, scope, chosen)
  {
    var sources := CollectSources(attributes);
    preferred := PreferredOf(sources);
    chosen := AssignPrefixes(PreferredOf(sources), scope);
  }

  // -------------------------------------------------------------- main results

  lemma FirstFreeAgrees(preferred: map<string, string>, scope: map<string, string>, a: map<string, string>,
                        b: map<string, string>, u: string)
    requires u in preferred && u in a && u in b
    requires IsSettled(preferred, scope, a, u) && IsSettled(preferred, scope, b, u)
    requires forall c :: Blocked(preferred, scope, a, u, c) == Blocked(preferred, scope, b, u, c)
    ensures a[u] == b[u]
  {
    hide Blocked, Candidate;
    if !Exempt(u, preferred[u]) {
      var m: nat :| IsFirst(preferred, scope, a, u, a[u], m);
      var n: nat :| IsFirst(preferred, scope, b, u, b[u], n);
    }
  }

  lemma EarlierChoicesBlock(preferred: map<string, string>, scope: map<string, string>, a: map<string, string>,
                            b: map<string, string>, u: string)
    requires u in preferred && a.Keys == b.Keys == preferred.Keys
    requires forall w :: w in preferred && Earlier(preferred, w, u) ==> a[w] == b[w]
    ensures forall c :: Blocked(preferred, scope, a, u, c) == Blocked(preferred, scope, b, u, c)
  {
    hide Earlier;
    forall c ensures Blocked(preferred, scope, a, u, c) == Blocked(preferred, scope, b, u, c) {
      if w :| Holds(preferred, a, w, c) && Earlier(preferred, w, u) {
        assert Holds(preferred, b, w, c);
      }
      if w :| Holds(preferred, b, w, c) && Earlier(preferred, w, u) {
        assert Holds(preferred, a, w, c);
      }
    }
  }

  ghost predicate IsEarliest(preferred: map<string, string>, u: string, uris: set<string>)
    requires uris <= preferred.Keys
  {
    u in uris && forall w :: w in uris && w != u ==> Earlier(preferred, u, w)
  }

  /** Of finitely many namespaces one is earliest. */
  lemma {:induction false} EarliestExists(preferred: map<string, string>, uris: set<string>)
    requires uris != {} && uris <= preferred.Keys
    ensures exists u :: IsEarliest(preferred, u, uris)
  {
    hide Earlier;
    var any :| any in uris;
    var rest := uris - {any};
    if rest != {} {
      EarliestExists(preferred, rest);
      var u :| IsEarliest(preferred, u, rest);
      EarlierIsOrder(preferred, any, u, u);
      if Earlier(preferred, any, u) {
        forall w | w in uris && w != any ensures Earlier(preferred, any, w) {
          EarlierIsOrder(preferred, any, u, w);
        }
        assert IsEarliest(preferred, any, uris);
      } else {
        assert IsEarliest(preferred, u, uris);
      }
    } else {
      assert uris == {any};
      assert IsEarliest(preferred, any, uris);
    }
  }

  /** The preferred prefixes and the scope determine the assignment. */
  lemma AssignmentUnique(preferred: map<string, string>, scope: map<string, string>, a: map<string, string>,
                         b: map<string, string>)
    requires IsAssignment(preferred, scope, a) && IsAssignment(preferred, scope, b)
    ensures a == b
  {
    hide Earlier, IsSettled;
    var differ := set u | u in preferred && a[u] != b[u];
    if differ != {} {
      EarliestExists(preferred, differ);
      var u :| IsEarliest(preferred, u, differ);
      forall w | w in preferred && Earlier(preferred, w, u) ensures a[w] == b[w] {
        EarlierIsOrder(preferred, u, w, u);
      }
      EarlierChoicesBlock(preferred, scope, a, b, u);
      FirstFreeAgrees(preferred, scope, a, b, u);
    }
    assert forall u :: u in preferred ==> u in differ || a[u] == b[u];
  }

  /** The order of the attributes does not matter, nor how often a prefix is used. */
  lemma OrderIndependent(attributes: seq<Attribute>, others: seq<Attribute>, scope: map<string, string>,
                         p: map<string, string>, a: map<string, string>, q: map<string, string>, b: map<string, string>)
    requires forall x :: x in attributes <==> x in others
    requires ArePreferred(attributes, p) && IsAssignment(p, scope, a)
    requires ArePreferred(others, q) && IsAssignment(q, scope, b)
    ensures a == b
  {
    hide IsAssignment;
    var s :| AreSources(attributes, s) && p == PreferredOf(s);
    var t :| AreSources(others, t) && q == PreferredOf(t);
    SourcesUnique(attributes, others, s, t);
    AssignmentUnique(p, scope, a, b);
  }

  /** What resolved attributes prefer: only the XML namespace prefers `xml`, and none prefers nothing. */
  ghost predicate ProperlyPreferred(preferred: map<string, string>) {
    forall u :: u in preferred ==> preferred[u] != "" && (preferred[u] == "xml" <==> u == XML)
  }

  lemma ResolvedIsProper(attributes: seq<Attribute>, preferred: map<string, string>)
    requires Resolved(attributes) && ArePreferred(attributes, preferred)
    ensures ProperlyPreferred(preferred)
  {
    var sources :| AreSources(attributes, sources) && preferred == PreferredOf(sources);
    forall u | u in preferred ensures preferred[u] != "" && (preferred[u] == "xml" <==> u == XML) {
      var p := Least(sources[u]);
      assert p in sources[u] && Uses(attributes, u, p);
      OverlayFacts(u);
    }
  }

  /** Overlay prefixes do not end in a digit, and only the XML namespace has `xml`. */
  lemma OverlayFacts(uri: string)
    ensures var o := Overlay(uri);
      o.Some? ==> o.value != "" && !IsDigitChar(o.value[|o.value| - 1]) && (o.value == "xml" ==> uri == XML)
    ensures Overlay(XML) == Some("xml")
  {
  }

  lemma TakenIsFree(preferred: map<string, string>, scope: map<string, string>, chosen: map<string, string>, u: string)
    requires IsAssignment(preferred, scope, chosen) && u in preferred && !Exempt(u, preferred[u])
    ensures !Blocked(preferred, scope, chosen, u, chosen[u])
  {
    hide Blocked, Candidate;
    assert IsSettled(preferred, scope, chosen, u);
  }

  /** A namespace is never given a prefix that is bound to another one in scope. */
  lemma NeverRebinds(preferred: map<string, string>, scope: map<string, string>, chosen: map<string, string>, u: string)
    requires IsAssignment(preferred, scope, chosen) && u in preferred && !Exempt(u, preferred[u])
    ensures chosen[u] in scope ==> scope[chosen[u]] == u
  {
    TakenIsFree(preferred, scope, chosen, u);
  }

  lemma HoldersDiffer(preferred: map<string, string>, scope: map<string, string>, chosen: map<string, string>,
                      u: string, v: string)
    requires IsAssignment(preferred, scope, chosen) && u in preferred && v in preferred && u != v
    requires !Exempt(u, preferred[u]) && !Exempt(v, preferred[v])
    ensures chosen[u] != chosen[v]
  {
    hide Earlier, IsSettled;
    TakenIsFree(preferred, scope, chosen, u);
    TakenIsFree(preferred, scope, chosen, v);
    EarlierIsOrder(preferred, u, v, u);
    assert Holds(preferred, chosen, u, chosen[u]) && Holds(preferred, chosen, v, chosen[v]);
  }

  /** Different namespaces get different prefixes. */
  lemma DistinctPrefixes(preferred: map<string, string>, scope: map<string, string>, chosen: map<string, string>,
                         u: string, v: string)
    requires IsAssignment(preferred, scope, chosen) && ProperlyPreferred(preferred)
    requires "xml" in scope && scope["xml"] == XML
    requires u in preferred && v in preferred
    ensures chosen[u] == chosen[v] <==> u == v
  {
    hide IsSettled, Blocked;
    XmlStaysXml(preferred, scope, chosen, u);
    XmlStaysXml(preferred, scope, chosen, v);
    if u != v && u != XML && v != XML {
      HoldersDiffer(preferred, scope, chosen, u, v);
    }
  }

  lemma XmlStaysXml(preferred: map<string, string>, scope: map<string, string>, chosen: map<string, string>, u: string)
    requires IsAssignment(preferred, scope, chosen) && ProperlyPreferred(preferred) && u in preferred
    requires "xml" in scope && scope["xml"] == XML
    ensures chosen[u] == "xml" <==> u == XML
    ensures chosen[u] != ""
  {
    hide Blocked;
    assert IsSettled(preferred, scope, chosen, u);
    if u != XML {
      NeverRebinds(preferred, scope, chosen, u);
    }
  }

  // ---------------------------------------------------------------- a second pass

  /** What the namespaces prefer when the rendered text is read again: the overlay's prefix, or the one they got. */
  function Again(chosen: map<string, string>): map<string, string> {
    map u | u in chosen :: Preferred(u, chosen[u])
  }

  /** The attributes as they are rendered. */
  function Rendered(attributes: seq<Attribute>, chosen: map<string, string>): (r: seq<Attribute>)
    requires forall a :: a in attributes && a.namespace.Some? ==> a.namespace.value in chosen
    ensures |r| == |attributes|
  {
    seq(|attributes|, i requires 0 <= i < |attributes| =>
      if attributes[i].namespace.Some?
      then assert attributes[i] in attributes; Attribute(chosen[attributes[i].namespace.value], attributes[i].namespace)
      else attributes[i])
  }

  lemma RenderedUses(attributes: seq<Attribute>, chosen: map<string, string>, u: string, p: string)
    requires forall a :: a in attributes && a.namespace.Some? ==> a.namespace.value in chosen
    ensures Uses(Rendered(attributes, chosen), u, p) <==>
      u in chosen && p == chosen[u] && exists q :: Uses(attributes, u, q)
  {
    var r := Rendered(attributes, chosen);
    if Uses(r, u, p) {
      var i :| 0 <= i < |r| && r[i] == Attribute(p, Some(u));
      assert attributes[i] in attributes && Uses(attributes, u, attributes[i].prefix);
    }
    if u in chosen && p == chosen[u] && exists q :: Uses(attributes, u, q) {
      var q :| Uses(attributes, u, q);
      var i :| 0 <= i < |attributes| && attributes[i] == Attribute(q, Some(u));
      assert r[i] == Attribute(p, Some(u));
    }
  }

  /** Reading the rendered attributes, the namespaces prefer what `Again` says. */
  lemma RenderedPrefers(attributes: seq<Attribute>, preferred: map<string, string>, chosen: map<string, string>,
                        again: map<string, string>)
    requires ArePreferred(attributes, preferred) && chosen.Keys == preferred.Keys
    requires forall a :: a in attributes && a.namespace.Some? ==> a.namespace.value in chosen
    requires ArePreferred(Rendered(attributes, chosen), again)
    ensures again == Again(chosen)
  {
    hide Rendered, Preferred, Uses, PreferredOf, Again;
    var s :| AreSources(attributes, s) && preferred == PreferredOf(s);
    var r := Rendered(attributes, chosen);
    var t :| AreSources(r, t) && again == PreferredOf(t);
    forall u ensures (u in t <==> u in chosen) && (u in t ==> Least(t[u]) == chosen[u]) {
      OnePrefixLeft(attributes, chosen, s, t, u);
    }
    assert t.Keys == chosen.Keys;
    AgainIs(t, chosen);
  }

  lemma AgainIs(sources: map<string, set<string>>, chosen: map<string, string>)
    requires sources.Keys == chosen.Keys
    requires forall u :: u in sources ==> sources[u] != {} && Least(sources[u]) == chosen[u]
    ensures PreferredOf(sources) == Again(chosen)
  {
    hide Preferred;
  }

  /** Every namespace is rendered with one prefix. */
  lemma OnePrefixLeft(attributes: seq<Attribute>, chosen: map<string, string>, s: map<string, set<string>>,
                      t: map<string, set<string>>, u: string)
    requires AreSources(attributes, s) && chosen.Keys == s.Keys
    requires forall a :: a in attributes && a.namespace.Some? ==> a.namespace.value in chosen
    requires AreSources(Rendered(attributes, chosen), t)
    ensures u in t <==> u in chosen
    ensures u in t ==> Least(t[u]) == chosen[u]
  {
    hide Rendered;
    var r := Rendered(attributes, chosen);
    if u in chosen {
      var q :| q in s[u];
      assert Uses(attributes, u, q);
      RenderedUses(attributes, chosen, u, chosen[u]);
      assert Uses(r, u, chosen[u]);
    }
    if u in t {
      var p := Least(t[u]);
      assert Uses(r, u, p);
      RenderedUses(attributes, chosen, u, p);
    }
  }

  // ------------------------------------------------------- is it a fixed point?

  /** The first pass gave `w`, which the overlay does not know, a numbered prefix that it passed over for `v`. */
  ghost predicate Squats(preferred: map<string, string>, scope: map<string, string>, chosen: map<string, string>,
                         w: string, v: string, m: nat)
    requires chosen.Keys == preferred.Keys
  {
    w in preferred && v in preferred && !Exempt(w, preferred[w]) && !Exempt(v, preferred[v]) &&
    Overlay(w).None? && Overlay(v).Some? && m > 0 &&
    chosen[w] == Candidate(preferred[v], m) && chosen[w] !in scope &&
    exists n: nat :: m < n && chosen[v] == Candidate(preferred[v], n)
  }

  ghost predicate NoneSquats(preferred: map<string, string>, scope: map<string, string>, chosen: map<string, string>)
    requires chosen.Keys == preferred.Keys
  {
    forall w, v, m: nat :: !Squats(preferred, scope, chosen, w, v, m)
  }

  /** What holds of the preferred prefixes of attributes: the overlay's where it has one. */
  ghost predicate FollowsOverlay(preferred: map<string, string>) {
    forall u :: u in preferred && Overlay(u).Some? ==> preferred[u] == Overlay(u).value
  }

  lemma ExemptAgain(preferred: map<string, string>, scope: map<string, string>, chosen: map<string, string>, u: string)
    requires IsAssignment(preferred, scope, chosen) && ProperlyPreferred(preferred) && FollowsOverlay(preferred)
    requires "xml" in scope && scope["xml"] == XML && u in preferred
    ensures Exempt(u, preferred[u]) <==> u == XML
    ensures Exempt(u, Again(chosen)[u]) <==> u == XML
    ensures u == XML ==> chosen[u] == "xml" && Again(chosen)[u] == "xml"
  {
    hide IsSettled, Blocked;
    XmlStaysXml(preferred, scope, chosen, u);
    OverlayFacts(u);
  }

  /** Again, a namespace the overlay does not know takes the prefix it has. */
  lemma ForeignStays(preferred: map<string, string>, scope: map<string, string>, chosen: map<string, string>, u: string)
    requires IsAssignment(preferred, scope, chosen) && ProperlyPreferred(preferred) && FollowsOverlay(preferred)
    requires "xml" in scope && scope["xml"] == XML && u in preferred && Overlay(u).None?
    ensures IsSettled(Again(chosen), scope, chosen, u)
  {
    hide Earlier;
    var again := Again(chosen);
    OverlayFacts(u);
    ExemptAgain(preferred, scope, chosen, u);
    TakenIsFree(preferred, scope, chosen, u);
    assert !Blocked(again, scope, chosen, u, chosen[u]) by {
      forall w | Holds(again, chosen, w, chosen[u]) && w != u ensures false {
        ExemptAgain(preferred, scope, chosen, w);
        HoldersDiffer(preferred, scope, chosen, u, w);
      }
      EarlierIsOrder(again, u, u, u);
    }
    FirstCandidate(again[u]);
    assert IsFirst(again, scope, chosen, u, chosen[u], 0);
  }

  /** A numbered candidate sorts behind the bare prefix. */
  lemma NumberedIsLater(prefix: string, m: nat)
    requires m > 0
    ensures LexLess(prefix, Candidate(prefix, m)) && !LexLess(Candidate(prefix, m), prefix)
  {
    var digits := ToDigits(m + 1);
    LexPrefix(prefix, digits);
    LexIsOrder(prefix, Candidate(prefix, m), prefix);
    assert |Candidate(prefix, m)| > |prefix|;
  }

  lemma {:induction false} LexPrefix(a: string, b: string)
    ensures LexLe(a, a + b)
  {
    if a != "" {
      assert (a + b)[1..] == a[1..] + b;
      LexPrefix(a[1..], b);
    }
  }

  lemma EndsInDigit(prefix: string, m: nat)
    requires m > 0
    ensures var c := Candidate(prefix, m);
      c != "" && IsDigitChar(c[|c| - 1])
  {
    var digits := ToDigits(m + 1);
    assert Candidate(prefix, m)[|prefix| + |digits| - 1] == digits[|digits| - 1];
  }

  /** A foreign namespace that was given an overlay namespace's bare prefix ahead of it preferred just that prefix. */
  lemma BareHolderPrefersIt(preferred: map<string, string>, scope: map<string, string>, chosen: map<string, string>,
                            w: string, v: string)
    requires IsAssignment(preferred, scope, chosen) && FollowsOverlay(preferred)
    requires w in preferred && v in preferred && Overlay(v).Some? && !Exempt(w, preferred[w])
    requires chosen[w] == preferred[v]
    ensures preferred[w] == preferred[v]
  {
    hide Candidate, Blocked, Overlay;
    assert IsSettled(preferred, scope, chosen, w);
    var k: nat :| IsFirst(preferred, scope, chosen, w, chosen[w], k);
    OverlayFacts(v);
    if k > 0 {
      EndsInDigit(preferred[w], k);
    } else {
      FirstCandidate(preferred[w]);
    }
  }

  /** Where an overlay namespace's candidate was blocked, it is blocked again, unless a squatter holds it. */
  lemma BlockedAgain(preferred: map<string, string>, scope: map<string, string>, chosen: map<string, string>,
                     v: string, m: nat, n: nat)
    requires IsAssignment(preferred, scope, chosen) && ProperlyPreferred(preferred) && FollowsOverlay(preferred)
    requires "xml" in scope && scope["xml"] == XML
    requires v in preferred && v != XML && Overlay(v).Some?
    requires m < n && chosen[v] == Candidate(preferred[v], n)
    requires Blocked(preferred, scope, chosen, v, Candidate(preferred[v], m))
    ensures Blocked(Again(chosen), scope, chosen, v, Candidate(preferred[v], m)) <==>
      !(exists w :: Squats(preferred, scope, chosen, w, v, m))
  {
    hide Earlier, Candidate, LexLe, IsSettled, Overlay;
    var again, c := Again(chosen), Candidate(preferred[v], m);
    ExemptAgain(preferred, scope, chosen, v);
    if c in scope && scope[c] != v {
      assert !(exists w :: Squats(preferred, scope, chosen, w, v, m));
    } else {
      var w :| Holds(preferred, chosen, w, c) && Earlier(preferred, w, v);
      ExemptAgain(preferred, scope, chosen, w);
      assert Holds(again, chosen, w, c);
      OnlyHolder(preferred, scope, chosen, w, c);
      EarlierIsOrder(preferred, w, v, w);
      assert forall x :: Squats(preferred, scope, chosen, x, v, m) ==> Holds(preferred, chosen, x, c);
      HolderOutOfScope(preferred, scope, chosen, w, v, c);
      if Overlay(w).Some? {
        SameKeys(preferred, chosen, w, v);
      } else if m == 0 {
        FirstCandidate(preferred[v]);
        BareHolderPrefersIt(preferred, scope, chosen, w, v);
        SameKeys(preferred, chosen, w, v);
      } else {
        NumberedComesLater(preferred, chosen, w, v, m);
        assert Squats(preferred, scope, chosen, w, v, m);
      }
    }
  }

  /** Nobody else holds it, in either pass. */
  lemma OnlyHolder(preferred: map<string, string>, scope: map<string, string>, chosen: map<string, string>,
                   w: string, c: string)
    requires IsAssignment(preferred, scope, chosen) && ProperlyPreferred(preferred) && FollowsOverlay(preferred)
    requires "xml" in scope && scope["xml"] == XML && Holds(preferred, chosen, w, c)
    ensures forall x :: Holds(Again(chosen), chosen, x, c) || Holds(preferred, chosen, x, c) ==> x == w
  {
    hide IsAssignment, Again;
    forall x | Holds(Again(chosen), chosen, x, c) || Holds(preferred, chosen, x, c) ensures x == w {
      AgainKeys(preferred, scope, chosen);
      DistinctPrefixes(preferred, scope, chosen, x, w);
    }
  }

  lemma AgainKeys(preferred: map<string, string>, scope: map<string, string>, chosen: map<string, string>)
    requires IsAssignment(preferred, scope, chosen)
    ensures Again(chosen).Keys == chosen.Keys == preferred.Keys
  {
  }

  lemma HolderOutOfScope(preferred: map<string, string>, scope: map<string, string>, chosen: map<string, string>,
                         w: string, v: string, c: string)
    requires IsAssignment(preferred, scope, chosen) && Holds(preferred, chosen, w, c) && v != w
    requires v in preferred && (c in scope ==> scope[c] == v)
    ensures c !in scope
  {
    hide IsAssignment;
    NeverRebindsHolder(preferred, scope, chosen, w, c);
  }

  lemma NeverRebindsHolder(preferred: map<string, string>, scope: map<string, string>, chosen: map<string, string>,
                           w: string, c: string)
    requires IsAssignment(preferred, scope, chosen) && Holds(preferred, chosen, w, c)
    ensures c in scope ==> scope[c] == w
  {
    NeverRebinds(preferred, scope, chosen, w);
  }

  /** Two namespaces whose sort keys the second pass keeps stay in their order. */
  lemma SameKeys(preferred: map<string, string>, chosen: map<string, string>, w: string, v: string)
    requires chosen.Keys == preferred.Keys && FollowsOverlay(preferred) && w in preferred && v in preferred
    requires Overlay(v).Some? && (Overlay(w).Some? || chosen[w] == preferred[w])
    ensures Earlier(Again(chosen), w, v) == Earlier(preferred, w, v)
  {
    hide Overlay, LexLess;
  }

  lemma NumberedComesLater(preferred: map<string, string>, chosen: map<string, string>, w: string, v: string, m: nat)
    requires chosen.Keys == preferred.Keys && FollowsOverlay(preferred) && w in preferred && v in preferred
    requires Overlay(v).Some? && Overlay(w).None? && m > 0 && chosen[w] == Candidate(preferred[v], m)
    ensures !Earlier(Again(chosen), w, v)
  {
    hide Overlay, Candidate, LexLess;
    NumberedIsLater(preferred[v], m);
    LessIsNotEqual(preferred[v], chosen[w]);
  }

  lemma LessIsNotEqual(a: string, b: string)
    requires LexLess(a, b)
    ensures a != b
  {
  }

  /**
    The assignment is a fixed point of rendering and reading again exactly when no
    namespace that the overlay does not know holds a numbered prefix that was passed
    over for one that the overlay does know.
   */
  lemma FixedPointIff(preferred: map<string, string>, scope: map<string, string>, chosen: map<string, string>,
                      second: map<string, string>)
    requires IsAssignment(preferred, scope, chosen) && ProperlyPreferred(preferred) && FollowsOverlay(preferred)
    requires "xml" in scope && scope["xml"] == XML
    requires IsAssignment(Again(chosen), scope, second)
    ensures second == chosen <==> NoneSquats(preferred, scope, chosen)
  {
    hide IsSettled, Squats, Again;
    var again := Again(chosen);
    AgainKeys(preferred, scope, chosen);
    if NoneSquats(preferred, scope, chosen) {
      forall u | u in again ensures IsSettled(again, scope, chosen, u) {
        StaysUnlessSquatted(preferred, scope, chosen, u);
      }
      AssignmentUnique(again, scope, second, chosen);
    } else {
      var w, v, m: nat :| Squats(preferred, scope, chosen, w, v, m);
      SquattedMoves(preferred, scope, chosen, w, v, m);
    }
  }

  lemma StaysUnlessSquatted(preferred: map<string, string>, scope: map<string, string>, chosen: map<string, string>,
                            u: string)
    requires IsAssignment(preferred, scope, chosen) && ProperlyPreferred(preferred) && FollowsOverlay(preferred)
    requires "xml" in scope && scope["xml"] == XML && u in preferred && NoneSquats(preferred, scope, chosen)
    ensures u in Again(chosen) && IsSettled(Again(chosen), scope, chosen, u)
  {
    hide Blocked, Squats, Candidate;
    var again := Again(chosen);
    ExemptAgain(preferred, scope, chosen, u);
    assert IsSettled(preferred, scope, chosen, u);
    if Overlay(u).None? {
      ForeignStays(preferred, scope, chosen, u);
    } else if u != XML {
      var n: nat :| IsFirst(preferred, scope, chosen, u, chosen[u], n);
      assert again[u] == preferred[u];
      forall m | 0 <= m < n ensures Blocked(again, scope, chosen, u, Candidate(again[u], m)) {
        BlockedAgain(preferred, scope, chosen, u, m, n);
      }
      OwnIsFree(preferred, scope, chosen, u);
      assert IsFirst(again, scope, chosen, u, chosen[u], n);
    }
  }

  /** In neither pass is a namespace's own prefix blocked. */
  lemma OwnIsFree(preferred: map<string, string>, scope: map<string, string>, chosen: map<string, string>, u: string)
    requires IsAssignment(preferred, scope, chosen) && ProperlyPreferred(preferred) && FollowsOverlay(preferred)
    requires "xml" in scope && scope["xml"] == XML && u in preferred && u != XML
    ensures u in Again(chosen) && !Blocked(Again(chosen), scope, chosen, u, chosen[u])
  {
    hide IsSettled, Earlier, Again;
    AgainKeys(preferred, scope, chosen);
    ExemptAgain(preferred, scope, chosen, u);
    NeverRebinds(preferred, scope, chosen, u);
    OnlyHolder(preferred, scope, chosen, u, chosen[u]);
    EarlierIsOrder(Again(chosen), u, u, u);
  }

  lemma SquattedMoves(preferred: map<string, string>, scope: map<string, string>, chosen: map<string, string>,
                      w: string, v: string, m: nat)
    requires IsAssignment(preferred, scope, chosen) && ProperlyPreferred(preferred) && FollowsOverlay(preferred)
    requires "xml" in scope && scope["xml"] == XML && Squats(preferred, scope, chosen, w, v, m)
    ensures !IsAssignment(Again(chosen), scope, chosen)
  {
    hide Blocked, Candidate, Overlay;
    var again := Again(chosen);
    ExemptAgain(preferred, scope, chosen, v);
    assert IsSettled(preferred, scope, chosen, v);
    var n: nat :| IsFirst(preferred, scope, chosen, v, chosen[v], n);
    var n': nat :| m < n' && chosen[v] == Candidate(preferred[v], n');
    CandidatesDiffer(preferred[v], n, n');
    BlockedAgain(preferred, scope, chosen, v, m, n);
    assert again[v] == preferred[v];
    forall k: nat ensures !IsFirst(again, scope, chosen, v, chosen[v], k) {
      CandidatesDiffer(preferred[v], n, k);
    }
    assert !IsSettled(again, scope, chosen, v);
  }

  lemma PreferredFollowsOverlay(attributes: seq<Attribute>, preferred: map<string, string>)
    requires ArePreferred(attributes, preferred)
    ensures FollowsOverlay(preferred)
    ensures forall a :: a in attributes && a.namespace.Some? ==> a.namespace.value in preferred
  {
    hide Overlay;
    var sources :| AreSources(attributes, sources) && preferred == PreferredOf(sources);
    forall a | a in attributes && a.namespace.Some? ensures a.namespace.value in preferred {
      assert Uses(attributes, a.namespace.value, a.prefix);
    }
  }

  /** The same of the attributes: assigning again to what was rendered. */
  lemma RenderingIsStableIff(attributes: seq<Attribute>, scope: map<string, string>, preferred: map<string, string>,
                             chosen: map<string, string>, again: map<string, string>, second: map<string, string>)
    requires Resolved(attributes) && "xml" in scope && scope["xml"] == XML
    requires ArePreferred(attributes, preferred) && IsAssignment(preferred, scope, chosen)
    requires (forall a :: a in attributes && a.namespace.Some? ==> a.namespace.value in chosen) &&
      ArePreferred(Rendered(attributes, chosen), again)
    requires IsAssignment(again, scope, second)
    ensures second == chosen <==> NoneSquats(preferred, scope, chosen)
  {
    hide IsSettled, NoneSquats, Resolved, ArePreferred, Rendered, ProperlyPreferred, FollowsOverlay;
    ResolvedIsProper(attributes, preferred);
    PreferredFollowsOverlay(attributes, preferred);
    RenderedPrefers(attributes, preferred, chosen, again);
    FixedPointIff(preferred, scope, chosen, second);
  }

  lemma DigitBehind(p: string, q: string, k: nat)
    requires |p| < |q| && q <= Candidate(p, k)
    ensures IsDigitChar(q[|q| - 1])
  {
    assert ToDigits(k + 1)[|q| - 1 - |p|] == Candidate(p, k)[|q| - 1];
  }

  lemma CandidateTells(p: string, k: nat, q: string, m: nat)
    requires m > 0 && q != "" && !IsDigitChar(q[|q| - 1]) && LexLe(p, q)
    requires Candidate(p, k) == Candidate(q, m)
    ensures p == q
  {
    var c := Candidate(p, k);
    assert q == c[..|q|];
    if |p| < |q| {
      DigitBehind(p, q, k);
    } else {
      var rest := p[|q|..];
      assert p == c[..|p|];
      assert p == q + rest;
      LexPrefix(q, rest);
      LexAntisymmetric(p, q);
    }
  }

  /** A squatter preferred the overlay's prefix itself. */
  lemma SquatterPrefersOverlay(preferred: map<string, string>, scope: map<string, string>, chosen: map<string, string>,
                               w: string, v: string, m: nat)
    requires IsAssignment(preferred, scope, chosen) && ProperlyPreferred(preferred) && FollowsOverlay(preferred)
    requires "xml" in scope && scope["xml"] == XML && Squats(preferred, scope, chosen, w, v, m)
    ensures preferred[w] == preferred[v]
  {
    hide Candidate, Overlay, LexLe;
    assert IsSettled(preferred, scope, chosen, v) && IsSettled(preferred, scope, chosen, w);
    var n: nat :| IsFirst(preferred, scope, chosen, v, chosen[v], n);
    var n': nat :| m < n' && chosen[v] == Candidate(preferred[v], n');
    CandidatesDiffer(preferred[v], n, n');
    var k: nat :| IsFirst(preferred, scope, chosen, w, chosen[w], k);
    var x :| Holds(preferred, chosen, x, chosen[w]) && Earlier(preferred, x, v);
    OnlyHolder(preferred, scope, chosen, x, chosen[w]);
    assert Holds(preferred, chosen, w, chosen[w]);
    OverlayFacts(v);
    LexIsOrder(preferred[w], preferred[v], preferred[w]);
    CandidateTells(preferred[w], k, preferred[v], m);
  }

  /** So nothing moves when no foreign namespace is written with a prefix that the overlay gives another one. */
  lemma StableWithoutForeignClaims(preferred: map<string, string>, scope: map<string, string>,
                                   chosen: map<string, string>, second: map<string, string>)
    requires IsAssignment(preferred, scope, chosen) && ProperlyPreferred(preferred) && FollowsOverlay(preferred)
    requires "xml" in scope && scope["xml"] == XML
    requires IsAssignment(Again(chosen), scope, second)
    requires forall w, v :: w in preferred && v in preferred && Overlay(w).None? && Overlay(v).Some? ==>
      preferred[w] != preferred[v]
    ensures second == chosen
  {
    hide Candidate, IsSettled, Overlay;
    forall w, v, m: nat ensures !Squats(preferred, scope, chosen, w, v, m) {
      if Squats(preferred, scope, chosen, w, v, m) {
        SquatterPrefersOverlay(preferred, scope, chosen, w, v, m);
      }
    }
    FixedPointIff(preferred, scope, chosen, second);
  }

  // ---------------------------------------------------------- a failing element

  /** Three namespaces that prefer `udt`, and what they get. */
  function ThreePreferences(u: string, w: string, v: string): map<string, string> {
    map[u := "udt", w := "udt", v := "udt"]
  }

  function ThreeChoices(u: string, w: string, v: string): map<string, string> {
    map[u := Candidate("udt", 0), w := Candidate("udt", 1), v := Candidate("udt", 2)]
  }

  /** The numbered prefixes start with 2. */
  lemma CandidateTexts(prefix: string)
    ensures Candidate(prefix, 0) == prefix && Candidate(prefix, 1) == prefix + "2" &&
      Candidate(prefix, 2) == prefix + "3"
    ensures forall n :: n > 0 ==> Candidate(prefix, n) == prefix + ToDigits(n + 1)
  {
    assert ToDigits(2) == "2" && ToDigits(3) == "3";
  }

  lemma ThreeInOrder(u: string, w: string, v: string)
    requires LexLess(u, w) && LexLess(w, v)
    ensures var p := ThreePreferences(u, w, v);
      u != w && w != v && u != v && Earlier(p, u, w) && Earlier(p, w, v) && Earlier(p, u, v) &&
      !Earlier(p, w, u) && !Earlier(p, v, u) && !Earlier(p, v, w) &&
      !Earlier(p, u, u) && !Earlier(p, w, w) && !Earlier(p, v, v)
  {
    hide LexLe;
    LexIsOrder(u, w, v);
    LexIsOrder(w, v, u);
    LexIsOrder(u, v, u);
  }

  lemma ThreeAssigned(u: string, w: string, v: string)
    requires LexLess(u, w) && LexLess(w, v) && u != XML && w != XML && v != XML
    ensures IsAssignment(ThreePreferences(u, w, v), map["xml" := XML], ThreeChoices(u, w, v))
  {
    hide LexLess, Candidate, Earlier;
    var p, scope, chosen := ThreePreferences(u, w, v), map["xml" := XML], ThreeChoices(u, w, v);
    ThreeInOrder(u, w, v);
    CandidatesDiffer("udt", 0, 1);
    CandidatesDiffer("udt", 0, 2);
    CandidatesDiffer("udt", 1, 2);
    CandidatesAreNotXml();
    assert Holds(p, chosen, u, Candidate("udt", 0)) && Holds(p, chosen, w, Candidate("udt", 1));
    assert IsFirst(p, scope, chosen, u, chosen[u], 0);
    assert IsFirst(p, scope, chosen, w, chosen[w], 1);
    assert IsFirst(p, scope, chosen, v, chosen[v], 2);
  }

  lemma CandidatesAreNotXml()
    ensures Candidate("udt", 0) != "xml" && Candidate("udt", 1) != "xml" && Candidate("udt", 2) != "xml"
  {
    assert Candidate("udt", 0)[0] == 'u' && Candidate("udt", 1)[0] == 'u' && Candidate("udt", 2)[0] == 'u';
  }

  lemma ThreeSquat(u: string, w: string, v: string)
    requires LexLess(u, w) && LexLess(w, v) && u != XML && w != XML && v != XML
    requires Overlay(w).None? && Overlay(v).Some?
    ensures Squats(ThreePreferences(u, w, v), map["xml" := XML], ThreeChoices(u, w, v), w, v, 1)
  {
    hide LexLess, Candidate, Overlay, Earlier;
    ThreeInOrder(u, w, v);
    CandidatesAreNotXml();
  }

  lemma LexAt(a: string, b: string, n: nat)
    requires n < |a| && n < |b| && a[..n] == b[..n] && a[n] < b[n]
    ensures LexLess(a, b)
  {
    assert a == a[..n] + a[n..] && b == b[..n] + b[n..];
    LexConcat(a[..n], b[..n], a[n..], b[n..]);
  }

  /** `urn:p` stands between the two namespaces that share `udt`. */
  lemma NamespacesInOrder(p: string, u: string, v: string)
    requires p == "urn:p" && u == UBL_UDT && v == CII_UDT
    ensures LexLess(u, p) && LexLess(p, v) && Overlay(p).None?
    ensures Overlay(u) == Some("udt") && Overlay(v) == Some("udt")
    ensures u != XML && p != XML && v != XML
  {
    UrnsAreUrns(OASIS, UN, XML);
    FirstFiveDecide(OASIS, UN, p, u, v);
    ShortIsForeign(p);
    SharedUdt(u, v);
  }

  lemma UrnsAreUrns(oasis: string, un: string, xml: string)
    requires oasis == OASIS && un == UN && xml == XML
    ensures |oasis| > 5 && oasis[0] == 'u' && oasis[1] == 'r' && oasis[2] == 'n' && oasis[3] == ':' && oasis[4] == 'o'
    ensures |un| > 5 && un[0] == 'u' && un[1] == 'r' && un[2] == 'n' && un[3] == ':' && un[4] == 'u'
    ensures xml != "" && xml[0] == 'h'
  {
  }

  lemma FirstFiveDecide(oasis: string, un: string, p: string, u: string, v: string)
    requires p == "urn:p" && oasis <= u && un <= v && |oasis| > 5 && |un| > 5
    requires oasis[0] == 'u' && oasis[1] == 'r' && oasis[2] == 'n' && oasis[3] == ':' && oasis[4] == 'o'
    requires un[0] == 'u' && un[1] == 'r' && un[2] == 'n' && un[3] == ':' && un[4] == 'u'
    ensures LexLess(u, p) && LexLess(p, v) && p[0] == u[0] == v[0] == 'u'
  {
    assert forall i :: 0 <= i < 5 ==> u[i] == oasis[i] && v[i] == un[i];
    assert u[..4] == p[..4] && v[..4] == p[..4];
    LexAt(u, p, 4);
    LexAt(p, v, 4);
  }

  lemma SharedUdt(u: string, v: string)
    requires u == UBL_UDT && v == CII_UDT && u != XML && v != XML
    ensures Overlay(u) == Some("udt") && Overlay(v) == Some("udt")
  {
  }

  lemma ShortIsForeign(p: string)
    requires |p| == 5
    ensures Overlay(p).None?
  {
    assert |UBL| == 45 && |CII| == 36;
    assert |XML| == 36 && |XMLDSIG| == 34 && |XADES| == 33;
  }

  /**
    An element with attributes of the two `udt` namespaces and of `urn:p`, which is
    written with `udt`: `urn:p` is given `udt2` ahead of the second, and reading the
    rendered text again gives another assignment.
   */
  lemma ForeignUdtMoves(scope: map<string, string>, second: map<string, string>)
    requires scope == map["xml" := XML]
    requires IsAssignment(Again(ThreeChoices(UBL_UDT, "urn:p", CII_UDT)), scope, second)
    ensures var u, w, v := UBL_UDT, "urn:p", CII_UDT;
      var attributes := [Attribute("udt", Some(w)), Attribute("a", Some(u)), Attribute("b", Some(v))];
      Resolved(attributes) && ArePreferred(attributes, ThreePreferences(u, w, v)) &&
      IsAssignment(ThreePreferences(u, w, v), scope, ThreeChoices(u, w, v)) &&
      ThreeChoices(u, w, v) == map[u := "udt", w := "udt2", v := "udt3"] &&
      second != ThreeChoices(u, w, v)
  {
    hide Overlay, IsSettled, LexLess, Candidate, Again;
    CandidateTexts("udt");
    assert "udt" + "2" == "udt2" && "udt" + "3" == "udt3";
    var u, w, v := UBL_UDT, "urn:p", CII_UDT;
    NamespacesInOrder(w, u, v);
    ForeignMoves(scope, u, w, v, second);
  }

  lemma ForeignMoves(scope: map<string, string>, u: string, w: string, v: string, second: map<string, string>)
    requires scope == map["xml" := XML]
    requires LexLess(u, w) && LexLess(w, v) && u != XML && w != XML && v != XML
    requires Overlay(u) == Some("udt") && Overlay(w).None? && Overlay(v) == Some("udt")
    requires IsAssignment(Again(ThreeChoices(u, w, v)), scope, second)
    ensures var attributes := [Attribute("udt", Some(w)), Attribute("a", Some(u)), Attribute("b", Some(v))];
      Resolved(attributes) && ArePreferred(attributes, ThreePreferences(u, w, v)) &&
      IsAssignment(ThreePreferences(u, w, v), scope, ThreeChoices(u, w, v)) &&
      second != ThreeChoices(u, w, v)
  {
    hide Overlay, IsSettled, LexLess, Candidate, Again, IsAssignment, Squats;
    var attributes := [Attribute("udt", Some(w)), Attribute("a", Some(u)), Attribute("b", Some(v))];
    var preferred, chosen := ThreePreferences(u, w, v), ThreeChoices(u, w, v);
    ThreeSources(attributes, u, w, v);
    ThreeAssigned(u, w, v);
    ResolvedIsProper(attributes, preferred);
    PreferredFollowsOverlay(attributes, preferred);
    ThreeSquat(u, w, v);
    AgainKeys(preferred, scope, chosen);
    FixedPointIff(preferred, scope, chosen, second);
  }

  lemma ThreeAreSources(attributes: seq<Attribute>, u: string, w: string, v: string, sources: map<string, set<string>>)
    requires attributes == [Attribute("udt", Some(w)), Attribute("a", Some(u)), Attribute("b", Some(v))]
    requires u != w && w != v && u != v && sources == map[u := {"a"}, w := {"udt"}, v := {"b"}]
    ensures AreSources(attributes, sources)
    ensures Resolved(attributes)
  {
    assert forall a :: a in attributes <==> a == attributes[0] || a == attributes[1] || a == attributes[2];
    assert attributes[0].prefix[0] == 'u' && attributes[1].prefix[0] == 'a' && attributes[2].prefix[0] == 'b';
  }

  lemma ThreeSources(attributes: seq<Attribute>, u: string, w: string, v: string)
    requires attributes == [Attribute("udt", Some(w)), Attribute("a", Some(u)), Attribute("b", Some(v))]
    requires LexLess(u, w) && LexLess(w, v) && u != XML && w != XML && v != XML
    requires Overlay(u) == Some("udt") && Overlay(w).None? && Overlay(v) == Some("udt")
    ensures Resolved(attributes) && ArePreferred(attributes, ThreePreferences(u, w, v))
  {
    hide Overlay, LexLess, AreSources, Resolved;
    ThreeInOrder(u, w, v);
    var sources := map[u := {"a"}, w := {"udt"}, v := {"b"}];
    ThreeAreSources(attributes, u, w, v, sources);
    assert Least(sources[w]) in sources[w];
    assert PreferredOf(sources) == ThreePreferences(u, w, v);
  }

  // ------------------------------------------------------------- preferences

  /** A namespace prefers its overlay prefix, or else the least of the prefixes it is written with. */
  lemma PreferenceIs(attributes: seq<Attribute>, preferred: map<string, string>, u: string)
    requires ArePreferred(attributes, preferred)
    ensures u in preferred <==> exists p :: Uses(attributes, u, p)
    ensures u in preferred && Overlay(u).Some? ==> preferred[u] == Overlay(u).value
    ensures u in preferred && Overlay(u).None? ==>
      Uses(attributes, u, preferred[u]) && forall p :: Uses(attributes, u, p) ==> LexLe(preferred[u], p)
  {
    hide Overlay, LexLe;
    var sources :| AreSources(attributes, sources) && preferred == PreferredOf(sources);
    if u in preferred {
      var p := Least(sources[u]);
      assert p in sources[u];
    }
  }

  /** Which namespaces the overlay knows, and which of them each prefix is for. */
  lemma OverlayIs(uri: string)
    ensures Overlay(uri).Some? <==>
      uri == XML || uri == UBL_CAC || uri == UBL_CBC || uri == UBL_EXT || uri == UBL_QDT || uri == UBL_UDT ||
      uri == CII_RSM || uri == CII_RAM || uri == CII_UDT || uri == XMLDSIG || uri == XADES
    ensures Overlay(uri) == Some("xml") <==> uri == XML
    ensures Overlay(uri) == Some("udt") ==> uri == UBL_UDT || uri == CII_UDT
    ensures Overlay(uri) == Some("cac") ==> uri == UBL_CAC
    ensures Overlay(uri) == Some("cbc") ==> uri == UBL_CBC
    ensures Overlay(uri) == Some("ext") ==> uri == UBL_EXT
    ensures Overlay(uri) == Some("qdt") ==> uri == UBL_QDT
    ensures Overlay(uri) == Some("rsm") ==> uri == CII_RSM
    ensures Overlay(uri) == Some("ram") ==> uri == CII_RAM
    ensures Overlay(uri) == Some("ds") ==> uri == XMLDSIG
    ensures Overlay(uri) == Some("xades") ==> uri == XADES
    ensures Overlay(uri).Some? ==>
      Overlay(uri).value in {"xml", "udt", "cac", "cbc", "ext", "qdt", "rsm", "ram", "ds", "xades"}
  {
  }
}
