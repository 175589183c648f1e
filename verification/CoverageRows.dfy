/** The coverage matrix: one row per element of each reachable type, counted by class. */
module CoverageRows {
  import opened Reachability
  import opened Wrappers

  /** What is decided for an element: `row_class`'s fields. */
  datatype Decision = Decision(rowClass: string, irPaths: seq<string>, extensionFields: seq<string>, strategy: string)

  datatype Row = Row(declaringType: string, element: string, typeName: string, cardinality: string, decision: Decision)

  const CLASSES: seq<string> := [
    "cii_preserved_xml_extension", "current_ir", "invoicekit_metadata_extension",
    "cii_document_field_extension", "profile_extension_payload", "lossiness_ledger_preserved"
  ]

  /** `classify`'s table of decisions; `row_class` raises an error for a class outside `CLASSES`. */
  type Classifier = (string, string, string) -> Decision

  const TYPES_KEY: string := "complex_types_reachable"
  const ELEMENTS_KEY: string := "elements_total"

  function TypeText(e: Element): string {
    if e.typeName.Some? then e.typeName.value else ""
  }

  function OrOne(occurs: Option<string>): string {
    if occurs.Some? then occurs.value else "1"
  }

  function Cardinality(e: Element): string {
    OrOne(e.minOccurs) + ".." + OrOne(e.maxOccurs)
  }

  function Decide(declaringType: string, e: Element, classify: Classifier): Decision {
    classify(declaringType, e.name, LocalType(Some(TypeText(e))))
  }

  function RowOf(declaringType: string, e: Element, classify: Classifier): Row {
    Row(declaringType, e.name, TypeText(e), Cardinality(e), Decide(declaringType, e, classify))
  }

  function TypeRows(declaringType: string, elements: seq<Element>, classify: Classifier): (rows: seq<Row>)
    ensures |rows| == |elements|
    ensures forall i :: 0 <= i < |elements| ==> rows[i] == RowOf(declaringType, elements[i], classify)
  {
    seq(|elements|, i requires 0 <= i < |elements| => RowOf(declaringType, elements[i], classify))
  }

  /** The rows of the listed types, type after type. */
  function Rows(types: Types, names: seq<string>, classify: Classifier): seq<Row>
    requires forall t :: t in names ==> t in types
  {
    if names == [] then [] else
    var n := |names| - 1;
    Rows(types, names[..n], classify) + TypeRows(names[n], types[names[n]], classify)
  }

  function CountOf(rows: seq<Row>, rowClass: string): nat {
    if rows == [] then 0 else
    CountOf(rows[..|rows| - 1], rowClass) + if rows[|rows| - 1].decision.rowClass == rowClass then 1 else 0
  }

  /** The sum of the counts of `classes`. */
  function TotalOf(rows: seq<Row>, classes: seq<string>): nat {
    if classes == [] then 0 else CountOf(rows, classes[0]) + TotalOf(rows, classes[1..])
  }

  datatype Coverage = Coverage(names: seq<string>, rows: seq<Row>, counts: map<string, nat>)

  /** Every element of every reachable type is decided to be in one of the classes. */
  ghost predicate AllDecided(types: Types, classify: Classifier) {
    forall t, i :: Reachable(types, t) && t in types && 0 <= i < |types[t]| ==>
      Decide(t, types[t][i], classify).rowClass in CLASSES
  }

  /** The counts of the classes, and the two sizes. */
  ghost predicate IsCount(counts: map<string, nat>, names: seq<string>, rows: seq<Row>) {
    CountsAre(counts, rows, CLASSES, TYPES_KEY, |names|, ELEMENTS_KEY, |rows|)
  }

  ghost predicate CountsAre(counts: map<string, nat>, rows: seq<Row>, keys: seq<string>, a: string, m: nat, b: string,
                            n: nat) {
    (forall k :: k in counts <==> k in keys || k == a || k == b) &&
    (forall k :: k in keys ==> counts[k] == CountOf(rows, k)) && counts[a] == m && counts[b] == n
  }

  /** `generate`, with the schema files already read; nothing when a decision is outside `CLASSES`. */
  method Generate(types: Types, classify: Classifier) returns (r: Option<Coverage>)
    ensures r.Some? <==> AllDecided(types, classify)
    ensures r.Some? ==>
      var c := r.value;
      IsReachableList(types, c.names) && (forall t :: t in c.names ==> t in types) &&
      c.rows == Rows(types, c.names, classify) &&
      IsCount(c.counts, c.names, c.rows) &&
      ELEMENTS_KEY in c.counts && TotalOf(c.rows, CLASSES) == c.counts[ELEMENTS_KEY]
  {
    hide IsReachableList, AllDecided, TotalOf, IsCount, LocalType, Decide;
    var names := ReachableTypes(types);
    ReachableAreTypes(types, names);
    var rows: seq<Row> := [];
    for n := 0 to |names|
      invariant rows == Rows(types, names[..n], classify)
      invariant AllClassed(rows)
    {
      var elements := types[names[n]];
      ghost var before := rows;
      for i := 0 to |elements|
        invariant rows == before + TypeRows(names[n], elements[..i], classify)
        invariant AllClassed(rows)
      {
        var row := RowOf(names[n], elements[i], classify);
        if row.decision.rowClass !in CLASSES {
          Undecided(types, names, classify, n, i);
          return None;
        }
        rows := rows + [row];
        assert TypeRows(names[n], elements[..i + 1], classify) == TypeRows(names[n], elements[..i], classify) + [row];
      }
      assert elements[..|elements|] == elements;
      assert names[..n + 1][..n] == names[..n];
    }
    assert names[..|names|] == names;
    DecidedIfClassed(types, names, classify);
    var counts := Count(names, rows);
    return Some(Coverage(names, rows, counts));
  }

  ghost predicate AllClassed(rows: seq<Row>) {
    forall i :: 0 <= i < |rows| ==> rows[i].decision.rowClass in CLASSES
  }

  lemma SizeKeysAreFree()
    ensures TYPES_KEY !in CLASSES && ELEMENTS_KEY !in CLASSES && TYPES_KEY != ELEMENTS_KEY
  {
    var lengths := [27, 10, 29, 28, 25, 26];
    assert forall i :: 0 <= i < 6 ==> |CLASSES[i]| == lengths[i];
    assert |TYPES_KEY| == 23 && |ELEMENTS_KEY| == 14;
  }

  lemma SizedIsCount(names: seq<string>, rows: seq<Row>, counts: map<string, nat>, sized: map<string, nat>)
    requires forall k :: k in counts <==> k in CLASSES
    requires forall k :: k in CLASSES ==> counts[k] == CountOf(rows, k)
    requires sized == counts[TYPES_KEY := |names|][ELEMENTS_KEY := |rows|]
    ensures IsCount(sized, names, rows) && ELEMENTS_KEY in sized && sized[ELEMENTS_KEY] == |rows|
  {
    hide CountsAre;
    SizeKeysAreFree();
    TwoMoreKeys(rows, CLASSES, counts, TYPES_KEY, |names|, ELEMENTS_KEY, sized);
  }

  lemma TwoMoreKeys(rows: seq<Row>, keys: seq<string>, counts: map<string, nat>, a: string, m: nat, b: string,
                    sized: map<string, nat>)
    requires (forall k :: k in counts <==> k in keys) && a !in keys && b !in keys && a != b
    requires forall k :: k in keys ==> counts[k] == CountOf(rows, k)
    requires sized == counts[a := m][b := |rows|]
    ensures CountsAre(sized, rows, keys, a, m, b, |rows|) && b in sized && sized[b] == |rows|
  {
  }

  lemma Undecided(types: Types, names: seq<string>, classify: Classifier, n: nat, i: nat)
    requires IsReachableList(types, names) && n < |names| && names[n] in types && i < |types[names[n]]|
    requires RowOf(names[n], types[names[n]][i], classify).decision.rowClass !in CLASSES
    ensures !AllDecided(types, classify)
  {
    var t := names[n];
    assert t in names && Reachable(types, t);
    assert Decide(t, types[t][i], classify).rowClass !in CLASSES;
  }

  lemma DecidedIfClassed(types: Types, names: seq<string>, classify: Classifier)
    requires IsReachableList(types, names) && forall t :: t in names ==> t in types
    requires AllClassed(Rows(types, names, classify))
    ensures AllDecided(types, classify)
  {
    var rows := Rows(types, names, classify);
    forall t, i | Reachable(types, t) && t in types && 0 <= i < |types[t]|
      ensures Decide(t, types[t][i], classify).rowClass in CLASSES
    {
      var row := RowOf(t, types[t][i], classify);
      RowsCoverElements(types, names, classify, row);
      assert t in names;
      var k :| 0 <= k < |rows| && rows[k] == row;
    }
  }

  lemma ClassesAreDistinct()
    ensures Distinct(CLASSES)
  {
    var lengths := [27, 10, 29, 28, 25, 26];
    assert forall i :: 0 <= i < 6 ==> |CLASSES[i]| == lengths[i];
    assert forall i, j :: 0 <= i < j < 6 ==> lengths[i] != lengths[j];
  }

  lemma ReachableAreTypes(types: Types, names: seq<string>)
    requires IsReachableList(types, names)
    ensures forall t :: t in names ==> t in types
  {
    forall t | t in names ensures t in types {
      var path :| IsPath(types, path) && path[|path| - 1] == t;
      if |path| > 1 {
        assert Edge(types, path[|path| - 2], path[|path| - 1]);
      }
    }
  }

  /** `Counter` over the classes, every class present, and the two sizes. */
  method Count(names: seq<string>, rows: seq<Row>) returns (counts: map<string, nat>)
    requires AllClassed(rows)
    ensures IsCount(counts, names, rows) && ELEMENTS_KEY in counts && TotalOf(rows, CLASSES) == counts[ELEMENTS_KEY]
  {
    hide IsCount, TotalOf;
    counts := map k | k in CLASSES :: 0;
    for i := 0 to |rows|
      invariant forall k :: k in counts <==> k in CLASSES
      invariant forall k :: k in CLASSES ==> counts[k] == CountOf(rows[..i], k)
    {
      assert rows[..i + 1][..i] == rows[..i];
      var rowClass := rows[i].decision.rowClass;
      counts := counts[rowClass := counts[rowClass] + 1];
    }
    assert rows[..|rows|] == rows;
    var sized: map<string, nat> := counts[TYPES_KEY := |names|][ELEMENTS_KEY := |rows|];
    SizedIsCount(names, rows, counts, sized);
    ClassesAreDistinct();
    CountsAddUp(rows, CLASSES);
    counts := sized;
  }

  // ------------------------------------------------------------ conservation

  lemma {:induction false} TotalStep(rows: seq<Row>, classes: seq<string>)
    requires rows != [] && Distinct(classes)
    ensures TotalOf(rows, classes) ==
      TotalOf(rows[..|rows| - 1], classes) + if rows[|rows| - 1].decision.rowClass in classes then 1 else 0
  {
    if classes != [] {
      TotalStep(rows, classes[1..]);
    }
  }

  /** When every row has one of the classes, the counts add up to the number of rows. */
  lemma {:induction false} CountsAddUp(rows: seq<Row>, classes: seq<string>)
    requires Distinct(classes) && forall i :: 0 <= i < |rows| ==> rows[i].decision.rowClass in classes
    ensures TotalOf(rows, classes) == |rows|
    decreases |rows|
  {
    if rows == [] {
      NothingToCount(classes);
    } else {
      CountsAddUp(rows[..|rows| - 1], classes);
      TotalStep(rows, classes);
    }
  }

  lemma {:induction false} NothingToCount(classes: seq<string>)
    ensures TotalOf([], classes) == 0
  {
    if classes != [] {
      NothingToCount(classes[1..]);
    }
  }

  /** Exactly the elements of reachable types have rows. */
  lemma {:induction false} RowsCoverElements(types: Types, names: seq<string>, classify: Classifier, row: Row)
    requires forall t :: t in names ==> t in types
    ensures row in Rows(types, names, classify) <==>
      exists t, i :: t in names && 0 <= i < |types[t]| && row == RowOf(t, types[t][i], classify)
  {
    if names != [] {
      var n := |names| - 1;
      RowsCoverElements(types, names[..n], classify, row);
      assert names == names[..n] + [names[n]];
      var last := TypeRows(names[n], types[names[n]], classify);
      if row in last {
        var i :| 0 <= i < |last| && last[i] == row;
        assert names[n] in names && row == RowOf(names[n], types[names[n]][i], classify);
      }
      if t, i :| t in names && 0 <= i < |types[t]| && row == RowOf(t, types[t][i], classify) {
        if t == names[n] {
          assert last[i] == row;
        } else {
          assert t in names[..n];
        }
      }
    }
  }

  // -------------------------------------------------------------------- rows

  /** What a row says of its element. */
  lemma RowIs(declaringType: string, e: Element, classify: Classifier)
    ensures var r := RowOf(declaringType, e, classify);
      r.declaringType == declaringType && r.element == e.name &&
      r.typeName == (match e.typeName case Some(text) => text case None => "") &&
      (e.minOccurs.None? && e.maxOccurs.None? ==> r.cardinality == "1..1") &&
      (e.minOccurs.Some? && e.maxOccurs.None? ==> r.cardinality == e.minOccurs.value + "..1") &&
      (e.minOccurs.None? && e.maxOccurs.Some? ==> r.cardinality == "1.." + e.maxOccurs.value) &&
      (e.minOccurs.Some? && e.maxOccurs.Some? ==> r.cardinality == e.minOccurs.value + ".." + e.maxOccurs.value) &&
      forall local :: Names(Some(r.typeName), local) ==> r.decision == classify(declaringType, e.name, local)
  {
    hide Names, LocalType;
    var text := TypeText(e);
    forall local | Names(Some(text), local) ensures LocalType(Some(text)) == local {
      LocalTypeIsNamed(Some(text), local);
    }
    assert "1" + ".." + "1" == "1..1";
  }

  /** How many elements the types before the `n`-th have. */
  function Offset(types: Types, names: seq<string>, n: nat): nat
    requires n <= |names| && forall t :: t in names ==> t in types
  {
    if n == 0 then 0 else Offset(types, names, n - 1) + |types[names[n - 1]]|
  }

  lemma {:induction false} OffsetOfFront(types: Types, names: seq<string>, k: nat, n: nat)
    requires n <= k <= |names| && forall t :: t in names ==> t in types
    ensures Offset(types, names[..k], n) == Offset(types, names, n)
  {
    if n > 0 {
      OffsetOfFront(types, names, k, n - 1);
    }
  }

  /** The row of the `i`-th element of the `n`-th type stands where it should. */
  ghost predicate StandsAt(types: Types, names: seq<string>, rows: seq<Row>, classify: Classifier, n: nat, i: nat)
    requires forall t :: t in names ==> t in types
  {
    n < |names| && i < |types[names[n]]| ==>
      Offset(types, names, n) + i < |rows| &&
      rows[Offset(types, names, n) + i] == RowOf(names[n], types[names[n]][i], classify)
  }

  /** The rows are in the order of the types, and of the elements within each. */
  lemma {:induction false} RowsInOrder(types: Types, names: seq<string>, classify: Classifier)
    requires forall t :: t in names ==> t in types
    ensures |Rows(types, names, classify)| == Offset(types, names, |names|)
    ensures forall n, i :: StandsAt(types, names, Rows(types, names, classify), classify, n, i)
  {
    if names != [] {
      var last, rows := |names| - 1, Rows(types, names, classify);
      var front := Rows(types, names[..last], classify);
      RowsInOrder(types, names[..last], classify);
      OffsetOfFront(types, names, last, last);
      forall n: nat, i: nat ensures StandsAt(types, names, rows, classify, n, i) {
        if n < last && i < |types[names[n]]| {
          OffsetOfFront(types, names, last, n);
          assert names[..last][n] == names[n];
          assert StandsAt(types, names[..last], front, classify, n, i);
        }
      }
    }
  }
}
