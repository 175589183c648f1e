/** What stripping keeps, what an empty comparison means place by place, and which findings there are. */
module DriftMeaning {
  import opened Digits
  import opened Drift
  import opened DriftCheck
  import opened JsonModel
  import opened JsonText
  import opened Text
  import opened Wrappers

  /** One step into a value. */
  datatype Step = Key(key: string) | Index(i: nat)

  /** What stands at the end of a path. */
  function At(v: Json, path: seq<Step>): Option<Json> {
    if path == [] then Some(v) else
    match path[0]
    case Key(key) => if v.Obj? && key in v.fields then At(v.fields[key], path[1..]) else None
    case Index(i) => if v.Arr? && i < |v.items| then At(v.items[i], path[1..]) else None
  }

  // ---------------------------------------------------------------- stripping

  predicate IsJitterKey(key: string) {
    key in {"timestamp", "requestId", "request_id", "trace_id", "correlationId"}
  }

  predicate ThroughJitter(path: seq<Step>) {
    path != [] && ((path[0].Key? && IsJitterKey(path[0].key)) || ThroughJitter(path[1..]))
  }

  lemma {:induction false} StripAt(v: Json, path: seq<Step>)
    ensures At(StripJitter(v), path) ==
      match At(v, path)
      case Some(u) => if ThroughJitter(path) then None else Some(StripJitter(u))
      case None => None
    decreases |path|
  {
    if path != [] {
      match path[0] {
        case Key(key) =>
          if v.Obj? && key in v.fields {
            StripAt(v.fields[key], path[1..]);
          }
        case Index(i) =>
          if v.Arr? && i < |v.items| {
            StripAt(v.items[i], path[1..]);
          }
      }
    }
  }

  /**
    Away from jitter keys everything stays where it was: leaves as they are, lists as
    long, objects with all their other keys; through a jitter key nothing is left.
   */
  lemma StripKeepsTheRest(v: Json, path: seq<Step>)
    ensures ThroughJitter(path) ==> At(StripJitter(v), path).None?
    ensures !ThroughJitter(path) ==>
      (At(StripJitter(v), path).None? <==> At(v, path).None?) &&
      match (At(v, path), At(StripJitter(v), path))
      case (Some(Obj(fields)), Some(after)) =>
        after.Obj? && forall key :: key in after.fields <==> key in fields && !IsJitterKey(key)
      case (Some(Arr(items)), Some(after)) => after.Arr? && |after.items| == |items|
      case (Some(leaf), Some(after)) => after == leaf
      case _ => true
  {
    StripAt(v, path);
  }

  /** Type-exact equality away from jitter keys, with one float zero and no NaN. */
  ghost predicate SameApart(a: Json, b: Json) {
    match a
    case Obj(fields) =>
      b.Obj? &&
      (forall key :: !IsJitterKey(key) ==> (key in fields <==> key in b.fields)) &&
      forall key :: key in fields && key in b.fields && !IsJitterKey(key) ==> SameApart(fields[key], b.fields[key])
    case Arr(items) => b.Arr? && |items| == |b.items| && forall i :: 0 <= i < |items| ==>
      SameApart(items[i], b.items[i])
    case Num(literal) => b.Num? && SameNumber(literal, b.literal)
    case _ => a == b
  }

  predicate SameNumber(a: NumberText, b: NumberText) {
    a != "NaN" && (a == b || (a in {"0.0", "-0.0"} && b in {"0.0", "-0.0"}))
  }

  lemma LeafSameApart(a: Json, b: Json)
    requires !a.Obj? && !a.Arr?
    ensures SameValue(StripJitter(a), StripJitter(b)) <==> SameApart(a, b)
  {
    if TypeOf(a) == TypeOf(b) {
      LeavesSame(a, b);
    } else {
      DifferentTypesDiffer(StripJitter(a), StripJitter(b));
      ZeroTextsAreFloats();
    }
  }

  /** Stripped of jitter two values are the same exactly when they are the same away from jitter keys. */
  lemma {:induction false} StrippedSameIff(a: Json, b: Json)
    ensures SameValue(StripJitter(a), StripJitter(b)) <==> SameApart(a, b)
    decreases a
  {
    hide SameValue;
    match a
    case Obj(fields) =>
      if b.Obj? {
        StrippedObjects(a, b);
      } else {
        DifferentTypesDiffer(StripJitter(a), StripJitter(b));
      }
    case Arr(items) =>
      if b.Arr? {
        ArraysSame(StripJitter(a), StripJitter(b));
        forall i | 0 <= i < |items| && i < |b.items|
          ensures SameValue(StripJitter(items[i]), StripJitter(b.items[i])) <==> SameApart(items[i], b.items[i])
        {
          StrippedSameIff(items[i], b.items[i]);
        }
        ArraysSameApart(a, b);
      } else {
        DifferentTypesDiffer(StripJitter(a), StripJitter(b));
      }
    case _ =>
      LeafSameApart(a, b);
  }

  lemma ArraysSameApart(a: Json, b: Json)
    requires a.Arr? && b.Arr?
    requires forall i :: 0 <= i < |a.items| && i < |b.items| ==>
      (SameValue(StripJitter(a.items[i]), StripJitter(b.items[i])) <==> SameApart(a.items[i], b.items[i]))
    ensures SameValue(StripJitter(a), StripJitter(b)) <==> SameApart(a, b)
  {
    hide SameValue;
    var x, y := StripJitter(a), StripJitter(b);
    ArraysSame(x, y);
    assert forall i :: 0 <= i < |a.items| ==> x.items[i] == StripJitter(a.items[i]);
    assert forall i :: 0 <= i < |b.items| ==> y.items[i] == StripJitter(b.items[i]);
    if |a.items| == |b.items| {
      forall i | 0 <= i < |a.items| ensures SameValue(x.items[i], y.items[i]) <==> SameApart(a.items[i], b.items[i]) {
        assert x.items[i] == StripJitter(a.items[i]) && y.items[i] == StripJitter(b.items[i]);
      }
    }
  }

  lemma StrippedFields(v: Json, key: string)
    requires v.Obj?
    ensures StripJitter(v).Obj?
    ensures key in StripJitter(v).fields <==> key in v.fields && !IsJitterKey(key)
    ensures key in StripJitter(v).fields ==> StripJitter(v).fields[key] == StripJitter(v.fields[key])
  {
  }

  lemma {:induction false} StrippedObjects(a: Json, b: Json)
    requires a.Obj? && b.Obj?
    ensures SameValue(StripJitter(a), StripJitter(b)) <==> SameApart(a, b)
    decreases a, 0
  {
    hide SameValue, StripJitter, Sorted, IsJitterKey, SameApart, SameAt;
    var x, y := StripJitter(a), StripJitter(b);
    StrippedFields(a, "");
    StrippedFields(b, "");
    var keys := Sorted(x.fields.Keys + y.fields.Keys);
    ObjectsSame(x, y, keys);
    forall key ensures SameApartAt(a, b, key) <==> (key in keys ==> SameAt(x, y, key)) {
      StrippedFields(a, key);
      StrippedFields(b, key);
      if key in a.fields && key in b.fields && !IsJitterKey(key) {
        StrippedSameIff(a.fields[key], b.fields[key]);
      }
      KeySame(a, b, x, y, key);
    }
    SameApartByKey(a, b);
  }

  /** Both objects have the key with the same values apart from jitter, or neither has it, or it is a jitter key. */
  ghost predicate SameApartAt(a: Json, b: Json, key: string)
    requires a.Obj? && b.Obj?
  {
    IsJitterKey(key) || (key !in a.fields && key !in b.fields) ||
    (key in a.fields && key in b.fields && SameApart(a.fields[key], b.fields[key]))
  }

  lemma SameApartByKey(a: Json, b: Json)
    requires a.Obj? && b.Obj?
    ensures SameApart(a, b) <==> forall key :: SameApartAt(a, b, key)
  {
    hide IsJitterKey;
    if forall key :: SameApartAt(a, b, key) {
      forall key | !IsJitterKey(key) ensures key in a.fields <==> key in b.fields {
        assert SameApartAt(a, b, key);
      }
      forall key | key in a.fields && key in b.fields && !IsJitterKey(key)
        ensures SameApart(a.fields[key], b.fields[key])
      {
        assert SameApartAt(a, b, key);
      }
    }
  }

  lemma KeySame(a: Json, b: Json, x: Json, y: Json, key: string)
    requires a.Obj? && b.Obj? && x.Obj? && y.Obj?
    requires key in x.fields <==> key in a.fields && !IsJitterKey(key)
    requires key in y.fields <==> key in b.fields && !IsJitterKey(key)
    requires key in x.fields && key in y.fields ==>
      (SameValue(x.fields[key], y.fields[key]) <==> SameApart(a.fields[key], b.fields[key]))
    ensures SameApartAt(a, b, key) <==> (key in x.fields || key in y.fields ==> SameAt(x, y, key))
  {
    hide SameValue, SameApart, IsJitterKey;
  }

  // ----------------------------------------------------------------- no drift

  /** The headers of a response. */
  function Headers(payload: map<string, Json>): map<string, Json>
    requires IsResponse(payload)
  {
    if "headers" in payload then payload["headers"].fields else map[]
  }

  /** A header whose name reads `name` in lower case is there. */
  ghost predicate HasHeader(payload: map<string, Json>, name: string)
    requires IsResponse(payload)
  {
    exists k :: k in Headers(payload) && IsLowerOf(name, k)
  }

  predicate IsLowerOf(name: string, written: string) {
    |name| == |written| &&
    forall i :: 0 <= i < |written| ==>
      name[i] as int == if 'A' <= written[i] <= 'Z' then written[i] as int + 32 else written[i] as int
  }

  predicate VariesPerCall(name: string) {
    name in {"date", "request-id", "x-request-id", "x-trace-id", "x-correlation-id", "x-amzn-requestid", "etag",
             "set-cookie"}
  }

  /** The body as it came, and what its text decodes to. */
  function RawBody(payload: map<string, Json>): Json {
    if "body" in payload then payload["body"] else Str("")
  }

  function Decoded(payload: map<string, Json>, reading: DriftCheck.Reading): Option<Json> {
    match RawBody(payload)
    case Str(text) => (match Parse(text, true) case Some(v) => Some(Read(v, reading)) case None => None)
    case _ => None
  }

  ghost predicate SameStatus(cassette: map<string, Json>, live: map<string, Json>) {
    if "status" in cassette && "status" in live then SameValue(cassette["status"], live["status"])
    else if "status" in cassette then cassette["status"] == Null
    else "status" in live ==> live["status"] == Null
  }

  ghost predicate SameBody(cassette: map<string, Json>, live: map<string, Json>, reading: DriftCheck.Reading) {
    match (Decoded(cassette, reading), Decoded(live, reading))
    case (Some(a), Some(b)) => SameApart(a, b)
    case (None, None) => SameValue(RawBody(cassette), RawBody(live))
    case (Some(a), None) => SameValue(StripJitter(a), RawBody(live))
    case (None, Some(b)) => SameValue(RawBody(cassette), StripJitter(b))
  }

  lemma LowerIsLower(name: string, written: string)
    ensures Lower(written) == name <==> IsLowerOf(name, written)
  {
    if IsLowerOf(name, written) {
      assert forall i :: 0 <= i < |name| ==> Lower(written)[i] == name[i];
    }
  }

  lemma HeaderNamesAre(payload: map<string, Json>, name: string)
    requires IsResponse(payload)
    ensures name in HeaderNames(payload) <==> HasHeader(payload, name) && !VariesPerCall(name)
  {
    forall k | k in Headers(payload) ensures Lower(k) == name <==> IsLowerOf(name, k) {
      LowerIsLower(name, k);
    }
  }

  lemma BodiesAre(cassette: map<string, Json>, live: map<string, Json>, reading: DriftCheck.Reading)
    ensures SameValue(BodyOf(cassette, reading), BodyOf(live, reading)) <==> SameBody(cassette, live, reading)
  {
    hide SameValue, SameApart, Parse, Read;
    var a, b := Decoded(cassette, reading), Decoded(live, reading);
    if a.Some? && b.Some? {
      StrippedSameIff(a.value, b.value);
    }
  }

  lemma StatusesAre(cassette: map<string, Json>, live: map<string, Json>)
    ensures SameValue(DriftCheck.StatusOf(cassette), DriftCheck.StatusOf(live)) <==> SameStatus(cassette, live)
  {
  }

  /**
    No drift is reported exactly when the statuses are the same, the same headers are
    there apart from those that vary per call, and the decoded bodies are the same away
    from jitter keys.
   */
  lemma NoDriftMeans(cassette: map<string, Json>, live: map<string, Json>, reading: DriftCheck.Reading)
    requires IsResponse(cassette) && IsResponse(live)
    ensures Diff(Obj(Normalize(cassette, reading)), Obj(Normalize(live, reading)), "") == [] <==>
      SameStatus(cassette, live) &&
      (forall name :: !VariesPerCall(name) ==> (HasHeader(cassette, name) <==> HasHeader(live, name))) &&
      SameBody(cassette, live, reading)
  {
    hide SameValue, HasHeader, HeaderNames, BodyOf, DriftCheck.StatusOf, SameStatus, SameBody, Diff, Normalize;
    NoDriftIff(cassette, live, reading);
    StatusesAre(cassette, live);
    BodiesAre(cassette, live, reading);
    forall name
      ensures name in HeaderNames(cassette) <==> HasHeader(cassette, name) && !VariesPerCall(name)
      ensures name in HeaderNames(live) <==> HasHeader(live, name) && !VariesPerCall(name)
    {
      HeaderNamesAre(cassette, name);
      HeaderNamesAre(live, name);
    }
  }

  // ----------------------------------------------------------------- findings

  /** What there is to report at a place where both sides have a value. */
  ghost predicate IsFoundHere(f: Finding, a: Json, b: Json, path: string) {
    if TypeOf(a) != TypeOf(b) then f == TypeDiffers(path, TypeOf(a), TypeOf(b))
    else match a
      case Obj(_) => false
      case Arr(items) => |items| != |b.items| && f == LengthDiffers(path, |items|, |b.items|)
      case Num(literal) => !SameNumber(literal, b.literal) && f == ValueDiffers(path, a, b)
      case _ => a != b && f == ValueDiffers(path, a, b)
  }

  /** The finding is about the place at the end of `steps`; `path` is the text of the place it starts from. */
  ghost predicate IsFoundAt(f: Finding, a: Json, b: Json, path: string, steps: seq<Step>)
    decreases |steps|
  {
    if steps == [] then IsFoundHere(f, a, b, path) else
    match steps[0]
    case Key(key) =>
      var child := if path == "" then key else path + "." + key;
      a.Obj? && b.Obj? &&
      if key in a.fields && key in b.fields then IsFoundAt(f, a.fields[key], b.fields[key], child, steps[1..])
      else
        |steps| == 1 && (key in a.fields || key in b.fields) &&
        f == if key in b.fields then Appeared(child) else Disappeared(child)
    case Index(i) =>
      a.Arr? && b.Arr? && |a.items| == |b.items| && i < |a.items| &&
      IsFoundAt(f, a.items[i], b.items[i], path + "[" + ToDigits(i) + "]", steps[1..])
  }

  /** A number is a float exactly when its text has a point or an exponent, or is one of the three special tokens. */
  lemma TypesOfNumbers(literal: NumberText)
    ensures TypeOf(Num(literal)) == IntType <==>
      forall i :: 0 <= i < |literal| ==> '0' <= literal[i] <= '9' || literal[i] == '-'
    ensures TypeOf(Num(literal)) != IntType ==> TypeOf(Num(literal)) == FloatType
  {
  }

  ghost predicate IsFinding(f: Finding, a: Json, b: Json, path: string) {
    exists steps :: IsFoundAt(f, a, b, path, steps)
  }

  lemma FoundBelow(f: Finding, a: Json, b: Json, path: string, step: Step, steps: seq<Step>)
    requires IsFoundAt(f, a, b, path, [step] + steps)
    ensures IsFinding(f, a, b, path)
  {
  }

  lemma {:induction false} DiffFinds(f: Finding, a: Json, b: Json, path: string)
    requires f in Diff(a, b, path)
    ensures IsFinding(f, a, b, path)
    decreases a, 1, 0
  {
    hide IsFinding, DiffMembers, DiffItems;
    if TypeOf(a) == TypeOf(b) && a.Obj? {
      DiffMembersFind(f, a, b, Sorted(a.fields.Keys + b.fields.Keys), path);
    } else if TypeOf(a) == TypeOf(b) && a.Arr? && |a.items| == |b.items| {
      DiffItemsFind(f, a, b, |a.items|, path);
    } else {
      FoundHere(f, a, b, path);
    }
  }

  lemma FoundHere(f: Finding, a: Json, b: Json, path: string)
    requires IsFoundHere(f, a, b, path)
    ensures IsFinding(f, a, b, path)
  {
    assert IsFoundAt(f, a, b, path, []);
  }

  lemma {:induction false} DiffItemsFind(f: Finding, a: Json, b: Json, n: nat, path: string)
    requires a.Arr? && b.Arr? && |a.items| == |b.items| && n <= |a.items| && f in DiffItems(a, b, n, path)
    ensures IsFinding(f, a, b, path)
    decreases a, 0, n
  {
    hide IsFinding, Diff;
    var here := IndexPath(path, n - 1);
    if f in Diff(a.items[n - 1], b.items[n - 1], here) {
      DiffFinds(f, a.items[n - 1], b.items[n - 1], here);
      ItemFound(f, a, b, n - 1, path);
    } else {
      DiffItemsFind(f, a, b, n - 1, path);
    }
  }

  lemma ItemFound(f: Finding, a: Json, b: Json, i: nat, path: string)
    requires a.Arr? && b.Arr? && |a.items| == |b.items| && i < |a.items|
    requires IsFinding(f, a.items[i], b.items[i], path + "[" + ToDigits(i) + "]")
    ensures IsFinding(f, a, b, path)
  {
    var steps :| IsFoundAt(f, a.items[i], b.items[i], path + "[" + ToDigits(i) + "]", steps);
    assert ([Index(i)] + steps)[1..] == steps;
    FoundBelow(f, a, b, path, Index(i), steps);
  }

  lemma {:induction false} DiffMembersFind(f: Finding, a: Json, b: Json, keys: seq<string>, path: string)
    requires a.Obj? && b.Obj? && forall k :: k in keys ==> k in a.fields || k in b.fields
    requires f in DiffMembers(a, b, keys, path)
    ensures IsFinding(f, a, b, path)
    decreases a, 0, |keys|
  {
    hide IsFinding, Diff;
    var n := |keys| - 1;
    var key := keys[n];
    if f in DiffMembers(a, b, keys[..n], path) {
      DiffMembersFind(f, a, b, keys[..n], path);
    } else if key in a.fields && key in b.fields {
      DiffFinds(f, a.fields[key], b.fields[key], MemberPath(path, key));
      MemberFound(f, a, b, key, path);
    } else {
      LoneKeyFound(f, a, b, key, path);
    }
  }

  lemma MemberFound(f: Finding, a: Json, b: Json, key: string, path: string)
    requires a.Obj? && b.Obj? && key in a.fields && key in b.fields
    requires IsFinding(f, a.fields[key], b.fields[key], if path == "" then key else path + "." + key)
    ensures IsFinding(f, a, b, path)
  {
    var steps :| IsFoundAt(f, a.fields[key], b.fields[key], if path == "" then key else path + "." + key, steps);
    assert ([Key(key)] + steps)[1..] == steps;
    FoundBelow(f, a, b, path, Key(key), steps);
  }

  lemma LoneKeyFound(f: Finding, a: Json, b: Json, key: string, path: string)
    requires a.Obj? && b.Obj? && (key in a.fields) != (key in b.fields)
    requires var child := if path == "" then key else path + "." + key;
      f == if key in b.fields then Appeared(child) else Disappeared(child)
    ensures IsFinding(f, a, b, path)
  {
    assert IsFoundAt(f, a, b, path, [Key(key)] + []);
    FoundBelow(f, a, b, path, Key(key), []);
  }

  lemma {:induction false} FindingsAreReported(f: Finding, a: Json, b: Json, path: string, steps: seq<Step>)
    requires IsFoundAt(f, a, b, path, steps)
    ensures f in Diff(a, b, path)
    decreases |steps|
  {
    hide DiffItems, DiffMembers;
    if steps != [] {
      match steps[0] {
        case Key(key) =>
          var child := MemberPath(path, key);
          if key in a.fields && key in b.fields {
            FindingsAreReported(f, a.fields[key], b.fields[key], child, steps[1..]);
          }
          var keys := Sorted(a.fields.Keys + b.fields.Keys);
          assert key in keys;
          KeyIsReported(f, a, b, keys, key, path);
        case Index(i) =>
          FindingsAreReported(f, a.items[i], b.items[i], IndexPath(path, i), steps[1..]);
          ItemIsReported(f, a, b, |a.items|, i, path);
      }
    }
  }

  lemma {:induction false} ItemIsReported(f: Finding, a: Json, b: Json, n: nat, i: nat, path: string)
    requires a.Arr? && b.Arr? && |a.items| == |b.items| && i < n <= |a.items|
    requires f in Diff(a.items[i], b.items[i], IndexPath(path, i))
    ensures f in DiffItems(a, b, n, path)
    decreases n
  {
    hide Diff, IndexPath;
    if i < n - 1 {
      ItemIsReported(f, a, b, n - 1, i, path);
    }
  }

  lemma {:induction false} KeyIsReported(f: Finding, a: Json, b: Json, keys: seq<string>, key: string, path: string)
    requires a.Obj? && b.Obj? && (forall k :: k in keys ==> k in a.fields || k in b.fields) && key in keys
    requires f in DiffKey(a, b, key, path)
    ensures f in DiffMembers(a, b, keys, path)
    decreases |keys|
  {
    hide DiffKey;
    var n := |keys| - 1;
    if keys[n] != key {
      assert key in keys[..n];
      KeyIsReported(f, a, b, keys[..n], key, path);
    }
  }

  /** The comparison reports exactly the findings there are: at every place both sides reach, and at every lone key. */
  lemma ReportedIff(f: Finding, a: Json, b: Json, path: string)
    ensures f in Diff(a, b, path) <==> IsFinding(f, a, b, path)
  {
    hide Diff, IsFoundAt;
    if f in Diff(a, b, path) {
      DiffFinds(f, a, b, path);
    }
    if IsFinding(f, a, b, path) {
      var steps :| IsFoundAt(f, a, b, path, steps);
      FindingsAreReported(f, a, b, path, steps);
    }
  }

  // ----------------------------------------------------------- reading numbers

  /** Reading changes numbers and nothing else: each becomes what the runtime prints for it. */
  lemma {:induction false} ReadAt(v: Json, reading: DriftCheck.Reading, path: seq<Step>)
    ensures match At(v, path)
      case None => At(Read(v, reading), path) == None
      case Some(Num(literal)) => At(Read(v, reading), path) == Some(Num(reading(literal)))
      case Some(Arr(items)) =>
        At(Read(v, reading), path).Some? && At(Read(v, reading), path).value.Arr? &&
        |At(Read(v, reading), path).value.items| == |items|
      case Some(Obj(fields)) =>
        At(Read(v, reading), path).Some? && At(Read(v, reading), path).value.Obj? &&
        At(Read(v, reading), path).value.fields.Keys == fields.Keys
      case Some(leaf) => At(Read(v, reading), path) == Some(leaf)
    decreases |path|
  {
    if path != [] {
      match path[0] {
        case Key(key) =>
          if v.Obj? && key in v.fields {
            ReadAt(v.fields[key], reading, path[1..]);
          }
        case Index(i) =>
          if v.Arr? && i < |v.items| {
            ReadAt(v.items[i], reading, path[1..]);
          }
      }
    }
  }
}
