/**
  Sandbox drift: two recorded responses are normalised, stripped of the fields that
  vary per call, and compared member by member.
 */
module Drift {
  import opened Digits
  import opened JsonModel
  import opened Text

  // -------------------------------------------------------------- stripping

  const JITTER_KEYS: set<string> := {"timestamp", "requestId", "request_id", "trace_id", "correlationId"}

  /** `_strip_jitter`. */
  function StripJitter(v: Json): Json {
    match v
    case Arr(items) => Arr(seq(|items|, i requires 0 <= i < |items| => StripJitter(items[i])))
    case Obj(fields) => Obj(map k | k in fields && k !in JITTER_KEYS :: StripJitter(fields[k]))
    case _ => v
  }

  /** No object of the value, at any depth, has a jitter key. */
  ghost predicate JitterFree(v: Json) {
    match v
    case Arr(items) => forall i :: 0 <= i < |items| ==> JitterFree(items[i])
    case Obj(fields) => forall k :: k in fields ==> k !in JITTER_KEYS && JitterFree(fields[k])
    case _ => true
  }

  lemma {:induction false} StripIsJitterFree(v: Json)
    ensures JitterFree(StripJitter(v))
  {
    match v
    case Arr(items) =>
      forall i | 0 <= i < |items| { StripIsJitterFree(items[i]); }
    case Obj(fields) =>
      forall k | k in fields ensures JitterFree(StripJitter(fields[k])) { StripIsJitterFree(fields[k]); }
    case _ =>
  }

  /** Stripping changes nothing exactly when there is nothing to strip. */
  lemma {:induction false} StripFixesJitterFree(v: Json)
    ensures StripJitter(v) == v <==> JitterFree(v)
  {
    match v
    case Arr(items) =>
      forall i | 0 <= i < |items| { StripFixesJitterFree(items[i]); }
      if JitterFree(v) {
        assert StripJitter(v).items == items;
      } else {
        var i :| 0 <= i < |items| && !JitterFree(items[i]);
        assert StripJitter(v).items[i] != items[i];
      }
    case Obj(fields) =>
      forall k | k in fields ensures StripJitter(fields[k]) == fields[k] <==> JitterFree(fields[k]) {
        StripFixesJitterFree(fields[k]);
      }
      if JitterFree(v) {
        assert StripJitter(v).fields == fields;
      } else {
        var k :| k in fields && (k in JITTER_KEYS || !JitterFree(fields[k]));
        assert k !in StripJitter(v).fields || StripJitter(v).fields[k] != fields[k];
      }
    case _ =>
  }

  lemma {:induction false} StripIdempotent(v: Json)
    ensures StripJitter(StripJitter(v)) == StripJitter(v)
  {
    StripIsJitterFree(v);
    StripFixesJitterFree(StripJitter(v));
  }

  // -------------------------------------------------------------- comparing

  /** Python's type names. */
  datatype PyType = NoneType | BoolType | IntType | FloatType | StrType | ListType | DictType

  function TypeOf(v: Json): PyType {
    match v
    case Null => NoneType
    case Bool(_) => BoolType
    case Num(literal) => if IsIntText(literal) then IntType else FloatType
    case Str(_) => StrType
    case Arr(_) => ListType
    case Obj(_) => DictType
  }

  /** Python's `==` on two numbers of one type: the two zeros are equal, NaN is not even equal to itself. */
  predicate NumbersEqual(a: NumberText, b: NumberText) {
    a != "NaN" && (a == b || (a in ["0.0", "-0.0"] && b in ["0.0", "-0.0"]))
  }

  /** Python's `!=` on two values of one type that hold no others. */
  predicate LeavesEqual(a: Json, b: Json)
    requires TypeOf(a) == TypeOf(b) && !a.Obj? && !a.Arr?
  {
    if a.Num? then NumbersEqual(a.literal, b.literal) else a == b
  }

  datatype Finding =
    | TypeDiffers(path: string, expected: PyType, actual: PyType)
    | Appeared(path: string)
    | Disappeared(path: string)
    | LengthDiffers(path: string, expectedLength: nat, actualLength: nat)
    | ValueDiffers(path: string, expectedValue: Json, actualValue: Json)

  function MemberPath(prefix: string, key: string): string {
    if prefix != "" then prefix + "." + key else key
  }

  function IndexPath(prefix: string, i: nat): string {
    prefix + "[" + ToDigits(i) + "]"
  }

  /** `_diff`. */
  function Diff(expected: Json, actual: Json, prefix: string): seq<Finding>
    decreases expected, 1, 0
  {
    if TypeOf(expected) != TypeOf(actual) then [TypeDiffers(prefix, TypeOf(expected), TypeOf(actual))]
    else if expected.Obj? then
      DiffMembers(expected, actual, Sorted(expected.fields.Keys + actual.fields.Keys), prefix)
    else if expected.Arr? then
      if |expected.items| != |actual.items| then [LengthDiffers(prefix, |expected.items|, |actual.items|)]
      else DiffItems(expected, actual, |expected.items|, prefix)
    else if !LeavesEqual(expected, actual) then [ValueDiffers(prefix, expected, actual)]
    else []
  }

  /** The findings for the first `n` items. */
  function DiffItems(expected: Json, actual: Json, n: nat, prefix: string): seq<Finding>
    requires expected.Arr? && actual.Arr? && n <= |expected.items| && n <= |actual.items|
    decreases expected, 0, n
  {
    if n == 0 then [] else
    DiffItems(expected, actual, n - 1, prefix) +
      Diff(expected.items[n - 1], actual.items[n - 1], IndexPath(prefix, n - 1))
  }

  /** The findings for the listed keys. */
  function DiffMembers(expected: Json, actual: Json, keys: seq<string>, prefix: string): seq<Finding>
    requires expected.Obj? && actual.Obj? && forall k :: k in keys ==> k in expected.fields || k in actual.fields
    decreases expected, 0, |keys|
  {
    if keys == [] then [] else
    var n := |keys| - 1;
    DiffMembers(expected, actual, keys[..n], prefix) + DiffKey(expected, actual, keys[n], prefix)
  }

  function DiffKey(expected: Json, actual: Json, key: string, prefix: string): seq<Finding>
    requires expected.Obj? && actual.Obj? && (key in expected.fields || key in actual.fields)
    decreases expected, 0, 0
  {
    var child := MemberPath(prefix, key);
    if key !in expected.fields then [Appeared(child)]
    else if key !in actual.fields then [Disappeared(child)]
    else Diff(expected.fields[key], actual.fields[key], child)
  }

  lemma NoKeys(expected: Json, actual: Json, keys: seq<string>, prefix: string)
    requires expected.Obj? && actual.Obj?
    ensures DiffMembers(expected, actual, keys[..0], prefix) == []
  {
  }

  lemma OneMoreKey(expected: Json, actual: Json, keys: seq<string>, i: nat, prefix: string)
    requires expected.Obj? && actual.Obj? && i < |keys|
    requires forall k :: k in keys ==> k in expected.fields || k in actual.fields
    ensures keys[i] in keys && forall k :: k in keys[..i + 1] ==> k in expected.fields || k in actual.fields
    ensures DiffMembers(expected, actual, keys[..i + 1], prefix) ==
      DiffMembers(expected, actual, keys[..i], prefix) + DiffKey(expected, actual, keys[i], prefix)
  {
    assert keys[i] in keys && keys[..i + 1][..i] == keys[..i];
  }

  /** The comparison itself, collecting findings as it goes. */
  method ComputeDiff(expected: Json, actual: Json, prefix: string) returns (out: seq<Finding>)
    ensures out == Diff(expected, actual, prefix)
    decreases expected
  {
    hide IndexPath, MemberPath, NumbersEqual, DiffMembers, Sorted;
    if TypeOf(expected) != TypeOf(actual) {
      return [TypeDiffers(prefix, TypeOf(expected), TypeOf(actual))];
    }
    out := [];
    if expected.Obj? {
      var keys := Sorted(expected.fields.Keys + actual.fields.Keys);
      NoKeys(expected, actual, keys, prefix);
      for i := 0 to |keys|
        invariant forall k :: k in keys[..i] ==> k in expected.fields || k in actual.fields
        invariant out == DiffMembers(expected, actual, keys[..i], prefix)
      {
        OneMoreKey(expected, actual, keys, i, prefix);
        var child := MemberPath(prefix, keys[i]);
        if keys[i] !in expected.fields {
          out := out + [Appeared(child)];
        } else if keys[i] !in actual.fields {
          out := out + [Disappeared(child)];
        } else {
          var more := ComputeDiff(expected.fields[keys[i]], actual.fields[keys[i]], child);
          out := out + more;
        }
      }
      assert keys[..|keys|] == keys;
    } else if expected.Arr? {
      if |expected.items| != |actual.items| {
        return [LengthDiffers(prefix, |expected.items|, |actual.items|)];
      }
      for i := 0 to |expected.items|
        invariant out == DiffItems(expected, actual, i, prefix)
      {
        var more := ComputeDiff(expected.items[i], actual.items[i], IndexPath(prefix, i));
        out := out + more;
      }
    } else if !LeavesEqual(expected, actual) {
      out := [ValueDiffers(prefix, expected, actual)];
    }
  }

  // ------------------------------------------- what an empty comparison says

  /** The value with both float zeros written the same way. */
  function OneZero(v: Json): Json {
    match v
    case Num(literal) => if literal == "-0.0" then (assert IsNumberText("0.0") by { ZeroIsNumber(); } Num("0.0")) else v
    case Arr(items) => Arr(seq(|items|, i requires 0 <= i < |items| => OneZero(items[i])))
    case Obj(fields) => Obj(map k | k in fields :: OneZero(fields[k]))
    case _ => v
  }

  lemma ZeroIsNumber()
    ensures IsNumberText("0.0")
  {
    assert DropDigits("0.0") == ".0" by { assert "0.0"[1..] == ".0"; }
    assert ".0"[1..] == "0" && DropDigits("0") == "" by { assert "0"[1..] == ""; }
  }

  /** No number of the value, at any depth, is NaN. */
  ghost predicate NanFree(v: Json) {
    match v
    case Num(literal) => literal != "NaN"
    case Arr(items) => forall i :: 0 <= i < |items| ==> NanFree(items[i])
    case Obj(fields) => forall k :: k in fields ==> NanFree(fields[k])
    case _ => true
  }

  /** Type-exact equality, with one zero and no NaN. */
  ghost predicate SameValue(a: Json, b: Json) {
    NanFree(a) && OneZero(a) == OneZero(b)
  }

  lemma LeavesSame(a: Json, b: Json)
    requires TypeOf(a) == TypeOf(b) && !a.Obj? && !a.Arr?
    ensures LeavesEqual(a, b) <==> SameValue(a, b)
  {
  }

  lemma DifferentTypesDiffer(a: Json, b: Json)
    requires TypeOf(a) != TypeOf(b)
    ensures !SameValue(a, b)
  {
    if a.Num? && b.Num? {
      ZeroTextsAreFloats();
    }
  }

  lemma ZeroTextsAreFloats()
    ensures IsNumberText("0.0") && !IsIntText("0.0")
    ensures IsNumberText("-0.0") ==> !IsIntText("-0.0")
  {
    ZeroIsNumber();
    assert "0.0"[1] == '.' && "-0.0"[2] == '.';
  }

  /** There is nothing to report exactly when the two values are the same, NaN never being the same as anything. */
  lemma {:induction false} NoFindingsIffSame(a: Json, b: Json, prefix: string)
    ensures Diff(a, b, prefix) == [] <==> SameValue(a, b)
    decreases a, 1
  {
    if TypeOf(a) != TypeOf(b) {
      DifferentTypesDiffer(a, b);
    } else if a.Obj? {
      var keys := Sorted(a.fields.Keys + b.fields.Keys);
      MembersIffSame(a, b, keys, prefix);
      ObjectsSame(a, b, keys);
    } else if a.Arr? {
      if |a.items| == |b.items| {
        ItemsIffSame(a, b, |a.items|, prefix);
      }
      ArraysSame(a, b);
    } else {
      LeavesSame(a, b);
    }
  }

  lemma {:induction false} ItemsIffSame(a: Json, b: Json, n: nat, prefix: string)
    requires a.Arr? && b.Arr? && n <= |a.items| && n <= |b.items|
    ensures DiffItems(a, b, n, prefix) == [] <==> forall i :: 0 <= i < n ==> SameValue(a.items[i], b.items[i])
    decreases a, 0, n
  {
    hide Diff, SameValue, IndexPath;
    if n > 0 {
      ItemsIffSame(a, b, n - 1, prefix);
      NoFindingsIffSame(a.items[n - 1], b.items[n - 1], IndexPath(prefix, n - 1));
    }
  }

  /** Both objects have the key, with the same value. */
  ghost predicate SameAt(a: Json, b: Json, key: string)
    requires a.Obj? && b.Obj?
  {
    key in a.fields && key in b.fields && SameValue(a.fields[key], b.fields[key])
  }

  lemma {:induction false} MembersIffSame(a: Json, b: Json, keys: seq<string>, prefix: string)
    requires a.Obj? && b.Obj? && forall k :: k in keys ==> k in a.fields || k in b.fields
    ensures DiffMembers(a, b, keys, prefix) == [] <==> forall k :: k in keys ==> SameAt(a, b, k)
    decreases a, 0, |keys|
  {
    if keys != [] {
      var n := |keys| - 1;
      MembersIffSame(a, b, keys[..n], prefix);
      if keys[n] in a.fields && keys[n] in b.fields {
        NoFindingsIffSame(a.fields[keys[n]], b.fields[keys[n]], MemberPath(prefix, keys[n]));
      }
      assert DiffKey(a, b, keys[n], prefix) == [] <==> SameAt(a, b, keys[n]);
      assert keys == keys[..n] + [keys[n]];
      assert DiffMembers(a, b, keys, prefix) == [] <==>
        DiffMembers(a, b, keys[..n], prefix) == [] && DiffKey(a, b, keys[n], prefix) == [];
    }
  }

  lemma ArraysSame(a: Json, b: Json)
    requires a.Arr? && b.Arr?
    ensures SameValue(a, b) <==>
      |a.items| == |b.items| && forall i :: 0 <= i < |a.items| ==> SameValue(a.items[i], b.items[i])
  {
    var x, y := OneZero(a).items, OneZero(b).items;
    assert |x| == |a.items| && |y| == |b.items|;
    if SameValue(a, b) {
      assert x == y;
      forall i | 0 <= i < |a.items| ensures SameValue(a.items[i], b.items[i]) {
        assert x[i] == y[i];
      }
    }
    if |a.items| == |b.items| && forall i :: 0 <= i < |a.items| ==> SameValue(a.items[i], b.items[i]) {
      assert forall i :: 0 <= i < |a.items| ==> x[i] == y[i];
      assert x == y;
    }
  }

  lemma ObjectsSame(a: Json, b: Json, keys: seq<string>)
    requires a.Obj? && b.Obj? && forall k :: k in keys <==> k in a.fields || k in b.fields
    ensures SameValue(a, b) <==> forall k :: k in keys ==> SameAt(a, b, k)
  {
    var x, y := OneZero(a).fields, OneZero(b).fields;
    assert x.Keys == a.fields.Keys && y.Keys == b.fields.Keys;
    if SameValue(a, b) {
      assert x == y;
      forall k | k in keys ensures SameAt(a, b, k) {
        assert k in x <==> k in y;
        assert x[k] == y[k];
      }
    }
    if forall k :: k in keys ==> SameAt(a, b, k) {
      forall k ensures k in x <==> k in y
        ensures k in x ==> x[k] == y[k]
      {
        if k in x || k in y {
          assert SameAt(a, b, k);
        }
      }
      assert x == y;
    }
  }

  // ------------------------------------------------------------------ symmetry

  function Flip(f: Finding): Finding {
    match f
    case TypeDiffers(path, e, a) => TypeDiffers(path, a, e)
    case Appeared(path) => Disappeared(path)
    case Disappeared(path) => Appeared(path)
    case LengthDiffers(path, e, a) => LengthDiffers(path, a, e)
    case ValueDiffers(path, e, a) => ValueDiffers(path, a, e)
  }

  function FlipAll(findings: seq<Finding>): (flipped: seq<Finding>)
    ensures |flipped| == |findings|
    ensures forall i :: 0 <= i < |findings| ==> flipped[i] == Flip(findings[i]) && flipped[i].path == findings[i].path
  {
    seq(|findings|, i requires 0 <= i < |findings| => Flip(findings[i]))
  }

  lemma FlipConcat(f: seq<Finding>, g: seq<Finding>)
    ensures FlipAll(f + g) == FlipAll(f) + FlipAll(g)
  {
  }

  lemma LeavesSwap(a: Json, b: Json)
    requires TypeOf(a) == TypeOf(b) && !a.Obj? && !a.Arr?
    ensures !b.Obj? && !b.Arr? && LeavesEqual(a, b) == LeavesEqual(b, a)
  {
  }

  /** Swapping the two sides reports the same places, in the same order, the other way round. */
  lemma {:induction false} SwapFlips(a: Json, b: Json, prefix: string)
    ensures Diff(b, a, prefix) == FlipAll(Diff(a, b, prefix))
    decreases a, 1
  {
    hide LeavesEqual, DiffItems, DiffMembers, Sorted;
    if TypeOf(a) == TypeOf(b) {
      if a.Obj? {
        assert a.fields.Keys + b.fields.Keys == b.fields.Keys + a.fields.Keys;
        SwapMembers(a, b, Sorted(a.fields.Keys + b.fields.Keys), prefix);
      } else if a.Arr? {
        if |a.items| == |b.items| {
          SwapItems(a, b, |a.items|, prefix);
        }
      } else {
        LeavesSwap(a, b);
      }
    }
  }

  lemma {:induction false} SwapItems(a: Json, b: Json, n: nat, prefix: string)
    requires a.Arr? && b.Arr? && n <= |a.items| && n <= |b.items|
    ensures DiffItems(b, a, n, prefix) == FlipAll(DiffItems(a, b, n, prefix))
    decreases a, 0, n
  {
    if n > 0 {
      SwapItems(a, b, n - 1, prefix);
      SwapFlips(a.items[n - 1], b.items[n - 1], IndexPath(prefix, n - 1));
      FlipConcat(DiffItems(a, b, n - 1, prefix), Diff(a.items[n - 1], b.items[n - 1], IndexPath(prefix, n - 1)));
    }
  }

  lemma {:induction false} SwapMembers(a: Json, b: Json, keys: seq<string>, prefix: string)
    requires a.Obj? && b.Obj? && forall k :: k in keys ==> k in a.fields || k in b.fields
    ensures DiffMembers(b, a, keys, prefix) == FlipAll(DiffMembers(a, b, keys, prefix))
    decreases a, 0, |keys|
  {
    if keys != [] {
      var n := |keys| - 1;
      SwapMembers(a, b, keys[..n], prefix);
      if keys[n] in a.fields && keys[n] in b.fields {
        SwapFlips(a.fields[keys[n]], b.fields[keys[n]], MemberPath(prefix, keys[n]));
      }
      FlipConcat(DiffMembers(a, b, keys[..n], prefix), DiffKey(a, b, keys[n], prefix));
    }
  }
}
