/**
  The schema walk of the fixture validator: which value is checked against which
  sub-schema, and what the first complaint is about.
 */
module MetadataSchema {
  import opened CanonicalJson
  import opened Digits
  import opened JsonModel
  import opened Wrappers

  /** A schema's keywords; properties are in the order they are written. */
  datatype Schema = Schema(
    constant: Option<Json>,
    allowed: Option<seq<Json>>,
    expectedType: Option<string>,
    required: seq<string>,
    properties: seq<(string, Schema)>,
    additionalProperties: bool,
    minItems: Option<int>,
    uniqueItems: bool,
    items: Option<Schema>,
    minLength: Option<int>,
    pattern: Option<string>,
    format: Option<string>,
    minimum: Option<int>)

  /** Python's `==`, `re.fullmatch`, and the three format checks. */
  datatype Python = Python(
    equal: (Json, Json) -> bool,
    fullMatch: (string, string) -> bool,
    isDate: string -> bool,
    isDateTime: string -> bool,
    isUri: string -> bool)

  datatype Kind =
    | NotConstant
    | NotAllowed
    | UnsupportedType
    | WrongType
    | MissingProperty(key: string)
    | UnexpectedProperties
    | TooFewItems
    | DuplicateItem
    | TooShort
    | NoMatch
    | BadFormat
    | TooSmall

  /** One step into a value. */
  datatype Step = Key(key: string) | Index(i: nat)

  datatype Violation = Violation(path: seq<Step>, kind: Kind)

  // ------------------------------------------------------------- local checks

  /** `isinstance(value, int) and not isinstance(value, bool)`. */
  predicate IsInteger(v: Json) {
    v.Num? && JsonModel.IsIntText(v.literal)
  }

  function IntegerValue(v: Json): int
    requires IsInteger(v)
  {
    var t: string := v.literal;
    if t != "" && t[0] == '-' && AllDigits(t[1..]) then -(FromDigits(t[1..]) as int)
    else if AllDigits(t) then FromDigits(t)
    else 0
  }

  function TypeViolation(v: Json, expectedType: string): Option<Kind> {
    if expectedType == "object" then if v.Obj? then None else Some(WrongType)
    else if expectedType == "array" then if v.Arr? then None else Some(WrongType)
    else if expectedType == "string" then if v.Str? then None else Some(WrongType)
    else if expectedType == "integer" then if IsInteger(v) then None else Some(WrongType)
    else if expectedType == "boolean" then if v.Bool? then None else Some(WrongType)
    else Some(UnsupportedType)
  }

  /** The first required key that is absent. */
  function FirstMissing(required: seq<string>, fields: map<string, Json>): Option<string> {
    if required == [] then None
    else if required[0] !in fields then Some(required[0])
    else FirstMissing(required[1..], fields)
  }

  predicate HasProperty(schema: Schema, key: string) {
    exists j :: 0 <= j < |schema.properties| && schema.properties[j].0 == key
  }

  predicate HasRepeatedMarker(items: seq<Json>) {
    var markers := Markers(items);
    exists i, j :: 0 <= i < j < |markers| && markers[i] == markers[j]
  }

  function ObjectViolation(fields: map<string, Json>, schema: Schema): Option<Kind> {
    var missing := FirstMissing(schema.required, fields);
    if missing.Some? then Some(MissingProperty(missing.value))
    else if !schema.additionalProperties && exists k :: k in fields && !HasProperty(schema, k)
    then Some(UnexpectedProperties)
    else None
  }

  function ArrayViolation(items: seq<Json>, schema: Schema): Option<Kind> {
    if schema.minItems.Some? && |items| < schema.minItems.value then Some(TooFewItems)
    else if schema.uniqueItems && HasRepeatedMarker(items) then Some(DuplicateItem)
    else None
  }

  function StringViolation(text: string, schema: Schema, py: Python): Option<Kind> {
    if schema.minLength.Some? && |text| < schema.minLength.value then Some(TooShort)
    else if schema.pattern.Some? && !py.fullMatch(schema.pattern.value, text) then Some(NoMatch)
    else if schema.format == Some("date") && !py.isDate(text) then Some(BadFormat)
    else if schema.format == Some("date-time") && !py.isDateTime(text) then Some(BadFormat)
    else if schema.format == Some("uri") && !py.isUri(text) then Some(BadFormat)
    else None
  }

  /** What a schema has to say about a value itself, before its members and items are looked at. */
  function LocalViolation(v: Json, schema: Schema, py: Python): Option<Kind> {
    if schema.constant.Some? && !py.equal(v, schema.constant.value) then Some(NotConstant)
    else if schema.allowed.Some? && !(exists a :: a in schema.allowed.value && py.equal(v, a)) then Some(NotAllowed)
    else if schema.expectedType.Some? && TypeViolation(v, schema.expectedType.value).Some?
    then TypeViolation(v, schema.expectedType.value)
    else if v.Obj? then ObjectViolation(v.fields, schema)
    else if v.Arr? then ArrayViolation(v.items, schema)
    else if v.Str? then StringViolation(v.text, schema, py)
    else if IsInteger(v) && schema.minimum.Some? && IntegerValue(v) < schema.minimum.value then Some(TooSmall)
    else None
  }

  // ----------------------------------------------------------------- the walk

  function Below(step: Step, inner: Option<Violation>): Option<Violation> {
    match inner
    case None => None
    case Some(violation) => Some(Violation([step] + violation.path, violation.kind))
  }

  /** `validate_instance`: the first complaint, if any. */
  function Validate(v: Json, schema: Schema, py: Python): Option<Violation>
    decreases schema, 1, 0
  {
    match LocalViolation(v, schema, py)
    case Some(kind) => Some(Violation([], kind))
    case None =>
      if v.Obj? then ValidateMembers(v, schema, 0, py)
      else if v.Arr? && schema.items.Some? then ValidateItems(v, schema, 0, py)
      else None
  }

  /** The properties from the `j`-th on that the object has. */
  function ValidateMembers(v: Json, schema: Schema, j: nat, py: Python): Option<Violation>
    requires v.Obj? && j <= |schema.properties|
    decreases schema, 0, |schema.properties| - j
  {
    if j == |schema.properties| then None else
    match schema.properties[j]
    case (key, child) =>
      var first := if key in v.fields then Below(Key(key), Validate(v.fields[key], child, py)) else None;
      if first.Some? then first else ValidateMembers(v, schema, j + 1, py)
  }

  /** The items from the `i`-th on. */
  function ValidateItems(v: Json, schema: Schema, i: nat, py: Python): Option<Violation>
    requires v.Arr? && schema.items.Some? && i <= |v.items|
    decreases schema, 0, |v.items| - i
  {
    if i == |v.items| then None else
    var first := Below(Index(i), Validate(v.items[i], schema.items.value, py));
    if first.Some? then first else ValidateItems(v, schema, i + 1, py)
  }

  // ---------------------------------------------------------------- its meaning

  /** Walking `path` from `v` and `schema` leads to `u`, which `s` is to describe. */
  ghost predicate Leads(v: Json, schema: Schema, path: seq<Step>, u: Json, s: Schema)
    decreases |path|
  {
    if path == [] then u == v && s == schema else
    match path[0]
    case Key(key) =>
      v.Obj? && key in v.fields &&
      exists j :: 0 <= j < |schema.properties| && schema.properties[j].0 == key &&
        Leads(v.fields[key], schema.properties[j].1, path[1..], u, s)
    case Index(i) =>
      v.Arr? && i < |v.items| && schema.items.Some? && Leads(v.items[i], schema.items.value, path[1..], u, s)
  }

  /** The complaint is about a place the walk leads to, and is what that place's schema says of it. */
  ghost predicate Justified(v: Json, schema: Schema, violation: Violation, py: Python) {
    exists u, s :: Leads(v, schema, violation.path, u, s) && LocalViolation(u, s, py) == Some(violation.kind)
  }

  lemma MemberJustified(v: Json, schema: Schema, j: nat, inner: Violation, py: Python)
    requires v.Obj? && j < |schema.properties| && schema.properties[j].0 in v.fields
    requires Justified(v.fields[schema.properties[j].0], schema.properties[j].1, inner, py)
    ensures Justified(v, schema, Violation([Key(schema.properties[j].0)] + inner.path, inner.kind), py)
  {
    var key := schema.properties[j].0;
    var u, s :| Leads(v.fields[key], schema.properties[j].1, inner.path, u, s) &&
      LocalViolation(u, s, py) == Some(inner.kind);
    var path := [Key(key)] + inner.path;
    assert path[1..] == inner.path;
    assert Leads(v, schema, path, u, s);
  }

  lemma ItemJustified(v: Json, schema: Schema, i: nat, inner: Violation, py: Python)
    requires v.Arr? && schema.items.Some? && i < |v.items|
    requires Justified(v.items[i], schema.items.value, inner, py)
    ensures Justified(v, schema, Violation([Index(i)] + inner.path, inner.kind), py)
  {
    var u, s :| Leads(v.items[i], schema.items.value, inner.path, u, s) && LocalViolation(u, s, py) == Some(inner.kind);
    var path := [Index(i)] + inner.path;
    assert path[1..] == inner.path;
    assert Leads(v, schema, path, u, s);
  }

  /** Every complaint points at a place that does violate its schema. */
  lemma {:induction false} ComplaintIsJustified(v: Json, schema: Schema, py: Python)
    ensures Validate(v, schema, py).Some? ==> Justified(v, schema, Validate(v, schema, py).value, py)
    decreases schema, 1, 0
  {
    hide LocalViolation, Leads;
    if LocalViolation(v, schema, py).Some? {
      HereJustified(v, schema, py);
    } else if v.Obj? {
      MembersJustified(v, schema, 0, py);
    } else if v.Arr? && schema.items.Some? {
      ItemsJustified(v, schema, 0, py);
    }
  }

  lemma HereJustified(v: Json, schema: Schema, py: Python)
    requires LocalViolation(v, schema, py).Some?
    ensures Justified(v, schema, Violation([], LocalViolation(v, schema, py).value), py)
  {
    hide LocalViolation;
    assert Leads(v, schema, [], v, schema);
  }

  lemma {:induction false} MembersJustified(v: Json, schema: Schema, j: nat, py: Python)
    requires v.Obj? && j <= |schema.properties|
    ensures ValidateMembers(v, schema, j, py).Some? ==>
      Justified(v, schema, ValidateMembers(v, schema, j, py).value, py)
    decreases schema, 0, |schema.properties| - j
  {
    hide LocalViolation, Leads, Validate, Justified;
    if j < |schema.properties| {
      var (key, child) := schema.properties[j];
      if key in v.fields {
        ComplaintIsJustified(v.fields[key], child, py);
        if Validate(v.fields[key], child, py).Some? {
          MemberJustified(v, schema, j, Validate(v.fields[key], child, py).value, py);
        }
      }
      MembersJustified(v, schema, j + 1, py);
    }
  }

  lemma {:induction false} ItemsJustified(v: Json, schema: Schema, i: nat, py: Python)
    requires v.Arr? && schema.items.Some? && i <= |v.items|
    ensures ValidateItems(v, schema, i, py).Some? ==> Justified(v, schema, ValidateItems(v, schema, i, py).value, py)
    decreases schema, 0, |v.items| - i
  {
    hide LocalViolation, Leads, Validate, Justified;
    if i < |v.items| {
      ComplaintIsJustified(v.items[i], schema.items.value, py);
      if Validate(v.items[i], schema.items.value, py).Some? {
        ItemJustified(v, schema, i, Validate(v.items[i], schema.items.value, py).value, py);
      }
      ItemsJustified(v, schema, i + 1, py);
    }
  }

  /** Silence reaches every member, and every item, the schema describes. */
  lemma {:induction false} SilentMembers(v: Json, schema: Schema, from: nat, j: nat, py: Python)
    requires v.Obj? && from <= j < |schema.properties| && schema.properties[j].0 in v.fields
    requires ValidateMembers(v, schema, from, py).None?
    ensures Validate(v.fields[schema.properties[j].0], schema.properties[j].1, py).None?
    decreases j - from
  {
    hide Validate;
    if from < j {
      SilentMembers(v, schema, from + 1, j, py);
    }
  }

  lemma {:induction false} SilentItems(v: Json, schema: Schema, from: nat, i: nat, py: Python)
    requires v.Arr? && schema.items.Some? && from <= i < |v.items|
    requires ValidateItems(v, schema, from, py).None?
    ensures Validate(v.items[i], schema.items.value, py).None?
    decreases i - from
  {
    hide Validate;
    if from < i {
      SilentItems(v, schema, from + 1, i, py);
    }
  }

  /** When the validator is silent, so is every schema about every place the walk leads to. */
  lemma {:induction false} SilenceReaches(v: Json, schema: Schema, path: seq<Step>, u: Json, s: Schema, py: Python)
    requires Validate(v, schema, py).None? && Leads(v, schema, path, u, s)
    ensures LocalViolation(u, s, py).None?
    decreases |path|
  {
    hide LocalViolation;
    if path != [] {
      match path[0] {
        case Key(key) =>
          var j :| 0 <= j < |schema.properties| && schema.properties[j].0 == key &&
            Leads(v.fields[key], schema.properties[j].1, path[1..], u, s);
          SilentMembers(v, schema, 0, j, py);
          SilenceReaches(v.fields[key], schema.properties[j].1, path[1..], u, s, py);
        case Index(i) =>
          SilentItems(v, schema, 0, i, py);
          SilenceReaches(v.items[i], schema.items.value, path[1..], u, s, py);
      }
    }
  }

  /** No schema the walk leads to has anything to say against the value it leads to. */
  ghost predicate NothingReachableViolates(v: Json, schema: Schema, py: Python) {
    forall path, u, s :: Leads(v, schema, path, u, s) ==> LocalViolation(u, s, py).None?
  }

  lemma ViolationIsReachable(v: Json, schema: Schema, violation: Violation, py: Python)
    requires Justified(v, schema, violation, py)
    ensures !NothingReachableViolates(v, schema, py)
  {
    hide LocalViolation, Leads;
    var u, s :| Leads(v, schema, violation.path, u, s) && LocalViolation(u, s, py) == Some(violation.kind);
    assert LocalViolation(u, s, py).Some?;
  }

  /**
    A value is accepted exactly when, at every place the schema leads to, however deep,
    the schema of that place has nothing to say against the value there.
   */
  lemma AcceptedIffNothingReachableViolates(v: Json, schema: Schema, py: Python)
    ensures Validate(v, schema, py).None? <==> NothingReachableViolates(v, schema, py)
  {
    hide Validate, LocalViolation, Leads, Justified;
    if Validate(v, schema, py).None? {
      forall path, u, s | Leads(v, schema, path, u, s) ensures LocalViolation(u, s, py).None? {
        SilenceReaches(v, schema, path, u, s, py);
      }
    } else {
      ComplaintIsJustified(v, schema, py);
      ViolationIsReachable(v, schema, Validate(v, schema, py).value, py);
    }
  }

  /** An accepted closed object has all the required keys and no others than its properties. */
  lemma {:induction false} AcceptedObjectKeys(v: Json, schema: Schema, py: Python)
    requires v.Obj? && Validate(v, schema, py).None?
    ensures forall k :: k in schema.required ==> k in v.fields
    ensures !schema.additionalProperties ==> forall k :: k in v.fields ==> HasProperty(schema, k)
  {
    assert ObjectViolation(v.fields, schema).None?;
    NoneMissing(schema.required, v.fields);
  }

  lemma {:induction false} NoneMissing(required: seq<string>, fields: map<string, Json>)
    ensures FirstMissing(required, fields).None? <==> forall k :: k in required ==> k in fields
  {
    if required != [] {
      NoneMissing(required[1..], fields);
      assert forall k :: k in required <==> k == required[0] || k in required[1..];
    }
  }

  /** In an accepted array that is to hold unique items, no two items are equal. */
  lemma AcceptedUniqueItems(v: Json, schema: Schema, py: Python, i: nat, j: nat)
    requires v.Arr? && schema.uniqueItems && Validate(v, schema, py).None? && i < j < |v.items|
    ensures v.items[i] != v.items[j]
  {
    assert ArrayViolation(v.items, schema).None?;
    MarkersTell(v.items, Markers(v.items));
  }

  // ---------------------------------------------------- the keywords one by one

  /** The value is of the kind a `type` keyword names. */
  predicate HasType(v: Json, name: string) {
    (name == "object" && v.Obj?) || (name == "array" && v.Arr?) || (name == "string" && v.Str?) ||
    (name == "boolean" && v.Bool?) || (name == "integer" && v.Num? && IsWholeText(v.literal))
  }

  /** The text of a whole number: digits after an optional minus. */
  predicate IsWholeText(t: NumberText) {
    forall i :: 0 <= i < |t| ==> '0' <= t[i] <= '9' || t[i] == '-'
  }

  /** The whole number that a number's text writes. */
  ghost predicate Writes(t: NumberText, n: int) {
    IsWholeText(t) && (t == ToDigits(if n < 0 then -n else n) || (t == "-" + ToDigits(if n < 0 then -n else n))) &&
    (n < 0 ==> t[0] == '-') && (n > 0 ==> t[0] != '-')
  }

  ghost predicate TextSatisfies(text: string, s: Schema, py: Python) {
    (s.minLength.Some? ==> |text| >= s.minLength.value) &&
    (s.pattern.Some? ==> py.fullMatch(s.pattern.value, text)) &&
    (s.format == Some("date") ==> py.isDate(text)) &&
    (s.format == Some("date-time") ==> py.isDateTime(text)) &&
    (s.format == Some("uri") ==> py.isUri(text))
  }

  ghost predicate ArraySatisfies(items: seq<Json>, s: Schema) {
    (s.minItems.Some? ==> |items| >= s.minItems.value) &&
    (s.uniqueItems ==> forall i, j :: 0 <= i < j < |items| ==> items[i] != items[j])
  }

  ghost predicate ObjectSatisfies(fields: map<string, Json>, s: Schema) {
    (forall k :: k in s.required ==> k in fields) &&
    (!s.additionalProperties ==> forall k :: k in fields ==>
      exists j :: 0 <= j < |s.properties| && s.properties[j].0 == k)
  }

  /** The value satisfies every keyword of the schema that speaks of the value itself. */
  ghost predicate Satisfies(v: Json, s: Schema, py: Python) {
    (s.constant.Some? ==> py.equal(v, s.constant.value)) &&
    (s.allowed.Some? ==> exists i :: 0 <= i < |s.allowed.value| && py.equal(v, s.allowed.value[i])) &&
    (s.expectedType.Some? ==> HasType(v, s.expectedType.value)) &&
    (v.Obj? ==> ObjectSatisfies(v.fields, s)) &&
    (v.Arr? ==> ArraySatisfies(v.items, s)) &&
    (v.Str? ==> TextSatisfies(v.text, s, py)) &&
    (v.Num? && IsWholeText(v.literal) && s.minimum.Some? ==> IntegerValue(v) >= s.minimum.value)
  }

  lemma WholeNumberReads(v: Json, n: int)
    requires v.Num? && Writes(v.literal, n)
    ensures IsInteger(v) && IntegerValue(v) == n
  {
    var digits := ToDigits(if n < 0 then -n else n);
    FromToDigits(if n < 0 then -n else n);
    assert ("-" + digits)[1..] == digits;
    assert IsDigitChar(digits[0]);
  }

  lemma ArraySatisfiesIff(items: seq<Json>, s: Schema)
    ensures ArrayViolation(items, s).None? <==> ArraySatisfies(items, s)
  {
    var markers := Markers(items);
    MarkersTell(items, markers);
  }

  lemma ObjectSatisfiesIff(fields: map<string, Json>, s: Schema)
    ensures ObjectViolation(fields, s).None? <==> ObjectSatisfies(fields, s)
  {
    NoneMissing(s.required, fields);
  }

  lemma AllowedIff(v: Json, allowed: seq<Json>, py: Python)
    ensures (exists a :: a in allowed && py.equal(v, a)) <==> exists i :: 0 <= i < |allowed| && py.equal(v, allowed[i])
  {
    if a :| a in allowed && py.equal(v, a) {
      var i :| 0 <= i < |allowed| && allowed[i] == a;
    }
  }

  /** A schema has nothing to say against a value exactly when the value satisfies its keywords. */
  lemma SatisfiesIff(v: Json, s: Schema, py: Python)
    ensures LocalViolation(v, s, py).None? <==> Satisfies(v, s, py)
  {
    hide ObjectViolation, ArrayViolation, ObjectSatisfies, ArraySatisfies, IntegerValue;
    if s.allowed.Some? {
      AllowedIff(v, s.allowed.value, py);
    }
    if v.Obj? {
      ObjectSatisfiesIff(v.fields, s);
    }
    if v.Arr? {
      ArraySatisfiesIff(v.items, s);
    }
  }

  ghost predicate AllSatisfied(v: Json, schema: Schema, py: Python) {
    forall path, u, s :: Leads(v, schema, path, u, s) ==> Satisfies(u, s, py)
  }

  /** A value is accepted exactly when every place the schema leads to, however deep, satisfies the keywords there. */
  lemma AcceptedIffSatisfied(v: Json, schema: Schema, py: Python)
    ensures Validate(v, schema, py).None? <==> AllSatisfied(v, schema, py)
  {
    hide Validate, Leads, LocalViolation, Satisfies;
    AcceptedIffNothingReachableViolates(v, schema, py);
    forall path, u, s | Leads(v, schema, path, u, s) ensures LocalViolation(u, s, py).None? <==> Satisfies(u, s, py) {
      SatisfiesIff(u, s, py);
    }
  }

  /** What a complaint says is so. */
  ghost predicate IsTrue(kind: Kind, v: Json, s: Schema, py: Python) {
    match kind
    case NotConstant => s.constant.Some? && !py.equal(v, s.constant.value)
    case NotAllowed => s.allowed.Some? && forall i :: 0 <= i < |s.allowed.value| ==> !py.equal(v, s.allowed.value[i])
    case UnsupportedType =>
      s.expectedType.Some? && s.expectedType.value !in {"object", "array", "string", "integer", "boolean"}
    case WrongType =>
      s.expectedType.Some? && s.expectedType.value in {"object", "array", "string", "integer", "boolean"} &&
      !HasType(v, s.expectedType.value)
    case MissingProperty(key) => v.Obj? && key in s.required && key !in v.fields
    case UnexpectedProperties =>
      v.Obj? && !s.additionalProperties &&
      exists k :: k in v.fields && forall j :: 0 <= j < |s.properties| ==> s.properties[j].0 != k
    case TooFewItems => v.Arr? && s.minItems.Some? && |v.items| < s.minItems.value
    case DuplicateItem => v.Arr? && s.uniqueItems && exists i, j :: 0 <= i < j < |v.items| && v.items[i] == v.items[j]
    case TooShort => v.Str? && s.minLength.Some? && |v.text| < s.minLength.value
    case NoMatch => v.Str? && s.pattern.Some? && !py.fullMatch(s.pattern.value, v.text)
    case BadFormat =>
      v.Str? && ((s.format == Some("date") && !py.isDate(v.text)) ||
        (s.format == Some("date-time") && !py.isDateTime(v.text)) || (s.format == Some("uri") && !py.isUri(v.text)))
    case TooSmall => v.Num? && IsWholeText(v.literal) && s.minimum.Some? && IntegerValue(v) < s.minimum.value
  }

  lemma {:induction false} MissingIsMissing(required: seq<string>, fields: map<string, Json>)
    ensures var missing := FirstMissing(required, fields);
      missing.Some? ==> missing.value in required && missing.value !in fields
  {
    if required != [] {
      MissingIsMissing(required[1..], fields);
    }
  }

  /** No complaint is false. */
  lemma ViolationIsTrue(v: Json, s: Schema, py: Python)
    requires LocalViolation(v, s, py).Some?
    ensures IsTrue(LocalViolation(v, s, py).value, v, s, py)
  {
    hide IntegerValue, ObjectViolation, ArrayViolation, StringViolation, HasType;
    if s.allowed.Some? {
      AllowedIff(v, s.allowed.value, py);
    }
    if s.expectedType.Some? {
      TypeComplaint(v, s.expectedType.value);
    }
    match v {
      case Obj(fields) => ObjectComplaint(fields, s, py);
      case Arr(items) => ArrayComplaint(items, s, py);
      case Str(text) => StringComplaint(text, s, py);
      case _ =>
    }
  }

  lemma TypeComplaint(v: Json, name: string)
    ensures TypeViolation(v, name) == Some(WrongType) ==>
      name in {"object", "array", "string", "integer", "boolean"} && !HasType(v, name)
    ensures TypeViolation(v, name) == Some(UnsupportedType) ==>
      name !in {"object", "array", "string", "integer", "boolean"}
    ensures TypeViolation(v, name).Some? ==> TypeViolation(v, name).value in {WrongType, UnsupportedType}
  {
  }

  lemma ObjectComplaint(fields: map<string, Json>, s: Schema, py: Python)
    ensures ObjectViolation(fields, s).Some? ==> IsTrue(ObjectViolation(fields, s).value, Obj(fields), s, py)
  {
    hide FirstMissing;
    MissingIsMissing(s.required, fields);
  }

  lemma ArrayComplaint(items: seq<Json>, s: Schema, py: Python)
    ensures ArrayViolation(items, s).Some? ==> IsTrue(ArrayViolation(items, s).value, Arr(items), s, py)
  {
    MarkersTell(items, Markers(items));
  }

  lemma StringComplaint(text: string, s: Schema, py: Python)
    ensures StringViolation(text, s, py).Some? ==> IsTrue(StringViolation(text, s, py).value, Str(text), s, py)
  {
  }

  /** Every complaint is true of a place the schema leads to, at the path it carries. */
  lemma ComplaintIsTrue(v: Json, schema: Schema, py: Python)
    requires Validate(v, schema, py).Some?
    ensures var complaint := Validate(v, schema, py).value;
      exists u, s :: Leads(v, schema, complaint.path, u, s) && IsTrue(complaint.kind, u, s, py)
  {
    hide Validate, Leads, LocalViolation, IsTrue;
    var complaint := Validate(v, schema, py).value;
    ComplaintIsJustified(v, schema, py);
    var u, s :| Leads(v, schema, complaint.path, u, s) && LocalViolation(u, s, py) == Some(complaint.kind);
    ViolationIsTrue(u, s, py);
  }
}
