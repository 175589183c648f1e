/** The signed source registry of the source-watch bot. */
module Registry {
  import opened Wrappers
  import opened JsonModel
  import opened CanonicalJson
  import opened JsonLayout
  import opened Text

  const SIGNATURE_ALG: string := "sha256:identity"

  /** `[registry]`, or an empty table when there is none. */
  function Metadata(registry: map<string, Json>): map<string, Json>
    requires "registry" in registry ==> registry["registry"].Obj?
  {
    if "registry" in registry then registry["registry"].fields else map[]
  }

  /** What the signature covers: the registry without `registry.signature`. */
  function SignedPart(registry: map<string, Json>): map<string, Json>
    requires "registry" in registry ==> registry["registry"].Obj?
  {
    registry["registry" := Obj(Metadata(registry) - {"signature"})]
  }

  function CanonicalPayload(registry: map<string, Json>): string
    requires "registry" in registry ==> registry["registry"].Obj?
  {
    Dump(Obj(SignedPart(registry)), false)
  }

  lemma UpdateThenDrop(m: map<string, Json>, k: string, v: Json)
    ensures m[k := v] - {k} == m - {k}
  {
  }

  lemma SameRestAndEntry(m: map<string, Json>, n: map<string, Json>, k: string)
    requires m - {k} == n - {k} && k in m && k in n && m[k] == n[k]
    ensures m == n
  {
    forall key ensures key in m <==> key in n
      ensures key in m ==> m[key] == n[key]
    {
      assert key != k ==> (key in m <==> key in m - {k}) && (key in n <==> key in n - {k});
      assert key != k && key in m ==> (m - {k})[key] == m[key];
      assert key != k && key in n ==> (n - {k})[key] == n[key];
    }
  }

  /** Two registries have the same payload exactly when they agree apart from the signature. */
  lemma SamePayloadIffSameSignedPart(r: map<string, Json>, s: map<string, Json>)
    requires "registry" in r ==> r["registry"].Obj?
    requires "registry" in s ==> s["registry"].Obj?
    ensures CanonicalPayload(r) == CanonicalPayload(s) <==>
      r - {"registry"} == s - {"registry"} && Metadata(r) - {"signature"} == Metadata(s) - {"signature"}
  {
    DumpInjective(Obj(SignedPart(r)), Obj(SignedPart(s)), false);
    var m, n := Obj(Metadata(r) - {"signature"}), Obj(Metadata(s) - {"signature"});
    UpdateThenDrop(r, "registry", m);
    UpdateThenDrop(s, "registry", n);
    var p, q := SignedPart(r), SignedPart(s);
    if p == q {
      assert p["registry"] == q["registry"];
    } else if r - {"registry"} == s - {"registry"} && m == n {
      SameRestAndEntry(p, q, "registry");
    }
  }

  datatype RegistryError =
    | MissingMetadata
    | UnsupportedAlg
    | SignatureMismatch(expected: string)
    | NoSources
    | NonTableSource
    | BadSource(reason: SourceError)
    | DuplicateSource(id: string)

  datatype SourceError = MissingFields | BadCadence | BadConfidence | BadHeaders

  datatype Source = Source(
    id: string, name: string, jurisdiction: string, url: string, cadence: string, kind: string,
    confidence: string, proposedAction: string, headers: map<string, string>)

  /** The checks `load_registry` makes before it looks at any source. */
  function CheckSignature(registry: map<string, Json>, sha256: string -> string): Result<(), RegistryError> {
    if "registry" !in registry || !registry["registry"].Obj? then Err(MissingMetadata) else
    var metadata := registry["registry"].fields;
    if "signature_alg" !in metadata || metadata["signature_alg"] != Str(SIGNATURE_ALG) then Err(UnsupportedAlg) else
    var expected := sha256(CanonicalPayload(registry));
    if "signature" !in metadata || metadata["signature"] != Str(expected) then Err(SignatureMismatch(expected))
    else Ok(())
  }

  /** Writing the printed signature into `[registry]`, as the operator does. */
  function Sign(registry: map<string, Json>, sha256: string -> string): map<string, Json>
    requires "registry" in registry ==> registry["registry"].Obj?
  {
    registry["registry" := Obj(Metadata(registry)["signature" := Str(sha256(CanonicalPayload(registry)))])]
  }

  /** Signing does not disturb what is signed, so the signed registry passes its own check. */
  lemma SignedRegistryPasses(registry: map<string, Json>, sha256: string -> string)
    requires "registry" in registry && registry["registry"].Obj?
    requires "signature_alg" in Metadata(registry) && Metadata(registry)["signature_alg"] == Str(SIGNATURE_ALG)
    ensures CanonicalPayload(Sign(registry, sha256)) == CanonicalPayload(registry)
    ensures CheckSignature(Sign(registry, sha256), sha256) == Ok(())
  {
    var signed := Sign(registry, sha256);
    var signature := Str(sha256(CanonicalPayload(registry)));
    UpdateThenDrop(Metadata(registry), "signature", signature);
    UpdateThenDrop(registry, "registry", Obj(Metadata(registry)["signature" := signature]));
    SamePayloadIffSameSignedPart(signed, registry);
  }

  /** Unless the hash collides on them, two registries that pass with one signature are the same registry. */
  lemma SignatureFixesRegistry(r: map<string, Json>, s: map<string, Json>, sha256: string -> string)
    requires CheckSignature(r, sha256) == Ok(()) && CheckSignature(s, sha256) == Ok(())
    requires sha256(CanonicalPayload(r)) == sha256(CanonicalPayload(s)) ==> CanonicalPayload(r) == CanonicalPayload(s)
    requires Metadata(r)["signature"] == Metadata(s)["signature"]
    ensures r == s
  {
    SamePayloadIffSameSignedPart(r, s);
    SameRestAndEntry(Metadata(r), Metadata(s), "signature");
    SameRestAndEntry(r, s, "registry");
  }

  predicate HasText(raw: map<string, Json>, key: string) {
    key in raw && raw[key].Str? && raw[key].text != ""
  }

  predicate HasRequiredFields(raw: map<string, Json>) {
    HasText(raw, "id") && HasText(raw, "name") && HasText(raw, "jurisdiction") && HasText(raw, "url") &&
    HasText(raw, "cadence") && HasText(raw, "kind") && HasText(raw, "confidence") && HasText(raw, "proposed_action")
  }

  function SourceFromRaw(raw: map<string, Json>): (r: Result<Source, SourceError>)
    ensures r.Ok? ==> HasText(raw, "id") && r.value.id == raw["id"].text
  {
    if !HasRequiredFields(raw) then Err(MissingFields) else
    if raw["cadence"].text != "daily" then Err(BadCadence)
    else if raw["confidence"].text !in ["official-source", "partner-source", "community"] then Err(BadConfidence)
    else
      var headers := if "headers" in raw then raw["headers"] else Obj(map[]);
      if !headers.Obj? || exists k :: k in headers.fields && !headers.fields[k].Str? then Err(BadHeaders)
      else
        Ok(Source(raw["id"].text, raw["name"].text, raw["jurisdiction"].text, raw["url"].text, raw["cadence"].text,
                  raw["kind"].text, raw["confidence"].text, raw["proposed_action"].text,
                  map k | k in headers.fields :: headers.fields[k].text))
  }

  ghost predicate DistinctIds(sources: seq<Source>) {
    forall i, j :: 0 <= i < j < |sources| ==> sources[i].id != sources[j].id
  }

  /** The `[[sources]]` entries, or nothing when there is no such non-empty array. */
  function RawSources(registry: map<string, Json>): seq<Json> {
    if "sources" in registry && registry["sources"].Arr? then registry["sources"].items else []
  }

  /** One entry of the array, read as a source. */
  function EntrySource(raw: Json): Result<Source, RegistryError> {
    if !raw.Obj? then Err(NonTableSource) else
    match SourceFromRaw(raw.fields)
    case Err(reason) => Err(BadSource(reason))
    case Ok(source) => Ok(source)
  }

  /** Every entry reads as a source and no two share an id. */
  ghost predicate GoodSources(raw: seq<Json>, read: Json -> Result<Source, RegistryError>) {
    (forall i :: 0 <= i < |raw| ==> read(raw[i]).Ok?) &&
    forall i, j :: 0 <= i < j < |raw| ==> read(raw[i]).Extract().id != read(raw[j]).Extract().id
  }

  /** The `n`-th entry is the first that does not read, or that repeats an id, and the error says so. */
  ghost predicate IsFirstFault(raw: seq<Json>, read: Json -> Result<Source, RegistryError>, n: int,
                               error: RegistryError)
    requires 0 <= n < |raw|
  {
    GoodSources(raw[..n], read) &&
    match read(raw[n])
    case Err(reason) => error == reason
    case Ok(source) =>
      error == DuplicateSource(source.id) && exists i :: 0 <= i < n && read(raw[i]).Extract().id == source.id
  }

  /** The source loop of `load_registry`, given how one entry is read. */
  method LoadSources(raw: seq<Json>, read: Json -> Result<Source, RegistryError>)
      returns (r: Result<seq<Source>, RegistryError>)
    ensures r.Ok? <==> GoodSources(raw, read)
    ensures r.Ok? ==> |r.value| == |raw| && DistinctIds(r.value)
    ensures r.Ok? ==> forall i :: 0 <= i < |raw| ==> read(raw[i]) == Ok(r.value[i])
    ensures r.Err? ==> exists n :: 0 <= n < |raw| && IsFirstFault(raw, read, n, r.error)
  {
    var seen: set<string> := {};
    var sources: seq<Source> := [];
    for n := 0 to |raw|
      invariant |sources| == n && DistinctIds(sources)
      invariant forall i :: 0 <= i < n ==> read(raw[i]) == Ok(sources[i])
      invariant forall id :: id in seen <==> exists i :: 0 <= i < n && sources[i].id == id
    {
      var source := read(raw[n]);
      if source.Err? {
        assert IsFirstFault(raw, read, n, source.error);
        return Err(source.error);
      }
      if source.value.id in seen {
        var i :| 0 <= i < n && sources[i].id == source.value.id;
        assert read(raw[i]).Extract().id == read(raw[n]).Extract().id;
        assert IsFirstFault(raw, read, n, DuplicateSource(source.value.id));
        return Err(DuplicateSource(source.value.id));
      }
      seen := seen + {source.value.id};
      sources := sources + [source.value];
    }
    return Ok(sources);
  }

  /** `load_registry` on a decoded registry: the signature first, then the sources. */
  method LoadRegistry(registry: map<string, Json>, sha256: string -> string)
      returns (r: Result<seq<Source>, RegistryError>)
    ensures r.Ok? <==>
      CheckSignature(registry, sha256).Ok? && RawSources(registry) != [] &&
        GoodSources(RawSources(registry), EntrySource)
    ensures CheckSignature(registry, sha256).Err? ==> r == Err(CheckSignature(registry, sha256).error)
    ensures CheckSignature(registry, sha256).Ok? && RawSources(registry) == [] ==> r == Err(NoSources)
    ensures r.Ok? ==>
      |r.value| == |RawSources(registry)| &&
      forall i :: 0 <= i < |r.value| ==> EntrySource(RawSources(registry)[i]) == Ok(r.value[i])
    ensures r.Ok? ==> r.value != [] && DistinctIds(r.value)
  {
    var check := CheckSignature(registry, sha256);
    if check.Err? {
      return Err(check.error);
    }
    if RawSources(registry) == [] {
      return Err(NoSources);
    }
    r := LoadSources(RawSources(registry), EntrySource);
  }

  // ------------------------------------------------------- what a registry says

  ghost predicate SaysText(raw: map<string, Json>, key: string, text: string) {
    key in raw && raw[key] == Str(text) && text != ""
  }

  /** The table describes this source. */
  ghost predicate Describes(raw: map<string, Json>, source: Source) {
    SaysText(raw, "id", source.id) && SaysText(raw, "name", source.name) &&
    SaysText(raw, "jurisdiction", source.jurisdiction) && SaysText(raw, "url", source.url) &&
    SaysText(raw, "cadence", source.cadence) && SaysText(raw, "kind", source.kind) &&
    SaysText(raw, "confidence", source.confidence) && SaysText(raw, "proposed_action", source.proposedAction) &&
    source.cadence == "daily" && source.confidence in {"official-source", "partner-source", "community"} &&
    if "headers" !in raw then source.headers == map[] else
      raw["headers"].Obj? && source.headers.Keys == raw["headers"].fields.Keys &&
      forall k :: k in source.headers ==> raw["headers"].fields[k] == Str(source.headers[k])
  }

  /** A table reads as the source it describes, and as no other. */
  lemma SourceIff(raw: map<string, Json>, source: Source)
    ensures SourceFromRaw(raw) == Ok(source) <==> Describes(raw, source)
  {
    if Describes(raw, source) {
      assert "headers" in raw ==>
        (map k | k in raw["headers"].fields :: raw["headers"].fields[k].text) == source.headers;
    }
  }

  /** The reasons a table is refused, in their order. */
  lemma RefusedBecause(raw: map<string, Json>)
    ensures SourceFromRaw(raw) == Err(MissingFields) <==>
      exists key :: key in {"id", "name", "jurisdiction", "url", "cadence", "kind", "confidence", "proposed_action"} &&
        !HasText(raw, key)
    ensures SourceFromRaw(raw) == Err(BadCadence) ==> HasRequiredFields(raw) && raw["cadence"] != Str("daily")
    ensures SourceFromRaw(raw) == Err(BadConfidence) ==>
      HasRequiredFields(raw) && raw["cadence"] == Str("daily") &&
      raw["confidence"].text !in {"official-source", "partner-source", "community"}
    ensures SourceFromRaw(raw) == Err(BadHeaders) ==>
      "headers" in raw &&
      (raw["headers"].Obj? ==> exists k :: k in raw["headers"].fields && !raw["headers"].fields[k].Str?)
  {
    var keys := {"id", "name", "jurisdiction", "url", "cadence", "kind", "confidence", "proposed_action"};
    assert "id" in keys && "name" in keys && "jurisdiction" in keys && "url" in keys;
    assert "cadence" in keys && "kind" in keys && "confidence" in keys && "proposed_action" in keys;
  }

  /** When the signature is accepted, and what is said otherwise. */
  lemma SignatureAcceptedIff(registry: map<string, Json>, sha256: string -> string)
    ensures CheckSignature(registry, sha256).Ok? <==>
      "registry" in registry && registry["registry"].Obj? &&
      var metadata := registry["registry"].fields;
      "signature_alg" in metadata && metadata["signature_alg"] == Str("sha256:identity") &&
      "signature" in metadata && metadata["signature"] == Str(sha256(CanonicalPayload(registry)))
    ensures CheckSignature(registry, sha256) == Err(MissingMetadata) <==>
      "registry" !in registry || !registry["registry"].Obj?
    ensures CheckSignature(registry, sha256) == Err(UnsupportedAlg) <==>
      "registry" in registry && registry["registry"].Obj? &&
      ("signature_alg" in registry["registry"].fields ==>
        registry["registry"].fields["signature_alg"] != Str("sha256:identity"))
    ensures CheckSignature(registry, sha256).Err? && CheckSignature(registry, sha256).error.SignatureMismatch? ==>
      CheckSignature(registry, sha256).error.expected == sha256(CanonicalPayload(registry))
  {
  }

  /** The entries a registry offers, and how one is read. */
  lemma EntriesAre(registry: map<string, Json>, raw: Json)
    ensures RawSources(registry) != [] <==>
      "sources" in registry && registry["sources"].Arr? && registry["sources"].items != []
    ensures "sources" in registry && registry["sources"].Arr? ==> RawSources(registry) == registry["sources"].items
    ensures EntrySource(raw) == Err(NonTableSource) <==> !raw.Obj?
    ensures raw.Obj? ==> forall source :: EntrySource(raw) == Ok(source) <==> Describes(raw.fields, source)
    ensures raw.Obj? ==> forall reason :: EntrySource(raw) == Err(BadSource(reason)) <==>
      SourceFromRaw(raw.fields) == Err(reason)
  {
    hide SourceFromRaw, Describes;
    if raw.Obj? {
      forall source ensures SourceFromRaw(raw.fields) == Ok(source) <==> Describes(raw.fields, source) {
        SourceIff(raw.fields, source);
      }
    }
  }

  /** The payload as it is laid out: the signed members in key order, without a blank and with no needless escape. */
  lemma PayloadLayout(registry: map<string, Json>)
    requires "registry" in registry ==> registry["registry"].Obj?
    ensures var signed := SignedPart(registry);
      CanonicalPayload(registry) == "{" + JoinWith(MemberDumps(signed, Sorted(signed.Keys), false), ",") + "}"
  {
    DumpLayout([], SignedPart(registry), false);
  }
}
