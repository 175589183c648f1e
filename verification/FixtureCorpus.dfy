/**
  The conformance corpus: every fixture's metadata is checked against the files beside
  it, ids are unique, and no artifact is left undeclared.
 */
module FixtureCorpus {
  import opened Preimage
  import opened Wrappers

  /** The components of a path below the corpus root. */
  type Path = seq<string>

  /** What `metadata.json` says, once it has passed the schema and the publication policy. */
  datatype Metadata = Metadata(fixtureId: string, artifactPath: string, sizeBytes: nat, sha256: string,
                               evidencePath: Option<string>, redactionPath: Option<string>)

  /** The regular files of the corpus, by path. */
  type Corpus = c: map<Path, Bytes> | forall p :: p in c ==> p != [] witness map[]

  /** The calls the check makes: decoding with schema and policy, and SHA-256. */
  datatype Tools = Tools(decode: Bytes -> Option<Metadata>, sha256: Bytes -> string)

  function Directory(p: Path): Path
    requires p != []
  {
    p[..|p| - 1]
  }

  function Name(p: Path): string
    requires p != []
  {
    p[|p| - 1]
  }

  // -------------------------------------------------------------------- paths

  /** `Path(value).parts`, without the root: empty and `.` components vanish. */
  function Parts(value: string): Path {
    if value == "" then [] else
    var n := SegmentLength(value);
    var rest := if n < |value| then Parts(value[n + 1..]) else [];
    if value[..n] == "" || value[..n] == "." then rest else [value[..n]] + rest
  }

  function SegmentLength(value: string): (n: nat)
    ensures n <= |value|
  {
    if value == "" || value[0] == '/' then 0 else 1 + SegmentLength(value[1..])
  }

  /** `validate_contained_relative_path`: neither absolute nor climbing. */
  function Contained(value: string): Option<Path> {
    if (value != "" && value[0] == '/') || ".." in Parts(value) then None else Some(Parts(value))
  }

  /** `Path.suffix`. */
  function Suffix(name: string): string {
    var i := LastDot(name);
    if i == 0 || i + 1 >= |name| then "" else name[i..]
  }

  /** Where the last dot is; zero when there is none. */
  function LastDot(name: string): (i: nat)
    ensures i < |name| || name == ""
  {
    if name == "" then 0
    else if name[|name| - 1] == '.' then |name| - 1
    else if |name| == 1 then 0
    else LastDot(name[..|name| - 1])
  }

  predicate IsMetadata(p: Path) {
    p != [] && Name(p) == "metadata.json"
  }

  /** `iter_artifact_files`, as a condition on one file. */
  predicate IsArtifact(p: Path) {
    p != [] && p != ["fixture-metadata.schema.json"] &&
    Name(p) !in ["README.md", "metadata.json", "scenario.json"] &&
    p[0] !in ["generators", "fuzz", "gobl-upstream", "pdf-snapshots"] &&
    Suffix(Name(p)) in [".json", ".xml", ".pdf"]
  }

  // ----------------------------------------------------------- one metadata file

  datatype CorpusError =
    | NoMetadataFiles
    | InvalidMetadata(at: Path)
    | PathEscapes(at: Path)
    | ArtifactMissing(at: Path)
    | SizeMismatch(at: Path)
    | HashMismatch(at: Path)
    | ReferenceMissing(at: Path)
    | DuplicateId(at: Path, previous: Path)
    | NoSiblingMetadata(artifact: Path)
    | NotDeclared(artifact: Path)

  /** The file a relative path in `at`'s directory names, if it stays inside. */
  function Target(at: Path, value: string): Option<Path>
    requires at != []
  {
    match Contained(value)
    case None => None
    case Some(parts) => Some(Directory(at) + parts)
  }

  predicate ArtifactOk(corpus: Corpus, tools: Tools, at: Path, m: Metadata)
    requires at != []
  {
    var target := Target(at, m.artifactPath);
    target.Some? && target.value in corpus &&
    |corpus[target.value]| == m.sizeBytes && tools.sha256(corpus[target.value]) == m.sha256
  }

  predicate ReferenceOk(corpus: Corpus, at: Path, value: Option<string>)
    requires at != []
  {
    value.Some? ==> Target(at, value.value).Some? && Target(at, value.value).value in corpus
  }

  /** The metadata file at `at` decodes, and what it names is there and is what it says. */
  predicate MetadataOk(corpus: Corpus, tools: Tools, at: Path)
    requires at in corpus
  {
    match tools.decode(corpus[at])
    case None => false
    case Some(m) =>
      ArtifactOk(corpus, tools, at, m) && ReferenceOk(corpus, at, m.evidencePath) &&
        ReferenceOk(corpus, at, m.redactionPath)
  }

  /** What an error says is so. */
  ghost predicate IsTrue(error: CorpusError, corpus: Corpus, tools: Tools) {
    match error
    case NoMetadataFiles => forall at :: at in corpus ==> !IsMetadata(at)
    case InvalidMetadata(at) => at in corpus && tools.decode(corpus[at]).None?
    case PathEscapes(at) => exists m, text :: Mentions(corpus, tools, at, m, text) && Contained(text).None?
    case ArtifactMissing(at) =>
      exists m, p :: Declares(corpus, tools, at, m, p) && p !in corpus
    case SizeMismatch(at) =>
      exists m, p :: Declares(corpus, tools, at, m, p) && p in corpus && |corpus[p]| != m.sizeBytes
    case HashMismatch(at) =>
      exists m, p :: Declares(corpus, tools, at, m, p) && p in corpus && tools.sha256(corpus[p]) != m.sha256
    case ReferenceMissing(at) =>
      exists m, text, p :: Mentions(corpus, tools, at, m, text) && Target(at, text) == Some(p) && p !in corpus
    case DuplicateId(at, previous) =>
      at in corpus && previous in corpus && at != previous && IdOf(corpus, tools, at).Some? &&
      IdOf(corpus, tools, at) == IdOf(corpus, tools, previous)
    case NoSiblingMetadata(p) =>
      p in corpus && IsArtifact(p) && !IsReference(corpus, tools, p) && MetadataIn(corpus, tools, Directory(p)).None?
    case NotDeclared(p) =>
      p in corpus && IsArtifact(p) && !IsReference(corpus, tools, p) && !IsDeclared(corpus, tools, p) &&
      MetadataIn(corpus, tools, Directory(p)).Some?
  }

  /** The metadata file names this path. */
  ghost predicate Mentions(corpus: Corpus, tools: Tools, at: Path, m: Metadata, text: string) {
    at in corpus && tools.decode(corpus[at]) == Some(m) &&
    (text == m.artifactPath || m.evidencePath == Some(text) || m.redactionPath == Some(text))
  }

  /** The metadata file declares this artifact. */
  ghost predicate Declares(corpus: Corpus, tools: Tools, at: Path, m: Metadata, p: Path) {
    at in corpus && tools.decode(corpus[at]) == Some(m) && Target(at, m.artifactPath) == Some(p)
  }

  method ValidateReference(corpus: Corpus, at: Path, value: Option<string>) returns (r: Result<(), CorpusError>)
    requires at != []
    ensures r.Ok? <==> ReferenceOk(corpus, at, value)
    ensures r.Err? ==> value.Some?
    ensures r.Err? && Contained(value.value).None? ==> r.error == PathEscapes(at)
    ensures r.Err? && Contained(value.value).Some? ==>
      r.error == ReferenceMissing(at) && Target(at, value.value).value !in corpus
  {
    if value.None? {
      return Ok(());
    }
    var target := Target(at, value.value);
    if target.None? {
      return Err(PathEscapes(at));
    }
    if target.value !in corpus {
      return Err(ReferenceMissing(at));
    }
    return Ok(());
  }

  /** `validate_metadata_file`. */
  method ValidateMetadataFile(corpus: Corpus, tools: Tools, at: Path) returns (r: Result<Metadata, CorpusError>)
    requires at in corpus
    ensures r.Ok? <==> MetadataOk(corpus, tools, at)
    ensures r.Ok? ==> tools.decode(corpus[at]) == Some(r.value)
    ensures r.Err? ==> IsTrue(r.error, corpus, tools)
  {
    var decoded := tools.decode(corpus[at]);
    if decoded.None? {
      return Err(InvalidMetadata(at));
    }
    var m := decoded.value;
    assert Mentions(corpus, tools, at, m, m.artifactPath);
    var target := Target(at, m.artifactPath);
    if target.None? {
      return Err(PathEscapes(at));
    }
    assert Declares(corpus, tools, at, m, target.value);
    if target.value !in corpus {
      return Err(ArtifactMissing(at));
    }
    if |corpus[target.value]| != m.sizeBytes {
      return Err(SizeMismatch(at));
    }
    if tools.sha256(corpus[target.value]) != m.sha256 {
      return Err(HashMismatch(at));
    }
    var evidence := ValidateReference(corpus, at, m.evidencePath);
    if evidence.Err? {
      assert Mentions(corpus, tools, at, m, m.evidencePath.value);
      return Err(evidence.error);
    }
    var redaction := ValidateReference(corpus, at, m.redactionPath);
    if redaction.Err? {
      assert Mentions(corpus, tools, at, m, m.redactionPath.value);
      return Err(redaction.error);
    }
    return Ok(m);
  }

  // ------------------------------------------------------------- whole corpus

  /** The metadata of a directory that has a decodable `metadata.json`. */
  function MetadataIn(corpus: Corpus, tools: Tools, directory: Path): Option<Metadata> {
    var at := directory + ["metadata.json"];
    if at in corpus then tools.decode(corpus[at]) else None
  }

  /** `p` is a file some directory's metadata refers to as evidence or redaction report. */
  predicate IsReference(corpus: Corpus, tools: Tools, p: Path) {
    exists at :: at in corpus && IsMetadata(at) && RefersTo(corpus, tools, at, p)
  }

  predicate RefersTo(corpus: Corpus, tools: Tools, at: Path, p: Path)
    requires at in corpus
  {
    match tools.decode(corpus[at])
    case None => false
    case Some(m) =>
      (m.evidencePath.Some? && Target(at, m.evidencePath.value) == Some(p)) ||
      (m.redactionPath.Some? && Target(at, m.redactionPath.value) == Some(p))
  }

  /** `p` is the artifact that the metadata of its own directory declares. */
  predicate IsDeclared(corpus: Corpus, tools: Tools, p: Path)
    requires p != []
  {
    match MetadataIn(corpus, tools, Directory(p))
    case None => false
    case Some(m) => Target(Directory(p) + ["metadata.json"], m.artifactPath) == Some(p)
  }

  ghost predicate AllMetadataOk(corpus: Corpus, tools: Tools) {
    forall at :: at in corpus && IsMetadata(at) ==> MetadataOk(corpus, tools, at)
  }

  /** The fixture id a metadata file declares. */
  function IdOf(corpus: Corpus, tools: Tools, at: Path): Option<string>
    requires at in corpus
  {
    match tools.decode(corpus[at])
    case None => None
    case Some(m) => Some(m.fixtureId)
  }

  ghost predicate IdsDistinct(corpus: Corpus, tools: Tools) {
    forall at, other ::
      at in corpus && other in corpus && IsMetadata(at) && IsMetadata(other) && at != other &&
      IdOf(corpus, tools, at).Some? ==>
      IdOf(corpus, tools, at) != IdOf(corpus, tools, other)
  }

  ghost predicate AllCovered(corpus: Corpus, tools: Tools) {
    forall p :: p in corpus && IsArtifact(p) ==> IsReference(corpus, tools, p) || IsDeclared(corpus, tools, p)
  }

  /** What `validate_all` vouches for. */
  ghost predicate CorpusOk(corpus: Corpus, tools: Tools) {
    (exists at :: at in corpus && IsMetadata(at)) &&
    AllMetadataOk(corpus, tools) && IdsDistinct(corpus, tools) && AllCovered(corpus, tools)
  }

  /** `collect_reference_paths`, once every metadata file is known to be valid. */
  method CollectReferencePaths(corpus: Corpus, tools: Tools, files: set<Path>) returns (paths: set<Path>)
    requires forall at :: at in files <==> at in corpus && IsMetadata(at)
    requires AllMetadataOk(corpus, tools)
    ensures forall p :: p in paths <==> IsReference(corpus, tools, p)
  {
    paths := {};
    var remaining := files;
    while remaining != {}
      invariant remaining <= files
      invariant forall p :: p in paths <==>
        exists at :: at in files && at !in remaining && RefersTo(corpus, tools, at, p)
      decreases remaining
    {
      var at :| at in remaining;
      assert MetadataOk(corpus, tools, at);
      var m := tools.decode(corpus[at]).value;
      var added: set<Path> := {};
      if m.evidencePath.Some? {
        added := added + {Target(at, m.evidencePath.value).value};
      }
      if m.redactionPath.Some? {
        added := added + {Target(at, m.redactionPath.value).value};
      }
      assert forall p :: p in added <==> RefersTo(corpus, tools, at, p);
      paths := paths + added;
      remaining := remaining - {at};
    }
  }

  /** `validate_metadata_coverage`, once every metadata file is known to be valid. */
  method ValidateCoverage(corpus: Corpus, tools: Tools, files: set<Path>) returns (r: Result<(), CorpusError>)
    requires forall at :: at in files <==> at in corpus && IsMetadata(at)
    requires AllMetadataOk(corpus, tools)
    ensures r.Ok? <==> AllCovered(corpus, tools)
    ensures r.Err? ==> IsTrue(r.error, corpus, tools)
  {
    var references := CollectReferencePaths(corpus, tools, files);
    var artifacts := set p | p in corpus && IsArtifact(p);
    var remaining := artifacts;
    while remaining != {}
      invariant remaining <= artifacts
      invariant forall p :: p in artifacts && p !in remaining ==>
        IsReference(corpus, tools, p) || IsDeclared(corpus, tools, p)
      decreases remaining
    {
      var p :| p in remaining;
      if p !in references {
        var metadata := MetadataIn(corpus, tools, Directory(p));
        if metadata.None? {
          return Err(NoSiblingMetadata(p));
        }
        if Target(Directory(p) + ["metadata.json"], metadata.value.artifactPath) != Some(p) {
          return Err(NotDeclared(p));
        }
      }
      remaining := remaining - {p};
    }
    return Ok(());
  }

  /** `ids` records which file declared each id of the files in `done`. */
  ghost predicate Records(corpus: Corpus, tools: Tools, done: set<Path>, ids: map<string, Path>) {
    (forall id :: id in ids ==> ids[id] in done && ids[id] in corpus && IdOf(corpus, tools, ids[id]) == Some(id)) &&
    (forall at :: at in done ==> at in corpus && Recorded(ids, IdOf(corpus, tools, at), at))
  }

  predicate Recorded(ids: map<string, Path>, id: Option<string>, at: Path) {
    id.Some? && id.value in ids && ids[id.value] == at
  }

  lemma RecordOne(corpus: Corpus, tools: Tools, done: set<Path>, ids: map<string, Path>, at: Path, id: string)
    requires Records(corpus, tools, done, ids) && at in corpus && IdOf(corpus, tools, at) == Some(id) && id !in ids
    ensures Records(corpus, tools, done + {at}, ids[id := at])
  {
  }

  lemma RepeatedId(corpus: Corpus, tools: Tools, at: Path, other: Path, id: string)
    requires at in corpus && other in corpus && IsMetadata(at) && IsMetadata(other) && at != other
    requires IdOf(corpus, tools, at) == Some(id) == IdOf(corpus, tools, other)
    ensures !IdsDistinct(corpus, tools)
  {
  }

  lemma RecordedIdsAreDistinct(corpus: Corpus, tools: Tools, done: set<Path>, ids: map<string, Path>)
    requires Records(corpus, tools, done, ids) && forall at :: at in done <==> at in corpus && IsMetadata(at)
    ensures IdsDistinct(corpus, tools)
  {
    forall at, other | at in corpus && other in corpus && IsMetadata(at) && IsMetadata(other) && at != other &&
      IdOf(corpus, tools, at).Some?
      ensures IdOf(corpus, tools, at) != IdOf(corpus, tools, other)
    {
      assert Recorded(ids, IdOf(corpus, tools, at), at) && Recorded(ids, IdOf(corpus, tools, other), other);
    }
  }

  /** The metadata files one by one: each valid, no id twice. */
  method ValidateFiles(corpus: Corpus, tools: Tools, files: set<Path>) returns (r: Result<(), CorpusError>)
    requires forall at :: at in files <==> at in corpus && IsMetadata(at)
    ensures r.Ok? <==> AllMetadataOk(corpus, tools) && IdsDistinct(corpus, tools)
    ensures r.Err? ==> IsTrue(r.error, corpus, tools)
  {
    var fixtureIds: map<string, Path> := map[];
    var remaining := files;
    while remaining != {}
      invariant remaining <= files
      invariant Records(corpus, tools, files - remaining, fixtureIds)
      invariant forall at :: at in files && at !in remaining ==> MetadataOk(corpus, tools, at)
      decreases remaining
    {
      var at :| at in remaining;
      var m := ValidateMetadataFile(corpus, tools, at);
      if m.Err? {
        return Err(m.error);
      }
      var id := m.value.fixtureId;
      if id in fixtureIds {
        RepeatedId(corpus, tools, at, fixtureIds[id], id);
        return Err(DuplicateId(at, fixtureIds[id]));
      }
      RecordOne(corpus, tools, files - remaining, fixtureIds, at, id);
      assert files - remaining + {at} == files - (remaining - {at});
      fixtureIds := fixtureIds[id := at];
      remaining := remaining - {at};
    }
    assert files - remaining == files;
    RecordedIdsAreDistinct(corpus, tools, files, fixtureIds);
    return Ok(());
  }

  /** `validate_all`. */
  method ValidateAll(corpus: Corpus, tools: Tools) returns (r: Result<set<Path>, CorpusError>)
    ensures r.Ok? <==> CorpusOk(corpus, tools)
    ensures r.Ok? ==> forall at :: at in r.value <==> at in corpus && IsMetadata(at)
    ensures r.Err? ==> IsTrue(r.error, corpus, tools)
  {
    var files := set at | at in corpus && IsMetadata(at);
    assert forall at :: at in corpus && IsMetadata(at) ==> at in files;
    if files == {} {
      return Err(NoMetadataFiles);
    }
    var each := ValidateFiles(corpus, tools, files);
    if each.Err? {
      return Err(each.error);
    }
    var covered := ValidateCoverage(corpus, tools, files);
    if covered.Err? {
      return Err(covered.error);
    }
    return Ok(files);
  }

  // ------------------------------------------------------------- consequences

  /** No directory of an accepted corpus has two artifacts that nothing refers to. */
  lemma OneUnreferencedArtifactPerDirectory(corpus: Corpus, tools: Tools, p: Path, q: Path)
    requires CorpusOk(corpus, tools) && p in corpus && q in corpus && IsArtifact(p) && IsArtifact(q)
    requires Directory(p) == Directory(q) && !IsReference(corpus, tools, p) && !IsReference(corpus, tools, q)
    ensures p == q
  {
    assert IsDeclared(corpus, tools, p) && IsDeclared(corpus, tools, q);
  }

  /** Every artifact of an accepted corpus that nothing refers to has the size and hash its metadata declares. */
  lemma UnreferencedArtifactIsIntact(corpus: Corpus, tools: Tools, p: Path)
    requires CorpusOk(corpus, tools) && p in corpus && IsArtifact(p) && !IsReference(corpus, tools, p)
    ensures var at := Directory(p) + ["metadata.json"];
      at in corpus && tools.decode(corpus[at]).Some? &&
      var m := tools.decode(corpus[at]).value;
      |corpus[p]| == m.sizeBytes && tools.sha256(corpus[p]) == m.sha256
  {
    var at := Directory(p) + ["metadata.json"];
    assert IsDeclared(corpus, tools, p);
    assert Name(at) == "metadata.json";
    assert MetadataOk(corpus, tools, at);
    assert Directory(at) == Directory(p);
  }

  // ---------------------------------------------------------------------- paths

  lemma {:induction false} SegmentBefore(a: string, b: string)
    requires '/' !in a
    ensures SegmentLength(a + "/" + b) == |a| && SegmentLength(a) == |a|
  {
    if a == "" {
      assert a + "/" + b == "/" + b;
    } else {
      assert (a + "/" + b)[1..] == a[1..] + "/" + b;
      SegmentBefore(a[1..], b);
    }
  }

  /** The components of a path: one segment, and what a slash puts together; empty ones and `.` vanish. */
  lemma PartsAre(a: string, b: string)
    requires '/' !in a
    ensures Parts(a) == if a == "" || a == "." then [] else [a]
    ensures Parts(a + "/" + b) == Parts(a) + Parts(b)
  {
    SegmentBefore(a, b);
    assert a[..|a|] == a;
    var s := a + "/" + b;
    assert s[..|a|] == a && s[|a| + 1..] == b;
  }

  /** A path stays inside exactly when it does not start at the root and no component climbs. */
  lemma ContainedIff(text: string)
    ensures Contained(text) == Some(Parts(text)) <==> !("/" <= text) && ".." !in Parts(text)
    ensures Contained(text).None? <==> "/" <= text || ".." in Parts(text)
  {
  }

  lemma {:induction false} LastDotIs(stem: string, ext: string)
    requires '.' !in ext
    ensures LastDot(stem + "." + ext) == |stem|
    decreases |ext|
  {
    var name := stem + "." + ext;
    if ext != "" {
      assert name[..|name| - 1] == stem + "." + ext[..|ext| - 1];
      LastDotIs(stem, ext[..|ext| - 1]);
    }
  }

  lemma {:induction false} NoDot(name: string)
    requires '.' !in name
    ensures LastDot(name) == 0
  {
    if |name| > 1 {
      NoDot(name[..|name| - 1]);
    }
  }

  /** The suffix of a name: its last dot and what follows, unless the dot is the first or the last character. */
  lemma SuffixIs(stem: string, ext: string)
    requires '.' !in ext
    ensures Suffix(ext) == ""
    ensures Suffix(stem + "." + ext) == if stem == "" || ext == "" then "" else "." + ext
  {
    NoDot(ext);
    LastDotIs(stem, ext);
    assert (stem + "." + ext)[|stem|..] == "." + ext;
  }

  /** The text, read in the directory of `at`, stays there and means `p`. */
  ghost predicate Means(at: Path, text: string, p: Path) {
    at != [] && !("/" <= text) && ".." !in Parts(text) && p == at[..|at| - 1] + Parts(text)
  }

  lemma TargetIff(at: Path, text: string, p: Path)
    requires at != []
    ensures Target(at, text) == Some(p) <==> Means(at, text, p)
  {
  }

  /** The files the corpus check asks about. */
  lemma ArtifactIff(p: Path)
    requires p != []
    ensures IsArtifact(p) <==>
      p != ["fixture-metadata.schema.json"] && p[|p| - 1] !in {"README.md", "metadata.json", "scenario.json"} &&
      p[0] !in {"generators", "fuzz", "gobl-upstream", "pdf-snapshots"} &&
      Suffix(p[|p| - 1]) in {".json", ".xml", ".pdf"}
    ensures IsMetadata(p) <==> p[|p| - 1] == "metadata.json"
  {
  }

  /** Some metadata file names `p` as its evidence or its redaction report. */
  ghost predicate NamedAsReference(corpus: Corpus, tools: Tools, p: Path) {
    exists at, m, text ::
      at in corpus && at != [] && at[|at| - 1] == "metadata.json" && tools.decode(corpus[at]) == Some(m) &&
      (m.evidencePath == Some(text) || m.redactionPath == Some(text)) && Means(at, text, p)
  }

  /** The metadata file beside `p` names it as its artifact. */
  ghost predicate NamedAsArtifact(corpus: Corpus, tools: Tools, p: Path) {
    p != [] &&
    exists m :: p[..|p| - 1] + ["metadata.json"] in corpus &&
      tools.decode(corpus[p[..|p| - 1] + ["metadata.json"]]) == Some(m) &&
      Means(p[..|p| - 1] + ["metadata.json"], m.artifactPath, p)
  }

  lemma ReferenceIff(corpus: Corpus, tools: Tools, p: Path)
    ensures IsReference(corpus, tools, p) <==> NamedAsReference(corpus, tools, p)
  {
    if IsReference(corpus, tools, p) {
      var at :| at in corpus && IsMetadata(at) && RefersTo(corpus, tools, at, p);
      var m := tools.decode(corpus[at]).value;
      var text := if m.evidencePath.Some? && Target(at, m.evidencePath.value) == Some(p) then m.evidencePath.value
        else m.redactionPath.value;
      TargetIff(at, text, p);
    }
    if NamedAsReference(corpus, tools, p) {
      var at, m, text :|
        at in corpus && at != [] && at[|at| - 1] == "metadata.json" && tools.decode(corpus[at]) == Some(m) &&
        (m.evidencePath == Some(text) || m.redactionPath == Some(text)) && Means(at, text, p);
      TargetIff(at, text, p);
      assert IsMetadata(at) && RefersTo(corpus, tools, at, p);
    }
  }

  lemma DeclaredIff(corpus: Corpus, tools: Tools, p: Path)
    requires p != []
    ensures IsDeclared(corpus, tools, p) <==> NamedAsArtifact(corpus, tools, p)
  {
    var at := p[..|p| - 1] + ["metadata.json"];
    if at in corpus && tools.decode(corpus[at]).Some? {
      TargetIff(at, tools.decode(corpus[at]).value.artifactPath, p);
    }
  }

  /** Covered means named: as a reference by some metadata, or as the artifact of its directory's. */
  lemma CoverageMeans(corpus: Corpus, tools: Tools)
    ensures AllCovered(corpus, tools) <==>
      forall p :: p in corpus && IsArtifact(p) ==>
        NamedAsReference(corpus, tools, p) || NamedAsArtifact(corpus, tools, p)
  {
    hide IsReference, IsDeclared, NamedAsReference, NamedAsArtifact, IsArtifact;
    forall p | p in corpus
      ensures IsReference(corpus, tools, p) <==> NamedAsReference(corpus, tools, p)
      ensures IsDeclared(corpus, tools, p) <==> NamedAsArtifact(corpus, tools, p)
    {
      ReferenceIff(corpus, tools, p);
      DeclaredIff(corpus, tools, p);
    }
  }

  /** A metadata file is accepted exactly when what it names is inside, there, and what it is declared to be. */
  lemma MetadataOkMeans(corpus: Corpus, tools: Tools, at: Path)
    requires at in corpus
    ensures MetadataOk(corpus, tools, at) <==>
      exists m, p :: tools.decode(corpus[at]) == Some(m) && Means(at, m.artifactPath, p) && p in corpus &&
        |corpus[p]| == m.sizeBytes && tools.sha256(corpus[p]) == m.sha256 &&
        (m.evidencePath.Some? ==> exists q :: Means(at, m.evidencePath.value, q) && q in corpus) &&
        (m.redactionPath.Some? ==> exists q :: Means(at, m.redactionPath.value, q) && q in corpus)
  {
    hide Parts;
    if tools.decode(corpus[at]).Some? {
      var m := tools.decode(corpus[at]).value;
      TargetMeans(at, m.artifactPath);
      if m.evidencePath.Some? {
        TargetMeans(at, m.evidencePath.value);
      }
      if m.redactionPath.Some? {
        TargetMeans(at, m.redactionPath.value);
      }
    }
  }

  lemma TargetMeans(at: Path, text: string)
    requires at != []
    ensures forall p :: Means(at, text, p) <==> Target(at, text) == Some(p)
  {
  }
}
