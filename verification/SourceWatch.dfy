/**
  Passes of the source-watch bot: fetch, compare with the persisted snapshot, open an
  issue for a change unless its marker is already in the ledger, record, and save at
  the very end.  A pass may stop anywhere before the save.
 */
module SourceWatch {
  import opened Registry
  import opened Wrappers

  datatype Snapshot = Snapshot(sha256: string, checkedAt: string)

  /** A persisted entry: a table, perhaps without a hash, or something else a hand has put there. */
  datatype Entry = Table(sha256: Option<string>, checkedAt: Option<string>) | NotATable

  datatype Issue = Issue(marker: string, title: string, sourceId: string, sha256: string)

  datatype Fetch = Fetched(current: Snapshot) | FetchFailed(error: string)

  datatype Status = Baseline | Unchanged | ChangedOpened | ChangedDuplicate | NewOpened

  datatype Event =
    | FetchError(sourceId: string, error: string)
    | Checked(sourceId: string, status: Status, snapshot: Snapshot)

  const MARKER_HEAD: string := "<!-- invoicekit-source-watch:"
  const MARKER_TAIL: string := " -->"

  function Marker(id: string, sha256: string): string {
    MARKER_HEAD + id + ":" + sha256 + MARKER_TAIL
  }

  /** `build_issue`, without the issue's body text. */
  function BuildIssue(source: Source, current: Snapshot): Issue {
    var short := if |current.sha256| > 12 then current.sha256[..12] else current.sha256;
    Issue(Marker(source.id, current.sha256), "Source-watch: " + source.name + " changed (" + short + ")",
          source.id, current.sha256)
  }

  /** `to_json`, as the state file stores it. */
  function ToEntry(current: Snapshot): Entry {
    Table(Some(current.sha256), Some(current.checkedAt))
  }

  // ------------------------------------------------------------------- ledger

  predicate InLedger(ledger: seq<Issue>, marker: string) {
    exists i :: 0 <= i < |ledger| && ledger[i].marker == marker
  }

  ghost predicate NoDuplicates(ledger: seq<Issue>) {
    forall i, j :: 0 <= i < j < |ledger| ==> ledger[i].marker != ledger[j].marker
  }

  /** The JSONL file: one issue a line, appended. */
  class LocalJsonlSink {
    var ledger: seq<Issue>

    constructor (lines: seq<Issue>)
      ensures ledger == lines
    {
      ledger := lines;
    }

    method AlreadyOpen(issue: Issue) returns (open: bool)
      ensures open == InLedger(ledger, issue.marker)
    {
      for i := 0 to |ledger|
        invariant forall j :: 0 <= j < i ==> ledger[j].marker != issue.marker
      {
        if ledger[i].marker == issue.marker {
          return true;
        }
      }
      return false;
    }

    method OpenIssue(issue: Issue)
      modifies this
      ensures ledger == old(ledger) + [issue]
    {
      ledger := ledger + [issue];
    }
  }

  // --------------------------------------------------------------- one source

  /** What a pass does for one fetched source: its status, and whether it opens an issue. */
  function StatusOf(source: Source, current: Snapshot, previous: Option<Entry>, openOnNew: bool, ledger: seq<Issue>)
      : Status {
    var known := InLedger(ledger, Marker(source.id, current.sha256));
    if previous.Some? && previous.value.Table? then
      if previous.value.sha256 == Some(current.sha256) then Unchanged
      else if known then ChangedDuplicate else ChangedOpened
    else if openOnNew && !known then NewOpened
    else Baseline
  }

  predicate Opens(status: Status) {
    status == ChangedOpened || status == NewOpened
  }

  function Lookup(entries: map<string, Entry>, id: string): Option<Entry> {
    if id in entries then Some(entries[id]) else None
  }

  /** The working state of a pass. */
  datatype Pass = Pass(entries: map<string, Entry>, ledger: seq<Issue>, events: seq<Event>, issues: seq<Issue>)

  function Visit(p: Pass, source: Source, fetch: Fetch, openOnNew: bool): Pass {
    match fetch
    case FetchFailed(error) => p.(events := p.events + [FetchError(source.id, error)])
    case Fetched(current) =>
      var status := StatusOf(source, current, Lookup(p.entries, source.id), openOnNew, p.ledger);
      var added := if Opens(status) then [BuildIssue(source, current)] else [];
      Pass(p.entries[source.id := ToEntry(current)], p.ledger + added, p.events + [Checked(source.id, status, current)],
           p.issues + added)
  }

  /** The working state after visiting all of `sources` in order. */
  function Visits(start: Pass, sources: seq<Source>, fetches: seq<Fetch>, openOnNew: bool): Pass
    requires |fetches| == |sources|
  {
    if sources == [] then start else
    var n := |sources| - 1;
    Visit(Visits(start, sources[..n], fetches[..n], openOnNew), sources[n], fetches[n], openOnNew)
  }

  /** How a pass ends: it saves, or it stops after some number of sources with nothing saved. */
  datatype Fate = Saves | StopsAfter(visited: nat)

  /** What is on disk: the state file and the ledger. */
  datatype Disk = Disk(entries: map<string, Entry>, ledger: seq<Issue>)

  function Visited(fate: Fate, total: nat): nat {
    if fate.StopsAfter? && fate.visited < total then fate.visited else total
  }

  /** The disk after a pass. */
  function AfterPass(disk: Disk, sources: seq<Source>, fetches: seq<Fetch>, openOnNew: bool, fate: Fate): Disk
    requires |fetches| == |sources|
  {
    var n := Visited(fate, |sources|);
    var p := Visits(Pass(disk.entries, disk.ledger, [], []), sources[..n], fetches[..n], openOnNew);
    Disk(if fate.Saves? then p.entries else disk.entries, p.ledger)
  }

  /** The comparison of one fetched source with its entry, opening an issue where that is due. */
  method Compare(source: Source, current: Snapshot, previous: Option<Entry>, sink: LocalJsonlSink, openOnNew: bool)
      returns (status: Status, added: seq<Issue>)
    modifies sink
    ensures status == StatusOf(source, current, previous, openOnNew, old(sink.ledger))
    ensures added == if Opens(status) then [BuildIssue(source, current)] else []
    ensures sink.ledger == old(sink.ledger) + added
  {
    status, added := Baseline, [];
    if previous.Some? && previous.value.Table? {
      if previous.value.sha256 != Some(current.sha256) {
        var issue := BuildIssue(source, current);
        var open := sink.AlreadyOpen(issue);
        if open {
          status := ChangedDuplicate;
        } else {
          sink.OpenIssue(issue);
          status, added := ChangedOpened, [issue];
        }
      } else {
        status := Unchanged;
      }
    } else if openOnNew {
      var issue := BuildIssue(source, current);
      var open := sink.AlreadyOpen(issue);
      if !open {
        sink.OpenIssue(issue);
        status, added := NewOpened, [issue];
      }
    }
  }

  lemma VisitNext(start: Pass, sources: seq<Source>, fetches: seq<Fetch>, openOnNew: bool, i: nat)
    requires |fetches| == |sources| && i < |sources|
    ensures Visits(start, sources[..i + 1], fetches[..i + 1], openOnNew) ==
      Visit(Visits(start, sources[..i], fetches[..i], openOnNew), sources[i], fetches[i], openOnNew)
  {
    assert sources[..i + 1][..i] == sources[..i] && fetches[..i + 1][..i] == fetches[..i];
  }

  /** `run_once`; `fetches` are the outcomes of the network, `fate` decides where the process ends. */
  method RunOnce(sources: seq<Source>, fetches: seq<Fetch>, entries: map<string, Entry>, sink: LocalJsonlSink,
                 openOnNew: bool, fate: Fate)
      returns (saved: map<string, Entry>, events: seq<Event>, issues: seq<Issue>)
    requires |fetches| == |sources|
    modifies sink
    ensures Disk(saved, sink.ledger) == AfterPass(Disk(entries, old(sink.ledger)), sources, fetches, openOnNew, fate)
    ensures sink.ledger == old(sink.ledger) + issues
    ensures var n := Visited(fate, |sources|);
      var p := Visits(Pass(entries, old(sink.ledger), [], []), sources[..n], fetches[..n], openOnNew);
      events == p.events && issues == p.issues
  {
    var stateSources := entries;
    events, issues := [], [];
    ghost var start := Pass(entries, sink.ledger, [], []);
    for i := 0 to Visited(fate, |sources|)
      invariant Pass(stateSources, sink.ledger, events, issues) == Visits(start, sources[..i], fetches[..i], openOnNew)
      invariant sink.ledger == old(sink.ledger) + issues
    {
      VisitNext(start, sources, fetches, openOnNew, i);
      var source := sources[i];
      match fetches[i] {
        case FetchFailed(error) =>
          events := events + [FetchError(source.id, error)];
        case Fetched(current) =>
          var status, added := Compare(source, current, Lookup(stateSources, source.id), sink, openOnNew);
          issues := issues + added;
          stateSources := stateSources[source.id := ToEntry(current)];
          events := events + [Checked(source.id, status, current)];
      }
    }
    saved := if fate.Saves? then stateSources else entries;
  }
}
