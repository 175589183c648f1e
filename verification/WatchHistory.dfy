/** What holds over every history of source-watch passes, completed or cut short. */
module WatchHistory {
  import opened Registry
  import opened SourceWatch
  import opened Wrappers

  /** One pass as the history sees it. */
  datatype PassInput = PassInput(sources: seq<Source>, fetches: seq<Fetch>, openOnNew: bool, fate: Fate)

  /** `load_registry` refuses a registry that lists a source twice. */
  ghost predicate WellFormed(input: PassInput) {
    |input.fetches| == |input.sources| && DistinctIds(input.sources)
  }

  ghost predicate IsHistory(disks: seq<Disk>, inputs: seq<PassInput>) {
    |disks| == |inputs| + 1 &&
    forall i :: 0 <= i < |inputs| ==>
      WellFormed(inputs[i]) &&
      disks[i + 1] == AfterPass(disks[i], inputs[i].sources, inputs[i].fetches, inputs[i].openOnNew, inputs[i].fate)
  }

  // ------------------------------------------------------------------- ledger

  lemma {:induction false} VisitsExtendLedger(start: Pass, sources: seq<Source>, fetches: seq<Fetch>, openOnNew: bool)
    requires |fetches| == |sources|
    ensures var p := Visits(start, sources, fetches, openOnNew);
      start.ledger <= p.ledger && (NoDuplicates(start.ledger) ==> NoDuplicates(p.ledger))
  {
    if sources != [] {
      var n := |sources| - 1;
      VisitsExtendLedger(start, sources[..n], fetches[..n], openOnNew);
    }
  }

  lemma LedgerOnlyGrows(a: seq<Issue>, b: seq<Issue>, marker: string)
    requires a <= b && InLedger(a, marker)
    ensures InLedger(b, marker)
  {
    var i :| 0 <= i < |a| && a[i].marker == marker;
    assert b[i].marker == marker;
  }

  lemma {:induction false} HistoryExtendsLedger(disks: seq<Disk>, inputs: seq<PassInput>, i: nat, j: nat)
    requires IsHistory(disks, inputs) && i <= j < |disks|
    ensures disks[i].ledger <= disks[j].ledger
    ensures NoDuplicates(disks[i].ledger) ==> NoDuplicates(disks[j].ledger)
    decreases j - i
  {
    if i < j {
      var input := inputs[i];
      var n := Visited(input.fate, |input.sources|);
      VisitsExtendLedger(Pass(disks[i].entries, disks[i].ledger, [], []), input.sources[..n], input.fetches[..n],
        input.openOnNew);
      HistoryExtendsLedger(disks, inputs, i + 1, j);
    }
  }

  /**
    Whatever passes ran and wherever they stopped, also between opening an issue and
    saving the state: no two issues share a marker.
   */
  lemma NoIssueTwice(disks: seq<Disk>, inputs: seq<PassInput>, j: nat)
    requires IsHistory(disks, inputs) && NoDuplicates(disks[0].ledger) && j < |disks|
    ensures NoDuplicates(disks[j].ledger)
  {
    HistoryExtendsLedger(disks, inputs, 0, j);
  }

  lemma MarkerParts(id: string, sha: string)
    ensures var m := Marker(id, sha);
      |m| == |MARKER_HEAD| + |id| + 1 + |sha| + |MARKER_TAIL| &&
      m[|MARKER_HEAD|..|MARKER_HEAD| + |id|] == id &&
      m[|MARKER_HEAD| + |id| + 1..|m| - |MARKER_TAIL|] == sha
  {
  }

  /** Hashes of one length: the marker determines the source and the hash. */
  lemma MarkerInjective(id: string, sha: string, id': string, sha': string)
    requires |sha| == |sha'| && Marker(id, sha) == Marker(id', sha')
    ensures id == id' && sha == sha'
  {
    MarkerParts(id, sha);
    MarkerParts(id', sha');
  }

  // --------------------------------------------------------------- persistence

  /** A changed hash: both sides are tables and their hashes differ. */
  predicate Changed(before: Entry, after: Entry) {
    before.Table? && after.Table? && before.sha256 != after.sha256
  }

  /** The change of `id` from one state to the next is announced in the ledger. */
  ghost predicate Announced(before: map<string, Entry>, after: map<string, Entry>, ledger: seq<Issue>, id: string) {
    id in before && id in after && Changed(before[id], after[id]) ==>
      after[id].sha256.Some? && InLedger(ledger, Marker(id, after[id].sha256.value))
  }

  lemma {:induction false} UntouchedEntry(start: Pass, sources: seq<Source>, fetches: seq<Fetch>, openOnNew: bool,
                                          id: string)
    requires |fetches| == |sources|
    requires forall k :: 0 <= k < |sources| && sources[k].id == id ==> fetches[k].FetchFailed?
    ensures Lookup(Visits(start, sources, fetches, openOnNew).entries, id) == Lookup(start.entries, id)
  {
    if sources != [] {
      var n := |sources| - 1;
      UntouchedEntry(start, sources[..n], fetches[..n], openOnNew, id);
    }
  }

  /** A visited source: its entry is the fetched snapshot, and a change has its issue in the ledger. */
  lemma {:induction false} VisitedEntry(start: Pass, sources: seq<Source>, fetches: seq<Fetch>, openOnNew: bool, k: nat)
    requires |fetches| == |sources| && DistinctIds(sources) && k < |sources| && fetches[k].Fetched?
    ensures var p := Visits(start, sources, fetches, openOnNew);
      var id, current := sources[k].id, fetches[k].current;
      Lookup(p.entries, id) == Some(Table(Some(current.sha256), Some(current.checkedAt))) &&
      (id in start.entries && Changed(start.entries[id], ToEntry(current)) ==>
        InLedger(p.ledger, Marker(id, current.sha256)))
  {
    var n := |sources| - 1;
    var p := Visits(start, sources[..n], fetches[..n], openOnNew);
    var q := Visits(start, sources, fetches, openOnNew);
    if k < n {
      VisitedEntry(start, sources[..n], fetches[..n], openOnNew, k);
      assert p.ledger <= q.ledger;
      if InLedger(p.ledger, Marker(sources[k].id, fetches[k].current.sha256)) {
        LedgerOnlyGrows(p.ledger, q.ledger, Marker(sources[k].id, fetches[k].current.sha256));
      }
    } else {
      UntouchedEntry(start, sources[..n], fetches[..n], openOnNew, sources[n].id);
      VisitAnnounces(p, sources[n], fetches[n].current, openOnNew);
    }
  }

  lemma VisitAnnounces(p: Pass, source: Source, current: Snapshot, openOnNew: bool)
    ensures source.id in p.entries && Changed(p.entries[source.id], ToEntry(current)) ==>
      InLedger(Visit(p, source, Fetched(current), openOnNew).ledger, Marker(source.id, current.sha256))
  {
    var issue := BuildIssue(source, current);
    var q := Visit(p, source, Fetched(current), openOnNew);
    if source.id in p.entries && Changed(p.entries[source.id], ToEntry(current)) {
      if InLedger(p.ledger, issue.marker) {
        LedgerOnlyGrows(p.ledger, q.ledger, issue.marker);
      } else {
        assert q.ledger[|p.ledger|] == issue;
      }
    }
  }

  /** One pass: whatever it changes in the state file is announced in the ledger it leaves. */
  lemma PassAnnounces(disk: Disk, input: PassInput, id: string)
    requires WellFormed(input)
    ensures var after := AfterPass(disk, input.sources, input.fetches, input.openOnNew, input.fate);
      Announced(disk.entries, after.entries, after.ledger, id)
  {
    if input.fate.Saves? {
      var sources, fetches := input.sources, input.fetches;
      assert sources[..|sources|] == sources && fetches[..|fetches|] == fetches;
      var start := Pass(disk.entries, disk.ledger, [], []);
      if k :| 0 <= k < |sources| && sources[k].id == id && fetches[k].Fetched? {
        VisitedEntry(start, sources, fetches, input.openOnNew, k);
      } else {
        UntouchedEntry(start, sources, fetches, input.openOnNew, id);
      }
    }
  }

  /**
    Over every history: a persisted snapshot that differs from the one persisted before
    it has its issue in the ledger, then and ever after.
   */
  lemma EveryPersistedChangeIsAnnounced(disks: seq<Disk>, inputs: seq<PassInput>, i: nat, j: nat, id: string)
    requires IsHistory(disks, inputs) && i < j < |disks|
    ensures Announced(disks[i].entries, disks[i + 1].entries, disks[j].ledger, id)
  {
    PassAnnounces(disks[i], inputs[i], id);
    HistoryExtendsLedger(disks, inputs, i + 1, j);
    if id in disks[i].entries && id in disks[i + 1].entries && Changed(disks[i].entries[id], disks[i + 1].entries[id]) {
      LedgerOnlyGrows(disks[i + 1].ledger, disks[j].ledger, Marker(id, disks[i + 1].entries[id].sha256.value));
    }
  }

  /** A pass that records nothing for `id`: it stops early, does not list it, or cannot fetch it. */
  ghost predicate Misses(input: PassInput, id: string)
    requires WellFormed(input)
  {
    input.fate.StopsAfter? ||
    forall k :: 0 <= k < |input.sources| && input.sources[k].id == id ==> input.fetches[k].FetchFailed?
  }

  lemma MissKeepsEntry(disk: Disk, input: PassInput, id: string)
    requires WellFormed(input) && Misses(input, id)
    ensures Lookup(AfterPass(disk, input.sources, input.fetches, input.openOnNew, input.fate).entries, id) ==
      Lookup(disk.entries, id)
  {
    if input.fate.Saves? {
      assert input.sources[..|input.sources|] == input.sources && input.fetches[..|input.fetches|] == input.fetches;
      UntouchedEntry(Pass(disk.entries, disk.ledger, [], []), input.sources, input.fetches, input.openOnNew, id);
    }
  }

  lemma {:induction false} MissesKeepEntry(disks: seq<Disk>, inputs: seq<PassInput>, i: nat, j: nat, id: string)
    requires IsHistory(disks, inputs) && i <= j < |disks|
    requires forall k :: i <= k < j ==> Misses(inputs[k], id)
    ensures Lookup(disks[j].entries, id) == Lookup(disks[i].entries, id)
    decreases j - i
  {
    if i < j {
      MissKeepsEntry(disks[i], inputs[i], id);
      MissesKeepEntry(disks, inputs, i + 1, j, id);
    }
  }

  /**
    A change survives any number of failed fetches and aborted passes: the first
    completed pass that fetches the source announces the change against the snapshot
    persisted before all of them.
   */
  lemma ChangeIsDetectedLater(disks: seq<Disk>, inputs: seq<PassInput>, i: nat, j: nat, k: nat)
    requires IsHistory(disks, inputs) && i <= j < |inputs| && k < |inputs[j].sources|
    requires inputs[j].fate.Saves? && inputs[j].fetches[k].Fetched?
    requires forall m :: i <= m < j ==> Misses(inputs[m], inputs[j].sources[k].id)
    requires inputs[j].sources[k].id in disks[i].entries
    requires Changed(disks[i].entries[inputs[j].sources[k].id], ToEntry(inputs[j].fetches[k].current))
    ensures InLedger(disks[j + 1].ledger, Marker(inputs[j].sources[k].id, inputs[j].fetches[k].current.sha256))
  {
    var input := inputs[j];
    MissesKeepEntry(disks, inputs, i, j, input.sources[k].id);
    assert input.sources[..|input.sources|] == input.sources && input.fetches[..|input.fetches|] == input.fetches;
    VisitedEntry(Pass(disks[j].entries, disks[j].ledger, [], []), input.sources, input.fetches, input.openOnNew, k);
  }

  // -------------------------------------------------------- no spurious issues

  /** Every issue a pass adds is for a fetched source whose persisted snapshot differs or is missing. */
  lemma {:induction false} NewIssuesHaveCause(start: Pass, sources: seq<Source>, fetches: seq<Fetch>,
                                              openOnNew: bool, m: nat)
    requires |fetches| == |sources| && DistinctIds(sources)
    requires |start.ledger| <= m < |Visits(start, sources, fetches, openOnNew).ledger|
    ensures var issue := Visits(start, sources, fetches, openOnNew).ledger[m];
      exists k :: 0 <= k < |sources| && HasCause(start, sources[k], fetches[k], openOnNew, issue)
  {
    var n := |sources| - 1;
    var p := Visits(start, sources[..n], fetches[..n], openOnNew);
    if m < |p.ledger| {
      NewIssuesHaveCause(start, sources[..n], fetches[..n], openOnNew, m);
      var k :| 0 <= k < n && HasCause(start, sources[..n][k], fetches[..n][k], openOnNew, p.ledger[m]);
      assert HasCause(start, sources[k], fetches[k], openOnNew, Visits(start, sources, fetches, openOnNew).ledger[m]);
    } else {
      UntouchedEntry(start, sources[..n], fetches[..n], openOnNew, sources[n].id);
      VisitsExtendLedger(start, sources[..n], fetches[..n], openOnNew);
      if InLedger(start.ledger, BuildIssue(sources[n], fetches[n].current).marker) {
        LedgerOnlyGrows(start.ledger, p.ledger, BuildIssue(sources[n], fetches[n].current).marker);
      }
      assert HasCause(start, sources[n], fetches[n], openOnNew, Visits(start, sources, fetches, openOnNew).ledger[m]);
    }
  }

  ghost predicate HasCause(start: Pass, source: Source, fetch: Fetch, openOnNew: bool, issue: Issue) {
    fetch.Fetched? && issue == BuildIssue(source, fetch.current) && !InLedger(start.ledger, issue.marker) &&
    match Lookup(start.entries, source.id)
    case Some(Table(sha, _)) => sha != Some(fetch.current.sha256)
    case _ => openOnNew
  }

  /** Among the issues a pass adds there is one with the marker. */
  ghost predicate AddsIssue(before: seq<Issue>, after: seq<Issue>, marker: string) {
    exists m :: |before| <= m < |after| && after[m].marker == marker
  }

  lemma AddedOrKnown(before: seq<Issue>, after: seq<Issue>, marker: string)
    requires before <= after && InLedger(after, marker)
    ensures AddsIssue(before, after, marker) || InLedger(before, marker)
  {
    var i :| 0 <= i < |after| && after[i].marker == marker;
    if i < |before| {
      assert before[i].marker == marker;
    }
  }

  /**
    In whatever pass a source is visited and found changed, the change opens an issue
    exactly when its marker is new: a source that flips back to a text announced before
    changes the persisted snapshot silently.
   */
  lemma FlipBackIsSilent(disk: Disk, input: PassInput, k: nat)
    requires WellFormed(input) && k < Visited(input.fate, |input.sources|) && input.fetches[k].Fetched?
    requires input.sources[k].id in disk.entries
    requires Changed(disk.entries[input.sources[k].id], ToEntry(input.fetches[k].current))
    ensures var after := AfterPass(disk, input.sources, input.fetches, input.openOnNew, input.fate);
      var id, current := input.sources[k].id, input.fetches[k].current;
      var marker := Marker(id, current.sha256);
      (AddsIssue(disk.ledger, after.ledger, marker) <==> !InLedger(disk.ledger, marker)) &&
      (input.fate.Saves? ==> Lookup(after.entries, id) == Some(Table(Some(current.sha256), Some(current.checkedAt))))
  {
    hide Marker, Visits, StatusOf;
    var n := Visited(input.fate, |input.sources|);
    var sources, fetches := input.sources[..n], input.fetches[..n];
    var start := Pass(disk.entries, disk.ledger, [], []);
    var after := Visits(start, sources, fetches, input.openOnNew);
    var marker := Marker(sources[k].id, fetches[k].current.sha256);
    VisitedEntry(start, sources, fetches, input.openOnNew, k);
    VisitsExtendLedger(start, sources, fetches, input.openOnNew);
    AddedOrKnown(disk.ledger, after.ledger, marker);
    if m :| |disk.ledger| <= m < |after.ledger| && after.ledger[m].marker == marker {
      NewIssuesHaveCause(start, sources, fetches, input.openOnNew, m);
    }
  }

  /** A pass over one source that fetches it. */
  lemma OneSourcePass(disk: Disk, source: Source, current: Snapshot)
    ensures var after := AfterPass(disk, [source], [Fetched(current)], false, Saves);
      var status := StatusOf(source, current, Lookup(disk.entries, source.id), false, disk.ledger);
      after == Disk(disk.entries[source.id := ToEntry(current)],
                    disk.ledger + if Opens(status) then [BuildIssue(source, current)] else [])
  {
    var start := Pass(disk.entries, disk.ledger, [], []);
    assert [source][..1] == [source] && [Fetched(current)][..1] == [Fetched(current)];
    VisitNext(start, [source], [Fetched(current)], false, 0);
    assert Visits(start, [], [], false) == start;
  }

  /** A baseline, the other text, the first text again, and the other text once more: the last change is silent. */
  lemma FlipBackHappens(source: Source, first: Snapshot, other: Snapshot)
    requires |first.sha256| == |other.sha256| && first.sha256 != other.sha256
    ensures var one := AfterPass(Disk(map[], []), [source], [Fetched(first)], false, Saves);
      var two := AfterPass(one, [source], [Fetched(other)], false, Saves);
      var three := AfterPass(two, [source], [Fetched(first)], false, Saves);
      var four := AfterPass(three, [source], [Fetched(other)], false, Saves);
      one.ledger == [] && two.ledger == [BuildIssue(source, other)] &&
      three.ledger == [BuildIssue(source, other), BuildIssue(source, first)] &&
      four.ledger == three.ledger &&
      Changed(three.entries[source.id], four.entries[source.id])
  {
    hide Marker, AfterPass;
    if Marker(source.id, first.sha256) == Marker(source.id, other.sha256) {
      MarkerInjective(source.id, first.sha256, source.id, other.sha256);
    }
    var a, b := BuildIssue(source, first), BuildIssue(source, other);
    OneSourcePass(Disk(map[], []), source, first);
    var one := AfterPass(Disk(map[], []), [source], [Fetched(first)], false, Saves);
    OneSourcePass(one, source, other);
    var two := AfterPass(one, [source], [Fetched(other)], false, Saves);
    assert two.ledger == [b];
    OneSourcePass(two, source, first);
    var three := AfterPass(two, [source], [Fetched(first)], false, Saves);
    assert three.ledger == [b, a];
    assert three.ledger[0].marker == b.marker;
    OneSourcePass(three, source, other);
  }

  // ------------------------------------------------------------ event by event

  /** Hexadecimal SHA-256 digests. */
  ghost predicate HaveDigests(fetches: seq<Fetch>) {
    forall i :: 0 <= i < |fetches| && fetches[i].Fetched? ==> |fetches[i].current.sha256| == 64
  }

  /** The issue for a fetched source, written out. */
  ghost predicate IsIssueFor(issue: Issue, source: Source, current: Snapshot) {
    issue.marker == "<!-- invoicekit-source-watch:" + source.id + ":" + current.sha256 + " -->" &&
    issue.sourceId == source.id && issue.sha256 == current.sha256 &&
    (|current.sha256| >= 12 ==>
      issue.title == "Source-watch: " + source.name + " changed (" + current.sha256[..12] + ")")
  }

  /** The ledger has an issue for this text of the source. */
  ghost predicate Known(ledger: seq<Issue>, source: Source, current: Snapshot) {
    exists i :: 0 <= i < |ledger| &&
      ledger[i].marker == "<!-- invoicekit-source-watch:" + source.id + ":" + current.sha256 + " -->"
  }

  lemma KnownIsInLedger(ledger: seq<Issue>, source: Source, current: Snapshot)
    ensures Known(ledger, source, current) <==> InLedger(ledger, Marker(source.id, current.sha256))
    ensures IsIssueFor(BuildIssue(source, current), source, current)
  {
  }

  /** The entry is a table whose hash is this one, or another one, or it is no table. */
  ghost predicate HasHash(entry: Option<Entry>, sha256: string) {
    entry.Some? && entry.value.Table? && entry.value.sha256 == Some(sha256)
  }

  ghost predicate HasOtherHash(entry: Option<Entry>, sha256: string) {
    entry.Some? && entry.value.Table? && entry.value.sha256 != Some(sha256)
  }

  /** Which event a source must get, from its entry and the ledger before the pass. */
  ghost predicate IsEventFor(event: Event, entry: Option<Entry>, known: bool, source: Source, fetch: Fetch,
                             openOnNew: bool) {
    match fetch
    case FetchFailed(error) => event == FetchError(source.id, error)
    case Fetched(current) =>
      event.Checked? && event.sourceId == source.id && event.snapshot == current &&
      (event.status == Unchanged <==> HasHash(entry, current.sha256)) &&
      (event.status == ChangedOpened <==> HasOtherHash(entry, current.sha256) && !known) &&
      (event.status == ChangedDuplicate <==> HasOtherHash(entry, current.sha256) && known) &&
      (event.status == NewOpened <==> (entry.None? || entry.value.NotATable?) && openOnNew && !known)
  }

  /** Whether a fetched source must open an issue. */
  ghost predicate MustOpen(entry: Option<Entry>, known: bool, sha256: string, openOnNew: bool) {
    !known && (HasOtherHash(entry, sha256) || ((entry.None? || entry.value.NotATable?) && openOnNew))
  }

  /** An issue added by a visit to another source is not for this one. */
  lemma VisitKeepsKnown(p: Pass, visited: Source, fetch: Fetch, openOnNew: bool, source: Source, current: Snapshot)
    requires visited.id != source.id && |current.sha256| == 64
    requires fetch.Fetched? ==> |fetch.current.sha256| == 64
    ensures Known(Visit(p, visited, fetch, openOnNew).ledger, source, current) <==> Known(p.ledger, source, current)
  {
    hide Marker, StatusOf;
    var q := Visit(p, visited, fetch, openOnNew);
    KnownIsInLedger(p.ledger, source, current);
    KnownIsInLedger(q.ledger, source, current);
    if InLedger(p.ledger, Marker(source.id, current.sha256)) {
      LedgerOnlyGrows(p.ledger, q.ledger, Marker(source.id, current.sha256));
    } else if InLedger(q.ledger, Marker(source.id, current.sha256)) {
      MarkerInjective(visited.id, fetch.current.sha256, source.id, current.sha256);
    }
  }

  lemma {:induction false} OthersKeepKnown(start: Pass, sources: seq<Source>, fetches: seq<Fetch>, openOnNew: bool,
                                           source: Source, current: Snapshot)
    requires |fetches| == |sources| && HaveDigests(fetches) && |current.sha256| == 64
    requires forall i :: 0 <= i < |sources| ==> sources[i].id != source.id
    ensures Known(Visits(start, sources, fetches, openOnNew).ledger, source, current) <==>
      Known(start.ledger, source, current)
  {
    hide Known, Visit;
    if sources != [] {
      var n := |sources| - 1;
      OthersKeepKnown(start, sources[..n], fetches[..n], openOnNew, source, current);
      VisitKeepsKnown(Visits(start, sources[..n], fetches[..n], openOnNew), sources[n], fetches[n], openOnNew,
                      source, current);
    }
  }

  lemma VisitTells(p: Pass, source: Source, fetch: Fetch, openOnNew: bool)
    ensures var q := Visit(p, source, fetch, openOnNew);
      var known := fetch.Fetched? && Known(p.ledger, source, fetch.current);
      var entry := Lookup(p.entries, source.id);
      |q.events| == |p.events| + 1 && q.events[..|p.events|] == p.events &&
      IsEventFor(q.events[|p.events|], entry, known, source, fetch, openOnNew) &&
      if fetch.Fetched? && MustOpen(entry, known, fetch.current.sha256, openOnNew)
      then |q.ledger| == |p.ledger| + 1 && q.ledger[..|p.ledger|] == p.ledger &&
           IsIssueFor(q.ledger[|p.ledger|], source, fetch.current)
      else q.ledger == p.ledger
  {
    hide Known, Marker, IsIssueFor;
    if fetch.Fetched? {
      KnownIsInLedger(p.ledger, source, fetch.current);
    }
  }

  lemma {:induction false} VisitsKeepEvents(start: Pass, sources: seq<Source>, fetches: seq<Fetch>, openOnNew: bool)
    requires |fetches| == |sources|
    ensures |Visits(start, sources, fetches, openOnNew).events| == |start.events| + |sources|
  {
    hide Visit;
    if sources != [] {
      var n := |sources| - 1;
      VisitsKeepEvents(start, sources[..n], fetches[..n], openOnNew);
      VisitTells(Visits(start, sources[..n], fetches[..n], openOnNew), sources[n], fetches[n], openOnNew);
    }
  }

  /**
    Event by event: every source of a pass gets exactly the event that its entry and the
    ledger before the pass, and what was fetched, call for.
   */
  lemma {:induction false} EventsTell(start: Pass, sources: seq<Source>, fetches: seq<Fetch>, openOnNew: bool, k: nat)
    requires |fetches| == |sources| && DistinctIds(sources) && HaveDigests(fetches) && k < |sources|
    ensures var p := Visits(start, sources, fetches, openOnNew);
      var known := fetches[k].Fetched? && Known(start.ledger, sources[k], fetches[k].current);
      |p.events| == |start.events| + |sources| &&
      IsEventFor(p.events[|start.events| + k], Lookup(start.entries, sources[k].id), known, sources[k], fetches[k],
        openOnNew)
  {
    hide Known, Visit, IsEventFor, MustOpen, IsIssueFor;
    var n := |sources| - 1;
    var p := Visits(start, sources[..n], fetches[..n], openOnNew);
    VisitsKeepEvents(start, sources[..n], fetches[..n], openOnNew);
    VisitTells(p, sources[n], fetches[n], openOnNew);
    if k < n {
      EventsTell(start, sources[..n], fetches[..n], openOnNew, k);
      assert Visit(p, sources[n], fetches[n], openOnNew).events[..|p.events|][|start.events| + k] ==
        p.events[|start.events| + k];
    } else {
      UntouchedEntry(start, sources[..n], fetches[..n], openOnNew, sources[n].id);
      if fetches[n].Fetched? {
        OthersKeepKnown(start, sources[..n], fetches[..n], openOnNew, sources[n], fetches[n].current);
      }
    }
  }

  /** A pass adds an issue for a source. */
  ghost predicate Opened(before: seq<Issue>, after: seq<Issue>, source: Source, current: Snapshot) {
    exists m :: |before| <= m < |after| && IsIssueFor(after[m], source, current)
  }

  lemma OpenedSplits(before: seq<Issue>, middle: seq<Issue>, after: seq<Issue>, source: Source, current: Snapshot)
    requires before <= middle <= after
    ensures Opened(before, after, source, current) <==>
      Opened(before, middle, source, current) || Opened(middle, after, source, current)
  {
    hide IsIssueFor;
    assert forall m :: 0 <= m < |middle| ==> middle[m] == after[m];
  }

  lemma OpenedByOneVisit(p: Pass, visited: Source, fetch: Fetch, openOnNew: bool, source: Source, current: Snapshot)
    ensures var q := Visit(p, visited, fetch, openOnNew);
      p.ledger <= q.ledger && (Opened(p.ledger, q.ledger, source, current) ==>
        |q.ledger| == |p.ledger| + 1 && fetch.Fetched? && IsIssueFor(q.ledger[|p.ledger|], visited, fetch.current) &&
        IsIssueFor(q.ledger[|p.ledger|], source, current))
  {
    hide Known, Visit, IsEventFor, MustOpen, IsIssueFor;
    VisitTells(p, visited, fetch, openOnNew);
  }

  /** No issue is for two sources. */
  lemma NotForBoth(issue: Issue, a: Source, x: Snapshot, b: Source, y: Snapshot)
    requires a.id != b.id && |x.sha256| == |y.sha256|
    ensures !(IsIssueFor(issue, a, x) && IsIssueFor(issue, b, y))
  {
    if Marker(a.id, x.sha256) == Marker(b.id, y.sha256) {
      MarkerInjective(a.id, x.sha256, b.id, y.sha256);
    }
  }

  /** The visit to one source opens nothing for another. */
  lemma VisitOpensNothingElse(p: Pass, visited: Source, fetch: Fetch, openOnNew: bool, source: Source,
                              current: Snapshot)
    requires visited.id != source.id && |current.sha256| == 64
    requires fetch.Fetched? ==> |fetch.current.sha256| == 64
    ensures !Opened(p.ledger, Visit(p, visited, fetch, openOnNew).ledger, source, current)
  {
    hide Visit, IsIssueFor, Opened;
    OpenedByOneVisit(p, visited, fetch, openOnNew, source, current);
    var q := Visit(p, visited, fetch, openOnNew);
    if fetch.Fetched? && |q.ledger| == |p.ledger| + 1 {
      NotForBoth(q.ledger[|p.ledger|], visited, fetch.current, source, current);
    }
  }

  lemma {:induction false} OthersOpenNothing(start: Pass, sources: seq<Source>, fetches: seq<Fetch>, openOnNew: bool,
                                             source: Source, current: Snapshot)
    requires |fetches| == |sources| && HaveDigests(fetches) && |current.sha256| == 64
    requires forall i :: 0 <= i < |sources| ==> sources[i].id != source.id
    ensures !Opened(start.ledger, Visits(start, sources, fetches, openOnNew).ledger, source, current)
  {
    hide Visit, IsIssueFor;
    if sources != [] {
      var n := |sources| - 1;
      var p := Visits(start, sources[..n], fetches[..n], openOnNew);
      OthersOpenNothing(start, sources[..n], fetches[..n], openOnNew, source, current);
      VisitsExtendLedger(start, sources[..n], fetches[..n], openOnNew);
      OpenedByOneVisit(p, sources[n], fetches[n], openOnNew, source, current);
      VisitOpensNothingElse(p, sources[n], fetches[n], openOnNew, source, current);
      OpenedSplits(start.ledger, p.ledger, Visits(start, sources, fetches, openOnNew).ledger, source, current);
    }
  }

  /** The visit to a source opens an issue for it exactly when one is called for. */
  lemma VisitOpensIff(p: Pass, source: Source, current: Snapshot, openOnNew: bool)
    ensures Opened(p.ledger, Visit(p, source, Fetched(current), openOnNew).ledger, source, current) <==>
      MustOpen(Lookup(p.entries, source.id), Known(p.ledger, source, current), current.sha256, openOnNew)
  {
    hide Known, Visit, IsEventFor, MustOpen, IsIssueFor;
    VisitTells(p, source, Fetched(current), openOnNew);
  }

  /** A pass opens an issue for a fetched source exactly when its entry and the ledger before the pass call for one. */
  lemma {:induction false} IssuesTell(start: Pass, sources: seq<Source>, fetches: seq<Fetch>, openOnNew: bool, k: nat)
    requires |fetches| == |sources| && DistinctIds(sources) && HaveDigests(fetches)
    requires k < |sources| && fetches[k].Fetched?
    ensures var current := fetches[k].current;
      Opened(start.ledger, Visits(start, sources, fetches, openOnNew).ledger, sources[k], current) <==>
        MustOpen(Lookup(start.entries, sources[k].id), Known(start.ledger, sources[k], current), current.sha256,
          openOnNew)
  {
    hide Known, Visit, MustOpen, IsIssueFor, Opened;
    var n, current := |sources| - 1, fetches[k].current;
    var p := Visits(start, sources[..n], fetches[..n], openOnNew);
    VisitsExtendLedger(start, sources[..n], fetches[..n], openOnNew);
    OpenedByOneVisit(p, sources[n], fetches[n], openOnNew, sources[k], current);
    OpenedSplits(start.ledger, p.ledger, Visits(start, sources, fetches, openOnNew).ledger, sources[k], current);
    if k < n {
      IssuesTell(start, sources[..n], fetches[..n], openOnNew, k);
      VisitOpensNothingElse(p, sources[n], fetches[n], openOnNew, sources[k], current);
    } else {
      UntouchedEntry(start, sources[..n], fetches[..n], openOnNew, sources[n].id);
      OthersKeepKnown(start, sources[..n], fetches[..n], openOnNew, sources[n], current);
      OthersOpenNothing(start, sources[..n], fetches[..n], openOnNew, sources[n], current);
      VisitOpensIff(p, sources[n], current, openOnNew);
    }
  }
}
